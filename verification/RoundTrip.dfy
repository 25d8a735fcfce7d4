/**
  tinfl_decompress from the first byte to the last, and the theorem the library exists for:
  whatever was compressed, in whatever pieces and with whatever flags, decompresses to itself.
 */
module RoundTrip {
  import opened Bits
  import opened BitIO
  import opened Tokens
  import opened CodeBuffer
  import opened TokenWriter
  import opened Lz77
  import opened OutBuf
  import opened DynamicHeader
  import opened HuffTable
  import opened HeaderReader
  import opened InflateBlocks
  import opened InflateBody
  import opened Lenient
  import PlainStreams
  import opened Blocks
  import opened BlockWriter
  import opened Deflate
  import opened Compressor
  import opened LzDictionary
  import Adler32
  import Zlib

  // ---------- data further back ----------

  /** Blocks that make sense on their own make sense, and add the same data, after anything else. */
  lemma {:induction false} BlocksBehind(g: seq<byte>, s: seq<byte>, bs: seq<Block>)
    requires ValidBlocks(s, bs)
    ensures ValidBlocks(g + s, bs) && AllData(g + s, bs) == g + AllData(s, bs)
    decreases |bs|
  {
    hide Expand, Feasible, Header.Valid, Covers;
    if bs != [] {
      BlockBehind(g, s, bs[0]);
      BlocksBehind(g, bs[0].Data(s), bs[1..]);
    }
  }

  lemma BlockBehind(g: seq<byte>, s: seq<byte>, b: Block)
    requires b.Valid(s)
    ensures b.Valid(g + s) && b.Data(g + s) == g + b.Data(s)
  {
    hide Expand, Feasible, Header.Valid, Covers;
    match b
    case Stored(bytes, _) => assert (g + s) + bytes == g + (s + bytes);
    case Fixed(ts) => ExpandBehind(g, s, ts);
    case Dynamic(h, ts) => ExpandBehind(g, s, ts);
  }

  // ---------- the whole of tinfl_decompress ----------

  /**
    What a whole stream has been read as: its zlib header, its blocks, the bits up to the next byte,
    and the checksum behind them.
   */
  datatype Reading = Reading(front: seq<bool>, blocks: seq<Accepted>, pad: seq<bool>, sum: nat)

  ghost predicate FrontRead(zlib: bool, room: Room, front: seq<bool>) {
    && |front| == (if zlib then 16 else 0)
    && (zlib ==> exists b0: byte, b1: byte ::
          && front == ToBits(b0, 8) + ToBits(b1, 8)
          && Zlib.HeaderAccepted(b0, b1, room.ring, room.size))
  }

  /** From before to after a whole stream has been read, behind the data s. */
  ghost predicate StreamRead(x: Reading, zlib: bool, room: Room, s: seq<byte>, data: seq<byte>, before: seq<bool>,
                             after: seq<bool>) {
    && FrontRead(zlib, room, x.front) && x.blocks != [] && x.sum < 0x1_0000_0000
    && StreamSound(s, x.blocks, room) && data == StreamData(s, x.blocks, room) && OnBytes(x.blocks, |x.front|)
    && |x.pad| == Padding(|x.front| + |StreamText(x.blocks, true)|)
    && before == x.front + (StreamText(x.blocks, true) + (x.pad
        + ((if zlib then Zlib.BigEndianBits(x.sum) else []) + after)))
  }

  /** What follows the last block: the rest of its byte, whatever is in it, and the checksum of a zlib stream. */
  function Ending(fill: seq<bool>, pos: nat, zlib: bool, adler: nat): seq<bool>
    requires adler < 0x1_0000_0000
  {
    Filled(fill, Padding(pos)) + if zlib then Zlib.BigEndianBits(adler) else []
  }

  /** A compressor ends its streams with zeros. */
  lemma ClosingEnds(pos: nat, zlib: bool, adler: nat)
    requires adler < 0x1_0000_0000
    ensures Closing(pos, zlib, adler) == Ending([], pos, zlib, adler)
  {
    FilledZero(Padding(pos));
  }

  /** The input is a stream of these blocks and then tail, and there is room for its data. */
  ghost predicate StreamAhead(r: BitReader, o: Output, zlib: bool, front: seq<bool>, blocks: seq<Block>,
                              fill: seq<bool>, adler: nat, tail: seq<byte>)
    requires r.Valid() && o.Valid()
    reads r, o, o.out
  {
    && AllShaped(blocks) && blocks != [] && FrontRead(zlib, RoomOf(o), front) && adler < 0x1_0000_0000
    && ValidBlocks(o.history, blocks)
    && r.Rest() == (Sent(front, blocks, true) + Ending(fill, |Sent(front, blocks, true)|, zlib, adler))
        + BytesBits(tail)
    && EndOf(r.Rest(), BytesBits(r.all))
    && |AllData(o.history, blocks)| <= |o.history| + o.Left() && (o.wraps ==> DICT_SIZE <= o.out.Length)
    && (zlib ==> adler == Adler32.Adler(1, AllData(o.history, blocks)[|o.history|..]))
  }

  /** The zlib header, when there is one. */
  method ReadFront(r: BitReader, o: Output, zlib: bool, ghost front: seq<bool>, ghost more: seq<bool>)
    returns (status: Status, ghost read: seq<bool>)
    requires r.Valid() && r.numBits == 0
    modifies r
    ensures r.Valid() && r.numBits == 0
    ensures old(r.Rest()) == front + more && FrontRead(zlib, RoomOf(o), front) ==> status.Ok? && r.Rest() == more
    ensures status.Ok? ==> FrontRead(zlib, RoomOf(o), read) && old(r.Rest()) == read + r.Rest()
  {
    hide Supplied, ToBits, Zlib.HeaderAccepted, FrontRead, BitReader.Rest;
    ghost var on := r.Rest() == front + more && FrontRead(zlib, RoomOf(o), front);
    ghost var b0: byte, b1: byte := 0, 0;
    if on { b0, b1 := FrontParts(zlib, RoomOf(o), front, more); }
    status, read := Ok, [];
    JoinNothing(r.Rest());
    if zlib {
      ghost var c0, c1;
      status, c0, c1 := Zlib.ReadHeader(r, o.wraps, o.out.Length, b0, b1, more);
      read := ToBits(c0, 8) + ToBits(c1, 8);
      JoinAssoc(ToBits(c0, 8), ToBits(c1, 8), r.Rest());
      if status.Ok? { FrontIs(RoomOf(o), c0, c1); }
    } else {
      NoFront(RoomOf(o));
    }
  }

  lemma FrontIs(room: Room, c0: byte, c1: byte)
    requires Zlib.HeaderAccepted(c0, c1, room.ring, room.size)
    ensures FrontRead(true, room, ToBits(c0, 8) + ToBits(c1, 8))
  {
    hide Zlib.HeaderAccepted, ToBits;
  }

  lemma NoFront(room: Room)
    ensures FrontRead(false, room, [])
  {
  }

  lemma FrontParts(zlib: bool, room: Room, front: seq<bool>, more: seq<bool>) returns (b0: byte, b1: byte)
    requires FrontRead(zlib, room, front)
    ensures zlib ==>
            front + more == ToBits(b0, 8) + (ToBits(b1, 8) + more)
            && Zlib.HeaderAccepted(b0, b1, room.ring, room.size)
    ensures !zlib ==> front + more == more
  {
    hide ToBits, Zlib.HeaderAccepted;
    b0, b1 := 0, 0;
    if zlib {
      b0, b1 :| front == ToBits(b0, 8) + ToBits(b1, 8) && Zlib.HeaderAccepted(b0, b1, room.ring, room.size);
    }
  }

  /** What a compressor puts in front is a header any buffer large enough can take. */
  lemma OpeningAccepted(zlib: bool, front: seq<bool>, room: Room)
    requires Opening(zlib, front) && (room.ring ==> 32768 <= room.size)
    ensures FrontRead(zlib, room, front)
  {
    hide ToBits, Zlib.HeaderAccepted;
    if zlib {
      var flg: byte :| front == ToBits(Zlib.CMF, 8) + ToBits(flg, 8) && ZlibFlags(flg);
      AcceptedAnyway(flg, room.ring, room.size);
    }
  }

  lemma AcceptedAnyway(flg: byte, wraps: bool, size: nat)
    requires ZlibFlags(flg) && (wraps ==> 32768 <= size)
    ensures Zlib.HeaderAccepted(Zlib.CMF, flg, wraps, size)
  {
  }

  lemma EndParts(fill: seq<bool>, pos: nat, zlib: bool, adler: nat)
    requires adler < 0x1_0000_0000
    ensures var end := Ending(fill, pos, zlib, adler);
            |end| % 8 == Padding(pos) <= |end| && end[Padding(pos)..] == if zlib then Zlib.BigEndianBits(adler) else []
  {
    hide ToBits, Zlib.BigEndianBits;
  }

  /** The end of a stream is next, and then tail. */
  ghost predicate EndAhead(r: BitReader, zlib: bool, fill: seq<bool>, pos: nat, adler: nat, tail: seq<byte>)
    requires r.Valid() && adler < 0x1_0000_0000
    reads r
  {
    r.Snug() && r.Rest() == Ending(fill, pos, zlib, adler) + BytesBits(tail) && EndOf(r.Rest(), BytesBits(r.all))
  }

  /** The skip to the byte boundary; bytes the bit buffer only looked at go back to the input. */
  method ToBoundary(r: BitReader, zlib: bool, ghost fill: seq<bool>, ghost pos: nat, ghost adler: nat,
                    ghost tail: seq<byte>)
    returns (ok: bool, ghost pad: seq<bool>)
    requires r.Valid() && adler < 0x1_0000_0000
    modifies r
    ensures r.Valid() && |r.Rest()| % 8 == 0
    ensures ok && old(EndOf(r.Rest(), BytesBits(r.all))) ==>
        |pad| == |old(r.Rest())| % 8 && old(r.Rest()) == pad + r.Rest()
    ensures old(EndAhead(r, zlib, fill, pos, adler, tail)) ==>
              ok && r.numBits == 0 && r.Rest() == (if zlib then Zlib.BigEndianBits(adler) else []) + BytesBits(tail)
  {
    hide Supplied, ToBits, BytesBits, Zlib.BigEndianBits, EndAhead, Padding, EndOf, BitReader.Rest, BitReader.Snug;
    ghost var on, before := EndAhead(r, zlib, fill, pos, adler, tail), r.Rest();
    ghost var kept := EndOf(before, BytesBits(r.all));
    if on { EndFacts(r, zlib, fill, pos, adler, tail); }
    ByteAligned(r);
    pad := before[..|before| % 8];
    ok := r.SkipBits(r.numBits % 8);
    if ok {
      WholeLeft(before, r.Rest());
      if kept { EndOfEnd(r.Rest(), before, BytesBits(r.all)); }
      GiveBack(r);
    }
    ByteAligned(r);
  }

  /** The bits held are whole bytes; they go back to the input. */
  method GiveBack(r: BitReader)
    requires r.Valid() && |r.Rest()| % 8 == 0
    modifies r
    ensures r.Valid() && |r.Rest()| % 8 == 0
    ensures old(EndOf(r.Rest(), BytesBits(r.all))) ==> r.Rest() == old(r.Rest())
    ensures old(r.Snug()) ==> r.numBits == 0
  {
    hide Supplied, ToBits, BytesBits, EndOf, BitReader.Rest, BitReader.Kept, BitReader.Snug;
    ByteAligned(r);
    if EndOf(r.Rest(), BytesBits(r.all)) { KeptAtEnd(r); }
    r.PutBack();
    ByteAligned(r);
  }

  lemma EndFacts(r: BitReader, zlib: bool, fill: seq<bool>, pos: nat, adler: nat, tail: seq<byte>)
    requires r.Valid() && adler < 0x1_0000_0000 && EndAhead(r, zlib, fill, pos, adler, tail)
    ensures r.Snug() && EndOf(r.Rest(), BytesBits(r.all)) && |r.Rest()| % 8 <= |r.Rest()|
    ensures r.Rest()[|r.Rest()| % 8..] == (if zlib then Zlib.BigEndianBits(adler) else []) + BytesBits(tail)
  {
    hide Supplied, ToBits, BytesBits, Zlib.BigEndianBits, Ending, BitReader.Rest;
    var behind := AfterPadding(fill, pos, zlib, adler, tail);
  }

  lemma WholeLeft(before: seq<bool>, after: seq<bool>)
    requires |before| % 8 <= |before| && after == before[|before| % 8..]
    ensures |after| % 8 == 0 && EndOf(after, before) && before == before[..|before| % 8] + after
  {
  }

  lemma AfterPadding(fill: seq<bool>, pos: nat, zlib: bool, adler: nat, tail: seq<byte>) returns (behind: seq<bool>)
    requires adler < 0x1_0000_0000
    ensures behind == (if zlib then Zlib.BigEndianBits(adler) else []) + BytesBits(tail)
    ensures var rest := Ending(fill, pos, zlib, adler) + BytesBits(tail);
            && |rest| % 8 == Padding(pos) <= |rest| && rest[Padding(pos)..] == behind && EndOf(behind, rest)
  {
    hide ToBits, BytesBits, Zlib.BigEndianBits, Ending;
    EndParts(fill, pos, zlib, adler);
    behind := (if zlib then Zlib.BigEndianBits(adler) else []) + BytesBits(tail);
  }

  /**
    Past the last block: the rest of its byte, then the checksum of a zlib stream. No bits are
    held any more, and what follows the stream is left in the input.
   */
  method ReadEnd(r: BitReader, zlib: bool, ghost fill: seq<bool>, ghost pos: nat, ghost adler: nat,
                 ghost tail: seq<byte>)
    returns (status: Status, z: nat, ghost pad: seq<bool>)
    requires r.Valid() && adler < 0x1_0000_0000
    modifies r
    ensures r.Valid() && z < 0x1_0000_0000
    ensures status.Ok? && old(EndOf(r.Rest(), BytesBits(r.all))) ==>
              && |pad| == |old(r.Rest())| % 8
              && old(r.Rest()) == pad + ((if zlib then Zlib.BigEndianBits(z) else []) + r.Rest())
    ensures old(EndAhead(r, zlib, fill, pos, adler, tail)) ==>
        status.Ok? && (zlib ==> z == adler) && r.numBits == 0 && r.Unread() == tail
  {
    hide Supplied, ToBits, BytesBits, Zlib.BigEndianBits, EndAhead, BitReader.Rest, BitReader.Unread;
    ghost var on := EndAhead(r, zlib, fill, pos, adler, tail);
    z := 1;
    var ok;
    ok, pad := ToBoundary(r, zlib, fill, pos, adler, tail);
    if !ok {
      return NeedsMoreInput, z, pad;
    }
    JoinNothing(BytesBits(tail));
    JoinNothing(r.Rest());
    status := Ok;
    if zlib {
      status, z := Zlib.ReadChecksum(r, adler, BytesBits(tail));
    }
    ByteAligned(r);
    if on { BytesBitsInjective(r.Unread(), tail); }
  }

  /**
    tinfl_decompress on a whole stream, with the caller coming back with more input and more
    output room as often as there is any. When it ends, no looked-at bits are held, what follows
    the stream is still in the input, and the checksum of everything written has been compared.
   */
  method Decompress(r: BitReader, o: Output, zlib: bool, ghost front: seq<bool>, ghost blocks: seq<Block>,
                    ghost fill: seq<bool>, ghost adler: nat, ghost tail: seq<byte>)
    returns (status: Status, mismatch: bool, ghost read: Reading)
    requires r.Valid() && r.numBits == 0 && o.Valid() && adler < 0x1_0000_0000
    requires o.start == |o.history| && (zlib ==> o.sums)
    modifies r, o, o.out
    ensures r.Valid() && o.Valid()
    ensures old(StreamAhead(r, o, zlib, front, blocks, fill, adler, tail)) ==>
              && status.Ok? && !mismatch && o.history == AllData(old(o.history), blocks)
              && r.numBits == 0 && r.Unread() == tail
    ensures status.Ok? && old(EndOf(r.Rest(), BytesBits(r.all))) ==>
              && StreamRead(read, zlib, RoomOf(o), old(o.history), o.history, old(r.Rest()), r.Rest())
              && (mismatch <==> zlib && read.sum != Adler32.Adler(1, o.history[|old(o.history)|..]))
  {
    hide FrontRead, StreamRead, Inflated, Window, Summed, Supplied, Output.Left, BitReader.Rest, BitReader.Unread,
         AllBits, AllData, ValidBlocks, BytesBits, Ending, ToBits, Sent, Adler32.Adler, EndOf;
    mismatch := false;
    ghost var on := StreamAhead(r, o, zlib, front, blocks, fill, adler, tail);
    ghost var total := if on then |Sent(front, blocks, true)| else 0;
    ghost var end := Ending(fill, total, zlib, adler) + BytesBits(tail);
    ghost var body := if on then AllBits(blocks, |front|, true) + end else [];
    if on {
      StreamParts(r, front, blocks, zlib, fill, adler, tail);
      FrontSize(zlib, RoomOf(o), front);
    }
    ghost var start: nat := if zlib then 16 else 0;
    ghost var before, s := r.Rest(), o.history;
    read := Reading([], [], [], 0);
    ghost var got, bs, pad, mid;
    ByteAligned(r);
    status, got := ReadFront(r, o, zlib, front, body);
    if !status.Ok? {
      return;
    }
    mid := r.Rest();
    FrontSize(zlib, RoomOf(o), got);
    status, bs := ReadBlocks(r, o, if on then blocks else [], start, end);
    if !status.Ok? {
      return;
    }
    ghost var rest, kept := r.Rest(), EndOf(before, BytesBits(r.all));
    if kept { KeptThere(zlib, RoomOf(o), got, bs, s, o.history, before, mid, rest, BytesBits(r.all)); }
    var z;
    status, z, pad := ReadEnd(r, zlib, fill, total, adler, tail);
    read := Reading(got, bs, pad, z);
    if kept && status.Ok? { WholeRead(read, zlib, RoomOf(o), s, o.history, before, mid, rest, r.Rest()); }
    if zlib && status.Ok? {
      var check := o.Total();
      mismatch := check != z;
    }
  }

  lemma FrontSize(zlib: bool, room: Room, front: seq<bool>)
    requires FrontRead(zlib, room, front)
    ensures |front| == if zlib then 16 else 0
  {
  }

  /**
    A stream read without using any lenience is one of valid blocks: the very form a
    compressed stream has, but for the bits up to byte boundaries.
   */
  lemma PlainReading(x: Reading, zlib: bool, room: Room, s: seq<byte>, data: seq<byte>, before: seq<bool>,
                     after: seq<bool>) returns (vs: seq<Block>)
    requires StreamRead(x, zlib, room, s, data, before, after) && (room.ring ==> DICT_SIZE <= room.size)
    requires PlainStreams.PlainStream(x.blocks)
    ensures vs != [] && AllShaped(vs) && ValidBlocks(s, vs) && data == AllData(s, vs)
    ensures before == (Sent(x.front, vs, true) + Ending(x.pad, |Sent(x.front, vs, true)|, zlib, x.sum)) + after
  {
    hide StreamText, StreamSound, StreamData, OnBytes, FrontRead, PlainStreams.PlainStream, Zlib.BigEndianBits, AllBits,
         AllData, ValidBlocks, AllShaped, ToBits;
    vs := PlainStreams.PlainIsValid(s, x.blocks, room, |x.front|, true);
    var sum := if zlib then Zlib.BigEndianBits(x.sum) else [];
    JoinAssoc(x.pad, sum, after);
    JoinAssoc(StreamText(x.blocks, true), x.pad + sum, after);
    JoinAssoc(x.front, StreamText(x.blocks, true), x.pad + sum + after);
    JoinAssoc(x.front + StreamText(x.blocks, true), x.pad + sum, after);
  }

  lemma KeptThere(zlib: bool, room: Room, front: seq<bool>, bs: seq<Accepted>, s: seq<byte>, data: seq<byte>,
                  before: seq<bool>, mid: seq<bool>, rest: seq<bool>, all: seq<bool>)
    requires before == front + mid && EndOf(before, all)
        && Inflated(Origin(s, mid), bs, |front|, room, true, data, rest)
    ensures EndOf(rest, all)
  {
    hide StreamText, StreamSound, StreamData, OnBytes;
    Behind(StreamText(bs, true), rest);
    Behind(front, mid);
    EndOfEnd(rest, mid, before);
    EndOfEnd(rest, before, all);
  }

  lemma WholeRead(x: Reading, zlib: bool, room: Room, s: seq<byte>, data: seq<byte>, before: seq<bool>, mid: seq<bool>,
                  rest: seq<bool>, after: seq<bool>)
    requires FrontRead(zlib, room, x.front) && x.blocks != [] && x.sum < 0x1_0000_0000 && |before| % 8 == 0
    requires before == x.front + mid && Inflated(Origin(s, mid), x.blocks, |x.front|, room, true, data, rest)
    requires |x.pad| == |rest| % 8 && rest == x.pad + ((if zlib then Zlib.BigEndianBits(x.sum) else []) + after)
    ensures StreamRead(x, zlib, room, s, data, before, after)
  {
    hide StreamText, StreamSound, StreamData, OnBytes, FrontRead, Zlib.BigEndianBits;
    SamePadding(|x.front| + |StreamText(x.blocks, true)|, |rest|);
  }

  /** The blocks, with new tables. */
  method ReadBlocks(r: BitReader, o: Output, ghost blocks: seq<Block>, ghost pos: nat, ghost more: seq<bool>)
    returns (status: Status, ghost read: seq<Accepted>)
    requires r.Valid() && o.Valid()
    modifies r, o, o.out
    ensures r.Valid() && o.Valid()
    ensures status.Ok? && old(pos + |r.Rest()|) % 8 == 0 ==>
              read != [] && Inflated(Origin(old(o.history), old(r.Rest())), read, pos, RoomOf(o), true, o.history,
                  r.Rest())
    ensures old(Expected(r, o, blocks, pos, more)) ==>
              status.Ok? && o.history == AllData(old(o.history), blocks) && r.Rest() == more
                  && (old(r.Snug()) ==> r.Snug())
  {
    hide Inflated, Window, Summed, Supplied, Output.Left, BitReader.Rest, AllBits, AllData, ValidBlocks, BytesBits,
         Expected;
    var t0 := new Table(288);
    var t1 := new Table(32);
    var t2 := new Table(19);
    status, read := InflateAll(r, o, t0, t1, t2, blocks, pos, more);
  }

  /** A stream is its front, its blocks, its end and what follows. */
  lemma StreamParts(r: BitReader, front: seq<bool>, blocks: seq<Block>, zlib: bool, fill: seq<bool>, adler: nat,
                    tail: seq<byte>)
    requires r.Valid() && AllShaped(blocks) && adler < 0x1_0000_0000 && EndOf(r.Rest(), BytesBits(r.all))
    requires r.Rest() == (Sent(front, blocks, true) + Ending(fill, |Sent(front, blocks, true)|, zlib, adler))
        + BytesBits(tail)
    ensures var end := Ending(fill, |Sent(front, blocks, true)|, zlib, adler) + BytesBits(tail);
            var body := AllBits(blocks, |front|, true) + end;
            r.Rest() == front + body && (|front| + |body|) % 8 == 0 && EndOf(end, BytesBits(r.all))
  {
    hide Supplied, AllBits, BytesBits, Ending, Padding, ToBits, Zlib.BigEndianBits, EndOf, BitReader.Rest;
    var sent, bits, t := Sent(front, blocks, true), AllBits(blocks, |front|, true), BytesBits(tail);
    var close := Ending(fill, |sent|, zlib, adler);
    JoinAssoc(sent, close, t);
    JoinAssoc(front, bits, close + t);
    EndParts(fill, |sent|, zlib, adler);
    WholeBytes(|sent|, |close|, |t|);
    Behind(sent, close + t);
    EndOfEnd(close + t, r.Rest(), BytesBits(r.all));
  }

  lemma Behind<T>(a: seq<T>, b: seq<T>)
    ensures EndOf(b, a + b)
  {
  }

  lemma WholeBytes(n: nat, m: nat, k: nat)
    requires m % 8 == Padding(n) && k % 8 == 0
    ensures (n + m + k) % 8 == 0
  {
  }

  lemma WholeOutput(o: Output)
    requires o.Valid() && !o.wraps
    ensures o.out[..o.cur] == o.history
  {
    forall i: nat | i < o.cur ensures o.out[i] == o.history[i] {
      SmallMod(i, o.out.Length);
    }
  }

  // ---------- compressing and decompressing ----------

  /** A stream of blocks that stand for source, complete to the last byte. */
  ghost predicate Whole(bytes: seq<byte>, source: seq<byte>, front: seq<bool>, blocks: seq<Block>, zlib: bool,
                        adler: nat) {
    && AllShaped(blocks) && blocks != [] && Opening(zlib, front) && adler < 0x1_0000_0000
    && ValidBlocks([], blocks) && AllData([], blocks) == source
    && BytesBits(bytes) == Sent(front, blocks, true) + Closing(|Sent(front, blocks, true)|, zlib, adler)
    && (zlib ==> adler == Adler32.Adler(1, source))
  }

  /** That is what a finished compressor has handed out. */
  lemma HandedOut(d: Deflater)
    requires d.Valid() && d.finished
    ensures Whole(d.emitted, d.p.d.source, d.front, d.blocks, d.p.flags.zlib, d.adler)
  {
    hide Deflater.Ready, AllBits, AllData, ValidBlocks, BytesBits, Closing, Opening, Sent, Adler32.Adler;
    assert d.p.d.source[..d.p.flushed] == d.p.d.source;
  }

  /** And it is what the decompressor wants, whatever its output holds already, and whatever follows. */
  lemma TakenIn(bytes: seq<byte>, source: seq<byte>, front: seq<bool>, blocks: seq<Block>, zlib: bool, adler: nat,
                tail: seq<byte>, r: BitReader, o: Output)
    requires Whole(bytes, source, front, blocks, zlib, adler) && r.Valid() && o.Valid()
    requires r.all == bytes + tail && r.Rest() == BytesBits(r.all)
    requires |source| <= o.Left() && (o.wraps ==> DICT_SIZE <= o.out.Length)
    ensures StreamAhead(r, o, zlib, front, blocks, [], adler, tail) && AllData(o.history, blocks) == o.history + source
  {
    hide AllBits, AllData, ValidBlocks, BytesBits, Closing, Ending, Opening, FrontRead, Sent, Adler32.Adler, Window,
         Summed, Supplied, Output.Left;
    OpeningAccepted(zlib, front, RoomOf(o));
    ClosingEnds(|Sent(front, blocks, true)|, zlib, adler);
    var g := o.history;
    BlocksBehind(g, [], blocks);
    BytesBitsAppend(bytes, tail);
    assert g + [] == g;
    assert (g + source)[|g|..] == source;
  }

  /**
    Everything handed out by a compressor that has finished, cut into input buffers in any way,
    with anything behind it, and decompressed into a buffer that is large enough, is everything
    that was put in; the checksum agrees, and exactly what was behind it is left over.
   */
  method ThereAndBack(d: Deflater, input: seq<byte>, later: seq<seq<byte>>, ghost tail: seq<byte>, size: nat)
    returns (status: Status, mismatch: bool, data: seq<byte>, left: seq<seq<byte>>)
    requires d.Valid() && d.finished && input + Concat(later) == d.emitted + tail && 0 < size && |d.p.d.source| <= size
    ensures status.Ok? && !mismatch && data == old(d.p.d.source) && Concat(left) == tail
  {
    hide Deflater.Valid, Whole, AllData, BytesBits, StreamAhead, Window, Summed, Supplied, Output.Left;
    HandedOut(d);
    SmallSum(d);
    ghost var source, front, blocks, adler := d.p.d.source, d.front, d.blocks, d.adler;
    var zlib := d.p.flags.zlib;
    var r := new BitReader(input, later);
    var o := new Output.Whole(size, zlib);
    TakenIn(d.emitted, source, front, blocks, zlib, adler, tail, r, o);
    ghost var read;
    status, mismatch, read := Decompress(r, o, zlib, front, blocks, [], adler, tail);
    WholeOutput(o);
    data := o.out[..o.cur];
    left := r.LeftOver();
    assert [] + source == source;
  }

  lemma SmallSum(d: Deflater)
    requires d.Valid()
    ensures d.adler < 0x1_0000_0000
  {
    hide Deflater.Ready;
  }

  /**
    The same through a ring of at least 32 KiB, emptied by the caller whenever it is full, and
    whatever it held before: behind those bytes, what is written is everything that was put in.
   */
  method ThereAndBackInARing(d: Deflater, input: seq<byte>, later: seq<seq<byte>>, ghost tail: seq<byte>,
                             ring: array<byte>, rounds: nat)
    returns (status: Status, mismatch: bool, ghost written: seq<byte>, left: seq<seq<byte>>)
    requires d.Valid() && d.finished && input + Concat(later) == d.emitted + tail
    requires DICT_SIZE <= ring.Length && |d.p.d.source| <= (rounds + 1) * ring.Length
    modifies ring
    ensures status.Ok? && !mismatch && written == old(ring[..]) + old(d.p.d.source) && Concat(left) == tail
  {
    hide Deflater.Valid, Whole, AllData, BytesBits, StreamAhead, Window, Summed, Supplied, Output.Left;
    HandedOut(d);
    SmallSum(d);
    ghost var source, front, blocks, adler := d.p.d.source, d.front, d.blocks, d.adler;
    var zlib := d.p.flags.zlib;
    var r := new BitReader(input, later);
    var o := new Output.Ring(ring, rounds, zlib);
    TakenIn(d.emitted, source, front, blocks, zlib, adler, tail, r, o);
    ghost var read;
    status, mismatch, read := Decompress(r, o, zlib, front, blocks, [], adler, tail);
    written := o.history;
    left := r.LeftOver();
  }

  // ---------- from nothing ----------

  /** The parts of a new compressor. */
  method StartParts(flags: Flags) returns (p: Parser)
    ensures p.Valid() && p.e.Valid() && p.e.w.end == OUT_BUF_END && p.e.w.Intact() && p.e.w.pos == 0
        && p.e.w.stream == []
    ensures p.c.codeEnd == 1 && p.d.source == [] && p.d.dictSize == 0 && p.d.lookaheadSize == 0 && p.flushed == 0
        && p.flags == flags
    ensures fresh(p) && fresh(p.Arrays())
  {
    hide LzCodes.Counted, LzCodes.Filled, Holds, BitWriter.Valid, Parser.Valid;
    var dict := new Dictionary();
    var enc := new Encoder(OUT_BUF_END);
    var codes := new LzCodes(enc.lit, enc.dist);
    p := new Parser(dict, enc, codes, flags);
  }

  /** A new compressor: tdefl_init. */
  method Start(flags: Flags) returns (d: Deflater)
    ensures d.Valid() && !d.finished && d.status.Okay? && !d.wantsToFinish && d.emitted == [] && d.p.d.source == []
    ensures fresh(d) && fresh(d.p) && fresh(d.p.Arrays()) && d.p.flags == flags
  {
    hide Parser.Valid, Encoder.Valid, Deflater.Valid, Parser.Arrays;
    var p := StartParts(flags);
    d := new Deflater(p);
  }

  datatype Call = Call(chunk: seq<byte>, flush: Flush)

  function Chunks(calls: seq<Call>): seq<byte> {
    if calls == [] then [] else Chunks(calls[..|calls| - 1]) + calls[|calls| - 1].chunk
  }

  /** A run of calls with any chunks and any flushes, and one with a last chunk that finishes it. */
  method CompressAll(flags: Flags, calls: seq<Call>, last: seq<byte>) returns (bytes: seq<byte>, d: Deflater)
    requires forall c <- calls :: !c.flush.Finish?
    ensures fresh(d) && fresh(d.p) && fresh(d.p.Arrays())
    ensures d.Valid() && d.finished && d.status.Done? && bytes == d.emitted && d.p.d.source == Chunks(calls) + last
        && d.p.flags == flags
  {
    hide Deflater.Valid, Parser.Arrays;
    d := Start(flags);
    bytes := [];
    var result;
    var i := 0;
    while i < |calls|
      invariant i <= |calls| && d.Valid() && !d.finished && d.status.Okay? && !d.wantsToFinish
      invariant bytes == d.emitted && d.p.d.source == Chunks(calls[..i])
      invariant fresh(d) && fresh(d.p) && fresh(d.p.Arrays())
    {
      var out;
      result, out := d.Compress(calls[i].chunk, calls[i].flush);
      bytes := bytes + out;
      assert calls[..i + 1][..i] == calls[..i];
      i := i + 1;
    }
    assert calls[..i] == calls;
    var end;
    result, end := d.Compress(last, Finish);
    bytes := bytes + end;
  }

  /**
    Every run ends well, and decompressing what it handed out gives back the chunks, however the
    compressed bytes and what follows them are cut into input buffers.
   */
  method CompressAndDecompress(flags: Flags, calls: seq<Call>, last: seq<byte>, tail: seq<byte>, cuts: seq<nat>,
                               size: nat)
    returns (status: Status, mismatch: bool, data: seq<byte>, left: seq<seq<byte>>)
    requires forall c <- calls :: !c.flush.Finish?
    requires 0 < size && |Chunks(calls) + last| <= size
    ensures status.Ok? && !mismatch && data == Chunks(calls) + last && Concat(left) == tail
  {
    hide Deflater.Valid;
    var bytes, d := CompressAll(flags, calls, last);
    var buffers := Cut(bytes + tail, cuts);
    status, mismatch, data, left := ThereAndBack(d, buffers[0], buffers[1..], tail, size);
  }
}
