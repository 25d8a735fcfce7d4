/**
  Whole streams, measured against the decoder of the standard: it reads from what the compressor
  hands out everything that was put in, and from whatever it can read the inflater makes the same data.
 */
module StandardStreams {
  import opened Bits
  import opened BitIO
  import opened Tokens
  import opened Lenient
  import opened HeaderReader
  import opened InflateBody
  import opened Blocks
  import opened BlockWriter
  import opened OutBuf
  import opened Deflate
  import opened RoundTrip
  import opened StandardCodes
  import opened StandardBlocks
  import Adler32
  import PlainStreams
  import Zlib
  import Std = Standard

  // ---------- headers and checksums ----------

  lemma HeaderAgrees(b0: byte, b1: byte, ring: bool, size: nat)
    ensures Std.Header(b0, b1) && (ring ==> 32768 <= size) ==> Zlib.HeaderAccepted(b0, b1, ring, size)
    ensures Zlib.HeaderAccepted(b0, b1, true, size) ==> Std.Header(b0, b1)
  {
    var k := b0 / 16;
    Windows(k);
  }

  lemma Windows(k: nat)
    requires k < 16
    ensures Shl(1, 8 + k) <= 32768 <==> k <= 7
  {
    ShlIsTimes(1, 8 + k);
    Pow2Values();
    if k <= 7 { Pow2Mono(8 + k, 15); } else { Pow2Mono(16, 8 + k); }
  }

  /** The checksum of the standard is the one that is computed. */
  lemma ChecksumAgrees(data: seq<byte>)
    ensures Std.Checksum(data) == Adler32.Adler(1, data)
  {
    hide Std.Checksum, Adler32.Adler, Adler32.Plain, Adler32.Weighted;
    if data == [] {
      NothingSummed();
    } else {
      Adler32.AdlerFromOne(data);
      ChecksumHalves(data);
      Halves(Adler32.Adler(1, data), Std.Checksum(data));
    }
  }

  lemma ChecksumHalves(data: seq<byte>)
    ensures Std.Checksum(data) % 0x1_0000 == (1 + Adler32.Plain(data)) % 65521
    ensures Std.Checksum(data) / 0x1_0000 == (|data| + Adler32.Weighted(data)) % 65521
  {
    hide Adler32.Plain, Adler32.Weighted;
    Joined((|data| + Adler32.Weighted(data)) % 65521, (1 + Adler32.Plain(data)) % 65521);
  }

  lemma Joined(hi: nat, lo: nat)
    requires lo < 0x1_0000
    ensures (hi * 65536 + lo) % 0x1_0000 == lo && (hi * 65536 + lo) / 0x1_0000 == hi
  {
  }

  lemma Halves(a: nat, b: nat)
    requires a % 0x1_0000 == b % 0x1_0000 && a / 0x1_0000 == b / 0x1_0000
    ensures a == b
  {
  }

  lemma NothingSummed()
    ensures Std.Checksum([]) == Adler32.Adler(1, [])
  {
  }

  lemma FourBits(b: seq<byte>)
    requires |b| == 4
    ensures BytesBits(b) == ToBits(b[0], 8) + (ToBits(b[1], 8) + (ToBits(b[2], 8) + ToBits(b[3], 8)))
  {
    hide ToBits;
    assert b == [b[0]] + [b[1]] + [b[2]] + [b[3]];
    TwoBits(b[2..]);
    assert b[1..][1..] == b[2..];
  }

  lemma TwoBits(b: seq<byte>)
    requires |b| == 2
    ensures BytesBits(b) == ToBits(b[0], 8) + ToBits(b[1], 8)
  {
    hide ToBits;
    assert b[1..][1..] == [] && BytesBits([]) == [];
    JoinNothing(ToBits(b[1], 8));
  }

  lemma SumReads(v: nat, more: seq<bool>)
    requires v < 0x1_0000_0000
    ensures Std.Sum(Zlib.BigEndianBits(v) + more) == Std.Read(v, more)
  {
    hide ToBits, BytesBits, Std.Bytes;
    var b := Zlib.BigEndian(v);
    FourBits(b);
    BytesRead(b, more);
    Zlib.Parts(v);
  }

  lemma SumIs(bits: seq<bool>)
    ensures var r := Std.Sum(bits);
            r.Read? ==> r.value < 0x1_0000_0000 && bits == Zlib.BigEndianBits(r.value) + r.rest
  {
    hide ToBits, BytesBits, Std.Bytes, Zlib.BigEndian;
    var f := Std.Bytes(bits, 4);
    if f.Read? {
      BytesAre(bits, 4);
      var b := f.value;
      FourBits(b);
      Zlib.BytesOf(b[0], b[1], b[2], b[3]);
      var v := Zlib.FourBytes(b[0], b[1], b[2], b[3]);
      assert b == [b[0], b[1], b[2], b[3]];
      Zlib.BitsOf(v, b[0], b[1], b[2], b[3]);
    }
  }

  lemma AnyBytes(bits: seq<bool>) returns (bytes: seq<byte>)
    requires |bits| % 8 == 0
    ensures BytesBits(bytes) == bits
  {
    Whole8(bits, |bits| / 8);
    BytesAre(bits, |bits| / 8);
    var r := Std.Bytes(bits, |bits| / 8);
    bytes := r.value;
    JoinNothing(BytesBits(bytes));
  }

  lemma {:induction false} Whole8(bits: seq<bool>, n: nat)
    requires 8 * n <= |bits|
    ensures Std.Bytes(bits, n).Read?
    decreases n
  {
    if n > 0 { Whole8(bits[8..], n - 1); }
  }

  // ---------- what is valid is read ----------

  lemma AfterBlocks(fill: seq<bool>, pos: nat, zlib: bool, adler: nat, more: seq<bool>)
    requires adler < 0x1_0000_0000 && (pos + |Ending(fill, pos, zlib, adler) + more|) % 8 == 0
    ensures Std.ToByte(Ending(fill, pos, zlib, adler) + more)
         == (if zlib then Zlib.BigEndianBits(adler) else []) + more
  {
    hide Zlib.BigEndianBits, Filled, Padding;
    var end := Ending(fill, pos, zlib, adler) + more;
    InflateBlocks.SamePadding(pos, |end|);
  }

  /** The standard reads a stream of valid blocks as their data, when the checksum is that of what they add. */
  lemma StreamReads(zlib: bool, front: seq<bool>, blocks: seq<Block>, fill: seq<bool>, adler: nat, s: seq<byte>,
                    more: seq<bool>)
    requires AllShaped(blocks) && blocks != [] && ValidBlocks(s, blocks) && adler < 0x1_0000_0000 && |more| % 8 == 0
    requires FrontRead(zlib, Room(32768, true), front)
    requires zlib ==> adler == Adler32.Adler(1, AllData(s, blocks)[|s|..])
    ensures var sent := Sent(front, blocks, true);
            Std.Stream(zlib, (sent + Ending(fill, |sent|, zlib, adler)) + more, s) == Std.Read(AllData(s, blocks), more)
  {
    hide AllBits, AllData, ValidBlocks, AllShaped, FrontRead, Ending, Std.Inflate, Std.Bytes, Std.Sum, Std.Header,
         Std.Checksum, Std.ToByte, Adler32.Adler, ToBits, Zlib.BigEndianBits;
    var sent, bits := Sent(front, blocks, true), AllBits(blocks, |front|, true);
    var end := Ending(fill, |sent|, zlib, adler) + more;
    JoinAssoc(sent, Ending(fill, |sent|, zlib, adler), more);
    JoinAssoc(front, bits, end);
    WholeEnd(fill, |sent|, zlib, adler, more);
    FrontSize(zlib, Room(32768, true), front);
    InflateReads(blocks, s, |front|, end);
    AfterBlocks(fill, |sent|, zlib, adler, more);
    if zlib {
      FrontReads(front, bits + end);
      SumReads(adler, more);
      ChecksumAgrees(AllData(s, blocks)[|s|..]);
    } else {
      FrontNothing(front, bits + end);
      JoinNothing(more);
    }
  }

  lemma WholeEnd(fill: seq<bool>, pos: nat, zlib: bool, adler: nat, more: seq<bool>)
    requires adler < 0x1_0000_0000 && |more| % 8 == 0
    ensures (pos + |Ending(fill, pos, zlib, adler) + more|) % 8 == 0
  {
    hide Zlib.BigEndianBits, Filled;
  }

  lemma FrontNothing(front: seq<bool>, more: seq<bool>)
    requires FrontRead(false, Room(32768, true), front)
    ensures front + more == more
  {
    JoinNothing(more);
  }

  lemma FrontReads(front: seq<bool>, more: seq<bool>)
    requires FrontRead(true, Room(32768, true), front)
    ensures var r := Std.Bytes(front + more, 2);
            r.Read? && r.rest == more && Std.Header(r.value[0], r.value[1])
  {
    hide ToBits, Std.Bytes, Zlib.HeaderAccepted, BytesBits;
    var b0: byte, b1: byte :| front == ToBits(b0, 8) + ToBits(b1, 8) && Zlib.HeaderAccepted(b0, b1, true, 32768);
    TwoBits([b0, b1]);
    BytesRead([b0, b1], more);
    HeaderAgrees(b0, b1, true, 32768);
  }

  // ---------- what is read is valid ----------

  lemma FrontIsRead(bits: seq<bool>, room: Room) returns (front: seq<bool>)
    requires var r := Std.Bytes(bits, 2); r.Read? && Std.Header(r.value[0], r.value[1])
    requires room.ring ==> 32768 <= room.size
    ensures FrontRead(true, room, front) && |front| == 16 && bits == front + Std.Bytes(bits, 2).rest
  {
    hide ToBits, Std.Bytes, Zlib.HeaderAccepted, BytesBits, Std.Header;
    BytesAre(bits, 2);
    var b := Std.Bytes(bits, 2).value;
    TwoBits(b);
    HeaderAgrees(b[0], b[1], room.ring, room.size);
    front := ToBits(b[0], 8) + ToBits(b[1], 8);
    FrontIs(room, b[0], b[1]);
  }

  /** Whatever the standard reads as a stream is one of valid blocks with the right checksum. */
  lemma StreamIs(zlib: bool, bits: seq<bool>, s: seq<byte>, room: Room)
    returns (front: seq<bool>, blocks: seq<Block>, fill: seq<bool>, adler: nat, tail: seq<byte>)
    requires Std.Stream(zlib, bits, s).Read? && |bits| % 8 == 0 && (room.ring ==> 32768 <= room.size)
    ensures AllShaped(blocks) && blocks != [] && ValidBlocks(s, blocks) && adler < 0x1_0000_0000
    ensures FrontRead(zlib, room, front)
    ensures var r, sent := Std.Stream(zlib, bits, s), Sent(front, blocks, true);
            && AllData(s, blocks) == r.value && r.rest == BytesBits(tail)
            && bits == (sent + Ending(fill, |sent|, zlib, adler)) + BytesBits(tail)
            && (zlib ==> adler == Adler32.Adler(1, r.value[|s|..]))
  {
    hide AllBits, AllData, ValidBlocks, AllShaped, FrontRead, Std.Inflate, Std.Bytes, Std.Sum, Std.Header, BytesBits,
         Std.Checksum, Adler32.Adler, ToBits, Zlib.BigEndianBits, Filled, Padding;
    var r1 := bits;
    if zlib {
      front := FrontIsRead(bits, room);
      r1 := Std.Bytes(bits, 2).rest;
    } else {
      front := [];
      NoFront(room);
      JoinNothing(bits);
    }
    blocks := InflateIs(r1, s, |front|);
    var data, r2 := Std.Inflate(r1, s).value, Std.Inflate(r1, s).rest;
    var body := AllBits(blocks, |front|, true);
    var sent := front + body;
    JoinAssoc(front, body, r2);
    InflateBlocks.SamePadding(|sent|, |r2|);
    fill := r2[..|r2| % 8];
    var r3 := Std.ToByte(r2);
    assert r2 == fill + r3 && |fill| == Padding(|sent|);
    FilledWith(fill);
    var rest := r3;
    adler := 0;
    if zlib {
      SumIs(r3);
      adler := Std.Sum(r3).value;
      rest := Std.Sum(r3).rest;
      ChecksumAgrees(data[|s|..]);
      JoinAssoc(fill, Zlib.BigEndianBits(adler), rest);
    } else {
      JoinNothing(fill);
    }
    tail := AnyBytes(rest);
    JoinAssoc(sent, Ending(fill, |sent|, zlib, adler), rest);
  }

  lemma FilledWith(fill: seq<bool>)
    ensures Filled(fill, |fill|) == fill
  {
  }

  // ---------- the compressor ----------

  /** What a finished compressor has handed out, the standard reads as everything that was put in. */
  lemma CompressedIsStandard(d: Deflater)
    requires d.Valid() && d.finished
    ensures Std.Stream(d.p.flags.zlib, Std.BitsOf(d.emitted), []) == Std.Read(d.p.d.source, [])
  {
    hide Deflater.Valid, AllBits, AllData, ValidBlocks, BytesBits, Closing, Ending, Opening, FrontRead, Sent,
         Adler32.Adler, Std.Stream, Std.BitsOf;
    HandedOut(d);
    var sent := Sent(d.front, d.blocks, true);
    ClosingEnds(|sent|, d.p.flags.zlib, d.adler);
    OpeningAccepted(d.p.flags.zlib, d.front, Room(32768, true));
    BitsOfBytes(d.emitted);
    assert d.p.d.source[0..] == d.p.d.source;
    StreamReads(d.p.flags.zlib, d.front, d.blocks, [], d.adler, [], []);
    JoinNothing(sent + Ending([], |sent|, d.p.flags.zlib, d.adler));
  }

  /** For all flags, chunks and flushes: the standard reads the output of a run as the chunks put in. */
  method CompressForStandard(flags: Flags, calls: seq<Call>, last: seq<byte>) returns (bytes: seq<byte>)
    requires forall c <- calls :: !c.flush.Finish?
    ensures Std.Stream(flags.zlib, Std.BitsOf(bytes), []) == Std.Read(Chunks(calls) + last, [])
  {
    hide Deflater.Valid, Std.Stream, Std.BitsOf;
    var d;
    bytes, d := CompressAll(flags, calls, last);
    CompressedIsStandard(d);
  }

  // ---------- the inflater ----------

  /**
    tinfl_decompress on any input. If the standard can read a stream from it, and there is room for the
    data, the run ends well with that data and leaves what follows the stream in the input.
   */
  method DecompressStandard(r: BitReader, o: Output, zlib: bool) returns (status: Status, mismatch: bool)
    requires r.Valid() && r.numBits == 0 && o.Valid() && EndOf(r.Rest(), BytesBits(r.all))
    requires o.start == |o.history| && (zlib ==> o.sums)
    modifies r, o, o.out
    ensures r.Valid() && o.Valid()
    ensures var std := old(Std.Stream(zlib, r.Rest(), o.history));
            std.Read? && |std.value| <= old(|o.history| + o.Left()) && (o.wraps ==> DICT_SIZE <= o.out.Length) ==>
              && status.Ok? && !mismatch && o.history == std.value
              && r.numBits == 0 && BytesBits(r.Unread()) == std.rest
  {
    hide Std.Stream, StreamRead, Window, Summed, Supplied, Output.Left, BitReader.Rest, BitReader.Unread, AllBits,
         AllData, ValidBlocks, BytesBits, Ending, FrontRead, Sent, Adler32.Adler, EndOf;
    ghost var std := Std.Stream(zlib, r.Rest(), o.history);
    ghost var front, blocks: seq<Block>, fill, adler, tail := [], [], [], 0, [];
    if std.Read? && |std.value| <= |o.history| + o.Left() && (o.wraps ==> DICT_SIZE <= o.out.Length) {
      Aligned(r);
      front, blocks, fill, adler, tail := StreamIs(zlib, r.Rest(), o.history, RoomOf(o));
    }
    ghost var read;
    status, mismatch, read := Decompress(r, o, zlib, front, blocks, fill, adler, tail);
  }

  lemma Aligned(r: BitReader)
    requires r.Valid() && r.numBits == 0
    ensures |r.Rest()| % 8 == 0
  {
  }

  /** And what the inflater accepts without using any lenience, the standard reads as the same data. */
  lemma PlainIsStandard(x: Reading, zlib: bool, room: Room, s: seq<byte>, data: seq<byte>, before: seq<bool>,
                        after: seq<bool>)
    requires s <= data && |after| % 8 == 0 && (zlib ==> x.sum == Adler32.Adler(1, data[|s|..]))
    requires StreamRead(x, zlib, room, s, data, before, after) && (room.ring ==> DICT_SIZE <= room.size)
    requires PlainStreams.PlainStream(x.blocks) && FrontRead(zlib, Room(32768, true), x.front)
    ensures Std.Stream(zlib, before, s) == Std.Read(data, after)
  {
    hide StreamRead, AllBits, AllData, ValidBlocks, Ending, FrontRead, Sent, Adler32.Adler, Std.Stream;
    SumSmall(x, zlib, room, s, data, before, after);
    var vs := PlainReading(x, zlib, room, s, data, before, after);
    StreamReads(zlib, x.front, vs, x.pad, x.sum, s, after);
  }

  lemma SumSmall(x: Reading, zlib: bool, room: Room, s: seq<byte>, data: seq<byte>, before: seq<bool>,
                 after: seq<bool>)
    requires StreamRead(x, zlib, room, s, data, before, after)
    ensures x.sum < 0x1_0000_0000
  {
  }
}
