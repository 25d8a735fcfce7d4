/**
  tdefl_compress with an output callback: chunks of input in, bytes out. Whatever the chunks and
  flush requests, the bytes handed out so far are those of a list of blocks whose data is the
  input so far, up to what is still held back.
 */
module Deflate {
  import opened Bits
  import opened BitIO
  import opened Tokens
  import opened CodeBuffer
  import opened DynamicHeader
  import opened Blocks
  import opened BlockWriter
  import opened LzDictionary
  import opened Compressor
  import Adler32
  import Zlib

  /** The blocks so far, in front of them the zlib header once there is one. */
  ghost function Sent(front: seq<bool>, blocks: seq<Block>, last: bool): seq<bool>
    requires AllShaped(blocks)
  {
    front + AllBits(blocks, |front|, last)
  }

  lemma FlushedShaped(b: Block, flush: Flush)
    requires b.Shaped()
    ensures AllShaped(Flushed(b, flush)) && Flushed(b, flush) != []
  {
  }

  lemma ClosingShift(pos: nat, pos': nat, zlib: bool, adler: nat)
    requires pos % 8 == pos' % 8 && adler < 0x1_0000_0000
    ensures Closing(pos, zlib, adler) == Closing(pos', zlib, adler)
  {
    assert Padding(pos) == Padding(pos');
  }

  /** The header comes before the first block only. */
  lemma FrontFirst(front: seq<bool>, front': seq<bool>, blocks: seq<Block>, st: seq<bool>, emitted: seq<byte>)
    requires AllShaped(blocks) && BytesBits(emitted) + st == Sent(front, blocks, false)
    requires if blocks == [] then front == [] else front' == []
    ensures var f := if blocks == [] then front' else front;
            BytesBits(emitted) + (st + front') == Sent(f, blocks, false)
  {
    if blocks == [] {
      assert BytesBits(emitted) == [] && st == [];
      assert Sent(front', [], false) == front' + [];
    } else {
      assert st + front' == st;
    }
  }

  /** What a flush adds, put behind what was there. */
  lemma FlushAdds(front: seq<bool>, front': seq<bool>, blocks: seq<Block>, b: Block, flush: Flush, zlib: bool,
                  adler: nat, emitted: seq<byte>, st: seq<bool>, bytes: seq<byte>, st': seq<bool>)
    requires AllShaped(blocks) && b.Shaped() && adler < 0x1_0000_0000
    requires BytesBits(emitted) + st == Sent(front, blocks, false)
    requires if blocks == [] then front == [] else front' == []
    requires BytesBits(bytes) + st' == st + FlushBits(front', b, flush, |st|, zlib, adler)
    ensures AllShaped(blocks + Flushed(b, flush))
    ensures var f := if blocks == [] then front' else front;
            var sent := Sent(f, blocks + Flushed(b, flush), flush.Finish?);
            BytesBits(emitted + bytes) + st' == sent + if flush.Finish? then Closing(|sent|, zlib, adler) else []
  {
    hide BytesBits, AllBits, Closing, Block.Shaped, Flushed, AllShaped, Sent;
    var f := if blocks == [] then front' else front;
    var fin, more, pos := flush.Finish?, Flushed(b, flush), |st| + |front'|;
    FrontFirst(front, front', blocks, st, emitted);
    FlushedShaped(b, flush);
    var e, p := BytesBits(emitted), Sent(f, blocks, false);
    assert |p| == 8 * |emitted| + pos;
    BytesMod(|emitted|, pos);
    SentAppend(f, blocks, more, pos, fin);
    var m, sent := AllBits(more, pos, fin), Sent(f, blocks + more, fin);
    BytesMod(|emitted|, pos + |m|);
    ClosingShift(pos + |m|, |sent|, zlib, adler);
    var z := if fin then Closing(|sent|, zlib, adler) else [];
    BytesBitsAppend(emitted, bytes);
    FlushedJoin(e, BytesBits(bytes), st', st, front', m, z);
  }

  lemma BytesMod(n: nat, k: nat)
    ensures (8 * n + k) % 8 == k % 8
  {
  }

  lemma FlushedJoin(e: seq<bool>, bs: seq<bool>, st': seq<bool>, st: seq<bool>, front': seq<bool>, m: seq<bool>,
                    z: seq<bool>)
    requires bs + st' == st + (front' + m + z)
    ensures (e + bs) + st' == ((e + (st + front')) + m) + z
  {
    JoinAssoc(e, bs, st');
    JoinAssoc(st, front' + m, z);
    JoinAssoc(st, front', m);
    JoinAssoc(e, st + front' + m, z);
    JoinAssoc(e, st + front', m);
  }

  lemma SentAppend(f: seq<bool>, blocks: seq<Block>, more: seq<Block>, pos: nat, fin: bool)
    requires AllShaped(blocks) && AllShaped(more) && more != [] && pos % 8 == |Sent(f, blocks, false)| % 8
    ensures AllShaped(blocks + more) && Sent(f, blocks + more, fin) == Sent(f, blocks, false) + AllBits(more, pos, fin)
  {
    hide AllBits, Block.Shaped;
    var x := AllBits(blocks, |f|, false);
    BitsAppend(blocks, more, |f|, fin);
    BitsShift(more, |f| + |x|, pos, fin);
    JoinAssoc(f, x, AllBits(more, pos, fin));
  }

  /** The blocks are valid and their data is the source up to flushed; the header stands in front of the first. */
  ghost predicate StandsFor(front: seq<bool>, blocks: seq<Block>, zlib: bool, source: seq<byte>, flushed: nat) {
    && AllShaped(blocks) && ValidBlocks([], blocks) && flushed <= |source|
    && AllData([], blocks) == source[..flushed]
    && (if blocks == [] then front == [] else Opening(zlib, front))
  }

  lemma FlushStandsFor(front: seq<bool>, front': seq<bool>, blocks: seq<Block>, b: Block, flush: Flush, zlib: bool,
                       source: seq<byte>, flushed: nat, flushed': nat)
    requires StandsFor(front, blocks, zlib, source, flushed) && Opening(zlib && blocks == [], front')
    requires flushed' <= |source| && b.Shaped() && b.Valid(source[..flushed])
        && b.Data(source[..flushed]) == source[..flushed']
    ensures StandsFor(if blocks == [] then front' else front, blocks + Flushed(b, flush), zlib, source, flushed')
    ensures blocks != [] ==> front' == []
  {
    hide AllData, ValidBlocks, Block.Valid, Block.Data, Block.Shaped;
    FlushData(blocks, b, flush);
    FlushedShaped(b, flush);
  }

  /** A flush adds blocks with the data of its one block. */
  lemma FlushData(blocks: seq<Block>, b: Block, flush: Flush)
    requires ValidBlocks([], blocks) && b.Valid(AllData([], blocks))
    ensures ValidBlocks([], blocks + Flushed(b, flush))
    ensures AllData([], blocks + Flushed(b, flush)) == b.Data(AllData([], blocks))
  {
    hide AllData, ValidBlocks;
    BlocksPush([], blocks, b);
    if flush.SyncFlush? || flush.FullFlush? {
      var s := AllData([], blocks + [b]);
      assert Stored([], []).Valid(s) && Stored([], []).Data(s) == s by { assert s + [] == s; }
      BlocksPush([], blocks + [b], Stored([], []));
      assert blocks + [b] + [Stored([], [])] == blocks + [b, Stored([], [])];
    }
  }

  lemma NothingSent()
    ensures ValidBlocks([], []) && AllData([], []) == [] && Sent([], [], false) == [] && BytesBits([]) == []
  {
  }

  /** All blocks are ones the flags allow. */
  ghost predicate AllBlocksObey(flags: Flags, blocks: seq<Block>) {
    forall b <- blocks :: BlockObeys(flags, b)
  }

  lemma FlushObeys(flags: Flags, blocks: seq<Block>, b: Block, flush: Flush)
    requires AllBlocksObey(flags, blocks) && BlockObeys(flags, b)
    ensures AllBlocksObey(flags, blocks + Flushed(b, flush))
  {
    hide AllObey;
  }

  datatype CompressStatus = Okay | Done | BadParam

  class Deflater {
    const p: Parser
    var blockIndex: nat              // m_block_index
    var adler: nat                   // m_adler32
    var wantsToFinish: bool          // m_wants_to_finish
    var finished: bool               // m_finished
    var status: CompressStatus       // m_prev_return_status
    ghost var emitted: seq<byte>     // every byte handed to the callback so far
    ghost var blocks: seq<Block>     // the blocks sent so far
    ghost var front: seq<bool>       // the zlib header, if any

    /** The parts are in order. */
    ghost predicate Working()
      reads p, p.Arrays()
    {
      && p.Valid() && p.e.Valid() && p.e.w.end == OUT_BUF_END && p.e.w.Intact() && p.e.w.pos == 0
      && p.d.dictSize <= DICT_SIZE - p.d.lookaheadSize
    }

    /** And the code buffer has room for another turn of the loop. */
    ghost predicate Ready()
      reads p, p.Arrays()
    {
      Working() && p.c.codeEnd <= CODE_BUF_SIZE - 8
    }

    /** What has been sent is well formed, and stands for the part of the source flushed so far. */
    ghost predicate SentOk()
      reads this`front, this`blocks, this`blockIndex, this`adler, p, p.d
    {
      && StandsFor(front, blocks, p.flags.zlib, p.d.source, p.flushed)
      && (blocks == [] <==> blockIndex == 0)
      && adler < 0x1_0000_0000 && AllBlocksObey(p.flags, blocks)
    }

    /** The checksum of a zlib stream is that of the source so far. */
    ghost predicate SummedUp()
      reads this`adler, p, p.d
    {
      p.flags.zlib ==> adler == Adler32.Adler(1, p.d.source)
    }

    /** The bytes handed out and the bits still held are those of the blocks sent. */
    ghost predicate OutOk()
      reads this`front, this`blocks, this`emitted, p, p.e.w
    {
      AllShaped(blocks) && BytesBits(emitted) + p.e.w.stream == Sent(front, blocks, false)
    }

    /** Everything has been handed out, the checksum of a zlib stream included. */
    ghost predicate Complete()
      reads this`front, this`blocks, this`emitted, this`adler, p, p.d
    {
      && AllShaped(blocks) && blocks != [] && adler < 0x1_0000_0000 && p.flushed == |p.d.source|
      && BytesBits(emitted) == Sent(front, blocks, true) + Closing(|Sent(front, blocks, true)|, p.flags.zlib, adler)
    }

    ghost predicate Valid()
      reads this, p, p.Arrays()
    {
      && Ready() && SentOk() && SummedUp()
      && (if finished then Complete() else OutOk())
      && (status.Done? ==> finished)
    }

    constructor (p: Parser)
      requires p.Valid() && p.e.Valid() && p.e.w.end == OUT_BUF_END && p.e.w.Intact() && p.e.w.pos == 0
          && p.e.w.stream == []
      requires p.c.codeEnd == 1 && p.d.source == [] && p.d.dictSize == 0 && p.d.lookaheadSize == 0 && p.flushed == 0
      ensures Valid() && !finished && emitted == [] && this.p == p && status.Okay? && !wantsToFinish
    {
      hide Parser.Valid, Encoder.Valid;
      this.p := p;
      blockIndex, adler, wantsToFinish, finished, status := 0, 1, false, false, Okay;
      emitted, blocks, front := [], [], [];
      new;
      NothingSent();
      assert p.d.source[..0] == [];
      assert BytesBits(emitted) + p.e.w.stream == [];
    }

    /** tdefl_flush_block and the handing out of what it wrote. */
    method FlushOut(flush: Flush) returns (bytes: seq<byte>)
      requires Working() && SentOk() && OutOk()
      modifies this`blockIndex, this`emitted, this`blocks, this`front, p`blockPos, p`flushed, p.c, p.c.buf, p.e.w,
          p.e.Arrays()
      ensures p.flushed == old(p.Upto(p.d.pos))
      ensures SentOk() && blocks != [] && |blocks| > |old(blocks)|
      ensures Ready() && if flush.Finish? then LastOut() else OutOk()
      ensures emitted == old(emitted) + bytes
    {
      hide Parser.Valid, Encoder.Valid, Opening, FlushBits, AllData, ValidBlocks, AllBits, BytesBits, Block.Valid,
           Block.Data, Block.Shaped, Closing, Adler32.Adler, Sent, StandsFor, Encoder.Arrays, Parser.Arrays,
           AllBlocksObey, BlockObeys;
      BooksApart();
      ghost var front', b;
      ghost var st, flushed := p.e.w.stream, p.flushed;
      p.SourceLong();
      bytes, front', b := p.FlushCodes(blockIndex == 0, flush, adler);
      p.SourceLong();
      Account(front', b, flush, flushed, st, bytes);
      blockIndex := blockIndex + 1;
    }

    /** The books and the parser are none of the compressor's arrays. */
    lemma BooksApart()
      ensures {this, p, p.d, p.e} !! p.e.Arrays() + {p.c, p.c.buf, p.e.w}
    {
    }

    /** Keeping the books on a flush. */
    ghost method Account(front': seq<bool>, b: Block, flush: Flush, flushed: nat, st: seq<bool>, bytes: seq<byte>)
      requires StandsFor(front, blocks, p.flags.zlib, p.d.source, flushed) && (blocks == [] <==> blockIndex == 0)
      requires AllShaped(blocks) && BytesBits(emitted) + st == Sent(front, blocks, false)
      requires p.flushed <= |p.d.source| && flushed <= |p.d.source| && adler < 0x1_0000_0000
      requires b.Shaped() && b.Valid(p.d.source[..flushed]) && b.Data(p.d.source[..flushed]) == p.d.source[..p.flushed]
      requires Opening(p.flags.zlib && blockIndex == 0, front')
      requires BytesBits(bytes) + p.e.w.stream == st + FlushBits(front', b, flush, |st|, p.flags.zlib, adler)
      requires AllBlocksObey(p.flags, blocks) && BlockObeys(p.flags, b)
      modifies this`emitted, this`blocks, this`front
      ensures AllBlocksObey(p.flags, blocks) && |blocks| > |old(blocks)|
      ensures StandsFor(front, blocks, p.flags.zlib, p.d.source, p.flushed) && blocks != []
          && emitted == old(emitted) + bytes
      ensures if flush.Finish? then LastOut() else OutOk()
    {
      hide Opening, FlushBits, AllData, ValidBlocks, AllBits, BytesBits, Block.Valid, Block.Data, Block.Shaped, Closing,
           Sent, StandsFor, AllBlocksObey, BlockObeys;
      FlushObeys(p.flags, blocks, b, flush);
      FlushStandsFor(front, front', blocks, b, flush, p.flags.zlib, p.d.source, flushed, p.flushed);
      FrontNone(front, blocks, p.flags.zlib, p.d.source, flushed);
      FlushAdds(front, front', blocks, b, flush, p.flags.zlib, adler, emitted, st, bytes, p.e.w.stream);
      FlushedShaped(b, flush);
      front := if blocks == [] then front' else front;
      blocks := blocks + Flushed(b, flush);
      emitted := emitted + bytes;
    }

    /** The codes are flushed when the buffer is nearly full, or when much data has not compressed well. */
    method FlushIfFull() returns (bytes: seq<byte>)
      requires Working() && SentOk() && OutOk()
      modifies this`blockIndex, this`emitted, this`blocks, this`front, p`blockPos, p`flushed, p.c, p.c.buf, p.e.w,
          p.e.Arrays()
      ensures Ready() && SentOk() && OutOk() && emitted == old(emitted) + bytes
      ensures var full := old(p.c.codeEnd) > 65528
                || (old(p.c.totalBytes) > 31744
                    && (old(p.c.codeEnd) * 115 / 128 >= old(p.c.totalBytes) || p.flags.forceRaw));
              if full then |blocks| > |old(blocks)| && p.flushed == old(p.Upto(p.d.pos))
              else blocks == old(blocks) && p.flushed == old(p.flushed) && bytes == []
    {
      hide Parser.Valid, Encoder.Valid, StandsFor, Sent, BytesBits, AllBlocksObey;
      bytes := [];
      if p.c.codeEnd > CODE_BUF_SIZE - 8
        || (p.c.totalBytes > 31 * 1024 && (p.c.codeEnd * 115 / 128 >= p.c.totalBytes || p.flags.forceRaw)) {
        bytes := FlushOut(NoFlush);
      }
    }

    /** Input goes into the dictionary; what has been sent still stands for the same part of it. */
    method TakeMore(src: seq<byte>, from: nat) returns (n: nat)
      requires Ready() && SentOk() && OutOk() && from <= |src|
      modifies p, p.Arrays()
      ensures Ready() && SentOk() && OutOk() && emitted == old(emitted)
      ensures from + n <= |src| && p.d.source == old(p.d.source) + src[from..from + n]
      ensures p.d.lookaheadSize == old(p.d.lookaheadSize) + n
          && (from + n == |src| || p.d.lookaheadSize == MAX_MATCH > 0)
    {
      hide Parser.Valid, Encoder.Valid, StandsFor, Sent, BytesBits, AllBlocksObey;
      p.OutputApart();
      ghost var source := p.d.source;
      n := p.TakeIn(src, from);
      StandsMore(front, blocks, p.flags.zlib, source, p.flushed, src[from..from + n]);
    }

    /** One step of the parser, and a flush if it is time. */
    method Turn(maxProbes: nat, maxProbesLong: nat) returns (bytes: seq<byte>)
      requires Ready() && SentOk() && OutOk() && p.d.lookaheadSize > 0 && maxProbes > 0 && maxProbesLong > 0
      modifies this`blockIndex, this`emitted, this`blocks, this`front, p, p.Arrays()
      ensures Ready() && SentOk() && OutOk() && emitted == old(emitted) + bytes
      ensures p.d.source == old(p.d.source) && p.d.lookaheadSize < old(p.d.lookaheadSize)
    {
      hide Parser.Valid, Encoder.Valid, StandsFor, Sent, BytesBits, AllBlocksObey;
      p.OutputApart();
      p.Step(maxProbes, maxProbesLong);
      bytes := FlushIfFull();
    }

    /**
      tdefl_compress_normal, on the chunk src. All of it is taken in; without a flush the
      lookahead stays full or the chunk runs out, with one the lookahead runs empty too.
     */
    method CompressNormal(src: seq<byte>, flush: Flush) returns (used: nat, bytes: seq<byte>)
      requires Ready() && SentOk() && OutOk()
      modifies this`blockIndex, this`emitted, this`blocks, this`front, p, p.Arrays()
      ensures Ready() && SentOk() && OutOk() && emitted == old(emitted) + bytes
      ensures used == |src| && p.d.source == old(p.d.source) + src
      ensures !flush.NoFlush? ==> p.d.lookaheadSize == 0
    {
      hide *;
      var maxProbes := 1 + (p.flags.probes + 2) / 3;
      var maxProbesLong := 1 + (p.flags.probes / 4 + 2) / 3;
      used, bytes := 0, [];
      while used < |src| || (!flush.NoFlush? && p.d.lookaheadSize > 0)
        invariant used <= |src| && Ready() && SentOk() && OutOk()
        invariant p.d.source == old(p.d.source) + src[..used] && emitted == old(emitted) + bytes
        decreases |src| - used + p.d.lookaheadSize
      {
        var n := TakeMore(src, used);
        assert src[..used] + src[used..used + n] == src[..used + n];
        used := used + n;
        if flush.NoFlush? && p.d.lookaheadSize < MAX_MATCH {
          break;
        }
        var out := Turn(maxProbes, maxProbesLong);
        bytes := bytes + out;
      }
      assert src[..used] == src;
    }

    /** Nothing is held back after a final flush. */
    lemma LastByte()
      requires Ready() && SentOk() && LastOut() && blocks != [] && p.flushed == |p.d.source|
      ensures Complete()
    {
      hide Sent, BytesBits, Closing, BitWriter.Valid, StandsFor, Parser.Valid;
      p.e.w.RoomLeft();
      WholeBytes(BytesBits(emitted), p.e.w.stream, Sent(front, blocks, true), p.flags.zlib, adler);
    }

    /** With an empty lookahead everything is recorded. */
    lemma CaughtUp()
      requires Ready() && p.d.lookaheadSize == 0
      ensures Working() && p.Upto(p.d.pos) == |p.d.source|
    {
      hide Parser.Valid, Encoder.Valid;
      p.NothingPending();
    }

    /** A full flush also forgets the dictionary. */
    method ForgetAll()
      requires Ready() && SentOk() && OutOk() && SummedUp()
      modifies p, p.Arrays()
      ensures Ready() && SentOk() && OutOk() && SummedUp() && p.d.source == old(p.d.source)
          && p.flushed == old(p.flushed)
    {
      hide Parser.Valid, Encoder.Valid, StandsFor, Sent, BytesBits, Adler32.Adler, AllBlocksObey;
      p.OutputApart();
      p.Forget();
    }

    /** The flush at the end of a call, of everything there is. */
    method FlushAll(flush: Flush) returns (bytes: seq<byte>)
      requires Ready() && SentOk() && OutOk() && p.d.lookaheadSize == 0
      modifies this`blockIndex, this`emitted, this`blocks, this`front, p, p.Arrays()
      ensures p.d.source == old(p.d.source) && p.flushed == |p.d.source| && blocks != []
      ensures Ready() && SentOk() && (if flush.Finish? then LastOut() else OutOk())
      ensures emitted == old(emitted) + bytes
    {
      hide Ready, SentOk, OutOk, Working, LastOut;
      CaughtUp();
      bytes := FlushOut(flush);
    }

    lemma NotAmong()
      ensures this as object !in p.Arrays() && this as object != p
    {
    }

    /** The flush at the end of a call, once all input is parsed. */
    method FlushCall(flush: Flush) returns (bytes: seq<byte>)
      requires Ready() && SentOk() && OutOk() && SummedUp() && !flush.NoFlush? && p.d.lookaheadSize == 0
      modifies this`blockIndex, this`emitted, this`blocks, this`front, this`finished, p, p.Arrays()
      ensures Ready() && SentOk() && SummedUp() && emitted == old(emitted) + bytes && p.d.source == old(p.d.source)
      ensures finished == flush.Finish? && (if finished then Complete() else OutOk())
      ensures p.flushed == |p.d.source|
    {
      hide Ready, SentOk, OutOk, Complete, LastOut, Adler32.Adler, Parser.Arrays;
      NotAmong();
      bytes := FlushAll(flush);
      finished := flush.Finish?;
      if flush.Finish? {
        LastByte();
      }
      if flush.FullFlush? {
        ForgetAll();
      }
    }

    /** After the final block: everything is out but perhaps some bits of the last byte, which there are none of. */
    ghost predicate LastOut()
      reads this`front, this`blocks, this`emitted, this`adler, p, p.e.w
    {
      && AllShaped(blocks) && adler < 0x1_0000_0000
      && BytesBits(emitted) + p.e.w.stream ==
          Sent(front, blocks, true) + Closing(|Sent(front, blocks, true)|, p.flags.zlib, adler)
    }

    /**
      tdefl_compress with a callback. A call after an error, or one that does not finish after one
      that did, is refused and changes nothing but the status. Otherwise all of the chunk is taken
      in, and after a flush everything taken in so far has been handed out.
     */
    method Compress(src: seq<byte>, flush: Flush) returns (result: CompressStatus, bytes: seq<byte>)
      requires Valid()
      modifies this, p, p.Arrays()
      ensures result == status
      ensures Valid() && emitted == old(emitted) + bytes && AllBlocksObey(p.flags, blocks)
      ensures result.BadParam? <==> old(status.BadParam? || status.Done? || (wantsToFinish && !flush.Finish?))
      ensures result.BadParam? ==> p.d.source == old(p.d.source) && bytes == []
      ensures !result.BadParam? ==> p.d.source == old(p.d.source) + (if old(finished) then [] else src)
      ensures !result.BadParam? && !old(finished) && !flush.NoFlush? ==> p.flushed == |p.d.source|
      ensures !result.BadParam? ==> finished == (old(finished) || flush.Finish?) && (result.Done? <==> finished)
      ensures !result.BadParam? ==> wantsToFinish == (old(wantsToFinish) || flush.Finish?)
    {
      hide Ready, SentOk, OutOk, Complete, Adler32.Adler, Parser.Arrays, SummedUp;
      NotAmong();
      Obeyed();
      bytes := [];
      if !status.Okay? || (wantsToFinish && !flush.Finish?) {
        status := BadParam;
        return status, bytes;
      }
      wantsToFinish := wantsToFinish || flush.Finish?;
      if finished {
        status := Done;
        return status, bytes;
      }
      ghost var before := p.d.source;
      Summed(before);
      var used;
      used, bytes := CompressNormal(src, flush);
      SumUp(src, used, before);
      if !flush.NoFlush? {
        var last := FlushCall(flush);
        bytes := bytes + last;
      }
      Obeyed();
      status := if finished then Done else Okay;
      return status, bytes;
    }

    /** Over every run so far the blocks sent are ones the flags allow. */
    lemma Obeyed()
      requires SentOk()
      ensures AllBlocksObey(p.flags, blocks)
    {
    }

    /** The checksum goes on over what was taken in. */
    method SumUp(src: seq<byte>, used: nat, ghost before: seq<byte>)
      requires used == |src| && adler < 0x1_0000_0000 && p.d.source == before + src
      requires p.flags.zlib ==> adler == Adler32.Adler(1, before)
      requires Ready() && SentOk()
      modifies this`adler
      ensures Ready() && SentOk() && SummedUp()
    {
      hide Parser.Valid, Encoder.Valid, StandsFor;
      if p.flags.zlib {
        Adler32.AdlerBound(adler, src);
        Adler32.AdlerAppend(1, before, src);
        assert src[..used] == src;
        adler := Adler32.Adler32(adler, src[..used]);
      }
    }

    lemma Summed(before: seq<byte>)
      requires SummedUp() && before == p.d.source && SentOk()
      ensures p.flags.zlib ==> adler == Adler32.Adler(1, before)
      ensures adler < 0x1_0000_0000
    {
    }
  }

  /** Whole bytes and less than a byte more: the rest is nothing when the total is whole bytes. */
  lemma WholeBytes(bytes: seq<bool>, st: seq<bool>, sent: seq<bool>, zlib: bool, adler: nat)
    requires adler < 0x1_0000_0000 && |bytes| % 8 == 0 && |st| < 8
    requires bytes + st == sent + Closing(|sent|, zlib, adler)
    ensures bytes == sent + Closing(|sent|, zlib, adler)
  {
    hide ToBits, Zlib.BigEndianBits;
    assert (|sent| + Padding(|sent|)) % 8 == 0;
    assert |st| % 8 == 0;
    assert st == [];
    assert bytes + st == bytes;
  }

  lemma StandsMore(front: seq<bool>, blocks: seq<Block>, zlib: bool, source: seq<byte>, flushed: nat, more: seq<byte>)
    requires StandsFor(front, blocks, zlib, source, flushed)
    ensures StandsFor(front, blocks, zlib, source + more, flushed)
  {
    assert (source + more)[..flushed] == source[..flushed];
  }

  lemma FrontNone(front: seq<bool>, blocks: seq<Block>, zlib: bool, source: seq<byte>, flushed: nat)
    requires StandsFor(front, blocks, zlib, source, flushed)
    ensures AllShaped(blocks) && (blocks == [] ==> front == [])
  {
  }
}
