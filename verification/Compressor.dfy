/**
  tdefl_compress_normal: the lazy or greedy parsing of the input into literals and matches, and
  tdefl_compress around it. At every step the codes recorded so far, expanded after the data
  already flushed, give back the input up to the lookahead, less one byte exactly when a match
  has been put off.
 */
module Compressor {
  import opened Bits
  import opened BitIO
  import opened Tokens
  import opened CodeBuffer
  import opened Lz77
  import opened HuffmanEncoder
  import opened DynamicHeader
  import opened Blocks
  import opened BlockWriter
  import opened LzDictionary

  /** The codes, expanded after the data already flushed, are the source up to position upto. */
  ghost predicate Parsed(source: seq<byte>, flushed: nat, ts: seq<Token>, upto: nat) {
    && flushed <= upto <= |source|
    && AllValid(ts) && Feasible(source[..flushed], ts)
    && Expand(source[..flushed], ts) == source[..upto]
  }

  lemma NothingParsed()
    ensures Parsed([], 0, [], 0)
  {
  }

  lemma ParsedLiteral(source: seq<byte>, flushed: nat, ts: seq<Token>, upto: nat, b: byte)
    requires Parsed(source, flushed, ts, upto) && upto < |source| && b == source[upto]
    ensures Parsed(source, flushed, ts + [Literal(b)], upto + 1)
  {
    ExpandPush(source[..flushed], ts, Literal(b));
    assert source[..upto + 1] == source[..upto] + [b];
  }

  lemma ParsedMatch(source: seq<byte>, flushed: nat, ts: seq<Token>, upto: nat, len: nat, dist: nat)
    requires Parsed(source, flushed, ts, upto) && Match(len, dist).Valid() && Repeats(source, upto, dist, len)
    ensures Parsed(source, flushed, ts + [Match(len, dist)], upto + len)
  {
    ExpandPush(source[..flushed], ts, Match(len, dist));
    CopyBackOnly(source[..upto], len, dist, source[..upto + len]);
  }

  /** More input changes nothing about what is parsed already. */
  lemma ParsedMore(source: seq<byte>, flushed: nat, ts: seq<Token>, upto: nat, more: seq<byte>)
    requires Parsed(source, flushed, ts, upto)
    ensures Parsed(source + more, flushed, ts, upto)
  {
    assert (source + more)[..flushed] == source[..flushed] && (source + more)[..upto] == source[..upto];
  }

  lemma RepeatsMore(source: seq<byte>, pos: nat, dist: nat, len: nat, more: seq<byte>)
    requires Repeats(source, pos, dist, len)
    ensures Repeats(source + more, pos, dist, len)
  {
  }

  /** A code the flags allow: matches may be forbidden, or have to be runs, or to be long, or not too far away. */
  predicate Obeys(flags: Flags, t: Token) {
    t.Match? ==>
      && !flags.forceRaw && (flags.rle ==> t.dist == 1) && (flags.filter ==> t.len > 5)
      && !(t.len == 3 && t.dist >= 8192)
  }

  ghost predicate AllObey(flags: Flags, ts: seq<Token>) {
    forall t <- ts :: Obeys(flags, t)
  }

  lemma ObeyMore(flags: Flags, ts: seq<Token>, t: Token)
    requires AllObey(flags, ts) && Obeys(flags, t)
    ensures AllObey(flags, ts + [t])
  {
    hide Obeys;
  }

  /** A block the flags allow. */
  ghost predicate BlockObeys(flags: Flags, b: Block) {
    !b.Stored? ==> AllObey(flags, b.ts) && (flags.forceStatic ==> b.Fixed?)
  }

  lemma ChosenObeys(flags: Flags, b: Block, ts: seq<Token>, data: seq<byte>, at: nat, inWindow: bool)
    requires AllValid(ts) && Chosen(b, ts, data, at, inWindow, flags.forceRaw, flags.forceStatic) && AllObey(flags, ts)
    ensures BlockObeys(flags, b)
  {
    hide AllObey, Gains, Block.Shaped;
  }

  lemma LiteralObeys(flags: Flags, b: byte)
    ensures Obeys(flags, Literal(b))
  {
  }

  lemma NotSoFar(source: seq<byte>, pos: nat, n: nat)
    requires !Repeats(source, pos, 1, n) && n <= 3
    ensures !Repeats(source, pos, 1, 3)
  {
  }

  /** The parsing state, and the codes. */
  class Parser {
    const d: Dictionary
    const c: LzCodes
    const e: Encoder
    const flags: Flags
    var savedDist: nat               // m_saved_match_dist
    var savedLen: nat                // m_saved_match_len
    var savedLit: byte               // m_saved_lit
    var blockPos: nat                // m_lz_code_buf_dict_pos, 32 bits wide
    ghost var flushed: nat           // how much of the source the blocks sent so far stand for

    /** The state tdefl_init sets up. */
    constructor (d: Dictionary, e: Encoder, c: LzCodes, flags: Flags)
      requires d.Valid() && d.source == [] && d.pos == 0 && c.Valid() && c.Tokens() == []
      requires Paired(c, e) && d.dict != c.buf && d.dict != e.w.out && d.dict as object !in e.Arrays()
      requires d.next as object !in e.Arrays() && d.hash as object !in e.Arrays()
      ensures Valid() && this.d == d && this.e == e && this.c == c && this.flags == flags && savedLen == 0
          && flushed == 0
    {
      hide LzCodes.Counted, LzCodes.Filled, Holds, Parsed, CodeTable.Valid;
      NothingParsed();
      this.d, this.e, this.c, this.flags := d, e, c, flags;
      savedDist, savedLen, savedLit, blockPos, flushed := 0, 0, 0, 0, 0;
    }

    ghost function Arrays(): set<object> {
      {d.dict as object, d.next, d.hash, c.buf, c.lit.count, c.dist.count, e.w.out, e.w, c, d} + e.Arrays()
    }

    /** No two of the arrays are the same. */
    ghost predicate Apart() {
      && Paired(c, e) && d.Shaped()
      && d.dict != c.buf && d.dict != e.w.out && d.dict as object !in e.Arrays()
      && d.next as object !in e.Arrays() && d.hash as object !in e.Arrays()
    }

    /** A match put off begins one byte before the lookahead, at the saved literal. */
    ghost predicate SavedAt(pos: nat)
      reads this, d
    {
      savedLen > 0 ==>
        && MIN_MATCH <= savedLen < 128 && 1 <= savedDist <= DICT_SIZE
        && 1 <= pos <= |d.source| && savedLit == d.source[pos - 1]
        && Repeats(d.source, pos - 1, savedDist, savedLen) && Obeys(flags, Match(savedLen, savedDist))
    }

    /** How much of the source is recorded when the lookahead starts at pos. */
    ghost function Upto(pos: nat): int
      reads this
    {
      if savedLen > 0 then pos - 1 else pos
    }

    ghost predicate ParsedTo(pos: nat)
      reads this, d, c
    {
      flushed <= Upto(pos) && Parsed(d.source, flushed, c.Tokens(), Upto(pos)) && AllObey(flags, c.Tokens())
    }

    ghost predicate Valid()
      reads this, d, d.dict, c, c.buf, c.lit.count, c.dist.count
    {
      && Apart() && d.Valid() && c.Valid() && SavedAt(d.pos) && ParsedTo(d.pos)
      && blockPos == flushed % 0x1_0000_0000
    }

    /** Nothing is put off once the lookahead is empty. */
    lemma NothingPending()
      requires Valid() && d.lookaheadSize == 0
      ensures savedLen == 0 && Upto(d.pos) == |d.source|
    {
    }

    // ---------- parsing ----------

    /** The candidate at the lookahead: a match that beats the saved one, or none. */
    ghost predicate Candidate(dist: nat, len: nat)
      reads this, d
    {
      if dist == 0 then len <= (if savedLen > 0 then savedLen else MIN_MATCH - 1)
      else
        && MIN_MATCH <= len <= d.lookaheadSize && dist <= DICT_SIZE && Repeats(d.source, d.pos, dist, len)
        && Obeys(flags, Match(len, dist))
    }

    /** A match that is not worth taking, or that the flags forbid. */
    predicate Dropped(dist: nat, len: nat)
      reads d`lookaheadPos
    {
      (len == 3 && dist >= 8192) || d.lookaheadPos % DICT_SIZE == dist || (flags.filter && len <= 5)
    }

    /** The run of the previous byte that is there, if it is long enough. */
    ghost predicate Run(dist: nat, len: nat)
      reads d
    {
      && (dist == 1 || (dist == 0 && len == 0))
      && (dist == 1 ==> 3 <= len <= d.lookaheadSize && Repeats(d.source, d.pos, 1, len))
      && (var n := if dist == 1 then len else 2; n < d.lookaheadSize ==> !Repeats(d.source, d.pos, 1, n + 1))
    }

    /** What the search finds before matches are dropped: by runs only, by the chains, or not at all. */
    ghost predicate Found(dist: nat, len: nat, maxProbes: nat, maxProbesLong: nat)
      requires d.Shaped() && maxProbes > 0 && maxProbesLong > 0
      reads this, d, d.next
    {
      var least := if savedLen > 0 then savedLen else 2;
      if flags.forceRaw || (flags.rle && d.dictSize == 0) then dist == 0 && len == least
      else if flags.rle then Run(dist, len)
      else
        && ((dist == 0 && len == least) || (dist > 0 && d.Better(dist, len, least)))
        && d.Searched((if least >= 32 then maxProbesLong else maxProbes) - 1, len)
    }

    /** A run, or a match from the chains, or nothing; then the matches not worth taking are dropped. */
    method Search(maxProbes: nat, maxProbesLong: nat) returns (dist: nat, len: nat)
      requires Valid() && d.dictSize <= DICT_SIZE - d.lookaheadSize && maxProbes > 0 && maxProbesLong > 0
      ensures Candidate(dist, len)
      ensures exists x: nat, y: nat :: Found(x, y, maxProbes, maxProbesLong)
                && if Dropped(x, y) then dist == len == 0 else dist == x && len == y
    {
      hide Parsed, Repeats, Holds, LzCodes.Valid, Dictionary.Searched;
      dist, len := 0, if savedLen > 0 then savedLen else MIN_MATCH - 1;
      if flags.rle || flags.forceRaw {
        if d.dictSize > 0 && !flags.forceRaw {
          len := d.FindRun();
          if len < MIN_MATCH {
            if len < d.lookaheadSize { NotSoFar(d.source, d.pos, len + 1); }
            len := 0;
          } else {
            dist := 1;
          }
        }
      } else {
        dist, len := d.FindMatch(maxProbes, maxProbesLong, len);
      }
      assert Found(dist, len, maxProbes, maxProbesLong);
      if (len == MIN_MATCH && dist >= 8192) || d.lookaheadPos % DICT_SIZE == dist || (flags.filter && len <= 5) {
        dist, len := 0, 0;
      }
    }

    /** Put a match off: it begins at the byte now becoming the saved literal. */
    method PutOff(dist: nat, len: nat)
      requires d.Valid() && d.dictSize <= DICT_SIZE - d.lookaheadSize && d.lookaheadSize > 0
      requires MIN_MATCH <= len < 128 && 1 <= dist <= DICT_SIZE && Repeats(d.source, d.pos, dist, len)
      requires Obeys(flags, Match(len, dist))
      modifies this`savedDist, this`savedLen, this`savedLit
      ensures SavedAt(d.pos + 1) && savedLen == len && savedDist == dist && savedLit == d.source[d.pos]
    {
      hide Holds;
      savedLit := d.Ahead(0);
      savedDist, savedLen := dist, len;
    }

    /** A longer match was found: the one put off shrinks to a literal. */
    method DecideLonger(dist: nat, len: nat) returns (move: nat)
      requires Valid() && savedLen > 0 && d.lookaheadSize > 0 && d.dictSize <= DICT_SIZE - d.lookaheadSize
      requires Candidate(dist, len) && len > savedLen && c.codeEnd <= CODE_BUF_SIZE - 8
      modifies this`savedDist, this`savedLen, this`savedLit, c, c.buf, c.lit.count, c.dist.count
      ensures c.Valid() && c.codeEnd <= CODE_BUF_SIZE - 3
      ensures 1 <= move <= d.lookaheadSize && SavedAt(d.pos + move) && ParsedTo(d.pos + move)
      ensures if len >= 128 then
                && c.Tokens() == old(c.Tokens()) + [Literal(old(savedLit))] + [Match(len, dist)]
                && savedLen == 0 && move == len
              else
                && c.Tokens() == old(c.Tokens()) + [Literal(old(savedLit))]
                && savedLen == len && savedDist == dist && move == 1
    {
      hide LzCodes.Counted, LzCodes.Filled, Holds, Parsed, Repeats, TotalLength, Obeys, AllObey;
      SavedByte();
      ParsedLiteral(d.source, flushed, c.Tokens(), d.pos - 1, savedLit);
      LiteralObeys(flags, savedLit);
      ObeyMore(flags, c.Tokens(), Literal(savedLit));
      c.RecordLiteral(savedLit);
      if len >= 128 {
        ParsedMatch(d.source, flushed, c.Tokens(), d.pos, len, dist);
        ObeyMore(flags, c.Tokens(), Match(len, dist));
        c.RecordMatch(len, dist);
        savedLen := 0;
        move := len;
      } else {
        PutOff(dist, len);
        move := 1;
      }
    }

    /** A match was put off: unless the new one is longer, it is taken now. */
    method DecideSaved(dist: nat, len: nat) returns (move: nat)
      requires Valid() && Candidate(dist, len) && savedLen > 0 && d.lookaheadSize > 0
          && d.dictSize <= DICT_SIZE - d.lookaheadSize
      requires c.codeEnd <= CODE_BUF_SIZE - 8
      modifies this`savedDist, this`savedLen, this`savedLit, c, c.buf, c.lit.count, c.dist.count
      ensures c.Valid() && c.codeEnd <= CODE_BUF_SIZE - 3
      ensures 1 <= move <= d.lookaheadSize && SavedAt(d.pos + move) && ParsedTo(d.pos + move)
      ensures len > old(savedLen) ==>
                if len >= 128 then
                  && c.Tokens() == old(c.Tokens()) + [Literal(old(savedLit))] + [Match(len, dist)]
                  && savedLen == 0 && move == len
                else
                  && c.Tokens() == old(c.Tokens()) + [Literal(old(savedLit))]
                  && savedLen == len && savedDist == dist && move == 1
      ensures len <= old(savedLen) ==>
                && c.Tokens() == old(c.Tokens()) + [Match(old(savedLen), old(savedDist))]
                && savedLen == 0 && move == old(savedLen) - 1
    {
      hide LzCodes.Counted, LzCodes.Filled, Holds, Parsed, Repeats, TotalLength, Obeys, AllObey;
      if len > savedLen {
        move := DecideLonger(dist, len);
      } else {
        ParsedMatch(d.source, flushed, c.Tokens(), d.pos - 1, savedLen, savedDist);
        ObeyMore(flags, c.Tokens(), Match(savedLen, savedDist));
        SavedFits();
        c.RecordMatch(savedLen, savedDist);
        move := savedLen - 1;
        savedLen := 0;
      }
    }

    lemma SavedByte()
      requires SavedAt(d.pos) && savedLen > 0
      ensures 1 <= d.pos <= |d.source| && savedLit == d.source[d.pos - 1]
    {
    }

    lemma SavedFits()
      requires d.Valid() && SavedAt(d.pos) && savedLen > 0
      ensures MIN_MATCH <= savedLen && savedLen - 1 <= d.lookaheadSize
    {
    }

    /** Nothing was put off: a literal, a match, or a match put off. */
    method DecideFresh(dist: nat, len: nat) returns (move: nat)
      requires Valid() && Candidate(dist, len) && savedLen == 0 && d.lookaheadSize > 0
          && d.dictSize <= DICT_SIZE - d.lookaheadSize
      requires c.codeEnd <= CODE_BUF_SIZE - 8
      modifies this`savedDist, this`savedLen, this`savedLit, c, c.buf, c.lit.count, c.dist.count
      ensures c.Valid() && c.codeEnd <= CODE_BUF_SIZE - 3
      ensures 1 <= move <= d.lookaheadSize && SavedAt(d.pos + move) && ParsedTo(d.pos + move)
      ensures if dist == 0 then
                c.Tokens() == old(c.Tokens()) + [Literal(d.source[d.pos])] && savedLen == 0 && move == 1
              else if flags.greedy || flags.rle || len >= 128 then
                c.Tokens() == old(c.Tokens()) + [Match(len, dist)] && savedLen == 0 && move == len
              else
                && c.Tokens() == old(c.Tokens()) && savedLen == len && savedDist == dist
                && savedLit == d.source[d.pos] && move == 1
    {
      hide LzCodes.Counted, LzCodes.Filled, Holds, Parsed, Repeats, TotalLength, Obeys, AllObey;
      move := 1;
      if dist == 0 {
        var b := d.Ahead(0);
        ParsedLiteral(d.source, flushed, c.Tokens(), d.pos, b);
        LiteralObeys(flags, b);
        ObeyMore(flags, c.Tokens(), Literal(b));
        c.RecordLiteral(b);
      } else if flags.greedy || flags.rle || len >= 128 {
        ParsedMatch(d.source, flushed, c.Tokens(), d.pos, len, dist);
        ObeyMore(flags, c.Tokens(), Match(len, dist));
        c.RecordMatch(len, dist);
        move := len;
      } else {
        PutOff(dist, len);
      }
    }

    // ---------- one turn of the loop ----------

    /** The dictionary takes in input; what is parsed stays parsed. */
    method TakeIn(src: seq<byte>, from: nat) returns (n: nat)
      requires Valid() && from <= |src|
      modifies d, d.dict, d.next, d.hash
      ensures Valid() && d.dictSize <= DICT_SIZE - d.lookaheadSize
      ensures from + n <= |src| && d.source == old(d.source) + src[from..from + n]
      ensures d.lookaheadSize == old(d.lookaheadSize) + n && (from + n == |src| || d.lookaheadSize == MAX_MATCH)
    {
      hide LzCodes.Counted, LzCodes.Filled, Holds, Parsed, TotalLength, Repeats;
      ghost var source := d.source;
      n := d.Fill(src, from);
      ParsedMore(source, flushed, c.Tokens(), Upto(d.pos), src[from..from + n]);
      if savedLen > 0 { RepeatsMore(source, d.pos - 1, savedDist, savedLen, src[from..from + n]); }
    }

    method Decide(dist: nat, len: nat) returns (move: nat)
      requires Valid() && Candidate(dist, len) && d.lookaheadSize > 0 && d.dictSize <= DICT_SIZE - d.lookaheadSize
      requires c.codeEnd <= CODE_BUF_SIZE - 8
      modifies this`savedDist, this`savedLen, this`savedLit, c, c.buf, c.lit.count, c.dist.count
      ensures c.Valid() && c.codeEnd <= CODE_BUF_SIZE - 3
      ensures 1 <= move <= d.lookaheadSize && SavedAt(d.pos + move) && ParsedTo(d.pos + move)
    {
      hide *;
      if savedLen > 0 {
        move := DecideSaved(dist, len);
      } else {
        move := DecideFresh(dist, len);
      }
    }

    /** Search, decide, and move on. */
    method Step(maxProbes: nat, maxProbesLong: nat)
      requires Valid() && d.lookaheadSize > 0 && d.dictSize <= DICT_SIZE - d.lookaheadSize && maxProbes > 0
          && maxProbesLong > 0
      requires c.codeEnd <= CODE_BUF_SIZE - 8
      modifies this`savedDist, this`savedLen, this`savedLit, d, c, c.buf, c.lit.count, c.dist.count
      ensures Valid() && c.codeEnd <= CODE_BUF_SIZE - 3 && d.source == old(d.source)
      ensures d.lookaheadSize < old(d.lookaheadSize) && d.dictSize <= DICT_SIZE - d.lookaheadSize
    {
      hide LzCodes.Counted, LzCodes.Filled, Holds, Parsed, TotalLength, Repeats, LzCodes.Valid;
      var dist, len := Search(maxProbes, maxProbesLong);
      var move := Decide(dist, len);
      d.Advance(move);
    }

    /** A full flush forgets the dictionary. */
    method Forget()
      requires Valid()
      modifies d`dictSize, d.next, d.hash
      ensures Valid() && d.dictSize == 0
    {
      hide LzCodes.Counted, LzCodes.Filled, Holds, Parsed, TotalLength, Repeats;
      d.Forget();
    }

    // ---------- flushing ----------

    /** The pending data, in the window if the source's test says so. */
    lemma PendingInWindow()
      requires Valid() && d.dictSize <= DICT_SIZE - d.lookaheadSize
      ensures Pending(d.source[..flushed], c.Tokens(), d.source[flushed..Upto(d.pos)])
      ensures c.totalBytes == Upto(d.pos) - flushed
      ensures (d.lookaheadPos - blockPos) % 0x1_0000_0000 <= d.dictSize ==>
                |d.source[flushed..Upto(d.pos)]| <= DICT_SIZE
                    && InDict(d.dict[..], blockPos, d.source[flushed..Upto(d.pos)])
    {
      var s, ts, data := d.source[..flushed], c.Tokens(), d.source[flushed..Upto(d.pos)];
      assert d.source[..Upto(d.pos)] == s + data;
      PendingSize(s, ts);
      c.FewTokens();
      FewBytes(ts);
      if (d.lookaheadPos - blockPos) % 0x1_0000_0000 <= d.dictSize {
        NearDistance(d.pos, flushed);
        WindowData(d.dict[..], d.source, Oldest(d.pos, d.dictSize, |d.source|), flushed, Upto(d.pos));
      }
    }

    /** The output buffer is none of the other arrays. */
    lemma OutputApart()
      requires Valid()
      ensures d.dict != e.w.out && c.buf != e.w.out && c.lit.count as object != e.w.out
          && c.dist.count as object != e.w.out
      ensures d.next as object != e.w.out && d.hash as object != e.w.out
    {
    }

    lemma SourceLong()
      requires Valid()
      ensures flushed <= Upto(d.pos) <= |d.source|
    {
    }

    /** What the flush hands to tdefl_flush_block, and what it gets back. */
    method SendCodes(first: bool, flush: Flush, adler: nat)
      returns (bytes: seq<byte>, total: nat, ghost front: seq<bool>, ghost b: Block)
      requires Valid() && e.Valid() && d.dictSize <= DICT_SIZE - d.lookaheadSize && adler < 0x1_0000_0000
      requires e.w.end == OUT_BUF_END && e.w.Intact() && e.w.pos == 0
      modifies c, c.buf, e.w, e.Arrays()
      ensures total == Upto(d.pos) - flushed && d.dict[..] == old(d.dict[..]) && e.Valid() && c.Valid()
          && c.codeEnd == 1 && c.Tokens() == []
      ensures b.Shaped() && b.Valid(d.source[..flushed]) && b.Data(d.source[..flushed]) == d.source[..Upto(d.pos)]
      ensures Opening(flags.zlib && first, front) && BlockObeys(flags, b)
      ensures e.w.Intact() && e.w.pos == 0
      ensures BytesBits(bytes) + e.w.stream ==
          old(e.w.stream) + FlushBits(front, b, flush, |old(e.w.stream)|, flags.zlib, adler)
    {
      hide LzCodes.Counted, LzCodes.Filled, Holds, Parsed, TotalLength, InDict, Pending, FlushBits, Opening,
           BitWriter.Valid, Block.Valid, Block.Shaped, Block.Data, BytesBits, Closing, Repeats, Dictionary.Valid,
           Chosen, BlockObeys, AllObey, Block.ToBitString, AllValid, Obeys;
      PendingInWindow();
      total := c.totalBytes;
      SourceLong();
      ghost var s, upto := d.source[..flushed], Upto(d.pos);
      ghost var data := d.source[flushed..upto];
      assert s + data == d.source[..upto];
      var inWindow := (d.lookaheadPos - blockPos) % 0x1_0000_0000 <= d.dictSize;
      ghost var ts, at := c.Tokens(), |e.w.stream|;
      bytes, front, b := FlushBlock(c, e, d.dict, blockPos, inWindow, flags, first, flush, adler, s, data);
      ChosenObeys(flags, b, ts, data, at + |front| + 1, inWindow);
    }

    /** tdefl_flush_block, in the middle of a run or at its end. */
    method FlushCodes(first: bool, flush: Flush, adler: nat)
      returns (bytes: seq<byte>, ghost front: seq<bool>, ghost b: Block)
      requires Valid() && e.Valid() && d.dictSize <= DICT_SIZE - d.lookaheadSize && adler < 0x1_0000_0000
      requires e.w.end == OUT_BUF_END && e.w.Intact() && e.w.pos == 0
      modifies this`blockPos, this`flushed, c, c.buf, e.w, e.Arrays()
      ensures Valid() && e.Valid() && c.codeEnd == 1 && c.Tokens() == [] && flushed == Upto(d.pos)
      ensures old(flushed) <= |d.source| && flushed <= |d.source|
      ensures b.Shaped() && b.Valid(d.source[..old(flushed)]) && b.Data(d.source[..old(flushed)]) == d.source[..flushed]
      ensures Opening(flags.zlib && first, front) && BlockObeys(flags, b)
      ensures e.w.Intact() && e.w.pos == 0
      ensures BytesBits(bytes) + e.w.stream ==
          old(e.w.stream) + FlushBits(front, b, flush, |old(e.w.stream)|, flags.zlib, adler)
    {
      hide LzCodes.Counted, LzCodes.Filled, Holds, Parsed, TotalLength, FlushBits, Opening, BitWriter.Valid,
           Encoder.Valid, LzCodes.Valid, Block.Valid, Block.Shaped, Block.Data, BytesBits, Closing, Repeats, Apart,
           Dictionary.Valid, BlockObeys, AllObey, Obeys;
      SourceLong();
      DictApart();
      var total;
      bytes, total, front, b := SendCodes(first, flush, adler);
      MoveOn(total);
    }

    lemma DictApart()
      requires Valid()
      ensures d.dict != c.buf && d.dict as object !in e.Arrays() && d.dict as object != e.w
    {
    }

    /** Everything recorded has been sent. */
    method MoveOn(total: nat)
      requires Apart() && d.Valid() && c.Valid() && SavedAt(d.pos) && c.Tokens() == []
          && blockPos == flushed % 0x1_0000_0000
      requires flushed <= Upto(d.pos) <= |d.source| && total == Upto(d.pos) - flushed
      modifies this`blockPos, this`flushed
      ensures Valid() && flushed == Upto(d.pos)
    {
      hide LzCodes.Valid, Apart, Dictionary.Valid, Parsed;
      PosNext(flushed, total);
      AllParsed(d.source, Upto(d.pos));
      blockPos := (blockPos + total) % 0x1_0000_0000;
      flushed := Upto(d.pos);
    }
  }

  lemma AllParsed(source: seq<byte>, flushed: nat)
    requires flushed <= |source|
    ensures Parsed(source, flushed, [], flushed)
  {
  }

  lemma PendingSize(s: seq<byte>, ts: seq<Token>)
    requires AllValid(ts) && Feasible(s, ts)
    ensures |Expand(s, ts)| == |s| + TotalLength(ts)
  {
    ExpandLength(s, ts);
  }

  lemma {:induction false} FewBytes(ts: seq<Token>)
    requires AllValid(ts)
    ensures TotalLength(ts) <= 258 * |ts|
  {
    if ts != [] {
      assert ts[|ts| - 1] in ts;
      FewBytes(ts[..|ts| - 1]);
    }
  }

  /** Positions less than 2^32 apart: the 32-bit difference is the real one. */
  lemma NearDistance(pos: nat, flushed: nat)
    requires flushed <= pos < flushed + 0x1_0000_0000
    ensures (pos % 0x1_0000_0000 - flushed % 0x1_0000_0000) % 0x1_0000_0000 == pos - flushed
  {
    var a, b := pos / 0x1_0000_0000, flushed / 0x1_0000_0000;
    assert pos % 0x1_0000_0000 - flushed % 0x1_0000_0000 - (pos - flushed) == 0x1_0000_0000 * (b - a);
  }

  lemma WindowData(dict: seq<byte>, source: seq<byte>, lo: nat, from: nat, upto: nat)
    requires |dict| == DICT_SIZE + MIRROR && Holds(dict, source, lo) && lo <= from <= upto <= |source|
    ensures InDict(dict, from % 0x1_0000_0000, source[from..upto])
  {
    forall i: nat | i < upto - from ensures dict[(from % 0x1_0000_0000 + i) % DICT_SIZE] == source[from..upto][i] {
      assert Cell(dict, from + i, source[from + i]);
      SamePlace(from, i);
    }
  }

  lemma SamePlace(from: nat, i: nat)
    ensures (from % 0x1_0000_0000 + i) % DICT_SIZE == (from + i) % DICT_SIZE
  {
    IndexMod(from);
  }
}
