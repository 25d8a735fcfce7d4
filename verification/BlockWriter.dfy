/**
  tdefl_flush_block: the codes collected so far become a block, compressed, or stored when
  compressing would not make it smaller.
 */
module BlockWriter {
  import opened Bits
  import opened BitIO
  import opened Tokens
  import opened CodeBuffer
  import opened TokenWriter
  import opened Lz77
  import opened HuffmanEncoder
  import opened DynamicHeader
  import opened FixedCodes
  import opened Blocks
  import opened BlockSize
  import opened SymbolLists
  import MinRedundancy
  import Zlib

  const OUT_BUF_END: nat := 85180            // TDEFL_OUT_BUF_SIZE - 16

  // ---------- the counts suit the dynamic codes ----------

  lemma {:induction false} NeverUsed(ts: seq<Token>, s: nat)
    requires AllValid(ts)
    ensures s == 256 || s >= 286 ==> LitUses(ts, s) == 0
    ensures s >= 30 ==> DistUses(ts, s) == 0
  {
    if ts != [] { NeverUsed(ts[..|ts| - 1], s); }
  }

  lemma {:induction false} SumPrefix(s: seq<nat>, n: nat)
    requires n <= |s|
    ensures MinRedundancy.Sum(s[..n]) <= MinRedundancy.Sum(s)
  {
    if n > 0 {
      SumPrefix(s[1..], n - 1);
      assert s[..n][1..] == s[1..][..n - 1];
    }
  }

  lemma CountsSuit(c: LzCodes, e: Encoder, ts: seq<Token>)
    requires c.lit == e.lit && c.dist == e.dist && c.Apart() && AllValid(ts) && c.Counted(ts) && |ts| <= 58254
    ensures e.CountsFit() && e.lit.count[256] == 0 && MinRedundancy.Sum(e.lit.count[..MAX_SYMBOLS]) + 1 < 0x1_0000
  {
    hide LitUses, DistUses, MinRedundancy.Sum;
    forall s: nat | s < MAX_SYMBOLS
      ensures (s == 256 || s >= 286 ==> e.lit.count[s] == 0) && (s >= 30 ==> e.dist.count[s] == 0)
    {
      NeverUsed(ts, s);
    }
    Whole(e.lit);
    SumPrefix(e.dist.count[..], 32);
    assert e.dist.count[..][..32] == e.dist.count[..32];
  }

  /** Lengths built from the counts give every symbol of the tokens a code. */
  lemma CodesCover(ts: seq<Token>, litCount: seq<nat>, lit: seq<nat>, distCount: seq<nat>, dist: seq<nat>)
    requires AllValid(ts) && |litCount| == MAX_SYMBOLS && |distCount| == 32
    requires LengthsFor(litCount, lit, 15) && LengthsFor(distCount, dist, 15)
    requires forall s: nat :: s < MAX_SYMBOLS && s != 256 ==> litCount[s] == LitUses(ts, s)
    requires forall s: nat :: s < 32 ==> distCount[s] == DistUses(ts, s)
    requires litCount[256] == 1
    ensures Covers(lit, dist, ts)
  {
    hide LitUses, DistUses;
    forall i | 0 <= i < |ts| ensures Covered(lit, dist, ts[i]) {
      assert ts[i] in ts;
      UsedOnce(ts, i);
      assert litCount[LitSym(ts[i])] > 0;
      if ts[i].Match? { assert distCount[MatchSym(ts[i])] > 0; }
    }
  }

  lemma {:induction false} TokensSame(a: seq<nat>, b: seq<nat>, a': seq<nat>, b': seq<nat>, ts: seq<Token>)
    requires AllValid(ts)
    requires forall s: nat :: SymBits(a, s) == SymBits(a', s) && SymBits(b, s) == SymBits(b', s)
    ensures TokensBits(a, b, ts) == TokensBits(a', b', ts)
  {
    hide SymBits, LenSym, DistSym;
    if ts != [] { TokensSame(a, b, a', b', ts[1..]); }
  }

  /** Cutting trailing zeros off the lengths changes nothing that is sent. */
  lemma BodySame(lit: seq<nat>, dist: seq<nat>, n: nat, m: nat, ts: seq<Token>)
    requires AllValid(ts) && Trimmed(lit, n) && Trimmed(dist, m)
    ensures BodyBits(lit[..n], dist[..m], ts) == BodyBits(lit, dist, ts)
    ensures Covers(lit, dist, ts) ==> Covers(lit[..n], dist[..m], ts)
  {
    hide SymBits, TokensBits;
    TrimCode(lit, n);
    TrimCode(dist, m);
    TokensSame(lit[..n], dist[..m], lit, dist, ts);
  }

  // ---------- compressing a block ----------

  /** The tables counted into are those the codes are built from, and no two arrays are the same. */
  ghost predicate Paired(c: LzCodes, e: Encoder) {
    && c.lit == e.lit && c.dist == e.dist && c.Apart() && e.Apart()
    && c.buf as object != e.w.out && c.buf as object !in e.Arrays()
  }

  /** The codes of a dynamic block, and the header that says what they are. */
  method StartDynamic(c: LzCodes, e: Encoder, ghost ts: seq<Token>) returns (ghost h: Header)
    requires Paired(c, e) && e.Valid() && AllValid(ts) && c.Counted(ts) && |ts| <= 58254 && |Image(ts)| <= CODE_BUF_SIZE
    modifies e.w, e.Arrays()
    ensures e.Valid() && e.CodesReady() && h.Valid() && |BodyBits(h.lit, h.dist, ts)| <= 671516
    ensures Covers(h.lit, h.dist, ts) && Covers(e.lit.sizes[..MAX_SYMBOLS], e.dist.sizes[..32], ts)
    ensures BodyBits(h.lit, h.dist, ts) == BodyBits(e.lit.sizes[..MAX_SYMBOLS], e.dist.sizes[..32], ts)
    ensures e.w.stream == old(e.w.stream) + ToBits(2, 2) + h.ToBitString()
    ensures c.buf[..] == old(c.buf[..])
  {
    hide LitUses, DistUses, MinRedundancy.Sum, Acceptable, ToBits, Header.Valid, Header.ToBitString, TokensBits,
         SymBits, Covers, LengthsFor, BitWriter.Valid, Trimmed, Encoder.CodesReady, BodyBits, NearBest, Image;
    CountsSuit(c, e, ts);
    ghost var lc, dc := c.lit.count[..], c.dist.count[..];
    h := e.StartDynamicBlock();
    CoveredByCodes(c, e, lc, dc, h, ts);
    BodyFits(c, e, lc, dc, ts);
  }

  /** Codes near the best for the counts keep the block within the output buffer. */
  lemma BodyFits(c: LzCodes, e: Encoder, lc: seq<nat>, dc: seq<nat>, ts: seq<Token>)
    requires c.Apart() && e.Apart() && c.lit == e.lit && c.dist == e.dist && AllValid(ts)
        && |Image(ts)| <= CODE_BUF_SIZE
    requires |lc| == |dc| == MAX_SYMBOLS && e.lit.count[..] == lc[256 := 1] && e.dist.count[..] == dc
    requires forall s: nat :: s < MAX_SYMBOLS ==> lc[s] == LitUses(ts, s) && dc[s] == DistUses(ts, s)
    requires MinRedundancy.Sum(lc) == |ts| && MinRedundancy.Sum(dc) <= |ts|
    requires NearBest(e.lit.count[..MAX_SYMBOLS], e.lit.sizes[..MAX_SYMBOLS])
        && NearBest(e.dist.count[..32], e.dist.sizes[..32])
    ensures |BodyBits(e.lit.sizes[..MAX_SYMBOLS], e.dist.sizes[..32], ts)| <= 671516
  {
    hide LitUses, DistUses, MinRedundancy.Sum, NearBest, BodyBits, Image;
    NeverUsed(ts, 256);
    Whole(e.lit);
    assert lc == LitCount(ts) && e.dist.count[..32] == dc[..32] == DistCount(ts);
    CountOne(lc, 256);
    SumPrefix(dc, 32);
    DynamicFits(ts, e.lit.count[..MAX_SYMBOLS], e.lit.sizes[..MAX_SYMBOLS], e.dist.count[..32], e.dist.sizes[..32]);
  }

  lemma CoveredByCodes(c: LzCodes, e: Encoder, lc: seq<nat>, dc: seq<nat>, h: Header, ts: seq<Token>)
    requires c.Apart() && e.Apart() && c.lit == e.lit && c.dist == e.dist && AllValid(ts)
    requires |lc| == |dc| == MAX_SYMBOLS && e.lit.count[..] == lc[256 := 1] && e.dist.count[..] == dc
    requires forall s: nat :: s < MAX_SYMBOLS ==> lc[s] == LitUses(ts, s) && dc[s] == DistUses(ts, s)
    requires LengthsFor(e.lit.count[..MAX_SYMBOLS], e.lit.sizes[..MAX_SYMBOLS], 15)
    requires LengthsFor(e.dist.count[..32], e.dist.sizes[..32], 15)
    requires e.Describes(h)
    ensures Covers(h.lit, h.dist, ts) && Covers(e.lit.sizes[..MAX_SYMBOLS], e.dist.sizes[..32], ts)
    ensures BodyBits(h.lit, h.dist, ts) == BodyBits(e.lit.sizes[..MAX_SYMBOLS], e.dist.sizes[..32], ts)
  {
    hide LitUses, DistUses, SymBits, Covers, LengthsFor, BodyBits, Trimmed;
    var lit, dist := e.lit.sizes[..MAX_SYMBOLS], e.dist.sizes[..32];
    Whole(e.lit);
    assert e.dist.count[..32] == dc[..32];
    CodesCover(ts, lc[256 := 1], lit, dc[..32], dist);
    TrimmedSize(lit, |h.lit|);
    TrimmedSize(dist, |h.dist|);
    assert h.lit == lit[..|h.lit|] && h.dist == dist[..|h.dist|];
    BodySame(lit, dist, |h.lit|, |h.dist|, ts);
  }

  lemma TrimmedSize(lens: seq<nat>, n: nat)
    requires Trimmed(lens, n)
    ensures n <= |lens|
  {
  }

  lemma DynamicContent(h: Header, ts: seq<Token>, was: seq<bool>)
    requires h.Valid() && AllValid(ts)
    ensures |Dynamic(h, ts).Content(0)| <= 4551 + |BodyBits(h.lit, h.dist, ts)|
    ensures was + ToBits(2, 2) + h.ToBitString() + BodyBits(h.lit, h.dist, ts) ==
        was + ToBits(2, 2) + Dynamic(h, ts).Content(0)
  {
    hide ToBits, Header.ToBitString, BodyBits;
    var b, x, y := ToBits(2, 2), h.ToBitString(), BodyBits(h.lit, h.dist, ts);
    HeaderFits(h);
    JoinAssoc(was + b, x, y);
  }

  /** tdefl_start_dynamic_block and tdefl_compress_lz_codes. */
  method DynamicBlock(c: LzCodes, e: Encoder, end: nat, ghost ts: seq<Token>) returns (ghost h: Header)
    requires Paired(c, e) && e.Valid() && AllValid(ts) && c.Counted(ts) && |ts| <= 58254
    requires end <= CODE_BUF_SIZE && c.buf[..end] == Image(ts)
    modifies e.w, e.Arrays()
    ensures e.Valid() && h.Valid() && Covers(h.lit, h.dist, ts)
    ensures e.w.stream == old(e.w.stream) + ToBits(2, 2) + Dynamic(h, ts).Content(0)
    ensures |Dynamic(h, ts).Content(0)| <= 676067
    ensures c.buf[..] == old(c.buf[..])
  {
    hide Image, LitUses, DistUses, MinRedundancy.Sum, ToBits, Header.Valid, Header.ToBitString, BodyBits, Covers,
         LengthsFor, BitWriter.Valid, Encoder.CodesReady, Block.Content, LzCodes.Counted;
    h := StartDynamic(c, e, ts);
    assert c.buf[..end] == c.buf[..][..end] == old(c.buf[..])[..end];
    SendTokens(e, c.buf, end, ts);
    DynamicContent(h, ts, old(e.w.stream));
  }

  /** tdefl_start_static_block and tdefl_compress_lz_codes. */
  method StaticBlock(c: LzCodes, e: Encoder, end: nat, ghost ts: seq<Token>)
    requires Paired(c, e) && e.Valid() && AllValid(ts)
    requires end <= CODE_BUF_SIZE && c.buf[..end] == Image(ts)
    modifies e.w, e.Arrays()
    ensures e.Valid()
    ensures e.w.stream == old(e.w.stream) + ToBits(1, 2) + Fixed(ts).Content(0)
    ensures c.buf[..] == old(c.buf[..])
  {
    hide Image, ToBits, TokensBits, SymBits, Covers, FixedLit, FixedDist, BitWriter.Valid;
    FixedCovers(ts);
    StartStaticBlock(e);
    SendTokens(e, c.buf, end, ts);
  }

  /** tdefl_compress_block: what is sent is a block of the tokens, and it always fits. */
  method CompressBlock(c: LzCodes, e: Encoder, end: nat, static': bool, ghost ts: seq<Token>)
    returns (ok: bool, ghost b: Block)
    requires Paired(c, e) && e.Valid() && AllValid(ts) && (!static' ==> c.Counted(ts)) && |ts| <= 58254
    requires end <= CODE_BUF_SIZE && c.buf[..end] == Image(ts)
    requires e.w.end == OUT_BUF_END && |e.w.stream| <= 65
    modifies e.w, e.Arrays()
    ensures e.Valid() && ok && e.w.pos < e.w.end && |e.w.stream| <= 676134
    ensures b.Shaped() && Carries(b, ts) && (b.Fixed? <==> static')
    ensures e.w.stream == old(e.w.stream) + ToBits(b.Type(), 2) + b.Content(0)
    ensures c.buf[..] == old(c.buf[..])
  {
    hide Image, ToBits, TokensBits, SymBits, Covers, FixedLit, FixedDist, BitWriter.Valid, Block.Content, Header.Valid,
         LitUses, DistUses, MinRedundancy.Sum, BodyBits;
    if static' {
      StaticBlock(c, e, end, ts);
      b := Fixed(ts);
    } else {
      ghost var h := DynamicBlock(c, e, end, ts);
      b := Dynamic(h, ts);
    }
    SmallContent(b, 0);
    e.w.RoomLeft();
    ok := e.w.pos < e.w.end;
  }

  /** A compressed block made of these tokens. */
  ghost predicate Carries(b: Block, ts: seq<Token>)
    requires AllValid(ts)
  {
    match b
    case Stored(_, _) => false
    case Fixed(us) => us == ts
    case Dynamic(h, us) => us == ts && h.Valid() && Covers(h.lit, h.dist, ts)
  }

  // ---------- storing a block ----------

  /** The window still holds the n bytes of data from position from on. */
  ghost predicate InDict(dict: seq<byte>, from: nat, data: seq<byte>) {
    |dict| >= DICT_SIZE && forall i: nat :: i < |data| ==> dict[(from + i) % DICT_SIZE] == data[i]
  }

  /** The bytes of a stored block, out of the window. */
  method PutBytes(w: BitWriter, dict: array<byte>, from: nat, n: nat, ghost data: seq<byte>)
    requires w.Valid() && dict != w.out && InDict(dict[..], from, data) && n == |data|
    modifies w, w.out
    ensures w.Valid() && w.stream == old(w.stream) + BytesBits(data)
  {
    hide ToBits, BytesBits, BitWriter.Valid, Pow2;
    Pow2Table();
    var i := 0;
    NoBits();
    while i < n
      invariant i <= n && w.Valid() && w.stream == old(w.stream) + BytesBits(data[..i])
      invariant dict[..] == old(dict[..])
    {
      assert dict[..][(from + i) % DICT_SIZE] == data[i];
      BytesBitsPush(data[..i], data[i]);
      assert data[..i + 1] == data[..i] + [data[i]];
      w.Put(dict[(from + i) % DICT_SIZE], 8);
      i := i + 1;
    }
    assert data[..n] == data;
  }

  /** A stored block, from its type on: LEN, then the same with every bit flipped, then the bytes. */
  method StoreBlock(w: BitWriter, dict: array<byte>, from: nat, total: nat, ghost data: seq<byte>)
    requires w.Valid() && dict != w.out && InDict(dict[..], from, data) && total == |data| < 0x1_0000
    modifies w, w.out
    ensures w.Valid()
    ensures w.stream == old(w.stream) + ToBits(0, 2) + Stored(data, []).Content(|old(w.stream)| + 2)
  {
    hide ToBits, BytesBits, Pow2, BitWriter.Valid, InDict, Block.Content;
    SixteenBitsFit();
    w.Put(0, 2);
    ghost var st := w.stream;
    w.PadToByte();
    w.Put(total, 16);
    w.Put(0xFFFF - total, 16);
    PutBytes(w, dict, from, total, data);
    StoredContent(st, data);
  }

  lemma SixteenBitsFit()
    ensures Pow2(16) == 0x1_0000 && Pow2(2) == 4
  {
    Pow2Table();
    Pow2Add(8, 8);
  }

  lemma StoredContent(st: seq<bool>, data: seq<byte>)
    requires |data| < 0x1_0000
    ensures st + ToBits(0, Padding(|st|)) + ToBits(|data|, 16) + ToBits(0xFFFF - |data|, 16) + BytesBits(data) ==
        st + Stored(data, []).Content(|st|)
  {
    StoredForm(|st|, data);
    hide ToBits, BytesBits, Padding, StoredBits, Block.Content;
    var a, b, c, d := ToBits(0, Padding(|st|)), ToBits(|data|, 16), ToBits(0xFFFF - |data|, 16), BytesBits(data);
    JoinAssoc(st, a, b);
    JoinAssoc(st, a + b, c);
    JoinAssoc(st, a + b + c, d);
    JoinAssoc(a, b, c);
    JoinAssoc(a, b + c, d);
  }

  lemma StoredForm(pos: nat, data: seq<byte>)
    requires |data| < 0x1_0000
    ensures Stored(data, []).Content(pos) == ToBits(0, Padding(pos))
        + (ToBits(|data|, 16) + ToBits(0xFFFF - |data|, 16) + BytesBits(data))
  {
    hide ToBits, BytesBits, Padding;
    FilledZero(Padding(pos));
  }

  // ---------- choosing the form of a block ----------

  /**
    Compressing gains something: the bytes that the block fills, behind the at bits of the stream in
    front of its type, and one more are fewer than the n bytes it stands for.
   */
  ghost predicate Gains(at: nat, c: Block, n: nat)
    requires c.Shaped()
  {
    n == 0 || (at + 2 + |c.Content(0)|) / 8 - at / 8 + 1 < n
  }

  /** A compressed block of the form that is tried: fixed codes when they are asked for or there is little data. */
  ghost predicate Tried(c: Block, ts: seq<Token>, forceStatic: bool, n: nat)
    requires AllValid(ts)
  {
    c.Shaped() && Carries(c, ts) && (c.Fixed? <==> forceStatic || n < 48)
  }

  /**
    Which form is chosen: a stored block when the data is still in the window and either raw blocks
    are asked for or compressing gains nothing; else what compressing has made of it.
   */
  ghost predicate Chosen(b: Block, ts: seq<Token>, data: seq<byte>, at: nat, inWindow: bool, forceRaw: bool,
                         forceStatic: bool)
    requires AllValid(ts)
  {
    if b.Stored? then
      && inWindow && b == Stored(data, [])
      && (forceRaw || exists c: Block :: Tried(c, ts, forceStatic, |data|) && !Gains(at, c, |data|))
    else Tried(b, ts, forceStatic, |data|) && (inWindow ==> !forceRaw && Gains(at, b, |data|))
  }

  /** So no block takes much more than the data itself, as long as that is in the window. */
  lemma ChosenSmall(b: Block, s: seq<byte>, ts: seq<Token>, data: seq<byte>, pos: nat, last: bool, forceRaw: bool,
                    forceStatic: bool)
    requires Pending(s, ts, data) && b.Shaped() && Chosen(b, ts, data, pos + 1, true, forceRaw, forceStatic)
    ensures |b.ToBitString(pos, last)| <= 8 * |data| + 42
  {
    hide ToBits, BodyBits, Header.ToBitString, FixedLit, FixedDist, Expand, Feasible, Covers, BytesBits;
    ExpandLength(s, ts);
    if !b.Stored? {
      if data == [] {
        if ts != [] { SomeLength(ts); }
        EmptyFixed();
      } else {
        SameContent(b, pos + 3);
        FewBits(pos + 1, |b.Content(0)|, |data|);
      }
    }
  }

  lemma SameContent(b: Block, pos: nat)
    requires b.Shaped() && !b.Stored?
    ensures b.Content(pos) == b.Content(0)
  {
    hide ToBits, BodyBits, Header.ToBitString, FixedLit, FixedDist;
  }

  lemma FewBits(at: nat, c: nat, n: nat)
    requires (at + 2 + c) / 8 - at / 8 + 1 < n
    ensures 3 + c <= 8 * n
  {
  }

  lemma SomeLength(ts: seq<Token>)
    requires AllValid(ts) && ts != []
    ensures TotalLength(ts) > 0
  {
    assert ts[|ts| - 1] in ts;
  }

  lemma EmptyFixed()
    ensures |BodyBits(FixedLit(), FixedDist(), [])| == 7
  {
    hide FixedLit, FixedDist;
    FixedAt();
  }

  /** What the codes collected since the last flush stand for, after the data s. */
  ghost predicate Pending(s: seq<byte>, ts: seq<Token>, data: seq<byte>) {
    AllValid(ts) && Feasible(s, ts) && Expand(s, ts) == s + data
  }

  lemma {:induction false} ExpandLength(s: seq<byte>, ts: seq<Token>)
    requires AllValid(ts) && Feasible(s, ts)
    ensures |Expand(s, ts)| == |s| + TotalLength(ts)
  {
    if ts != [] { ExpandLength(s, ts[..|ts| - 1]); }
  }

  lemma PendingValid(s: seq<byte>, ts: seq<Token>, data: seq<byte>)
    requires Pending(s, ts, data)
    ensures AllValid(ts)
  {
  }

  lemma CarriedTokens(b: Block, ts: seq<Token>)
    requires AllValid(ts) && Carries(b, ts)
    ensures !b.Stored? && b.ts == ts
  {
  }

  lemma CarriedData(b: Block, s: seq<byte>, ts: seq<Token>, data: seq<byte>)
    requires Pending(s, ts, data) && Carries(b, ts)
    ensures b.Valid(s) && b.Data(s) == s + data
  {
  }

  lemma BitsOfBlock(b: Block, st: seq<bool>, last: bool)
    requires b.Shaped()
    ensures b.Stored? ==>
              (st + ToBits(if last then 1 else 0, 1)) + ToBits(0, 2) + b.Content(|st| + 3) ==
                  st + b.ToBitString(|st|, last)
    ensures !b.Stored? ==>
              (st + ToBits(if last then 1 else 0, 1)) + ToBits(b.Type(), 2) + b.Content(0) ==
                  st + b.ToBitString(|st|, last)
  {
    hide ToBits, StoredBits, BodyBits, Header.ToBitString, FixedLit, FixedDist, Header.Valid;
    var f, t, c := ToBits(if last then 1 else 0, 1), ToBits(b.Type(), 2), b.Content(|st| + 3);
    JoinAssoc(st, f, t);
    JoinAssoc(st, f + t, c);
  }

  /** The longest a stored block or one with the fixed codes can get. */
  lemma SmallContent(b: Block, pos: nat)
    requires b.Shaped()
    ensures b.Stored? && |b.bytes| <= DICT_SIZE ==> |b.Content(pos)| <= 7 + 32 + 8 * DICT_SIZE
    ensures b.Fixed? && |Image(b.ts)| <= CODE_BUF_SIZE ==> |b.Content(pos)| <= 650124
  {
    hide FixedLit, FixedDist, TokensBits, Image;
    if b.Fixed? && |Image(b.ts)| <= CODE_BUF_SIZE { FixedFits(b.ts); }
  }

  /** Back to the mark, and a stored block. */
  method StoreInstead(e: Encoder, mark: Mark, dict: array<byte>, dictPos: nat, total: nat, ghost st: seq<bool>,
                      ghost data: seq<byte>)
    requires e.Valid() && dict != e.w.out && InDict(dict[..], dictPos, data) && total == |data| <= DICT_SIZE
    requires e.w.end == OUT_BUF_END && mark.Of(st) && mark.pos <= e.w.end && st <= e.w.stream && |st| <= 65
    modifies e.w, e.w.out
    ensures e.Valid() && e.w.pos < e.w.end && |e.w.stream| <= 676134
    ensures e.w.stream == st + ToBits(0, 2) + Stored(data, []).Content(|st| + 2)
  {
    hide ToBits, BytesBits, BitWriter.Valid, Block.Content, InDict, Pow2;
    e.w.Rewind(mark, st);
    StoreBlock(e.w, dict, dictPos, total, data);
    SmallContent(Stored(data, []), |st| + 2);
    e.w.RoomLeft();
  }

  /**
    The heart of tdefl_flush_block: try to compress; if that gains nothing and the data is still
    in the window, or if raw blocks are asked for, store it instead. Whatever is chosen is a block
    with exactly the pending data, and it fits.
   */
  method EncodeBlock(c: LzCodes, e: Encoder, end: nat, dict: array<byte>, dictPos: nat, inWindow: bool, forceRaw: bool,
                     forceStatic: bool, last: bool, ghost s: seq<byte>, ghost ts: seq<Token>, ghost data: seq<byte>)
    returns (ghost b: Block)
    requires Paired(c, e) && e.Valid() && dict != e.w.out && dict as object !in e.Arrays()
    requires Pending(s, ts, data) && c.Counted(ts) && |ts| <= 58254 && c.totalBytes == |data|
    requires end <= CODE_BUF_SIZE && c.buf[..end] == Image(ts)
    requires inWindow ==> |data| <= DICT_SIZE && InDict(dict[..], dictPos, data)
    requires e.w.end == OUT_BUF_END && e.w.Intact() && |e.w.stream| <= 64
    modifies e.w, e.Arrays()
    ensures e.Valid() && e.w.pos < e.w.end && e.w.Intact() && |e.w.stream| <= 676134
    ensures b.Valid(s) && b.Shaped() && b.Data(s) == s + data
    ensures AllValid(ts) && Chosen(b, ts, data, |old(e.w.stream)| + 1, inWindow, forceRaw, forceStatic)
    ensures e.w.stream == old(e.w.stream) + b.ToBitString(|old(e.w.stream)|, last)
    ensures dict[..] == old(dict[..])
  {
    hide Image, ToBits, BytesBits, TokensBits, BodyBits, Covers, FixedLit, FixedDist, BitWriter.Valid, Block.Content,
         Block.ToBitString, Header.Valid, LitUses, DistUses, MinRedundancy.Sum, Expand, Feasible, InDict, Pow2,
         LzCodes.Counted, Carries, Pending, AllValid, Chosen, Gains, Tried, Block.Valid, Block.Shaped, Block.Data;
    ghost var st0 := e.w.stream;
    PendingValid(s, ts, data);
    var useRaw := forceRaw && inWindow;
    var mark, ok;
    ghost var made;
    mark, ok, made := TryBlock(c, e, end, dict, useRaw, forceStatic, last, ts);
    ghost var st1 := st0 + ToBits(if last then 1 else 0, 1);
    b := KeepOrReplace(c, e, end, mark, dict, dictPos, inWindow, useRaw, ok, st1, ts, data, made);
    ChoiceMade(b, made, ts, data, |st1|, inWindow, forceRaw, forceStatic);
    BitsOfBlock(b, st0, last);
    StoredWhole(s, data);
    if !b.Stored? { CarriedData(b, s, ts, data); }
  }

  lemma StoredWhole(s: seq<byte>, data: seq<byte>)
    ensures |data| < 0x1_0000 ==> Stored(data, []).Valid(s) && Stored(data, []).Data(s) == s + data
    ensures Stored(data, []).Shaped() ==> |data| < 0x1_0000
  {
  }

  /** The mark of the last block, and, unless a raw block is asked for, the block as it is compressed. */
  method TryBlock(c: LzCodes, e: Encoder, end: nat, dict: array<byte>, useRaw: bool, forceStatic: bool, last: bool,
                  ghost ts: seq<Token>)
    returns (mark: Mark, ok: bool, ghost made: Block)
    requires Paired(c, e) && e.Valid() && dict != e.w.out && dict as object !in e.Arrays()
    requires AllValid(ts) && c.Counted(ts) && |ts| <= 58254 && end <= CODE_BUF_SIZE && c.buf[..end] == Image(ts)
    requires e.w.end == OUT_BUF_END && e.w.Intact() && |e.w.stream| <= 64
    modifies e.w, e.Arrays()
    ensures e.Valid() && e.w.end == OUT_BUF_END
    ensures var st := old(e.w.stream) + ToBits(if last then 1 else 0, 1);
            && mark.Of(st) && mark.pos <= e.w.end && |st| <= 65
            && if useRaw then st == e.w.stream && mark.pos == e.w.pos
               else && made.Shaped() && Carries(made, ts) && ok && e.w.pos < e.w.end && |e.w.stream| <= 676134
                    && e.w.stream == st + ToBits(made.Type(), 2) + made.Content(0)
    ensures !useRaw ==> Tried(made, ts, forceStatic, c.totalBytes)
    ensures dict[..] == old(dict[..]) && c.buf[..] == old(c.buf[..])
  {
    hide Image, ToBits, BytesBits, TokensBits, BodyBits, Covers, FixedLit, FixedDist, BitWriter.Valid, Block.Content,
         Block.ToBitString, Header.Valid, LitUses, DistUses, MinRedundancy.Sum, LzCodes.Counted, Carries, AllValid,
         Tried, Pow2;
    mark := StartBlock(c, e, dict, last, ts);
    ok, made := false, Stored([], []);
    if !useRaw {
      ok, made := CompressBlock(c, e, end, forceStatic || c.totalBytes < 48, ts);
      FormTried(made, ts, forceStatic, c.totalBytes);
    }
  }

  lemma FormTried(b: Block, ts: seq<Token>, forceStatic: bool, n: nat)
    requires AllValid(ts) && b.Shaped() && Carries(b, ts) && (b.Fixed? <==> forceStatic || n < 48)
    ensures Tried(b, ts, forceStatic, n)
  {
  }

  lemma ChoiceMade(b: Block, made: Block, ts: seq<Token>, data: seq<byte>, at: nat, inWindow: bool, forceRaw: bool,
                   forceStatic: bool)
    requires AllValid(ts)
    requires (forceRaw && inWindow) || Tried(made, ts, forceStatic, |data|)
    requires b == if inWindow && (forceRaw || !Gains(at, made, |data|)) then Stored(data, []) else made
    ensures Chosen(b, ts, data, at, inWindow, forceRaw, forceStatic)
  {
    hide Gains, Block.Shaped, Block.Content;
  }

  /** The bit that says whether the block is the last, and a mark behind it. */
  method StartBlock(c: LzCodes, e: Encoder, dict: array<byte>, last: bool, ghost ts: seq<Token>) returns (mark: Mark)
    requires Paired(c, e) && e.Valid() && dict != e.w.out && AllValid(ts) && c.Counted(ts) && e.w.end == OUT_BUF_END
        && e.w.Intact() && |e.w.stream| <= 64
    modifies e.w, e.w.out
    ensures e.Valid() && e.w.stream == old(e.w.stream) + ToBits(if last then 1 else 0, 1) && |e.w.stream| <= 65
    ensures mark.Of(e.w.stream) && mark.pos == e.w.pos <= e.w.end && e.w.end == OUT_BUF_END
    ensures c.buf[..] == old(c.buf[..]) && dict[..] == old(dict[..]) && c.Counted(ts)
  {
    hide ToBits, BytesBits, BitWriter.Valid, LzCodes.Counted, Pow2;
    BitFits();
    e.w.Put(if last then 1 else 0, 1);
    e.w.RoomLeft();
    mark := e.w.Save();
  }

  lemma BitFits()
    ensures Pow2(1) == 2
  {
  }

  /**
    What CompressBlock has made of the codes stays, unless it gains nothing. The source also has a
    branch for a block that does not fit the output buffer, which it calls extremely unlikely, if
    not impossible: it is impossible.
   */
  method KeepOrReplace(c: LzCodes, e: Encoder, end: nat, mark: Mark, dict: array<byte>, dictPos: nat, inWindow: bool,
                       useRaw: bool, ok: bool, ghost st: seq<bool>, ghost ts: seq<Token>, ghost data: seq<byte>,
                       ghost made: Block) returns (ghost b: Block)
    requires Paired(c, e) && e.Valid() && dict != e.w.out && dict as object !in e.Arrays()
    requires AllValid(ts) && |ts| <= 58254 && c.totalBytes == |data| && end <= CODE_BUF_SIZE
        && c.buf[..end] == Image(ts)
    requires inWindow ==> |data| <= DICT_SIZE && InDict(dict[..], dictPos, data)
    requires e.w.end == OUT_BUF_END && mark.Of(st) && mark.pos <= e.w.end && |st| <= 65
    requires if useRaw then inWindow && st == e.w.stream && mark.pos == e.w.pos
             else && made.Shaped() && Carries(made, ts) && ok && e.w.pos < e.w.end && |e.w.stream| <= 676134
                  && e.w.stream == st + ToBits(made.Type(), 2) + made.Content(0)
    modifies e.w, e.Arrays()
    ensures e.Valid() && e.w.pos < e.w.end && e.w.Intact() && |e.w.stream| <= 676134
    ensures b.Shaped() && if b.Stored? then b == Stored(data, []) else Carries(b, ts)
    ensures b == if useRaw || (inWindow && !Gains(|st|, made, |data|)) then Stored(data, []) else made
    ensures e.w.stream == st + ToBits(b.Type(), 2) + b.Content(if b.Stored? then |st| + 2 else 0)
    ensures dict[..] == old(dict[..])
  {
    hide Image, ToBits, BytesBits, TokensBits, BodyBits, Covers, FixedLit, FixedDist, BitWriter.Valid, Block.Content,
         Block.ToBitString, Header.Valid, LitUses, DistUses, MinRedundancy.Sum, Expand, Feasible, InDict, Pow2,
         LzCodes.Counted, Carries, AllValid;
    b := made;
    if !useRaw {
      CarriedTokens(made, ts);
      GainsCounted(e.w, mark, st, made, c.totalBytes);
    }
    if (useRaw || (c.totalBytes > 0 && e.w.pos - mark.pos + 1 >= c.totalBytes)) && inWindow {
      b := Stored(data, []);
      StoreInstead(e, mark, dict, dictPos, c.totalBytes, st, data);
    } else {
      assert ok;
      CarriedTokens(b, ts);
    }
    e.w.RoomLeft();
  }

  /** What the source compares is how many bytes the block has filled. */
  lemma GainsCounted(w: BitWriter, mark: Mark, st: seq<bool>, made: Block, n: nat)
    requires w.Valid() && w.pos < w.end && mark.Of(st) && made.Shaped() && !made.Stored?
    requires w.stream == st + ToBits(made.Type(), 2) + made.Content(0)
    ensures Gains(|st|, made, n) <==> !(n > 0 && w.pos - mark.pos + 1 >= n)
  {
    hide ToBits, Block.Content, Block.Shaped, BytesBits;
    w.RoomLeft();
    FilledBytes(w.pos, w.bitsIn);
    FilledBytes(mark.pos, mark.bitsIn);
  }

  lemma FilledBytes(pos: nat, bitsIn: nat)
    requires bitsIn < 8
    ensures (8 * pos + bitsIn) / 8 == pos
  {
  }

  // ---------- the whole flush ----------

  datatype Flush = NoFlush | SyncFlush | FullFlush | Finish

  /** What goes in front of the first block of a zlib stream. */
  ghost predicate Opening(zlib: bool, bits: seq<bool>) {
    if zlib then exists flg: byte :: bits == ToBits(Zlib.CMF, 8) + ToBits(flg, 8) && ZlibFlags(flg) else bits == []
  }

  ghost predicate ZlibFlags(flg: byte) {
    Zlib.HeaderAccepted(Zlib.CMF, flg, false, 0) && forall size: nat :: 32768 <= size ==>
        Zlib.HeaderAccepted(Zlib.CMF, flg, true, size)
  }

  /** What follows the last block: the padding of its last byte, and the checksum of a zlib stream. */
  function Closing(pos: nat, zlib: bool, adler: nat): seq<bool>
    requires adler < 0x1_0000_0000
  {
    ToBits(0, Padding(pos)) + if zlib then Zlib.BigEndianBits(adler) else []
  }

  /** The blocks a flush adds: the data, and after it an empty stored block when the output is to end on a byte. */
  function Flushed(b: Block, flush: Flush): seq<Block> {
    if flush.SyncFlush? || flush.FullFlush? then [b, Stored([], [])] else [b]
  }

  /** An empty stored block, as a sync or full flush writes it. */
  method EmptyBlock(w: BitWriter)
    requires w.Valid()
    modifies w, w.out
    ensures w.Valid() && w.stream == old(w.stream) + Stored([], []).ToBitString(|old(w.stream)|, false)
    ensures |w.stream| <= |old(w.stream)| + 42
  {
    hide ToBits, BytesBits, Pow2, BitWriter.Valid, Block.Content, Block.ToBitString;
    Pow2Table();
    SixteenBitsFit();
    ghost var st := w.stream;
    w.Put(0, 3);
    ghost var st3 := w.stream;
    w.PadToByte();
    w.Put(0, 16);
    w.Put(0xFFFF, 16);
    NoBits();
    assert w.stream + [] == w.stream;
    StoredContent(st3, []);
    ThreeZeros(st);
    BitsOfBlock(Stored([], []), st, false);
  }

  lemma ThreeZeros(st: seq<bool>)
    ensures st + ToBits(0, 3) == (st + ToBits(0, 1)) + ToBits(0, 2)
  {
    ToBitsSplit(0, 1, 2);
    assert Shr(0, 1) == 0;
  }

  /** The end of a flush. */
  method WriteEnd(w: BitWriter, flush: Flush, zlib: bool, adler: nat)
    requires w.Valid() && adler < 0x1_0000_0000
    modifies w, w.out
    ensures w.Valid() && |w.stream| <= |old(w.stream)| + 60 && (flush.NoFlush? ==> w.pos == old(w.pos))
    ensures w.stream == old(w.stream)
              + (match flush
                 case NoFlush => []
                 case Finish => Closing(|old(w.stream)|, zlib, adler)
                 case _ => Stored([], []).ToBitString(|old(w.stream)|, false))
  {
    hide ToBits, BytesBits, BitWriter.Valid, Block.ToBitString, Zlib.BigEndianBits;
    match flush {
      case NoFlush =>
        assert w.stream + [] == w.stream;
      case Finish =>
        w.PadToByte();
        if zlib {
          Zlib.WriteChecksum(w, adler);
        }
      case _ =>
        EmptyBlock(w);
    }
  }

  /** The flags of a compressor that matter here; probes is the number of probes asked for. */
  datatype Flags = Flags(zlib: bool, forceRaw: bool, forceStatic: bool, rle: bool, filter: bool, greedy: bool,
      probes: nat)

  /** All the bits of a flush. */
  ghost function FlushBits(front: seq<bool>, b: Block, flush: Flush, pos: nat, zlib: bool, adler: nat): seq<bool>
    requires b.Shaped() && adler < 0x1_0000_0000
  {
    var blocks := AllBits(Flushed(b, flush), pos + |front|, flush.Finish?);
    front + blocks + if flush.Finish? then Closing(pos + |front| + |blocks|, zlib, adler) else []
  }

  lemma FlushedBits(front: seq<bool>, b: Block, flush: Flush, st: seq<bool>, zlib: bool, adler: nat)
    requires b.Shaped() && adler < 0x1_0000_0000
    ensures var one := (st + front) + b.ToBitString(|st + front|, flush.Finish?);
            one + (match flush
                   case NoFlush => []
                   case Finish => Closing(|one|, zlib, adler)
                   case _ => Stored([], []).ToBitString(|one|, false))
            == st + FlushBits(front, b, flush, |st|, zlib, adler)
  {
    hide Block.ToBitString, Block.Shaped, Closing, AllBits, AllShaped;
    EmptyShaped();
    var x := b.ToBitString(|st + front|, flush.Finish?);
    var one := (st + front) + x;
    JoinAssoc(st, front, x);
    OneBlock(b, |st| + |front|, flush.Finish?);
    match flush
    case NoFlush =>
      JoinNothing(one);
      JoinNothing(front + x);
    case Finish =>
      JoinAssoc(st, front + x, Closing(|one|, zlib, adler));
    case _ =>
      var y := Stored([], []).ToBitString(|one|, false);
      TwoBlocks(b, Stored([], []), |st| + |front|);
      JoinAssoc(st, front + x, y);
      JoinAssoc(front, x, y);
      JoinNothing(front + (x + y));
  }

  lemma EmptyShaped()
    ensures Stored([], []).Shaped()
  {
  }

  lemma OneBlock(b: Block, pos: nat, last: bool)
    requires b.Shaped()
    ensures AllShaped([b]) && AllBits([b], pos, last) == b.ToBitString(pos, last)
  {
    hide Block.ToBitString, Block.Shaped;
    assert [b][1..] == [];
    JoinNothing(b.ToBitString(pos, last));
  }

  lemma TwoBlocks(b: Block, c: Block, pos: nat)
    requires b.Shaped() && c.Shaped()
    ensures AllShaped([b, c]) && AllBits([b, c], pos, false) ==
        b.ToBitString(pos, false) + c.ToBitString(pos + |b.ToBitString(pos, false)|, false)
  {
    hide Block.ToBitString, Block.Shaped;
    assert [b, c][1..] == [c];
    OneBlock(c, pos + |b.ToBitString(pos, false)|, false);
  }

  /** The zlib header goes in front of the first block. */
  method WriteFront(w: BitWriter, zlib: bool, probes: nat) returns (ghost front: seq<bool>)
    requires w.Valid()
    modifies w, w.out
    ensures w.Valid() && w.stream == old(w.stream) + front && Opening(zlib, front) && |front| <= 16
  {
    hide ToBits, BitWriter.Valid, Zlib.HeaderAccepted;
    front := [];
    assert w.stream + [] == w.stream;
    if zlib {
      ghost var flg := Zlib.WriteHeader(w, probes);
      front := ToBits(Zlib.CMF, 8) + ToBits(flg, 8);
      assert ZlibFlags(flg);
    }
  }

  /** Everything a flush writes: what goes in front, the block, and the end. */
  method WriteFlush(c: LzCodes, e: Encoder, dict: array<byte>, dictPos: nat, inWindow: bool, flags: Flags, first: bool,
                    flush: Flush, adler: nat, end: nat, ghost s: seq<byte>, ghost ts: seq<Token>, ghost data: seq<byte>)
    returns (ghost front: seq<bool>, ghost b: Block)
    requires Paired(c, e) && e.Valid() && dict != e.w.out && dict as object !in e.Arrays()
    requires Pending(s, ts, data) && c.Counted(ts) && |ts| <= 58254 && c.totalBytes == |data| && adler < 0x1_0000_0000
    requires end <= CODE_BUF_SIZE && c.buf[..end] == Image(ts)
    requires inWindow ==> |data| <= DICT_SIZE && InDict(dict[..], dictPos, data)
    requires e.w.end == OUT_BUF_END && e.w.Intact() && e.w.pos == 0
    modifies e.w, e.Arrays()
    ensures e.Valid() && dict[..] == old(dict[..])
    ensures b.Valid(s) && b.Shaped() && b.Data(s) == s + data && Opening(flags.zlib && first, front)
    ensures AllValid(ts) && Chosen(b, ts, data, |old(e.w.stream)| + |front| + 1, inWindow, flags.forceRaw,
                flags.forceStatic)
    ensures e.w.stream == old(e.w.stream) + FlushBits(front, b, flush, |old(e.w.stream)|, flags.zlib, adler)
    ensures e.w.pos < e.w.end
  {
    hide Image, ToBits, BytesBits, BitWriter.Valid, Block.Content, Block.ToBitString, Block.Valid, Block.Shaped,
         Block.Data, Expand, Feasible, InDict, Pow2, LzCodes.Counted, Closing, FlushBits, Opening, Chosen;
    ghost var st := e.w.stream;
    e.w.RoomLeft();
    front := WriteFront(e.w, flags.zlib && first, flags.probes);
    e.w.RoomLeft();
    assert c.buf[..end] == Image(ts);
    b := BlockAndEnd(c, e, dict, dictPos, inWindow, flags, flush, adler, end, s, ts, data);
    FlushedBits(front, b, flush, st, flags.zlib, adler);
  }

  method BlockAndEnd(c: LzCodes, e: Encoder, dict: array<byte>, dictPos: nat, inWindow: bool, flags: Flags,
                     flush: Flush, adler: nat, end: nat, ghost s: seq<byte>, ghost ts: seq<Token>,
                     ghost data: seq<byte>)
    returns (ghost b: Block)
    requires Paired(c, e) && e.Valid() && dict != e.w.out && dict as object !in e.Arrays()
    requires Pending(s, ts, data) && c.Counted(ts) && |ts| <= 58254 && c.totalBytes == |data| && adler < 0x1_0000_0000
    requires end <= CODE_BUF_SIZE && c.buf[..end] == Image(ts)
    requires inWindow ==> |data| <= DICT_SIZE && InDict(dict[..], dictPos, data)
    requires e.w.end == OUT_BUF_END && e.w.Intact() && |e.w.stream| <= 64
    modifies e.w, e.Arrays()
    ensures e.Valid() && dict[..] == old(dict[..]) && e.w.pos < e.w.end
    ensures b.Valid(s) && b.Shaped() && b.Data(s) == s + data
    ensures AllValid(ts) && Chosen(b, ts, data, |old(e.w.stream)| + 1, inWindow, flags.forceRaw, flags.forceStatic)
    ensures var one := old(e.w.stream) + b.ToBitString(|old(e.w.stream)|, flush.Finish?);
            e.w.stream == one
                + (match flush
                   case NoFlush => []
                   case Finish => Closing(|one|, flags.zlib, adler)
                   case _ => Stored([], []).ToBitString(|one|, false))
  {
    hide Image, ToBits, BytesBits, BitWriter.Valid, Block.Content, Block.ToBitString, Block.Valid, Block.Shaped,
         Block.Data, Expand, Feasible, InDict, Pow2, LzCodes.Counted, Closing, Chosen;
    b := EncodeBlock(c, e, end, dict, dictPos, inWindow, flags.forceRaw, flags.forceStatic, flush.Finish?, s, ts, data);
    WriteEnd(e.w, flush, flags.zlib, adler);
    e.w.RoomLeft();
  }

  /**
    tdefl_flush_block. The bytes handed out, and the bits still buffered, are those of a block
    with exactly the pending data, with whatever has to stand in front of it and behind it. The
    output buffer is always large enough, as the source asserts.
   */
  method FlushBlock(c: LzCodes, e: Encoder, dict: array<byte>, dictPos: nat, inWindow: bool, flags: Flags, first: bool,
                    flush: Flush, adler: nat, ghost s: seq<byte>, ghost data: seq<byte>)
    returns (bytes: seq<byte>, ghost front: seq<bool>, ghost b: Block)
    requires Paired(c, e) && e.Valid() && c.Valid() && dict != e.w.out && dict as object !in e.Arrays() && dict != c.buf
    requires Pending(s, c.Tokens(), data) && adler < 0x1_0000_0000
    requires inWindow ==> |data| <= DICT_SIZE && InDict(dict[..], dictPos, data)
    requires e.w.end == OUT_BUF_END && e.w.Intact() && e.w.pos == 0
    modifies c, c.buf, e.w, e.Arrays()
    ensures Paired(c, e) && e.Valid() && c.Valid() && c.Tokens() == [] && dict[..] == old(dict[..])
    ensures c.codeEnd == 1 && c.flagsLeft == 8
    ensures b.Valid(s) && b.Shaped() && b.Data(s) == s + data && Opening(flags.zlib && first, front)
    ensures AllValid(old(c.Tokens()))
        && Chosen(b, old(c.Tokens()), data, |old(e.w.stream)| + |front| + 1, inWindow, flags.forceRaw,
               flags.forceStatic)
    ensures inWindow ==> |b.ToBitString(|old(e.w.stream)| + |front|, flush.Finish?)| <= 8 * |data| + 42
    ensures e.w.Intact() && e.w.pos == 0
    ensures BytesBits(bytes) + e.w.stream ==
        old(e.w.stream) + FlushBits(front, b, flush, |old(e.w.stream)|, flags.zlib, adler)
  {
    hide Image, ToBits, BytesBits, BitWriter.Valid, Block.Content, Block.ToBitString, Block.Valid, Block.Shaped,
         Block.Data, Expand, Feasible, InDict, Pow2, LzCodes.Counted, LzCodes.Filled, Closing, FlushBits, Opening,
         TotalLength, Chosen;
    ghost var st, ts := e.w.stream, c.Tokens();
    ExpandLength(s, ts);
    c.FewTokens();
    var end := c.Close();
    front, b := WriteFlush(c, e, dict, dictPos, inWindow, flags, first, flush, adler, end, s, ts, data);
    if inWindow {
      ChosenSmall(b, s, ts, data, |st| + |front|, flush.Finish?, flags.forceRaw, flags.forceStatic);
    }
    assert e.w.pos < e.w.end;
    e.w.RoomLeft();
    c.Reset();
    bytes := e.w.Take();
  }
}
