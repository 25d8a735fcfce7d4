/**
  The body of a compressed block (section 3.2.3 of RFC 1951) and how it is sent:
  the byte-at-a-time form of tdefl_compress_lz_codes.
 */
module TokenWriter {
  import opened Bits
  import opened BitIO
  import opened Canonical
  import opened Tokens
  import opened CodeBuffer
  import opened HuffmanEncoder
  import opened DynamicHeader

  /** The bits of a token under a literal/length code and a distance code. */
  function TokenBits(lit: seq<nat>, dist: seq<nat>, t: Token): seq<bool>
    requires t.Valid()
  {
    match t
    case Literal(b) => SymBits(lit, b)
    case Match(len, d) =>
      SymBits(lit, LenSym(len - MIN_MATCH)) + ToBits(Low(len - MIN_MATCH, LenExtra(len - MIN_MATCH)),
          LenExtra(len - MIN_MATCH))
      + SymBits(dist, DistSym(d - 1)) + ToBits(Low(d - 1, DistExtra(d - 1)), DistExtra(d - 1))
  }

  function TokensBits(lit: seq<nat>, dist: seq<nat>, ts: seq<Token>): seq<bool>
    requires AllValid(ts)
  {
    if ts == [] then [] else TokenBits(lit, dist, ts[0]) + TokensBits(lit, dist, ts[1..])
  }

  /** The tokens, then the end of the block. */
  function BodyBits(lit: seq<nat>, dist: seq<nat>, ts: seq<Token>): seq<bool>
    requires AllValid(ts)
  {
    TokensBits(lit, dist, ts) + SymBits(lit, 256)
  }

  /** Every symbol needed has a code. */
  ghost predicate Covers(lit: seq<nat>, dist: seq<nat>, ts: seq<Token>)
    requires AllValid(ts)
  {
    Used(lit, 256) && forall i :: 0 <= i < |ts| ==> Covered(lit, dist, ts[i])
  }

  ghost predicate Covered(lit: seq<nat>, dist: seq<nat>, t: Token)
    requires t.Valid()
  {
    Used(lit, LitSym(t)) && (t.Match? ==> Used(dist, MatchSym(t)))
  }

  lemma {:induction false} TokensBitsPush(lit: seq<nat>, dist: seq<nat>, ts: seq<Token>, t: Token)
    requires AllValid(ts) && t.Valid()
    ensures AllValid(ts + [t]) && TokensBits(lit, dist, ts + [t]) == TokensBits(lit, dist, ts) + TokenBits(lit, dist, t)
  {
    hide TokenBits;
    if ts == [] {
      assert ts + [t] == [t];
      assert TokensBits(lit, dist, [t]) == TokenBits(lit, dist, t) + TokensBits(lit, dist, []);
    } else {
      assert (ts + [t])[1..] == ts[1..] + [t];
      TokensBitsPush(lit, dist, ts[1..], t);
      var a, b, c := TokenBits(lit, dist, ts[0]), TokensBits(lit, dist, ts[1..]), TokenBits(lit, dist, t);
      assert a + (b + c) == (a + b) + c;
    }
  }

  // ---------- reading the flags ----------

  function Zeros(n: nat): seq<bool> {
    if n == 0 then [] else [false] + Zeros(n - 1)
  }

  lemma {:induction false} ZeroBits(n: nat)
    ensures ToBits(0, n) == Zeros(n)
  {
    if n != 0 { ZeroBits(n - 1); }
  }

  /** The flags variable: the kinds of the codes left in the group, the unused flags, then a marker bit. */
  ghost predicate Marked(flags: nat, group: seq<Token>, unused: nat) {
    flags == Val(Kinds(group) + Zeros(unused) + [true])
  }

  lemma {:induction false} MarkerPositive(bs: seq<bool>)
    ensures Val(bs + [true]) >= 1 && (bs != [] ==> Val(bs + [true]) >= 2)
  {
    if bs != [] {
      MarkerPositive(bs[1..]);
      assert (bs + [true])[1..] == bs[1..] + [true];
    }
  }

  /** Only the marker is left exactly when the variable is one. */
  lemma MarkerAlone(flags: nat, group: seq<Token>, unused: nat)
    requires Marked(flags, group, unused)
    ensures flags == 1 <==> group == [] && unused == 0
  {
    var bs := Kinds(group) + Zeros(unused);
    MarkerPositive(bs);
    if group == [] && unused == 0 {
      assert bs + [true] == [true];
      assert Val([true]) == 1 + 2 * Val([]);
    } else {
      assert bs != [] by { if group == [] { assert |Zeros(unused)| > 0; } }
    }
  }

  lemma MarkerNext(flags: nat, group: seq<Token>, unused: nat)
    requires Marked(flags, group, unused) && group != []
    ensures (flags % 2 == 1) == group[0].Match?
    ensures Marked(Shr(flags, 1), group[1..], unused)
  {
    var bs := Kinds(group) + Zeros(unused) + [true];
    assert bs[0] == group[0].Match?;
    assert bs[1..] == Kinds(group[1..]) + Zeros(unused) + [true];
    assert Shr(flags / 2, 0) == flags / 2;
  }

  /** A flag byte with the marker above it. */
  lemma MarkerSet(f: byte, group: seq<Token>)
    requires |group| <= 8 && f == FlagByte(group)
    ensures Marked(Or(f, 0x100), group, 8 - |group|)
  {
    hide Or, Shr;
    Pow2Values();
    var k, v := |group|, Or(f, 0x100);
    var bs := Kinds(group) + Zeros(8 - k);
    ValBound(Kinds(group));
    ToBitsOfVal(Kinds(group));
    ToBitsSplit(f, k, 8 - k);
    ShrBound(f, k, 0);
    ZeroBits(8 - k);
    assert ToBits(f, 8) == bs;
    assert Shl(1, 8) == 0x100 by { ShlIsTimes(1, 8); }
    OrAppends(f, 8, 1, 1);
    assert ToBits(1, 1) == [true];
    assert Pow2(9) == 512;
    ValOfToBits(v, 9);
    LowSmall(v, 9);
  }

  // ---------- sending ----------

  /** One match: its length symbol and extra bits, then its distance symbol and extra bits. */
  method SendMatch(e: Encoder, m: nat, d: nat, ghost lit: seq<nat>, ghost dist: seq<nat>)
    requires e.Valid() && e.CodesReady() && m <= MAX_MATCH - MIN_MATCH && d < DICT_SIZE
    requires lit == e.lit.sizes[..MAX_SYMBOLS] && dist == e.dist.sizes[..32]
    requires Covered(lit, dist, Match(m + MIN_MATCH, d + 1))
    modifies e.w, e.w.out
    ensures e.Valid() && e.w.stream == old(e.w.stream) + TokenBits(lit, dist, Match(m + MIN_MATCH, d + 1))
  {
    hide Acceptable, Word, Pow2, Low, ToBits, SymBits, LenSym, LenExtra, DistSym, DistExtra, Sendable, BitWriter.Valid,
         Used;
    LengthRecovered(m);
    DistanceRecovered(d);
    LowBound(m, LenExtra(m));
    LowBound(d, DistExtra(d));
    PutSymbol(e.w, e.lit, MAX_SYMBOLS, LenSym(m));
    e.w.Put(Low(m, LenExtra(m)), LenExtra(m));
    var sym, extra := DistSym(d), DistExtra(d);
    PutSymbol(e.w, e.dist, 32, sym);
    e.w.Put(Low(d, extra), extra);
  }

  /** What is left of the buffer: the codes of the open group, then whole groups. */
  ghost predicate Ahead(b: seq<byte>, flags: nat, group: seq<Token>, unused: nat, rest: seq<Token>) {
    && AllValid(group) && AllValid(rest)
    && b == CodesOf(group) + Image(rest)
    && Marked(flags, group, unused)
    && (rest != [] ==> unused == 0)
  }

  function FirstGroup(ts: seq<Token>): seq<Token> {
    if |ts| <= 8 then ts else ts[..8]
  }

  lemma Opened(b: seq<byte>, rest: seq<Token>)
    requires AllValid(rest) && rest != [] && b == Image(rest)
    ensures var g := FirstGroup(rest);
            b != [] && g != [] && rest == g + rest[|g|..]
            && Ahead(b[1..], Or(b[0], 0x100), g, 8 - |g|, rest[|g|..])
  {
    hide Or, CodesOf, FlagByte, Kinds;
    var g := FirstGroup(rest);
    if |rest| > 8 { GroupFirst(rest); }
    assert b[0] == FlagByte(g);
    assert b[1..] == CodesOf(g) + Image(rest[|g|..]);
    MarkerSet(b[0], g);
  }

  lemma AheadNonempty(b: seq<byte>, flags: nat, group: seq<Token>, unused: nat, rest: seq<Token>)
    requires Ahead(b, flags, group, unused, rest) && b != []
    ensures flags == 1 ==> group == [] && rest != [] && b == Image(rest)
    ensures flags != 1 ==> group != []
  {
    MarkerAlone(flags, group, unused);
  }

  /** A code is at the front of what is left; behind it things are as before, one code further on. */
  lemma AheadNext(b: seq<byte>, flags: nat, group: seq<Token>, unused: nat, rest: seq<Token>)
    requires Ahead(b, flags, group, unused, rest) && group != []
    ensures var t := group[0];
            t.Valid() && (flags % 2 == 1) == t.Match? && |CodeBytes(t)| <= |b| && b[..|CodeBytes(t)|] == CodeBytes(t)
            && Ahead(b[|CodeBytes(t)|..], Shr(flags, 1), group[1..], unused, rest)
  {
    hide Shr, CodeBytes, Marked;
    MarkerNext(flags, group, unused);
    var t := group[0];
    var c, r := CodeBytes(t), CodesOf(group[1..]);
    assert b == c + (r + Image(rest));
  }

  lemma AheadDone(flags: nat, group: seq<Token>, unused: nat, rest: seq<Token>)
    requires Ahead([], flags, group, unused, rest)
    ensures group == [] && rest == []
  {
  }

  lemma CoversMiddle(lit: seq<nat>, dist: seq<nat>, done: seq<Token>, group: seq<Token>, rest: seq<Token>)
    requires AllValid(done + group + rest) && Covers(lit, dist, done + group + rest) && group != []
    ensures group[0].Valid() && Covered(lit, dist, group[0])
    ensures done + group + rest == (done + [group[0]]) + group[1..] + rest
  {
    assert (done + group + rest)[|done|] == group[0];
  }

  lemma Start(b: seq<byte>, ts: seq<Token>, lit: seq<nat>, dist: seq<nat>)
    requires AllValid(ts) && b == Image(ts)
    ensures Ahead(b, 1, [], 0, ts) && TokensBits(lit, dist, []) == []
  {
    NoCodes();
    assert Kinds([]) + Zeros(0) + [true] == [true];
    assert Val([true]) == 1 + 2 * Val([]);
  }

  /** The code at p, a match or a literal by the low flag. */
  method SendCode(e: Encoder, buf: array<byte>, p: nat, end: nat, flags: nat, ghost group: seq<Token>,
                  ghost unused: nat, ghost rest: seq<Token>, ghost lit: seq<nat>, ghost dist: seq<nat>)
    returns (p': nat)
    requires e.Valid() && e.CodesReady() && buf != e.w.out && p <= end <= buf.Length
    requires lit == e.lit.sizes[..MAX_SYMBOLS] && dist == e.dist.sizes[..32]
    requires Ahead(buf[p..end], flags, group, unused, rest) && group != [] && group[0].Valid()
        && Covered(lit, dist, group[0])
    modifies e.w, e.w.out
    ensures e.Valid() && p < p' <= end && Ahead(buf[p'..end], Shr(flags, 1), group[1..], unused, rest)
    ensures e.w.stream == old(e.w.stream) + TokenBits(lit, dist, group[0])
  {
    hide Encoder.CodesReady, Encoder.Valid, Ahead, BitWriter.Valid, Sendable, Shr, LenSym, DistSym, ToBits, Low,
         SymBits;
    AheadNext(buf[p..end], flags, group, unused, rest);
    ghost var t := group[0];
    ghost var n := |CodeBytes(t)|;
    assert buf[p..end][n..] == buf[p + n..end];
    assert buf[p..end][..n] == buf[p..p + n];
    if flags % 2 == 1 {
      var m: nat, d: nat := buf[p], buf[p + 1] as nat + 256 * buf[p + 2] as nat;
      assert m == buf[p..p + n][0] && buf[p + 1] == buf[p..p + n][1] && buf[p + 2] == buf[p..p + n][2];
      p' := p + 3;
      SendMatch(e, m, d, lit, dist);
    } else {
      var b := buf[p];
      assert b == buf[p..p + n][0];
      p' := p + 1;
      SendLiteral(e, b, lit, dist);
    }
  }

  lemma Sizes(e: Encoder)
    requires e.Valid()
    ensures e.lit.sizes.Length == MAX_SYMBOLS && e.dist.sizes.Length == MAX_SYMBOLS
    ensures e.w.out != e.lit.sizes as object && e.w.out != e.dist.sizes as object
    ensures e.w.out != e.lit.codes as object && e.w.out != e.dist.codes as object
  {
  }

  lemma CoversEnd(lit: seq<nat>, dist: seq<nat>, ts: seq<Token>)
    requires AllValid(ts) && Covers(lit, dist, ts)
    ensures Used(lit, 256)
  {
  }

  method SendLiteral(e: Encoder, b: nat, ghost lit: seq<nat>, ghost dist: seq<nat>)
    requires e.Valid() && e.CodesReady() && b < MAX_SYMBOLS
    requires lit == e.lit.sizes[..MAX_SYMBOLS] && Used(lit, b)
    modifies e.w, e.w.out
    ensures e.Valid() && e.w.stream == old(e.w.stream) + SymBits(lit, b)
  {
    hide Acceptable, Word, Pow2, SymBits, Sendable, BitWriter.Valid, Used;
    PutSymbol(e.w, e.lit, MAX_SYMBOLS, b);
  }

  /** tdefl_compress_lz_codes: the codes in the buffer, then the end-of-block symbol. */
  method SendTokens(e: Encoder, buf: array<byte>, end: nat, ghost ts: seq<Token>)
    requires e.Valid() && e.CodesReady() && buf != e.w.out && end <= buf.Length
    requires AllValid(ts) && buf[..end] == Image(ts)
    requires Covers(e.lit.sizes[..MAX_SYMBOLS], e.dist.sizes[..32], ts)
    modifies e.w, e.w.out
    ensures e.Valid() && e.CodesReady()
    ensures e.w.stream == old(e.w.stream) + BodyBits(e.lit.sizes[..MAX_SYMBOLS], e.dist.sizes[..32], ts)
  {
    hide Encoder.CodesReady, Encoder.Valid, Image, CodesOf, Covers, Covered, TokenBits, TokensBits, Ahead,
         BitWriter.Valid, Sendable, Or, Shr, Used;
    Sizes(e);
    ghost var lit, dist := e.lit.sizes[..MAX_SYMBOLS], e.dist.sizes[..32];
    var flags, p := 1, 0;
    ghost var done: seq<Token>, group: seq<Token>, unused: nat, rest := [], [], 0, ts;
    Start(buf[..end], ts, lit, dist);
    assert buf[0..end] == buf[..end];
    while p < end
      invariant p <= end && e.Valid() && e.CodesReady()
      invariant lit == e.lit.sizes[..MAX_SYMBOLS] && dist == e.dist.sizes[..32]
      invariant ts == done + group + rest && AllValid(done)
      invariant e.w.stream == old(e.w.stream) + TokensBits(lit, dist, done)
      invariant Ahead(buf[p..end], flags, group, unused, rest)
    {
      AheadNonempty(buf[p..end], flags, group, unused, rest);
      if flags == 1 {
        Opened(buf[p..end], rest);
        group := FirstGroup(rest);
        rest, unused := rest[|group|..], 8 - |group|;
        flags := Or(buf[p], 0x100);
        p := p + 1;
        assert buf[p - 1..end][1..] == buf[p..end];
      }
      assert ts == done + group + rest;
      CoversMiddle(lit, dist, done, group, rest);
      TokensBitsPush(lit, dist, done, group[0]);
      p := SendCode(e, buf, p, end, flags, group, unused, rest, lit, dist);
      done, group := done + [group[0]], group[1..];
      flags := Shr(flags, 1);
    }
    assert buf[p..end] == [];
    AheadDone(flags, group, unused, rest);
    assert done + group + rest == done;
    CoversEnd(lit, dist, ts);
    SendLiteral(e, 256, lit, dist);
  }
}
