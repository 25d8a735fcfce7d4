/** The codes of a block with fixed Huffman codes (section 3.2.6 of RFC 1951). */
module FixedCodes {
  import opened Bits
  import opened BitIO
  import opened Canonical
  import opened Tokens
  import opened CodeBuffer
  import opened TokenWriter
  import opened HuffmanEncoder
  import opened DynamicHeader

  function Repeated(v: nat, n: nat): (s: seq<nat>)
    ensures |s| == n && forall k :: 0 <= k < n ==> s[k] == v
  {
    if n == 0 then [] else Repeated(v, n - 1) + [v]
  }

  function FixedLit(): (s: seq<nat>)
    ensures |s| == 288
  {
    Repeated(8, 144) + Repeated(9, 112) + Repeated(7, 24) + Repeated(8, 8)
  }

  function FixedDist(): (s: seq<nat>)
    ensures |s| == 32
  {
    Repeated(5, 32)
  }

  function FixedLitSize(i: nat): nat {
    if i <= 143 then 8 else if i <= 255 then 9 else if i <= 279 then 7 else 8
  }

  lemma FixedAt()
    ensures forall i: nat :: i < 288 ==> FixedLit()[i] == FixedLitSize(i)
    ensures forall i: nat :: i < 32 ==> FixedDist()[i] == 5
  {
    hide Repeated;
  }

  lemma {:induction false} CountAppend(a: seq<nat>, b: seq<nat>, l: nat)
    ensures Count(a + b, l) == Count(a, l) + Count(b, l)
  {
    if b == [] {
      assert a + b == a;
    } else {
      CountAppend(a, b[..|b| - 1], l);
      assert (a + b)[..|a + b| - 1] == a + b[..|b| - 1];
    }
  }

  lemma {:induction false} CountRepeated(v: nat, n: nat, l: nat)
    ensures Count(Repeated(v, n), l) == if v == l then n else 0
  {
    if n > 0 {
      CountRepeated(v, n - 1, l);
      assert Repeated(v, n)[..n - 1] == Repeated(v, n - 1);
    }
  }

  lemma FixedCounts(l: nat)
    ensures Count(FixedLit(), l) == if l == 7 then 24 else if l == 8 then 152 else if l == 9 then 112 else 0
    ensures Count(FixedDist(), l) == if l == 5 then 32 else 0
  {
    hide Count, Repeated;
    var a, b, c, d := Repeated(8, 144), Repeated(9, 112), Repeated(7, 24), Repeated(8, 8);
    CountRepeated(8, 144, l);
    CountRepeated(9, 112, l);
    CountRepeated(7, 24, l);
    CountRepeated(8, 8, l);
    CountRepeated(5, 32, l);
    CountAppend(a, b, l);
    CountAppend(a + b, c, l);
    CountAppend(a + b + c, d, l);
  }

  lemma {:induction false} NoneShort(lens: seq<nat>, l: nat)
    requires forall k: nat :: 1 <= k <= l ==> Count(lens, k) == 0
    ensures Taken(lens, l) == 0
  {
    if l > 0 { NoneShort(lens, l - 1); }
  }

  lemma {:induction false} NoneLong(lens: seq<nat>, l: nat, m: nat)
    requires l <= m && Taken(lens, l) == Pow2(l)
    requires forall k: nat :: l < k <= m ==> Count(lens, k) == 0
    ensures Taken(lens, m) == Pow2(m)
  {
    if l < m { NoneLong(lens, l, m - 1); }
  }

  /** Both fixed codes fill their trees. */
  lemma FixedComplete()
    ensures Complete(FixedLit()) && Complete(FixedDist()) && Acceptable(FixedLit()) && Acceptable(FixedDist())
  {
    hide Count, Taken, FixedLit, FixedDist, Pow2;
    FixedAt();
    forall l: nat ensures Count(FixedLit(), l) == if l == 7 then 24 else if l == 8 then 152 else if l == 9 then 112
        else 0 { FixedCounts(l); }
    forall l: nat ensures Count(FixedDist(), l) == if l == 5 then 32 else 0 { FixedCounts(l); }
    TakenStep(FixedLit(), 7);
    TakenStep(FixedLit(), 8);
    TakenStep(FixedLit(), 9);
    TakenStep(FixedDist(), 5);
    NoneShort(FixedLit(), 6);
    NoneShort(FixedDist(), 4);
    Pow2Table();
    NoneLong(FixedLit(), 9, MAX_BITS);
    NoneLong(FixedDist(), 5, MAX_BITS);
  }

  lemma TakenStep(lens: seq<nat>, l: nat)
    requires l > 0
    ensures Taken(lens, l) == 2 * Taken(lens, l - 1) + Count(lens, l)
  {
  }

  /** With the fixed codes everything can be sent. */
  lemma FixedCovers(ts: seq<Token>)
    requires AllValid(ts)
    ensures Covers(FixedLit(), FixedDist(), ts)
  {
    hide FixedLit, FixedDist;
    FixedAt();
    forall i | 0 <= i < |ts| ensures Covered(FixedLit(), FixedDist(), ts[i]) {
      assert ts[i] in ts;
    }
  }

  /** tdefl_start_static_block. */
  method StartStaticBlock(e: Encoder)
    requires e.Valid()
    modifies e.w, e.w.out, e.lit.sizes, e.lit.codes, e.dist.sizes, e.dist.codes
    ensures e.Valid() && e.CodesReady()
    ensures e.lit.sizes[..MAX_SYMBOLS] == FixedLit() && e.dist.sizes[..32] == FixedDist()
    ensures e.w.stream == old(e.w.stream) + ToBits(1, 2)
  {
    hide FixedLit, FixedDist, Acceptable, Complete, Fits, Taken, Word, Pow2, ToBits;
    FixedComplete();
    FixedAt();
    FillFixed(e.lit.sizes);
    var i := 0;
    while i < 32
      invariant i <= 32 && forall k :: 0 <= k < i ==> e.dist.sizes[k] == 5
      invariant e.Valid() && e.lit.sizes[..MAX_SYMBOLS] == FixedLit() && e.w.stream == old(e.w.stream)
    {
      e.dist.sizes[i] := 5;
      i := i + 1;
    }
    assert e.dist.sizes[..32] == FixedDist();
    SmallFixed();
    e.lit.OptimizeHuffmanTable(288, 15, true);
    e.dist.OptimizeHuffmanTable(32, 15, true);
    Pow2Table();
    e.w.Put(1, 2);
  }

  lemma SmallFixed()
    ensures Pow2(15) >= 288
    ensures Fits(FixedLit()) && Fits(FixedDist())
  {
    Pow2Values();
    FixedComplete();
  }

  /** The lengths of the fixed literal/length code, as both sides set them. */
  method FillFixed(a: array<nat>)
    requires a.Length >= 288
    modifies a
    ensures a[..288] == FixedLit() && forall k :: 288 <= k < a.Length ==> a[k] == old(a[k])
  {
    hide FixedLit;
    FixedAt();
    var i := 0;
    while i <= 143
      invariant i <= 144 && forall k :: 0 <= k < i ==> a[k] == FixedLitSize(k)
      invariant forall k :: 288 <= k < a.Length ==> a[k] == old(a[k])
    {
      a[i] := 8;
      i := i + 1;
    }
    while i <= 255
      invariant 144 <= i <= 256 && forall k :: 0 <= k < i ==> a[k] == FixedLitSize(k)
      invariant forall k :: 288 <= k < a.Length ==> a[k] == old(a[k])
    {
      a[i] := 9;
      i := i + 1;
    }
    while i <= 279
      invariant 256 <= i <= 280 && forall k :: 0 <= k < i ==> a[k] == FixedLitSize(k)
      invariant forall k :: 288 <= k < a.Length ==> a[k] == old(a[k])
    {
      a[i] := 7;
      i := i + 1;
    }
    while i <= 287
      invariant 280 <= i <= 288 && forall k :: 0 <= k < i ==> a[k] == FixedLitSize(k)
      invariant forall k :: 288 <= k < a.Length ==> a[k] == old(a[k])
    {
      a[i] := 8;
      i := i + 1;
    }
  }
}
