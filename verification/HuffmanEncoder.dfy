/**
  tdefl_optimize_huffman_table: from symbol counts to limited code lengths to canonical codes.
 */
module HuffmanEncoder {
  import opened Bits
  import opened Canonical
  import opened MinRedundancy
  import opened CodeDepths
  import opened Optimality
  import opened SymbolLists
  import RadixSort
  import LengthLimit
  import opened LimitedCost

  // ---------- the histogram of lengths ----------

  function CountKeys(s: seq<SymFreq>, l: nat): nat {
    if s == [] then 0 else (if s[0].key == l then 1 else 0) + CountKeys(s[1..], l)
  }

  lemma {:induction false} CountKeysSnoc(s: seq<SymFreq>, x: SymFreq, l: nat)
    ensures CountKeys(s + [x], l) == CountKeys(s, l) + if x.key == l then 1 else 0
  {
    if s == [] {
      assert s + [x] == [x];
    } else {
      CountKeysSnoc(s[1..], x, l);
      assert (s + [x])[1..] == s[1..] + [x];
    }
  }

  /** The histogram has as many symbols, and the same Kraft sum, as the list. */
  lemma {:induction false} HistogramSums(s: seq<SymFreq>, num: seq<nat>, m: nat, unit: nat)
    requires m < |num| && m <= unit && forall l: nat :: 1 <= l <= m ==> num[l] == CountKeys(s, l)
    ensures LengthLimit.Symbols(num, m) == CountUpTo(s, m)
    ensures LengthLimit.Weight(num, m, unit) == KraftUpTo(s, m, unit)
  {
    if m == 0 {
      NoneUpTo(s, unit);
    } else {
      HistogramSums(s, num, m - 1, unit);
      UpToStep(s, m, unit);
    }
  }

  function CountUpTo(s: seq<SymFreq>, m: nat): nat {
    if s == [] then 0 else (if 1 <= s[0].key <= m then 1 else 0) + CountUpTo(s[1..], m)
  }

  function KraftUpTo(s: seq<SymFreq>, m: nat, unit: nat): nat
    requires m <= unit
  {
    if s == [] then 0 else (if 1 <= s[0].key <= m then Pow2(unit - s[0].key) else 0) + KraftUpTo(s[1..], m, unit)
  }

  lemma {:induction false} NoneUpTo(s: seq<SymFreq>, unit: nat)
    ensures CountUpTo(s, 0) == 0 && KraftUpTo(s, 0, unit) == 0
  {
    if s != [] { NoneUpTo(s[1..], unit); }
  }

  lemma {:induction false} UpToStep(s: seq<SymFreq>, m: nat, unit: nat)
    requires 1 <= m <= unit
    ensures CountUpTo(s, m) == CountUpTo(s, m - 1) + CountKeys(s, m)
    ensures KraftUpTo(s, m, unit) == KraftUpTo(s, m - 1, unit) + CountKeys(s, m) * Pow2(unit - m)
  {
    if s != [] {
      UpToStep(s[1..], m, unit);
      LengthLimit.Distr(if s[0].key == m then 1 else 0, CountKeys(s[1..], m), Pow2(unit - m));
    }
  }

  lemma {:induction false} AllUpTo(s: seq<SymFreq>, m: nat)
    requires forall i :: 0 <= i < |s| ==> 1 <= s[i].key <= m
    ensures CountUpTo(s, m) == |s| && KraftUpTo(s, m, m) == Kraft(s, m)
  {
    if s != [] {
      assert forall i :: 0 <= i < |s[1..]| ==> s[1..][i] == s[i + 1];
      AllUpTo(s[1..], m);
    }
  }

  method LengthHistogram(syms: array<SymFreq>, n: nat, num: array<nat>)
    requires n <= syms.Length && forall i :: 0 <= i < n ==> syms[i].key < num.Length
    requires forall l :: 0 <= l < num.Length ==> num[l] == 0
    modifies num
    ensures forall l :: 0 <= l < num.Length ==> num[l] == CountKeys(syms[..n], l)
  {
    for i := 0 to n
      invariant forall l :: 0 <= l < num.Length ==> num[l] == CountKeys(syms[..i], l)
    {
      assert syms[..i + 1] == syms[..i] + [syms[i]];
      forall l: nat { CountKeysSnoc(syms[..i], syms[i], l); }
      num[syms[i].key] := num[syms[i].key] + 1;
    }
  }

  // ---------- handing out the lengths ----------

  lemma {:induction false} CountUpdate(lens: seq<nat>, k: nat, v: nat, l: nat)
    requires k < |lens|
    ensures Count(lens[k := v], l) + (if lens[k] == l then 1 else 0) == Count(lens, l) + if v == l then 1 else 0
  {
    var n := |lens| - 1;
    if k < n {
      CountUpdate(lens[..n], k, v, l);
      assert lens[k := v][..n] == lens[..n][k := v];
    } else {
      assert lens[k := v][..n] == lens[..n];
    }
  }

  /** Symbols s[j..] have lengths, at most i and longest first; left of length i are still to come. */
  ghost predicate Handed(s: seq<SymFreq>, num: seq<nat>, sizes: seq<nat>, j: nat, i: nat, left: nat) {
    && j <= |s| && i < |num| && left <= num[i]
    && (forall k :: 0 <= k < |s| ==> s[k].sym < |sizes|)
    && (forall k :: j <= k < |s| ==> 1 <= sizes[s[k].sym] <= i)
    && (forall k :: 0 <= k < j ==> sizes[s[k].sym] == 0)
    && (forall k, l :: j <= k <= l < |s| ==> sizes[s[k].sym] >= sizes[s[l].sym])
    && OnlyListed(s, sizes)
  }

  /** Only symbols of the list have lengths. */
  ghost predicate OnlyListed(s: seq<SymFreq>, sizes: seq<nat>) {
    forall k: nat :: k < |sizes| && sizes[k] > 0 ==> exists q :: 0 <= q < |s| && s[q].sym == k
  }

  lemma StillListed(s: seq<SymFreq>, sizes: seq<nat>, j: nat, i: nat)
    requires OnlyListed(s, sizes) && j < |s| && s[j].sym < |sizes|
    ensures OnlyListed(s, sizes[s[j].sym := i])
  {
  }

  lemma DistinctSyms(count: seq<nat>, s: seq<SymFreq>)
    requires Lists(count, s)
    ensures forall i, j :: 0 <= i < j < |s| ==> s[i].sym != s[j].sym
  {
  }

  ghost predicate Counted(num: seq<nat>, sizes: seq<nat>, i: nat, left: nat)
    requires i < |num|
  {
    forall l: nat :: l >= 1 ==> Count(sizes, l) == if l < i then num[l] else if l == i then num[i] - left else 0
  }

  lemma HandOne(count: seq<nat>, s: seq<SymFreq>, num: seq<nat>, sizes: seq<nat>, j: nat, i: nat, left: nat)
    requires Handed(s, num, sizes, j, i, left) && Counted(num, sizes, i, left) && Lists(count, s)
    requires 0 < j && 1 <= i && 0 < left
    ensures Handed(s, num, sizes[s[j - 1].sym := i], j - 1, i, left - 1)
    ensures Counted(num, sizes[s[j - 1].sym := i], i, left - 1)
  {
    hide OnlyListed, Lists;
    var sym := s[j - 1].sym;
    var sizes' := sizes[sym := i];
    StillListed(s, sizes, j - 1, i);
    DistinctSyms(count, s);
    assert s[j - 1].sym < |sizes| && sizes[sym] == 0;
    assert Counted(num, sizes', i, left - 1) by {
      hide Handed;
      forall l: nat | l >= 1 ensures Count(sizes', l) == if l < i then num[l] else if l == i then num[i] - (left - 1)
          else 0 {
        CountUpdate(sizes, sym, i, l);
      }
    }
  }

  method AssignSizes(ghost count: seq<nat>, syms: array<SymFreq>, n: nat, num: array<nat>, limit: nat,
                     sizes: array<nat>)
    requires n <= syms.Length && limit < num.Length && sizes != num && Lists(count, syms[..n])
    requires sizes.Length >= |count| && forall k :: 0 <= k < sizes.Length ==> sizes[k] == 0
    requires LengthLimit.Symbols(num[..], limit) == n
    modifies sizes
    ensures Handed(syms[..n], num[..], sizes[..], 0, limit, 0) && Counted(num[..], sizes[..], limit, 0)
    ensures Ranked(At(sizes[..], syms[..n]), num[..], limit)
  {
    hide Lists, LengthLimit.Symbols, Counted, Handed, RankedFrom, Ranked, Given, At;
    ghost var s, hist := syms[..n], num[..];
    NoneHanded(count, s, hist, sizes[..]);
    NoLengthsBelow(s, hist, sizes[..], n, 0, 0);
    RankStart(At(sizes[..], s), hist);
    var i: nat, j: nat := 1, n;
    NextSize(hist, limit, 0);
    while i <= limit
      invariant 1 <= i <= limit + 1 && n - j == LengthLimit.Symbols(hist, i - 1) && 0 <= j <= n
      invariant Handed(s, hist, sizes[..], j, i - 1, 0) && Counted(hist, sizes[..], i - 1, 0)
      invariant RankedFrom(At(sizes[..], s), hist, i - 1)
    {
      NextSize(hist, limit, i);
      ghost var before, j0: nat := sizes[..], j;
      NoLengthsBelow(s, hist, before, j, i - 1, 0);
      j := HandSize(count, syms, n, num, i, j, sizes);
      RankNext(At(before, s), At(sizes[..], s), hist, i, j0);
      i := i + 1;
    }
    NoLengthsBelow(s, hist, sizes[..], j, limit, 0);
    RankedAll(At(sizes[..], s), hist, limit);
  }

  /** The inner loop: the num[i] symbols of length i, from the end of the list. */
  method HandSize(ghost count: seq<nat>, syms: array<SymFreq>, n: nat, num: array<nat>, i: nat, j: nat,
                  sizes: array<nat>) returns (j': nat)
    requires n <= syms.Length && 1 <= i < num.Length && sizes != num && Lists(count, syms[..n]) && num[i] <= j <= n
    requires Handed(syms[..n], num[..], sizes[..], j, i - 1, 0) && Counted(num[..], sizes[..], i - 1, 0)
    modifies sizes
    ensures j' == j - num[i] && Handed(syms[..n], num[..], sizes[..], j', i, 0) && Counted(num[..], sizes[..], i, 0)
    ensures Given(At(old(sizes[..]), syms[..n]), At(sizes[..], syms[..n]), j', j, i)
  {
    hide Lists, Counted, Handed, Given, At;
    ghost var s, hist := syms[..n], num[..];
    StartSize(s, hist, sizes[..], j, i);
    NoneGiven(At(sizes[..], s), j, i);
    j' := j;
    var l := num[i];
    while l > 0
      invariant 0 <= l <= num[i] && j' == j - (num[i] - l)
      invariant Handed(s, hist, sizes[..], j', i, l) && Counted(hist, sizes[..], i, l)
      invariant Given(At(old(sizes[..]), s), At(sizes[..], s), j', j, i)
    {
      HandOne(count, s, hist, sizes[..], j', i, l);
      ghost var before := sizes[..];
      j' := j' - 1;
      InRange(s, hist, before, j', i, l);
      sizes[syms[j'].sym] := i;
      assert sizes[..] == before[s[j'].sym := i];
      GiveOne(count, s, At(old(sizes[..]), s), before, j', j, i);
      l := l - 1;
    }
  }

  /** Symbols lo to hi of the list have been given length i, and nothing else has changed. */
  ghost predicate Given(l: seq<nat>, l': seq<nat>, lo: nat, hi: nat, i: nat) {
    |l'| == |l| && lo <= hi <= |l| && forall k :: 0 <= k < |l| ==> l'[k] == if lo <= k < hi then i else l[k]
  }

  lemma NoneGiven(l: seq<nat>, j: nat, i: nat)
    requires j <= |l|
    ensures Given(l, l, j, j, i)
  {
  }

  lemma GiveOne(count: seq<nat>, s: seq<SymFreq>, l: seq<nat>, sizes: seq<nat>, j: nat, hi: nat, i: nat)
    requires Lists(count, s) && j < |s| && s[j].sym < |sizes| && Given(l, At(sizes, s), j + 1, hi, i)
    ensures Given(l, At(sizes[s[j].sym := i], s), j, hi, i)
  {
    hide Lists;
    DistinctSyms(count, s);
    var l0, l' := At(sizes, s), At(sizes[s[j].sym := i], s);
    forall k: nat | k < |s| ensures l'[k] == if k == j then i else l0[k] {
      assert k != j ==> s[k].sym != s[j].sym;
    }
    assert |l'| == |l|;
    forall k | 0 <= k < |l| ensures l'[k] == if j <= k < hi then i else l[k] {
      assert l0[k] == if j + 1 <= k < hi then i else l[k];
    }
  }

  /** The lengths given so far: those of at most d are the last ones, as many as the histogram says. */
  ghost predicate RankedFrom(l: seq<nat>, num: seq<nat>, i: nat) {
    && i < |num|
    && forall d: nat :: d <= i ==>
        LengthLimit.Symbols(num, d) <= |l|
        && GivenUpto(l, d, |l| - LengthLimit.Symbols(num, d))
  }

  ghost predicate GivenUpto(l: seq<nat>, d: nat, from: nat) {
    forall k: nat :: k < |l| ==> (1 <= l[k] <= d <==> k >= from)
  }

  lemma RankStart(l: seq<nat>, num: seq<nat>)
    requires |num| > 0 && forall k :: 0 <= k < |l| ==> l[k] == 0
    ensures RankedFrom(l, num, 0)
  {
  }

  lemma RankNext(l: seq<nat>, l': seq<nat>, num: seq<nat>, i: nat, j: nat)
    requires 1 <= i < |num| && RankedFrom(l, num, i - 1) && num[i] <= j && j == |l| - LengthLimit.Symbols(num, i - 1)
    requires Given(l, l', j - num[i], j, i) && forall k :: 0 <= k < j ==> l[k] == 0
    ensures RankedFrom(l', num, i)
  {
    hide LengthLimit.Symbols;
    forall d: nat | d <= i ensures LengthLimit.Symbols(num, d) <= |l'|
        && GivenUpto(l', d, |l'| - LengthLimit.Symbols(num, d)) {
      if d < i {
        assert GivenUpto(l, d, |l| - LengthLimit.Symbols(num, d));
        NextSize(num, i - 1, d);
      } else {
        NextSize(num, i, i);
        assert GivenUpto(l, i - 1, j);
      }
    }
  }

  lemma NoLengthsBelow(s: seq<SymFreq>, num: seq<nat>, sizes: seq<nat>, j: nat, i: nat, left: nat)
    requires Handed(s, num, sizes, j, i, left)
    ensures forall k :: 0 <= k < j ==> At(sizes, s)[k] == 0
    ensures j == 0 ==> forall k :: 0 <= k < |s| ==> At(sizes, s)[k] >= 1
  {
  }

  lemma RankedAll(l: seq<nat>, num: seq<nat>, m: nat)
    requires RankedFrom(l, num, m) && forall k :: 0 <= k < |l| ==> l[k] >= 1
    ensures Ranked(l, num, m)
  {
    hide LengthLimit.Symbols;
    forall d: nat | d <= m ensures LengthLimit.Symbols(num, d) <= |l| && Upto(l, d, |l| - LengthLimit.Symbols(num, d)) {
      assert GivenUpto(l, d, |l| - LengthLimit.Symbols(num, d));
    }
  }

  lemma InRange(s: seq<SymFreq>, num: seq<nat>, sizes: seq<nat>, j: nat, i: nat, left: nat)
    requires Handed(s, num, sizes, j + 1, i, left)
    ensures j < |s| && s[j].sym < |sizes|
  {
  }

  lemma NoneHanded(count: seq<nat>, s: seq<SymFreq>, num: seq<nat>, sizes: seq<nat>)
    requires Lists(count, s) && |sizes| >= |count| && |num| > 0 && forall k :: 0 <= k < |sizes| ==> sizes[k] == 0
    ensures Handed(s, num, sizes, |s|, 0, 0) && Counted(num, sizes, 0, 0)
  {
    forall l: nat | l >= 1 ensures Count(sizes, l) == 0 { CountNone(sizes, l); }
  }

  lemma {:induction false} CountNone(lens: seq<nat>, l: nat)
    requires l >= 1 && forall k :: 0 <= k < |lens| ==> lens[k] != l
    ensures Count(lens, l) == 0
  {
    if lens != [] { CountNone(lens[..|lens| - 1], l); }
  }

  lemma StartSize(s: seq<SymFreq>, num: seq<nat>, sizes: seq<nat>, j: nat, i: nat)
    requires 1 <= i < |num| && Handed(s, num, sizes, j, i - 1, 0) && Counted(num, sizes, i - 1, 0)
    ensures Handed(s, num, sizes, j, i, num[i]) && Counted(num, sizes, i, num[i])
  {
  }

  lemma CountNil()
    ensures forall l: nat :: Count([], l) == 0
  {
  }

  /** The symbols of lengths up to i are those up to i - 1 and num[i] more, and no more than all. */
  lemma {:induction false} NextSize(num: seq<nat>, limit: nat, i: nat)
    requires i <= limit < |num|
    ensures LengthLimit.Symbols(num, i) <= LengthLimit.Symbols(num, limit)
    ensures i > 0 ==> LengthLimit.Symbols(num, i) == LengthLimit.Symbols(num, i - 1) + num[i]
    ensures i == 0 ==> LengthLimit.Symbols(num, i) == 0
    decreases limit
  {
    if i < limit { NextSize(num, limit - 1, i); }
  }

  // ---------- the result ----------

  /** The Kraft sum of the histogram is the tree's share taken by the codes. */
  lemma {:induction false} TakenIsWeight(lens: seq<nat>, num: seq<nat>, m: nat)
    requires m < |num| && forall l: nat :: 1 <= l <= m ==> Count(lens, l) == num[l]
    ensures Taken(lens, m) == LengthLimit.Weight(num, m, m)
  {
    if m != 0 {
      TakenIsWeight(lens, num, m - 1);
      LengthLimit.WeightScale(num, m - 1, m - 1, m);
      assert Pow2(1) == 2;
    }
  }

  lemma {:induction false} TakenPast(lens: seq<nat>, l: nat, m: nat)
    requires l <= m && forall k: nat :: l < k <= m ==> Count(lens, k) == 0
    ensures Taken(lens, m) == Taken(lens, l) * Pow2(m - l)
    decreases m
  {
    if l < m {
      TakenPast(lens, l, m - 1);
      assert Taken(lens, m) == 2 * Taken(lens, m - 1) && Pow2(m - l) == 2 * Pow2(m - 1 - l);
      hide Taken, Pow2, Count;
      Twice(Taken(lens, l), Pow2(m - 1 - l));
    } else {
      assert Pow2(m - l) == 1;
    }
  }

  lemma Twice(a: nat, b: nat)
    ensures 2 * (a * b) == a * (2 * b)
  {
  }

  lemma CountedFacts(num: seq<nat>, lens: seq<nat>, limit: nat)
    requires limit < |num| && Counted(num, lens, limit, 0)
    ensures forall l: nat :: 1 <= l <= limit ==> Count(lens, l) == num[l]
    ensures forall l: nat :: l > limit ==> Count(lens, l) == 0
  {
  }

  /** Handing out a histogram that fills the tree makes complete lengths. */
  lemma HandedFits(lens: seq<nat>, num: seq<nat>, limit: nat)
    requires 1 <= limit <= MAX_BITS && limit < |num| && Counted(num, lens, limit, 0)
    requires LengthLimit.Weight(num, limit, limit) <= Pow2(limit) && Lengths(lens)
    ensures Fits(lens)
    ensures LengthLimit.Weight(num, limit, limit) == Pow2(limit) ==> Complete(lens)
  {
    hide Taken, LengthLimit.Weight, Pow2, Counted;
    CountedFacts(num, lens, limit);
    TakenIsWeight(lens, num, limit);
    TakenPast(lens, limit, MAX_BITS);
    Pow2Add(limit, MAX_BITS - limit);
    LengthLimit.MulUpLeft(Taken(lens, limit), Pow2(limit), Pow2(MAX_BITS - limit));
  }

  lemma {:induction false} CountTail(lens: seq<nat>, n: nat, l: nat)
    requires n <= |lens| && l >= 1 && forall k :: n <= k < |lens| ==> lens[k] == 0
    ensures Count(lens, l) == Count(lens[..n], l)
    decreases |lens|
  {
    if n < |lens| {
      var m := |lens| - 1;
      CountTail(lens[..m], n, l);
      assert lens[..m][..n] == lens[..n];
    } else {
      assert lens[..n] == lens;
    }
  }

  /** The lengths fit the counts: used symbols only, none too long, none longer than a rarer symbol's. */
  ghost predicate LengthsFor(count: seq<nat>, lens: seq<nat>, limit: nat) {
    && |lens| == |count|
    && (forall k :: 0 <= k < |lens| ==> lens[k] <= limit && (lens[k] > 0 <==> count[k] > 0))
    && (forall a, b :: 0 <= a < |lens| && 0 <= b < |lens| && count[a] > count[b] > 0 ==> lens[a] <= lens[b])
  }

  lemma HandedSize(count: seq<nat>, s: seq<SymFreq>, num: seq<nat>, sizes: seq<nat>, limit: nat, k: nat)
    requires Handed(s, num, sizes, 0, limit, 0) && Lists(count, s) && |count| <= |sizes| && k < |sizes|
    ensures sizes[k] <= limit && (sizes[k] > 0 <==> k < |count| && count[k] > 0)
  {
    if sizes[k] > 0 {
      var q :| 0 <= q < |s| && s[q].sym == k;
    }
  }

  lemma HandedOrder(count: seq<nat>, s: seq<SymFreq>, num: seq<nat>, sizes: seq<nat>, limit: nat, a: nat, b: nat)
    requires Handed(s, num, sizes, 0, limit, 0) && Lists(count, s) && ByCount(count, s) && |count| <= |sizes|
    requires a < |count| && b < |count| && count[a] > count[b] > 0
    ensures sizes[a] <= sizes[b]
  {
    var i :| 0 <= i < |s| && s[i].sym == a;
    var j :| 0 <= j < |s| && s[j].sym == b;
    assert j <= i;
  }

  lemma HandedLengths(count: seq<nat>, s: seq<SymFreq>, num: seq<nat>, sizes: seq<nat>, limit: nat)
    requires Handed(s, num, sizes, 0, limit, 0) && Lists(count, s) && ByCount(count, s) && |count| <= |sizes|
    ensures LengthsFor(count, sizes[..|count|], limit)
    ensures forall k :: |count| <= k < |sizes| ==> sizes[k] == 0
  {
    hide Handed, Lists, ByCount;
    forall k: nat | k < |sizes| ensures sizes[k] <= limit && (sizes[k] > 0 <==> k < |count| && count[k] > 0) {
      HandedSize(count, s, num, sizes, limit, k);
    }
    forall a: nat, b: nat | a < |count| && b < |count| && count[a] > count[b] > 0 ensures sizes[a] <= sizes[b] {
      HandedOrder(count, s, num, sizes, limit, a, b);
    }
  }

  /** As many lengths as used symbols. */
  lemma {:induction false} UsedCount(count: seq<nat>, lens: seq<nat>, m: nat)
    requires |lens| == |count| && forall k :: 0 <= k < |lens| ==> lens[k] <= m && (lens[k] > 0 <==> count[k] > 0)
    ensures UsedUpTo(lens, m) == |UsedSyms(count)|
  {
    if lens == [] {
      UsedNone(m);
    } else {
      UsedUpToStep(lens, m);
      UsedCount(count[..|count| - 1], lens[..|lens| - 1], m);
    }
  }

  const MAX_SYMBOLS: nat := 288      // TDEFL_MAX_HUFF_SYMBOLS

  /** One of the compressor's three Huffman tables. */
  class CodeTable {
    const count: array<nat>          // m_huff_count[table_num]
    const codes: array<nat>          // m_huff_codes[table_num]
    const sizes: array<nat>          // m_huff_code_sizes[table_num]

    ghost function Own(): set<object> { {count as object, codes as object, sizes as object} }

    constructor ()
      ensures Valid() && fresh(Own()) && forall k :: 0 <= k < MAX_SYMBOLS ==> count[k] == 0
    {
      count := new nat[MAX_SYMBOLS](_ => 0);
      codes := new nat[MAX_SYMBOLS](_ => 0);
      sizes := new nat[MAX_SYMBOLS](_ => 0);
    }

    ghost predicate Valid() {
      count != codes && count != sizes && codes != sizes && count.Length == codes.Length == sizes.Length == MAX_SYMBOLS
    }

    /** The codes are the canonical ones for the sizes, bit-reversed for sending low bit first. */
    ghost predicate Coded(n: nat)
      requires n <= sizes.Length && n <= codes.Length
      reads codes, sizes
    {
      forall k: nat :: k < n && sizes[k] > 0 ==>
          codes[k] < Pow2(sizes[k]) && ToBits(codes[k], sizes[k]) == Word(sizes[..n], k)
    }

    /** Collect the used symbols. */
    method CollectSyms(tableLen: nat) returns (syms: array<SymFreq>, n: nat)
      requires Valid() && tableLen <= MAX_SYMBOLS
      ensures fresh(syms) && syms.Length == MAX_SYMBOLS && n <= tableLen && syms[..n] == UsedSyms(count[..tableLen])
    {
      syms := new SymFreq[MAX_SYMBOLS](_ => SymFreq(0, 0));
      n := 0;
      for i := 0 to tableLen
        invariant n <= i && syms[..n] == UsedSyms(count[..i])
      {
        assert count[..i + 1][..i] == count[..i];
        if count[i] != 0 {
          syms[n] := SymFreq(count[i], i);
          n := n + 1;
        }
      }
    }

    /** The lengths of the used symbols before limiting, least frequent symbol first. */
    method UnlimitedLengths(tableLen: nat) returns (syms: array<SymFreq>, n: nat, ghost sorted: seq<SymFreq>)
      requires Valid() && tableLen <= MAX_SYMBOLS && Sum(count[..tableLen]) < 0x1_0000
      ensures fresh(syms) && n <= tableLen && n <= syms.Length && n == |UsedSyms(count[..tableLen])|
      ensures Lists(count[..tableLen], syms[..n]) && ByCount(count[..tableLen], syms[..n])
      ensures Descending(syms[..n], 22)
      ensures n >= 2 ==> Kraft(syms[..n], MAX_SUPPORTED) == Pow2(MAX_SUPPORTED)
      ensures n == 1 ==> syms[0].key == 1
      ensures ListsCounts(count[..tableLen], sorted) && SameSymbols(sorted, syms[..n])
          && Sum(Keys(sorted)) == Sum(count[..tableLen])
      ensures n >= 2 ==> AtLeast(Keys(sorted), Cost(Keys(sorted), Keys(syms[..n])))
      ensures n >= 2 ==> LightLeaves(Keys(sorted), syms[..n], -1, Sum(Keys(sorted)))
    {
      hide UsedSyms, Lists, ByCount, Sum, Kraft, Pow2, Descending, RadixSort.StableSorted, Ascending, ListsCounts,
           AtLeast, LightLeaves, Cost;
      ghost var counts := count[..tableLen];
      var syms0;
      syms0, n := CollectSyms(tableLen);
      var syms1 := new SymFreq[MAX_SYMBOLS](_ => SymFreq(0, 0));
      KeysSmall(counts);
      syms := RadixSort.RadixSortSyms(n, syms0, syms1);
      SortedLists(counts, syms[..n]);
      sorted := syms[..n];
      KeysLow(sorted);
      CalculateMinimumRedundancy(syms, n);
      SameSyms(counts, sorted, syms[..n]);
    }

    /** The dynamic half: sizes from counts. */
    method DynamicSizes(tableLen: nat, limit: nat, num: array<nat>)
      requires Valid() && tableLen <= MAX_SYMBOLS && 1 <= limit <= MAX_BITS && tableLen <= Pow2(limit)
      requires Sum(count[..tableLen]) < 0x1_0000 && num != sizes && num != codes && num != count
      requires num.Length == MAX_SUPPORTED + 1 && forall l :: 0 <= l < num.Length ==> num[l] == 0
      modifies num, sizes, codes
      ensures LengthsFor(count[..tableLen], sizes[..tableLen], limit) && Fits(sizes[..tableLen])
      ensures |UsedSyms(count[..tableLen])| >= 2 ==> Complete(sizes[..tableLen])
      ensures UsedUpTo(sizes[..tableLen], MAX_BITS) == |UsedSyms(count[..tableLen])|
      ensures forall l: nat :: 1 <= l <= limit ==> num[l] == Count(sizes[..tableLen], l)
      ensures forall k :: 0 <= k < codes.Length ==> codes[k] == 0
      ensures (forall k :: 0 <= k < tableLen ==> sizes[k] < limit) ==> Best(count[..tableLen], sizes[..tableLen])
      ensures limit == 15 ==> NearBest(count[..tableLen], sizes[..tableLen])
    {
      hide UsedSyms, Lists, ByCount, Sum, Kraft, Pow2, Descending, Fits, Complete, Handed, Counted, LengthsFor,
           LengthLimit.Weight, LengthLimit.Symbols, LengthLimit.Reached, Ranked, ListsCounts, AtLeast, LightLeaves,
           Cost, Best, NearBest, At, CountKeys;
      ghost var counts := count[..tableLen];
      ghost var sorted;
      var syms, n;
      syms, n, sorted := UnlimitedLengths(tableLen);
      ghost var s := syms[..n];
      KeysBelow(s, num.Length);
      LengthHistogram(syms, n, num);
      ghost var full := num[..];
      HistogramComplete(s, full, n, limit);
      ghost var low := LengthLimit.EnforceMaxCodeSize(num, n, limit);
      ghost var hist := num[..];
      for k := 0 to MAX_SYMBOLS
        invariant forall i :: 0 <= i < k ==> sizes[i] == 0 && codes[i] == 0
        invariant syms[..n] == s && num[..] == hist
      {
        sizes[k] := 0;
        codes[k] := 0;
      }
      AssignSizes(counts, syms, n, num, limit, sizes);
      HandedResult(counts, s, num[..], sizes[..], limit, n);
      GoodLengths(counts, sorted, s, sizes[..tableLen], sizes[..], full, hist, limit, low);
    }

    /** The static half: the sizes are already set. */
    method StaticSizes(tableLen: nat, num: array<nat>)
      requires Valid() && tableLen <= MAX_SYMBOLS && num != sizes && num.Length == MAX_SUPPORTED + 1
      requires forall k :: 0 <= k < tableLen ==> sizes[k] <= MAX_BITS
      requires forall l :: 0 <= l < num.Length ==> num[l] == 0
      modifies num
      ensures forall l :: 0 <= l < num.Length ==> num[l] == Count(sizes[..tableLen], l)
    {
      for i := 0 to tableLen
        invariant forall l :: 0 <= l < num.Length ==> num[l] == Count(sizes[..i], l)
      {
        assert sizes[..i + 1][..i] == sizes[..i];
        num[sizes[i]] := num[sizes[i]] + 1;
      }
    }

    /** Number the codes. */
    method AssignCodes(tableLen: nat, limit: nat, num: array<nat>)
      requires Valid() && tableLen <= MAX_SYMBOLS && num != codes && num.Length == MAX_SUPPORTED + 1
      requires 1 <= limit <= MAX_BITS && forall k :: 0 <= k < tableLen ==> sizes[k] <= limit
      requires forall l: nat :: 1 <= l <= limit ==> num[l] == Count(sizes[..tableLen], l)
      modifies codes
      ensures Coded(tableLen)
      ensures forall k: nat :: k < codes.Length && (k >= tableLen || sizes[k] == 0) ==> codes[k] == old(codes[k])
    {
      hide Count, First, Word, Pow2, ToBits;
      ghost var lens := sizes[..tableLen];
      var nextCode := NextCodes(lens, num, limit);
      CountNil();
      assert lens[..0] == [];
      for i := 0 to tableLen
        invariant nextCode.Length == MAX_SUPPORTED + 1 && sizes[..tableLen] == lens
        invariant forall l: nat :: 1 <= l <= limit ==> nextCode[l] == First(lens, l) + Count(lens[..i], l)
        invariant forall k: nat :: k < i && sizes[k] > 0 ==>
            codes[k] < Pow2(sizes[k]) && ToBits(codes[k], sizes[k]) == Word(lens, k)
        invariant forall k: nat :: k < codes.Length && (k >= i || sizes[k] == 0) ==> codes[k] == old(codes[k])
      {
        CountSnoc(lens, i);
        if sizes[i] != 0 {
          codes[i] := TakeCode(lens, i, sizes[i], nextCode, limit);
        }
      }
    }

    /**
      tdefl_optimize_huffman_table. With counts, the sizes fit them and fill the tree as soon as
      two symbols are used; either way the codes are the canonical ones for the sizes.
     */
    method OptimizeHuffmanTable(tableLen: nat, limit: nat, staticTable: bool)
      requires Valid() && tableLen <= MAX_SYMBOLS && 1 <= limit <= MAX_BITS && tableLen <= Pow2(limit)
      requires !staticTable ==> Sum(count[..tableLen]) < 0x1_0000
      requires staticTable ==> Fits(sizes[..tableLen]) && forall k :: 0 <= k < tableLen ==> sizes[k] <= limit
      modifies codes, sizes
      ensures Fits(sizes[..tableLen]) && Coded(tableLen)
      ensures staticTable ==> sizes[..] == old(sizes[..])
      ensures !staticTable ==> LengthsFor(count[..tableLen], sizes[..tableLen], limit)
      ensures !staticTable ==> Complete(sizes[..tableLen]) || UsedUpTo(sizes[..tableLen], MAX_BITS) <= 1
      ensures !staticTable ==> forall k: nat :: k < codes.Length && (k >= tableLen || sizes[k] == 0) ==> codes[k] == 0
      ensures !staticTable && (forall k :: 0 <= k < tableLen ==> sizes[k] < limit) ==>
          Best(count[..tableLen], sizes[..tableLen])
      ensures !staticTable && limit == 15 ==> NearBest(count[..tableLen], sizes[..tableLen])
    {
      hide Fits, Complete, Pow2, UsedSyms, UsedUpTo, Taken, Count, Sum, First, Word, Best, NearBest;
      var num := new nat[MAX_SUPPORTED + 1](_ => 0);
      if staticTable {
        StaticSizes(tableLen, num);
      } else {
        DynamicSizes(tableLen, limit, num);
        LengthsSmall(count[..tableLen], sizes[..tableLen], limit);
      }
      AssignCodes(tableLen, limit, num);
    }
  }

  // ---------- how good the lengths are ----------

  ghost predicate SameSymbols(s: seq<SymFreq>, t: seq<SymFreq>) {
    |s| == |t| && forall k :: 0 <= k < |s| ==> s[k].sym == t[k].sym
  }

  lemma {:induction false} KraftShare(s: seq<SymFreq>, m: nat)
    ensures Kraft(s, m) == Share(Keys(s), m)
  {
    hide Pow2;
    if s != [] {
      KraftShare(s[1..], m);
      assert Keys(s)[1..] == Keys(s[1..]);
    }
  }

  /** In a non-increasing list the lengths of at most d are the last ones. */
  lemma {:induction false} LastUpto(s: seq<SymFreq>, d: nat, k: nat)
    requires Descending(s, 22) && k < |s|
    ensures CountUpTo(s, d) <= |s| && (s[k].key <= d <==> k >= |s| - CountUpTo(s, d))
  {
    DescendingRest(s);
    CountBelow(s[1..], d);
    if s[0].key <= d {
      AllCounted(s, d);
    } else if k > 0 {
      LastUpto(s[1..], d, k - 1);
    }
  }

  lemma DescendingRest(s: seq<SymFreq>)
    requires Descending(s, 22) && s != []
    ensures Descending(s[1..], 22)
  {
    assert forall i :: 0 <= i < |s[1..]| ==> s[1..][i] == s[i + 1];
  }

  lemma {:induction false} CountBelow(s: seq<SymFreq>, d: nat)
    ensures CountUpTo(s, d) <= |s|
  {
    if s != [] { CountBelow(s[1..], d); }
  }

  lemma {:induction false} AllCounted(s: seq<SymFreq>, d: nat)
    requires Descending(s, 22) && s != [] && s[0].key <= d
    ensures CountUpTo(s, d) == |s| && forall k :: 0 <= k < |s| ==> s[k].key <= d
  {
    if |s| > 1 {
      DescendingRest(s);
      assert s[1].key <= s[0].key;
      AllCounted(s[1..], d);
    } else {
      assert s[1..] == [];
    }
  }

  lemma RankedKeys(s: seq<SymFreq>, num: seq<nat>, m: nat)
    requires Descending(s, 22) && m < |num| && forall l: nat :: l < |num| ==> num[l] == CountKeys(s, l)
    ensures Ranked(Keys(s), num, m)
  {
    hide CountKeys, Descending, CountUpTo, KraftUpTo, LengthLimit.Symbols, LengthLimit.Weight;
    forall d: nat | d <= m ensures LengthLimit.Symbols(num, d) <= |s|
        && Upto(Keys(s), d, |s| - LengthLimit.Symbols(num, d)) {
      HistogramSums(s, num, d, d);
      CountBelow(s, d);
      forall k: nat | k < |s| ensures Keys(s)[k] <= d <==> k >= |s| - LengthLimit.Symbols(num, d) { LastUpto(s, d, k); }
    }
  }

  lemma LightKeys(f: seq<nat>, s: seq<SymFreq>, total: nat)
    requires LightLeaves(f, s, -1, total) && Descending(s, 22)
    ensures Light(f, Keys(s), total)
  {
    hide Fib;
  }

  /** The lengths cost at most so much more than the unlimited ones, which no code beats. */
  lemma GoodLengths(count: seq<nat>, r: seq<SymFreq>, s: seq<SymFreq>, lens: seq<nat>, sizes: seq<nat>, h: seq<nat>,
                    num: seq<nat>, limit: nat, low: nat)
    requires ListsCounts(count, r) && SameSymbols(r, s) && |r| <= |count| <= 288 && Sum(Keys(r)) == Sum(count)
    requires |count| <= |sizes| && lens == sizes[..|count|] && LengthsFor(count, lens, limit)
    requires |r| >= 2 ==> AtLeast(Keys(r), Cost(Keys(r), Keys(s))) && LightLeaves(Keys(r), s, -1, Sum(Keys(r)))
    requires |r| >= 2 ==> Kraft(s, MAX_SUPPORTED) == Pow2(MAX_SUPPORTED)
    requires 1 <= limit <= 15 && Descending(s, 22) && |h| == |num| == MAX_SUPPORTED + 1
        && (forall l: nat :: l < |h| ==> h[l] == CountKeys(s, l))
    requires Ranked(At(sizes, s), num, limit)
    requires |r| >= 2 ==> LengthLimit.Symbols(num, limit) == |r| && LengthLimit.Weight(num, limit, limit) == Pow2(limit)
    requires |r| >= 2 ==> LengthLimit.Reached(h, num, limit, low, |r|)
    requires |r| <= 1 ==> num == h && (|r| == 1 ==> s[0].key == 1)
    ensures (forall k :: 0 <= k < |count| ==> lens[k] < limit) ==> Best(count, lens)
    ensures limit == 15 ==> NearBest(count, lens)
  {
    hide ListsCounts, AtLeast, LightLeaves, Kraft, Pow2, Descending, CountKeys, Ranked, Best, NearBest, LengthsFor, Sum,
         Cost, LengthLimit.Symbols, LengthLimit.Weight, LengthLimit.Reached;
    var f, l, m := Keys(r), Keys(s), At(lens, r);
    SameAt(count, r, s, lens, sizes);
    if |r| >= 2 {
      RankedKeys(s, h, limit - 1);
      AtSmall(count, r, lens, limit);
      if limit == 15 {
        LightKeys(f, s, Sum(f));
        KraftShare(s, MAX_SUPPORTED);
        LimitedNear(f, l, m, h, num, low);
        NearForAll(count, r, l, lens);
      }
      if forall k :: 0 <= k < |count| ==> lens[k] < limit {
        BelowLimit(count, r, h, num, limit, low, lens);
        UntouchedCost(f, l, m, h, num, limit);
        BestForAll(count, r, l, lens);
      }
    } else {
      FewBest(count, r, s, lens, num, limit);
      BestIsNear(count, lens);
    }
  }

  lemma SameAt(count: seq<nat>, r: seq<SymFreq>, s: seq<SymFreq>, lens: seq<nat>, sizes: seq<nat>)
    requires ListsCounts(count, r) && SameSymbols(r, s) && |count| <= |sizes| && lens == sizes[..|count|]
    ensures At(sizes, s) == At(lens, r)
  {
    hide UsedSyms;
  }

  lemma AtSmall(count: seq<nat>, r: seq<SymFreq>, lens: seq<nat>, limit: nat)
    requires ListsCounts(count, r) && LengthsFor(count, lens, limit)
    ensures |lens| == |count| && forall j :: 0 <= j < |r| ==> At(lens, r)[j] <= limit
  {
    hide UsedSyms;
  }

  /** If no symbol has the greatest length, nothing was split. */
  lemma BelowLimit(count: seq<nat>, r: seq<SymFreq>, h: seq<nat>, num: seq<nat>, limit: nat, low: nat, lens: seq<nat>)
    requires ListsCounts(count, r) && |r| >= 1 && |lens| == |count|
        && (forall k :: 0 <= k < |count| ==> lens[k] < limit)
    requires LengthLimit.Reached(h, num, limit, low, |r|) && Ranked(At(lens, r), num, limit)
    requires LengthLimit.Symbols(num, limit) == |r| && LengthLimit.Weight(num, limit, limit) == Pow2(limit)
    ensures low == limit
  {
    hide UsedSyms, Pow2, LengthLimit.Symbols, LengthLimit.Weight, Ranked;
    if low < limit { LongestUsed(At(lens, r), h, num, limit, low); }
  }

  lemma BestForAll(count: seq<nat>, r: seq<SymFreq>, l: seq<nat>, lens: seq<nat>)
    requires ListsCounts(count, r) && |l| == |r| && |lens| == |count| && AtLeast(Keys(r), Cost(Keys(r), l))
    requires Cost(Keys(r), At(lens, r)) <= Cost(Keys(r), l)
    ensures Best(count, lens)
  {
    hide ListsCounts, Cost, Keys, At, Decodable;
    SameCost(count, r, lens);
    forall x: seq<nat>, m: nat | Rival(count, x, m) ensures Cost(count, lens) <= Cost(count, x) {
      SameCost(count, r, x);
      SameDecodable(count, r, x, m);
    }
  }

  lemma NearForAll(count: seq<nat>, r: seq<SymFreq>, l: seq<nat>, lens: seq<nat>)
    requires ListsCounts(count, r) && |l| == |r| <= |count| == |lens| && AtLeast(Keys(r), Cost(Keys(r), l))
    requires Near(Keys(r), l, At(lens, r)) && Sum(Keys(r)) == Sum(count)
    ensures NearBest(count, lens)
  {
    hide ListsCounts, Cost, Keys, At, Decodable, Sum;
    SameCost(count, r, lens);
    forall x: seq<nat>, m: nat | Rival(count, x, m)
      ensures 25 * Cost(count, lens) <= 25 * Cost(count, x) + 23 * Sum(count)
      ensures |count| <= 32 ==> 10 * Cost(count, lens) <= 10 * Cost(count, x) + Sum(count)
    {
      SameCost(count, r, x);
      SameDecodable(count, r, x, m);
    }
  }

  /** One symbol takes one bit, and none takes nothing. */
  lemma FewBest(count: seq<nat>, r: seq<SymFreq>, s: seq<SymFreq>, lens: seq<nat>, num: seq<nat>, limit: nat)
    requires ListsCounts(count, r) && SameSymbols(r, s) && |r| <= 1 && |lens| == |count| && 1 <= limit < |num|
    requires Ranked(At(lens, r), num, limit) && (forall l: nat :: l < |num| ==> num[l] == CountKeys(s, l))
        && (|r| == 1 ==> s[0].key == 1)
    ensures Best(count, lens)
  {
    hide ListsCounts, Cost, Decodable, Ranked, CountKeys;
    SameCost(count, r, lens);
    forall x: seq<nat>, m: nat | Rival(count, x, m) ensures Cost(count, lens) <= Cost(count, x) {
      SameCost(count, r, x);
      if |r| == 1 {
        LoneLength(s, num, At(lens, r), limit);
        LoneUsed(count, r);
        LoneCost(Keys(r), At(lens, r));
        LoneCost(Keys(r), At(x, r));
        LengthLimit.MulUp(r[0].key, At(lens, r)[0], At(x, r)[0]);
      } else {
        assert Keys(r) == [] && At(lens, r) == [] && At(x, r) == [];
      }
    }
  }

  lemma LoneLength(s: seq<SymFreq>, num: seq<nat>, m: seq<nat>, limit: nat)
    requires |s| == |m| == 1 && s[0].key == 1 && 1 <= limit < |num| && num[1] == CountKeys(s, 1)
        && Ranked(m, num, limit)
    ensures m[0] <= 1
  {
    hide Ranked;
    assert s[1..] == [];
    LengthLimit.LastTerm(num, 1, 1);
    RankedAt(m, num, limit, 1, 0);
  }

  lemma LoneUsed(count: seq<nat>, r: seq<SymFreq>)
    requires ListsCounts(count, r) && |r| == 1
    ensures r[0].sym < |count| && count[r[0].sym] > 0
  {
    hide UsedSyms;
    PermutedLists(count, UsedSyms(count), r);
  }

  lemma LoneCost(f: seq<nat>, x: seq<nat>)
    requires |f| == |x| == 1
    ensures Cost(f, x) == f[0] * x[0]
  {
    assert f[1..] == [] && x[1..] == [];
  }

  lemma LengthsSmall(count: seq<nat>, lens: seq<nat>, limit: nat)
    requires LengthsFor(count, lens, limit)
    ensures forall k :: 0 <= k < |lens| ==> lens[k] <= limit
  {
  }

  method NextCodes(ghost lens: seq<nat>, num: array<nat>, limit: nat) returns (nextCode: array<nat>)
    requires num.Length == MAX_SUPPORTED + 1 && 1 <= limit <= MAX_BITS
    requires forall l: nat :: 1 <= l <= limit ==> num[l] == Count(lens, l)
    ensures fresh(nextCode) && nextCode.Length == MAX_SUPPORTED + 1
    ensures forall l: nat :: 1 <= l <= limit ==> nextCode[l] == First(lens, l)
  {
    nextCode := new nat[MAX_SUPPORTED + 1](_ => 0);
    nextCode[1] := 0;
    var j := 0;
    for i := 2 to limit + 1
      invariant j == First(lens, i - 1)
      invariant forall l: nat :: 1 <= l < i ==> nextCode[l] == First(lens, l)
    {
      j := 2 * (j + num[i - 1]);
      nextCode[i] := j;
    }
  }

  lemma KeysSmall(count: seq<nat>)
    requires Sum(count) < 0x1_0000
    ensures forall i :: 0 <= i < |UsedSyms(count)| ==> UsedSyms(count)[i].key < 0x1_0000
  {
    UsedSymsFacts(count);
    forall i | 0 <= i < |UsedSyms(count)| ensures UsedSyms(count)[i].key < 0x1_0000 {
      SumAt(count, UsedSyms(count)[i].sym);
    }
  }

  lemma KeysLow(s: seq<SymFreq>)
    ensures forall i :: 0 <= i < |s| ==> Keys(s)[i] == s[i].key
  {
  }

  lemma SameSyms(count: seq<nat>, s: seq<SymFreq>, t: seq<SymFreq>)
    requires Lists(count, s) && ByCount(count, s) && |t| == |s| && forall i :: 0 <= i < |s| ==> t[i].sym == s[i].sym
    ensures Lists(count, t) && ByCount(count, t)
  {
    forall k: nat | k < |count| && count[k] > 0 ensures exists j :: 0 <= j < |t| && t[j].sym == k {
      var j :| 0 <= j < |s| && s[j].sym == k;
      assert t[j].sym == k;
    }
  }

  lemma KeysBelow(s: seq<SymFreq>, m: nat)
    requires Descending(s, 22) && m == MAX_SUPPORTED + 1
    ensures forall i :: 0 <= i < |s| ==> s[i].key < m
  {
  }

  /** The histogram of complete lengths is what the limiter asks for. */
  lemma HistogramComplete(s: seq<SymFreq>, num: seq<nat>, n: nat, limit: nat)
    requires |num| == MAX_SUPPORTED + 1 && n == |s| <= Pow2(limit) && Descending(s, 22)
    requires forall l: nat :: l < |num| ==> num[l] == CountKeys(s, l)
    requires n >= 2 ==> Kraft(s, MAX_SUPPORTED) == Pow2(MAX_SUPPORTED)
    requires n == 1 ==> s[0].key == 1
    requires 1 <= limit <= MAX_BITS
    ensures n > 1 ==>
            LengthLimit.Symbols(num, |num| - 1) == n
            && LengthLimit.Weight(num, |num| - 1, |num| - 1) == Pow2(|num| - 1)
    ensures n <= 1 ==> LengthLimit.Symbols(num, limit) == n && LengthLimit.Weight(num, limit, limit) <= Pow2(limit)
  {
    hide Pow2, Kraft, CountKeys, LengthLimit.Symbols, LengthLimit.Weight;
    if n > 1 {
      HistogramSums(s, num, |num| - 1, |num| - 1);
      AllUpTo(s, |num| - 1);
    } else {
      HistogramSums(s, num, limit, limit);
      LoneSums(s, limit);
    }
  }

  lemma LoneSums(s: seq<SymFreq>, limit: nat)
    requires |s| <= 1 && (|s| == 1 ==> s[0].key == 1) && 1 <= limit
    ensures CountUpTo(s, limit) == |s| && KraftUpTo(s, limit, limit) <= Pow2(limit)
  {
    if |s| == 1 { assert s[1..] == []; }
  }

  lemma HandedResult(count: seq<nat>, s: seq<SymFreq>, num: seq<nat>, sizes: seq<nat>, limit: nat, n: nat)
    requires Handed(s, num, sizes, 0, limit, 0) && Counted(num, sizes, limit, 0) && Lists(count, s) && ByCount(count, s)
    requires |count| <= |sizes| && 1 <= limit <= MAX_BITS && limit < |num| && n == |s|
    requires LengthLimit.Weight(num, limit, limit) <= Pow2(limit)
    requires n > 1 ==> LengthLimit.Weight(num, limit, limit) == Pow2(limit)
    ensures LengthsFor(count, sizes[..|count|], limit) && Fits(sizes[..|count|])
    ensures UsedUpTo(sizes[..|count|], MAX_BITS) == |UsedSyms(count)|
    ensures n >= 2 ==> Complete(sizes[..|count|])
    ensures forall l: nat :: 1 <= l <= limit ==> num[l] == Count(sizes[..|count|], l)
  {
    hide LengthLimit.Weight, Pow2, Handed, Lists, ByCount;
    HandedLengths(count, s, num, sizes, limit);
    var lens := sizes[..|count|];
    forall l: nat | l >= 1 ensures Count(lens, l) == if l <= limit then num[l] else 0 {
      CountTail(sizes, |count|, l);
    }
    assert Counted(num, lens, limit, 0);
    HandedFits(lens, num, limit);
    UsedCount(count, lens, MAX_BITS);
  }
}
