/**
  tdefl_huffman_enforce_max_code_size: bring a histogram of code lengths below a maximum while
  keeping the code complete.
 */
module LengthLimit {
  import opened Bits

  /** Symbols with lengths 1..m. */
  function Symbols(num: seq<nat>, m: nat): nat
    requires m < |num|
  {
    if m == 0 then 0 else Symbols(num, m - 1) + num[m]
  }

  /** The Kraft sum over lengths 1..m, in units of 2^-unit. */
  function Weight(num: seq<nat>, m: nat, unit: nat): nat
    requires m < |num| && m <= unit
  {
    if m == 0 then 0 else Weight(num, m - 1, unit) + num[m] * Pow2(unit - m)
  }

  lemma {:induction false} SymbolsUpdate(num: seq<nat>, m: nat, k: nat, v: nat)
    requires m < |num| && k < |num|
    ensures Symbols(num[k := v], m) == Symbols(num, m) + if 1 <= k <= m then v - num[k] else 0
  {
    if m != 0 { SymbolsUpdate(num, m - 1, k, v); }
  }

  lemma {:induction false} WeightUpdate(num: seq<nat>, m: nat, unit: nat, k: nat, v: nat)
    requires m < |num| && m <= unit && k < |num|
    ensures Weight(num[k := v], m, unit) == Weight(num, m, unit) + if 1 <= k <= m then (v - num[k]) * Pow2(unit - k)
        else 0
  {
    if m != 0 { WeightUpdate(num, m - 1, unit, k, v); }
  }

  /** The same sum in a finer unit. */
  lemma {:induction false} WeightScale(num: seq<nat>, m: nat, unit: nat, unit': nat)
    requires m < |num| && m <= unit <= unit'
    ensures Weight(num, m, unit') == Weight(num, m, unit) * Pow2(unit' - unit)
  {
    if m != 0 {
      WeightScale(num, m - 1, unit, unit');
      var p, c := Pow2(unit - m), Pow2(unit' - unit);
      assert Pow2(unit' - m) == p * c by { Pow2Add(unit - m, unit' - unit); }
      Assoc(num[m], p, c);
      Distr(Weight(num, m - 1, unit), num[m] * p, c);
    }
  }

  lemma {:induction false} WeightMono(num: seq<nat>, l: nat, m: nat, unit: nat)
    requires l <= m < |num| && m <= unit
    ensures Weight(num, l, unit) <= Weight(num, m, unit)
    decreases m
  {
    if l < m { WeightMono(num, l, m - 1, unit); }
  }

  /** Shortening every longer code to length max can only raise the Kraft sum. */
  lemma {:induction false} FoldRaises(num: seq<nat>, max: nat, m: nat, unit: nat)
    requires max <= m < |num| && m <= unit
    ensures Weight(num, m, unit) <= Weight(num, max, unit) + (Symbols(num, m) - Symbols(num, max)) * Pow2(unit - max)
    decreases m
  {
    if max < m {
      FoldRaises(num, max, m - 1, unit);
      Pow2Mono(unit - m, unit - max);
      MulUp(num[m], Pow2(unit - m), Pow2(unit - max));
      Distr(Symbols(num, m - 1) - Symbols(num, max), num[m], Pow2(unit - max));
    }
  }

  lemma MulUp(a: nat, b: nat, c: nat)
    requires b <= c
    ensures a * b <= a * c
  {
  }

  lemma MulUpLeft(a: nat, b: nat, c: nat)
    requires a <= b
    ensures a * c <= b * c
  {
  }

  lemma MulLess(a: nat, b: nat, c: nat)
    requires a < b && c > 0
    ensures a * c < b * c
  {
  }

  lemma Distr(a: int, b: int, c: int)
    ensures (a + b) * c == a * c + b * c
  {
  }

  lemma Assoc(a: int, b: int, c: int)
    ensures a * (b * c) == a * b * c
  {
  }

  lemma MulCancel(a: nat, b: nat, c: nat)
    requires c > 0 && a * c <= b * c
    ensures a <= b
  {
    if a > b { MulLess(b, a, c); }
  }

  /** What the outer loop keeps. */
  ghost predicate Limiting(num: seq<nat>, max: nat, total: nat, symbols: nat) {
    && 1 <= max < |num|
    && Symbols(num, max) == symbols <= Pow2(max)
    && total == Weight(num, max, max) >= Pow2(max)
    && Weight(num, max - 1, max) <= Pow2(max)
  }

  /** Folding the longer codes into length max establishes it. */
  lemma Folded(num: seq<nat>, max: nat, m: nat, extra: nat, num': seq<nat>)
    requires 1 <= max <= m < |num| && Weight(num, m, m) == Pow2(m) && Symbols(num, m) <= Pow2(max)
    requires extra == Symbols(num, m) - Symbols(num, max) && num' == num[max := num[max] + extra]
    ensures Limiting(num', max, Weight(num', max, max), Symbols(num, m))
  {
    SymbolsUpdate(num, max, max, num[max] + extra);
    WeightUpdate(num, max, max, max, num[max] + extra);
    WeightUpdate(num, max - 1, max, max, num[max] + extra);
    assert Weight(num', max, max) == Weight(num, max, max) + extra;
    FoldedHigh(num, max, m, extra);
    FoldedLow(num, max, m);
  }

  lemma FoldedHigh(num: seq<nat>, max: nat, m: nat, extra: nat)
    requires 1 <= max <= m < |num| && Weight(num, m, m) == Pow2(m)
    requires extra == Symbols(num, m) - Symbols(num, max)
    ensures Pow2(max) <= Weight(num, max, max) + extra
  {
    hide Weight, Symbols, Pow2;
    var c := Pow2(m - max);
    FoldRaises(num, max, m, m);
    WeightScale(num, max, max, m);
    Pow2Add(max, m - max);
    Distr(Weight(num, max, max), extra, c);
    MulCancel(Pow2(max), Weight(num, max, max) + extra, c);
  }

  lemma FoldedLow(num: seq<nat>, max: nat, m: nat)
    requires 1 <= max <= m < |num| && Weight(num, m, m) == Pow2(m)
    ensures Weight(num, max - 1, max) <= Pow2(max)
  {
    hide Weight, Symbols, Pow2;
    WeightScale(num, max - 1, max, m);
    WeightMono(num, max - 1, m, m);
    Pow2Add(max, m - max);
    MulCancel(Weight(num, max - 1, max), Pow2(max), Pow2(m - max));
  }

  /** While the sum is too large some code is shorter than max, and one has exactly length max. */
  lemma {:induction false} AllLong(num: seq<nat>, m: nat, unit: nat)
    requires m < |num| && m <= unit && forall i :: 1 <= i <= m ==> num[i] == 0
    ensures Symbols(num, m) == 0 && Weight(num, m, unit) == 0
  {
    if m != 0 { AllLong(num, m - 1, unit); }
  }

  lemma StillShort(num: seq<nat>, max: nat, total: nat, symbols: nat)
    requires Limiting(num, max, total, symbols) && total != Pow2(max)
    ensures num[max] >= 1
    ensures exists i :: 1 <= i < max && num[i] > 0
  {
    assert Weight(num, max, max) == Weight(num, max - 1, max) + num[max];
    if forall i :: 1 <= i < max ==> num[i] == 0 {
      AllLong(num, max - 1, max);
    }
  }

  /** One round: a code of length max is dropped, and a shorter one is split in two. */
  function Split(num: seq<nat>, max: nat, i: nat): seq<nat>
    requires 1 <= i < max < |num| && num[max] >= 1 && num[i] >= 1
  {
    var a := num[max := num[max] - 1];
    var b := a[i := a[i] - 1];
    b[i + 1 := b[i + 1] + 2]
  }

  /** Splitting keeps the number of symbols. */
  lemma SplitSymbols(num: seq<nat>, max: nat, i: nat)
    requires 1 <= i < max < |num| && num[max] >= 1 && num[i] >= 1
    ensures Symbols(Split(num, max, i), max) == Symbols(num, max)
  {
    hide Symbols;
    var a := num[max := num[max] - 1];
    var b := a[i := a[i] - 1];
    SymbolsUpdate(num, max, max, num[max] - 1);
    SymbolsUpdate(a, max, i, a[i] - 1);
    SymbolsUpdate(b, max, i + 1, b[i + 1] + 2);
  }

  /** It takes one unit off the sum, and nothing is added below length max. */
  lemma SplitWeight(num: seq<nat>, max: nat, i: nat, m: nat)
    requires 1 <= i < max < |num| && num[max] >= 1 && num[i] >= 1 && max - 1 <= m <= max
    ensures m == max ==> Weight(Split(num, max, i), m, max) == Weight(num, m, max) - 1
    ensures m < max ==> Weight(Split(num, max, i), m, max) <= Weight(num, m, max)
  {
    hide Weight;
    var a := num[max := num[max] - 1];
    var b := a[i := a[i] - 1];
    var c := Split(num, max, i);
    WeightUpdate(num, m, max, max, num[max] - 1);
    WeightUpdate(a, m, max, i, a[i] - 1);
    WeightUpdate(b, m, max, i + 1, b[i + 1] + 2);
    var u := Pow2(max - (i + 1));
    assert Pow2(max - i) == 2 * u;
    assert Weight(b, m, max) == Weight(a, m, max) - 2 * u;
  }

  lemma SplitKeeps(num: seq<nat>, max: nat, i: nat, total: nat, symbols: nat)
    requires Limiting(num, max, total, symbols) && total != Pow2(max)
    requires 1 <= i < max && num[max] >= 1 && num[i] >= 1
    ensures Limiting(Split(num, max, i), max, total - 1, symbols)
  {
    hide Weight, Symbols, Pow2, Split;
    SplitSymbols(num, max, i);
    SplitWeight(num, max, i, max);
    SplitWeight(num, max, i, max - 1);
    SplitLength(num, max, i);
  }

  lemma SplitLength(num: seq<nat>, max: nat, i: nat)
    requires 1 <= i < max < |num| && num[max] >= 1 && num[i] >= 1
    ensures |Split(num, max, i)| == |num|
  {
  }

  // ---------- how far the splitting gets ----------

  /**
    h is the histogram before limiting. Codes shorter than low have been left alone, and if low is
    less than max some of length low have been split; before the last of those was, everything
    between low and max had been split away and the sum was still too large.
   */
  ghost predicate Reached(h: seq<nat>, num: seq<nat>, max: nat, low: nat, symbols: nat) {
    && |h| == |num| && 1 <= low <= max < |num|
    && (forall l :: 1 <= l < low ==> num[l] == h[l])
    && (low < max ==>
          && num[low] < h[low] && Symbols(num, low) < symbols
          && Weight(num, low - 1, max) + (num[low] + 1) * Pow2(max - low)
              + (symbols - Symbols(num, low) - 1) > Pow2(max)
          && Weight(num, max - 1, max) < Pow2(max))
  }

  lemma {:induction false} NoneAbove(num: seq<nat>, l: nat, m: nat, unit: nat)
    requires l <= m < |num| && m <= unit && Weight(num, l, unit) >= Weight(num, m, unit)
    ensures Symbols(num, m) == Symbols(num, l)
    decreases m
  {
    if l < m {
      WeightMono(num, l, m - 1, unit);
      if num[m] > 0 { MulUpLeft(1, num[m], Pow2(unit - m)); }
      NoneAbove(num, l, m - 1, unit);
    }
  }

  /** Unless nothing is to be done, the codes below max leave room. */
  lemma FoldedTight(num: seq<nat>, max: nat, m: nat, extra: nat, num': seq<nat>)
    requires 1 <= max <= m < |num| && Weight(num, m, m) == Pow2(m)
    requires extra == Symbols(num, m) - Symbols(num, max) && num' == num[max := num[max] + extra]
    ensures Weight(num', max, max) != Pow2(max) ==> Weight(num', max - 1, max) != Pow2(max)
  {
    hide Weight, Symbols, Pow2;
    WeightUpdate(num, max - 1, max, max, num[max] + extra);
    if Weight(num, max - 1, max) == Pow2(max) {
      WeightScale(num, max - 1, max, m);
      Pow2Add(max, m - max);
      NoneAbove(num, max - 1, m, m);
      LastTerm(num, max, max);
      LastTerm(num', max, max);
      assert num'[max] == 0;
    }
  }

  /** When only lengths up to i and max itself are in use. */
  lemma {:induction false} GapSums(num: seq<nat>, max: nat, i: nat, m: nat)
    requires i <= m < max < |num| && forall l :: i < l < max ==> num[l] == 0
    ensures Symbols(num, m) == Symbols(num, i) && Weight(num, m, max) == Weight(num, i, max)
    decreases m
  {
    if i < m { GapSums(num, max, i, m - 1); }
  }

  lemma {:induction false} SameBelow(num: seq<nat>, num': seq<nat>, m: nat, unit: nat)
    requires m < |num| == |num'| && m <= unit && forall l :: 1 <= l <= m ==> num'[l] == num[l]
    ensures Symbols(num', m) == Symbols(num, m) && Weight(num', m, unit) == Weight(num, m, unit)
  {
    if m != 0 { SameBelow(num, num', m - 1, unit); }
  }

  lemma SplitReaches(h: seq<nat>, num: seq<nat>, max: nat, low: nat, i: nat, total: nat, symbols: nat)
    requires Reached(h, num, max, low, symbols) && Limiting(num, max, total, symbols) && total != Pow2(max)
    requires Weight(num, max - 1, max) < Pow2(max)
    requires 1 <= i < max && num[max] >= 1 && num[i] >= 1 && forall l :: i < l < max ==> num[l] == 0
    ensures Reached(h, Split(num, max, i), max, if i < low then i else low, symbols)
    ensures Weight(Split(num, max, i), max - 1, max) < Pow2(max)
  {
    hide Weight, Symbols, Pow2, Split;
    var num' := Split(num, max, i);
    SplitValues(num, max, i);
    SplitWeight(num, max, i, max - 1);
    if i <= low {
      SplitDown(num, num', max, i, total, symbols);
    } else {
      SameBelow(num, num', low, max);
      SameBelow(num, num', low - 1, max);
    }
  }

  /** The first split of a length whose longer lengths are all split away. */
  lemma SplitDown(num: seq<nat>, num': seq<nat>, max: nat, i: nat, total: nat, symbols: nat)
    requires 1 <= i < max < |num| == |num'| && num[i] >= 1 && num[max] >= 1 && num'[i] == num[i] - 1
    requires Symbols(num, max) == symbols && total == Weight(num, max, max) > Pow2(max)
    requires (forall l :: 0 <= l < i ==> num'[l] == num[l]) && forall l :: i < l < max ==> num[l] == 0
    ensures Symbols(num', i) < symbols
    ensures Weight(num', i - 1, max) + (num'[i] + 1) * Pow2(max - i) + (symbols - Symbols(num', i) - 1) > Pow2(max)
  {
    hide Weight, Symbols, Pow2;
    SameBelow(num, num', i - 1, max);
    GapSums(num, max, i, max - 1);
    LastTerm(num, i, max);
    LastTerm(num', i, max);
    LastTerm(num, max, max);
    One(max, num[max]);
  }

  lemma SplitValues(num: seq<nat>, max: nat, i: nat)
    requires 1 <= i < max < |num| && num[max] >= 1 && num[i] >= 1
    ensures |Split(num, max, i)| == |num| && Split(num, max, i)[i] == num[i] - 1
    ensures forall l :: 0 <= l < i ==> Split(num, max, i)[l] == num[l]
  {
  }

  lemma NothingReached(h: seq<nat>, num: seq<nat>, max: nat, symbols: nat)
    requires |h| == |num| && 1 <= max < |num| && forall l :: 1 <= l < max ==> num[l] == h[l]
    ensures Reached(h, num, max, max, symbols)
  {
  }

  lemma LastTerm(num: seq<nat>, m: nat, unit: nat)
    requires 1 <= m < |num| && m <= unit
    ensures Symbols(num, m) == Symbols(num, m - 1) + num[m]
    ensures Weight(num, m, unit) == Weight(num, m - 1, unit) + num[m] * Pow2(unit - m)
  {
  }

  lemma One(max: nat, n: nat)
    ensures n * Pow2(max - max) == n
  {
  }

  lemma {:induction false} WeightBound(num: seq<nat>, m: nat, unit: nat)
    requires m < |num| && m <= unit
    ensures Weight(num, m, unit) <= Symbols(num, m) * Pow2(unit)
  {
    if m != 0 {
      WeightBound(num, m - 1, unit);
      Pow2Mono(unit - m, unit);
      MulUp(num[m], Pow2(unit - m), Pow2(unit));
      Distr(Symbols(num, m - 1), num[m], Pow2(unit));
    }
  }

  /** At most 2^max symbols weigh at most 2^(2 max). */
  lemma TotalFits(num: seq<nat>, max: nat, symbols: nat, width: nat)
    requires 1 <= max < |num| && Symbols(num, max) == symbols <= Pow2(max) && 2 * max < width
    ensures Weight(num, max, max) < Pow2(width)
  {
    WeightBound(num, max, max);
    Pow2Add(max, max);
    MulUp(Pow2(max), symbols, Pow2(max));
    assert symbols * Pow2(max) == Pow2(max) * symbols;
    Pow2Mono(max + max, width - 1);
    assert Pow2(width) == 2 * Pow2(width - 1);
  }

  method FoldLong(num: array<nat>, max: nat)
    requires 1 <= max < num.Length
    modifies num
    ensures Symbols(old(num[..]), num.Length - 1) >= Symbols(old(num[..]), max)
    ensures num[..] == old(num[..])[max := old(num[max]) + (Symbols(old(num[..]),
        num.Length - 1) - Symbols(old(num[..]), max))]
  {
    ghost var before := num[..];
    for i := max + 1 to num.Length
      invariant forall k :: 0 <= k < num.Length && k != max ==> num[k] == before[k]
      invariant Symbols(before, i - 1) >= Symbols(before, max)
      invariant num[max] == before[max] + (Symbols(before, i - 1) - Symbols(before, max))
    {
      num[max] := num[max] + num[i];
    }
  }

  method TotalWeight(num: array<nat>, max: nat) returns (total: nat)
    requires 1 <= max < num.Length && Weight(num[..], max, max) < Pow2(32)
    ensures total == Weight(num[..], max, max)
  {
    hide Pow2, Low;
    total := 0;
    var i := max;
    while i > 0
      invariant 0 <= i <= max && total + Weight(num[..], i, max) == Weight(num[..], max, max)
    {
      ShlIsTimes(num[i], max - i);
      LowSmall(total + Shl(num[i], max - i), 32);
      total := Low(total + Shl(num[i], max - i), 32);
      i := i - 1;
    }
  }

  method SplitOne(num: array<nat>, max: nat) returns (ghost i: nat)
    requires 1 <= max < num.Length && num[max] >= 1
    requires exists k :: 1 <= k < max && num[k] > 0
    modifies num
    ensures 1 <= i < max && old(num[i]) >= 1 && num[..] == Split(old(num[..]), max, i)
    ensures forall l :: i < l < max ==> old(num[l]) == 0
  {
    ghost var before := num[..];
    num[max] := num[max] - 1;
    var j := max - 1;
    while j > 0
      invariant 0 <= j < max && num[..] == before[max := before[max] - 1]
      invariant exists k :: 1 <= k <= j && before[k] > 0
      invariant forall l :: j < l < max ==> before[l] == 0
    {
      if num[j] != 0 {
        i := j;
        num[j] := num[j] - 1;
        num[j + 1] := num[j + 1] + 2;
        return;
      }
      j := j - 1;
    }
    assert false;
  }

  /**
    tdefl_huffman_enforce_max_code_size. From a complete code of at most 2^max symbols it reaches
    a complete code of as many symbols with no length above max; one symbol or none is left alone.
   */
  method EnforceMaxCodeSize(num: array<nat>, listLen: nat, max: nat) returns (ghost low: nat)
    requires 1 <= max < num.Length && max <= 15
    requires listLen > 1 ==>
               && Symbols(num[..], num.Length - 1) == listLen <= Pow2(max)
               && Weight(num[..], num.Length - 1, num.Length - 1) == Pow2(num.Length - 1)
    modifies num
    ensures listLen <= 1 ==> num[..] == old(num[..])
    ensures listLen > 1 ==> Symbols(num[..], max) == listLen && Weight(num[..], max, max) == Pow2(max)
    ensures listLen > 1 ==> Reached(old(num[..]), num[..], max, low, listLen)
  {
    hide Pow2, Symbols, Weight, Split, Reached;
    low := max;
    if listLen <= 1 {
      return;
    }
    ghost var before := num[..];
    FoldLong(num, max);
    Folded(before, max, num.Length - 1, Symbols(before, num.Length - 1) - Symbols(before, max), num[..]);
    FoldedTight(before, max, num.Length - 1, Symbols(before, num.Length - 1) - Symbols(before, max), num[..]);
    NothingReached(before, num[..], max, listLen);
    TotalFits(num[..], max, listLen, 32);
    var total := TotalWeight(num, max);
    while total != Pow2(max)
      invariant total >= 0 && Limiting(num[..], max, total, listLen) && Reached(before, num[..], max, low, listLen)
      invariant total != Pow2(max) ==> Weight(num[..], max - 1, max) < Pow2(max)
      decreases total - Pow2(max)
    {
      ghost var now := num[..];
      StillShort(now, max, total, listLen);
      ghost var i := SplitOne(num, max);
      SplitKeeps(now, max, i, total, listLen);
      SplitReaches(before, now, max, low, i, total, listLen);
      low := if i < low then i else low;
      total := total - 1;
    }
  }
}
