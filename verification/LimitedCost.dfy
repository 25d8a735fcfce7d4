/**
  What limiting code lengths to 15 costs: less than 0.92 bits a symbol sent with up to 288
  symbols in use, and less than a tenth of a bit with up to 32.
 */
module LimitedCost {
  import opened Bits
  import opened Optimality
  import opened MinRedundancy
  import opened CodeDepths
  import opened LengthLimit

  // ---------- lengths and their histogram ----------

  /** Non-increasing lengths with this histogram: those of at most d are the last ones. */
  ghost predicate Ranked(l: seq<nat>, num: seq<nat>, m: nat) {
    && m < |num|
    && forall d: nat :: d <= m ==> Symbols(num, d) <= |l| && Upto(l, d, |l| - Symbols(num, d))
  }

  ghost predicate Upto(l: seq<nat>, d: nat, from: nat) {
    forall k: nat :: k < |l| ==> (l[k] <= d <==> k >= from)
  }

  lemma RankedAt(l: seq<nat>, num: seq<nat>, m: nat, d: nat, k: nat)
    requires Ranked(l, num, m) && d <= m && k < |l|
    ensures Symbols(num, d) <= |l| && (l[k] <= d <==> k >= |l| - Symbols(num, d))
  {
    assert Upto(l, d, |l| - Symbols(num, d));
  }

  lemma {:induction false} ShareAppend(s: seq<nat>, t: seq<nat>, m: nat)
    ensures Share(s + t, m) == Share(s, m) + Share(t, m)
  {
    if s == [] {
      JoinNothing(t);
    } else {
      assert (s + t)[1..] == s[1..] + t;
      ShareAppend(s[1..], t, m);
    }
  }

  lemma {:induction false} ShareScale(s: seq<nat>, m: nat, m': nat)
    requires m <= m' && forall i :: 0 <= i < |s| ==> s[i] <= m
    ensures Share(s, m') == Share(s, m) * Pow2(m' - m)
  {
    if s != [] {
      ShareScale(s[1..], m, m');
      Pow2Add(m - s[0], m' - m);
      Distr(Pow2(m - s[0]), Share(s[1..], m), Pow2(m' - m));
    }
  }

  lemma {:induction false} SharePositive(s: seq<nat>, m: nat)
    requires s != [] && s[0] <= m
    ensures Share(s, m) >= 1
  {
  }

  /** The Kraft sum of the lengths from k on, out of the histogram. */
  lemma {:induction false} SuffixShare(l: seq<nat>, num: seq<nat>, m: nat, low: nat, k: nat, unit: nat)
    requires Ranked(l, num, m) && 1 <= low <= m <= unit && forall i :: 0 <= i < |l| ==> l[i] >= 1
    requires Symbols(num, low) <= |l| && |l| - Symbols(num, low) <= k <= |l| - Symbols(num, low - 1)
    ensures Share(l[k..], unit) == Weight(num, low - 1, unit) + (|l| - Symbols(num, low - 1) - k) * Pow2(unit - low)
    decreases low, |l| - k
  {
    RankedSize(l, num, m);
    hide Ranked, Pow2, Share, Symbols, Weight;
    LastTerm(num, low, unit);
    var end := |l| - Symbols(num, low - 1);
    if k < end {
      SuffixShare(l, num, m, low, k + 1, unit);
      RankedAt(l, num, m, low, k);
      RankedAt(l, num, m, low - 1, k);
      ShareStep(l, k, unit);
      OneMore(end - (k + 1), end - k, Pow2(unit - low));
    } else if low > 1 {
      LastTerm(num, low - 1, unit);
      SuffixShare(l, num, m, low - 1, k, unit);
      Same(|l| - Symbols(num, low - 2) - k, num[low - 1], Pow2(unit - (low - 1)));
      Same(end - k, 0, Pow2(unit - low));
    } else {
      NoShare(l, num, k, unit);
      Same(end - k, 0, Pow2(unit - low));
    }
  }

  lemma OneMore(a: int, b: int, p: nat)
    requires b == a + 1
    ensures b * p == a * p + p
  {
  }

  lemma Same(a: int, b: int, p: nat)
    requires a == b
    ensures a * p == b * p && 0 * p == 0
  {
  }

  lemma RankedSize(l: seq<nat>, num: seq<nat>, m: nat)
    requires Ranked(l, num, m)
    ensures m < |num|
  {
  }

  lemma ShareStep(l: seq<nat>, k: nat, unit: nat)
    requires k < |l| && l[k] <= unit
    ensures Share(l[k..], unit) == Pow2(unit - l[k]) + Share(l[k + 1..], unit)
  {
    assert l[k..][1..] == l[k + 1..];
  }

  lemma NoShare(l: seq<nat>, num: seq<nat>, k: nat, unit: nat)
    requires |num| > 0 && k == |l| - Symbols(num, 0)
    ensures Share(l[k..], unit) == 0 && Weight(num, 0, unit) == 0
  {
    assert l[k..] == [];
  }

  // ---------- the splits, symbol by symbol ----------

  /**
    Lengths l have been limited to m: from symbol c + 1 on they are the same, and when c was split
    the sum was still too large although all before c had length 15.
   */
  ghost predicate Pushed(l: seq<nat>, m: seq<nat>, c: nat) {
    && |m| == |l| && c < |l| && l[c] <= 14
    && (forall j :: c < j < |l| ==> m[j] == l[j])
    && (forall j :: c <= j < |l| ==> l[j] <= l[c])
    && Share(l[c..], 15) + c > Pow2(15)
  }

  lemma ReachedPushed(l: seq<nat>, m: seq<nat>, h: seq<nat>, num: seq<nat>, low: nat) returns (c: nat)
    requires |l| == |m| && Ranked(l, h, 14) && Ranked(m, num, 15) && Reached(h, num, 15, low, |l|) && low < 15
    requires forall i :: 0 <= i < |l| ==> l[i] >= 1
    ensures Pushed(l, m, c)
  {
    hide Upto, Weight, Symbols, Pow2;
    var n := |l|;
    c := n - Symbols(num, low) - 1;
    SameBelow(h, num, low - 1, 15);
    LastTerm(num, low, 15);
    LastTerm(h, low, 15);
    RankedAt(l, h, 14, low, c);
    RankedAt(l, h, 14, low - 1, c);
    SuffixShare(l, h, 14, low, c, 15);
    forall j | c < j < n ensures m[j] == l[j] <= l[c] { SameLength(l, m, h, num, low, j); }
  }

  lemma SameLength(l: seq<nat>, m: seq<nat>, h: seq<nat>, num: seq<nat>, low: nat, j: nat)
    requires |l| == |m| && Ranked(l, h, 14) && Ranked(m, num, 15) && Reached(h, num, 15, low, |l|) && low < 15
    requires j < |l| && j >= |l| - Symbols(num, low)
    ensures m[j] == l[j] <= low
  {
    hide Upto, Weight, Symbols, Pow2;
    SameBelow(h, num, low - 1, 15);
    LastTerm(num, low, 15);
    LastTerm(h, low, 15);
    RankedAt(l, h, 14, low, j);
    RankedAt(m, num, 15, low, j);
    if l[j] < low { SameRank(l, m, h, num, 14, 15, low - 1, l[j], j); }
    if m[j] < low { SameRank(l, m, h, num, 14, 15, low - 1, m[j], j); }
  }

  /** Where the histograms agree, so do the lengths. */
  lemma SameRank(l: seq<nat>, m: seq<nat>, h: seq<nat>, num: seq<nat>, p: nat, q: nat, below: nat, d: nat, j: nat)
    requires |l| == |m| && Ranked(l, h, p) && Ranked(m, num, q) && d <= below <= p && below <= q && j < |l|
    requires |h| == |num| && forall i :: 1 <= i <= below ==> num[i] == h[i]
    ensures l[j] <= d <==> m[j] <= d
  {
    hide Upto, Weight, Symbols;
    SameBelow(h, num, d, d);
    RankedAt(l, h, p, d, j);
    RankedAt(m, num, q, d, j);
  }

  /** Without a split, limiting only shortens. */
  lemma UntouchedShorter(l: seq<nat>, m: seq<nat>, h: seq<nat>, num: seq<nat>, max: nat, j: nat)
    requires max >= 1 && |l| == |m| && Ranked(l, h, max - 1) && Ranked(m, num, max) && Reached(h, num, max, max, |l|)
    requires j < |l| && m[j] <= max
    ensures m[j] <= l[j]
  {
    hide Upto, Weight, Symbols;
    if l[j] < max { SameRank(l, m, h, num, max - 1, max, max - 1, l[j], j); }
  }

  /** After a split, some symbol has the greatest length there is. */
  lemma LongestUsed(m: seq<nat>, h: seq<nat>, num: seq<nat>, max: nat, low: nat)
    requires Reached(h, num, max, low, |m|) && low < max && Ranked(m, num, max)
    requires Symbols(num, max) == |m| && Weight(num, max, max) == Pow2(max)
    ensures m != [] && m[0] >= max
  {
    hide Upto, Weight, Symbols, Pow2;
    LastTerm(num, max, max);
    if num[max] == 0 { Same(num[max], 0, Pow2(max - max)); }
    RankedAt(m, num, max, max - 1, 0);
  }

  // ---------- how much longer ----------

  /** What it costs to send a symbol f times with 15 bits instead of l. */
  function Gain(f: nat, l: nat): nat {
    if l < 15 then f * (15 - l) else 0
  }

  function Over(f: seq<nat>, l: seq<nat>): nat
    requires |f| == |l|
  {
    if f == [] then 0 else Gain(f[0], l[0]) + Over(f[1..], l[1..])
  }

  /** The units of 2^-15 that would free. */
  function Freed(l: seq<nat>): nat {
    if l == [] then 0 else (if l[0] < 15 then Pow2(15 - l[0]) - 1 else 0) + Freed(l[1..])
  }

  ghost predicate Light(f: seq<nat>, l: seq<nat>, total: nat) {
    |f| == |l| && forall j :: 0 <= j < |l| ==> 1 <= l[j] <= 22 && f[j] * Fib(l[j] - 1) <= total
  }

  lemma FibTable(l: nat)
    requires 1 <= l < 15
    ensures 540 * (15 - l) <= Fib(l - 1) * (Pow2(15 - l) - 1)
    ensures l >= 7 ==> 21 * (15 - l) <= 8 * Fib(l - 1)
    ensures l >= 11 ==> 36 * (15 - l) <= Fib(l - 1)
  {
    assert Fib(3) == 5 && Fib(5) == 13 && Fib(7) == 34 && Fib(9) == 89 && Fib(11) == 233;
    Pow2Table();
    assert Pow2(10) == 1024 && Pow2(12) == 4096 && Pow2(14) == 16384;
  }

  lemma TermBound(f: nat, l: nat, total: nat)
    requires 1 <= l < 15 && f * Fib(l - 1) <= total
    ensures 540 * Gain(f, l) <= total * (Pow2(15 - l) - 1)
    ensures l >= 7 ==> 21 * Gain(f, l) <= 8 * total
    ensures l >= 11 ==> 36 * Gain(f, l) <= total
  {
    FibTable(l);
    hide Fib, Pow2, Gain;
    TermFor(f, l, 540, Pow2(15 - l) - 1, total);
    if l >= 7 { TermFor(f, l, 21, 8, total); }
    if l >= 11 { TermFor(f, l, 36, 1, total); }
  }

  lemma TermFor(f: nat, l: nat, c: nat, q: nat, total: nat)
    requires 1 <= l < 15 && f * Fib(l - 1) <= total && c * (15 - l) <= Fib(l - 1) * q
    ensures c * Gain(f, l) <= total * q
  {
    hide Fib;
    Through(f, c * (15 - l), Fib(l - 1), q, total);
    Swap(f, c, 15 - l);
  }

  lemma Swap(a: nat, b: nat, c: nat)
    ensures a * (b * c) == b * (a * c)
  {
  }

  lemma Through(f: nat, a: nat, p: nat, q: nat, total: nat)
    requires a <= p * q && f * p <= total
    ensures f * a <= total * q
  {
    MulUp(f, a, p * q);
    Assoc(f, p, q);
    MulUpLeft(f * p, total, q);
  }

  lemma {:induction false} OverBound(f: seq<nat>, l: seq<nat>, total: nat)
    requires Light(f, l, total)
    ensures 540 * Over(f, l) <= total * Freed(l)
  {
    hide Fib, Pow2;
    if f != [] {
      assert l[0] >= 15 ==> Gain(f[0], l[0]) == 0;
      hide Gain;
      assert forall j :: 0 <= j < |l[1..]| ==> l[1..][j] == l[j + 1] && f[1..][j] == f[j + 1];
      OverBound(f[1..], l[1..], total);
      if l[0] < 15 {
        TermBound(f[0], l[0], total);
        LengthTimes(total, Pow2(15 - l[0]) - 1, Freed(l[1..]));
      }
    }
  }

  lemma {:induction false} FreedBound(l: seq<nat>)
    requires forall j :: 0 <= j < |l| ==> 1 <= l[j] <= 22
    ensures Freed(l) * Pow2(17) <= Share(l, 32)
  {
    hide Pow2;
    if l != [] {
      assert forall j :: 0 <= j < |l[1..]| ==> l[1..][j] == l[j + 1];
      FreedBound(l[1..]);
      if l[0] < 15 { FreedTerm(l[0], Freed(l[1..])); }
    }
  }

  lemma FreedTerm(l: nat, rest: nat)
    requires 1 <= l < 15
    ensures (Pow2(15 - l) - 1 + rest) * Pow2(17) <= Pow2(32 - l) + rest * Pow2(17)
  {
    hide Pow2;
    Pow2Add(15 - l, 17);
    Distr(Pow2(15 - l) - 1, rest, Pow2(17));
    MulUpLeft(Pow2(15 - l) - 1, Pow2(15 - l), Pow2(17));
  }

  /** The codes before c freed less than one unit each. */
  lemma FreedBefore(l: seq<nat>, m: seq<nat>, c: nat)
    requires Pushed(l, m, c) && Share(l, 32) == Pow2(32) && forall j :: 0 <= j < |l| ==> 1 <= l[j] <= 22
    ensures Freed(l[..c]) < c
    ensures Pow2(15 - l[c]) < c
  {
    hide Pow2, Share, Freed;
    var head, tail := l[..c], l[c..];
    assert l == head + tail;
    ShareAppend(head, tail, 32);
    assert forall j :: 0 <= j < |tail| ==> tail[j] == l[c + j];
    ShareScale(tail, 15, 32);
    Pow2Add(15, 17);
    assert forall j :: 0 <= j < |head| ==> head[j] == l[j];
    FreedBound(head);
    var p, s := Pow2(17), Share(tail, 15);
    Distr(s, c, p);
    MulLess(Pow2(15), s + c, p);
    if Freed(head) >= c { MulUpLeft(c, Freed(head), p); }
    LongEnough(tail, l[c], s, c, head);
  }

  lemma LongEnough(tail: seq<nat>, low: nat, s: nat, c: nat, head: seq<nat>)
    requires low <= 14 && (forall j :: 0 <= j < |tail| ==> tail[j] <= low) && s == Share(tail, 15) && s + c > Pow2(15)
    requires |head| == c && (forall j :: 0 <= j < |head| ==> head[j] <= 22)
        && Share(head, 32) + s * Pow2(17) == Pow2(32)
    ensures Pow2(15 - low) < c
  {
    hide Pow2, Share;
    Pow2Add(15, 17);
    if c == 0 {
      MulLess(Pow2(15), s, Pow2(17));
    } else {
      SharePositive(head, 32);
      if s >= Pow2(15) { MulUpLeft(Pow2(15), s, Pow2(17)); }
      ShareScale(tail, low, 15);
      Pow2Add(low, 15 - low);
      var u := Share(tail, low);
      if u >= Pow2(low) { MulUpLeft(Pow2(low), u, Pow2(15 - low)); }
      MulUpLeft(u + 1, Pow2(low), Pow2(15 - low));
      Distr(u, 1, Pow2(15 - low));
    }
  }

  lemma {:induction false} OverCost(f: seq<nat>, l: seq<nat>, m: seq<nat>)
    requires |f| == |l| == |m| && forall j :: 0 <= j < |m| ==> m[j] <= 15
    ensures Cost(f, m) <= Cost(f, l) + Over(f, l)
  {
    if f != [] {
      assert forall j :: 0 <= j < |m[1..]| ==> m[1..][j] == m[j + 1];
      OverCost(f[1..], l[1..], m[1..]);
      if l[0] < 15 {
        MulUp(f[0], m[0], 15);
        LengthTimes(f[0], l[0], 15 - l[0]);
      } else {
        MulUp(f[0], m[0], l[0]);
      }
    }
  }

  lemma {:induction false} LowerCost(f: seq<nat>, l: seq<nat>, m: seq<nat>)
    requires |f| == |l| == |m| && forall j :: 0 <= j < |m| ==> m[j] <= l[j]
    ensures Cost(f, m) <= Cost(f, l)
  {
    if f != [] {
      assert forall j :: 0 <= j < |m[1..]| ==> m[1..][j] == m[j + 1] && l[1..][j] == l[j + 1];
      LowerCost(f[1..], l[1..], m[1..]);
      MulUp(f[0], m[0], l[0]);
    }
  }

  /** The lengths m cost little more than l. */
  ghost predicate Near(f: seq<nat>, l: seq<nat>, m: seq<nat>) {
    && |f| == |l| == |m|
    && 25 * Cost(f, m) <= 25 * Cost(f, l) + 23 * Sum(f)
    && (|f| <= 32 ==> 10 * Cost(f, m) <= 10 * Cost(f, l) + Sum(f))
  }

  lemma PushedCost(f: seq<nat>, l: seq<nat>, m: seq<nat>, c: nat)
    requires |f| == |l| && Pushed(l, m, c) && forall j :: 0 <= j < |m| ==> m[j] <= 15
    ensures Cost(f, m) <= Cost(f, l) + Over(f[..c], l[..c]) + Gain(f[c], l[c])
  {
    hide Share, Over, Cost, Gain;
    var b := c + 1;
    assert f == f[..b] + f[b..] && l == l[..b] + l[b..] && m == m[..b] + m[b..] && l[b..] == m[b..];
    CostAppend(f[..b], l[..b], f[b..], l[b..]);
    CostAppend(f[..b], m[..b], f[b..], m[b..]);
    OverCost(f[..b], l[..b], m[..b]);
    OverPush(f, l, c);
  }

  lemma PushedNear(f: seq<nat>, l: seq<nat>, m: seq<nat>, c: nat)
    requires Light(f, l, Sum(f)) && Pushed(l, m, c) && Share(l, 32) == Pow2(32)
    requires |l| <= 288 && forall j :: 0 <= j < |m| ==> m[j] <= 15
    ensures Near(f, l, m)
  {
    PushedFacts(l, m, c);
    LightPrefix(f, l, Sum(f), c);
    hide Sum, Share, Freed, Over, Cost, Fib, Pushed, Light, Pow2, Gain;
    PushedCost(f, l, m, c);
    OverPart(f, l, m, c);
    GainPart(f, l, m, c);
  }

  lemma OverPart(f: seq<nat>, l: seq<nat>, m: seq<nat>, c: nat)
    requires |f| == |l| <= 288 && c < |l| && Light(f[..c], l[..c], Sum(f)) && Pushed(l, m, c)
        && Share(l, 32) == Pow2(32)
    requires forall j :: 0 <= j < |l| ==> 1 <= l[j] <= 22
    ensures 540 * Over(f[..c], l[..c]) <= 288 * Sum(f)
    ensures |f| <= 32 ==> 540 * Over(f[..c], l[..c]) <= 32 * Sum(f)
  {
    hide Sum, Share, Freed, Over, Fib, Pushed, Light, Pow2;
    FreedBefore(l, m, c);
    OverBound(f[..c], l[..c], Sum(f));
    MulUp(Sum(f), Freed(l[..c]), 288);
    if |f| <= 32 { MulUp(Sum(f), Freed(l[..c]), 32); }
  }

  lemma GainPart(f: seq<nat>, l: seq<nat>, m: seq<nat>, c: nat)
    requires |f| == |l| <= 288 && c < |l| && Pushed(l, m, c) && Share(l, 32) == Pow2(32)
    requires (forall j :: 0 <= j < |l| ==> 1 <= l[j] <= 22) && l[c] < 15 && f[c] * Fib(l[c] - 1) <= Sum(f)
    ensures 21 * Gain(f[c], l[c]) <= 8 * Sum(f)
    ensures |f| <= 32 ==> 36 * Gain(f[c], l[c]) <= Sum(f)
  {
    hide Sum, Share, Freed, Fib, Pushed, Pow2, Gain;
    FreedBefore(l, m, c);
    ShortLimit(l[c], c, |l|);
    TermBound(f[c], l[c], Sum(f));
  }

  lemma PushedFacts(l: seq<nat>, m: seq<nat>, c: nat)
    requires Pushed(l, m, c)
    ensures |m| == |l| && c < |l| && l[c] <= 14
  {
  }

  lemma LightPrefix(f: seq<nat>, l: seq<nat>, total: nat, c: nat)
    requires Light(f, l, total) && c < |l|
    ensures |f| == |l| && Light(f[..c], l[..c], total) && 1 <= l[c] && f[c] * Fib(l[c] - 1) <= total
    ensures forall j :: 0 <= j < |l| ==> 1 <= l[j] <= 22
  {
    hide Fib;
    forall j | 0 <= j < c ensures 1 <= l[..c][j] <= 22 && f[..c][j] * Fib(l[..c][j] - 1) <= total {
      assert l[..c][j] == l[j] && f[..c][j] == f[j];
    }
  }

  lemma ShortLimit(low: nat, c: nat, n: nat)
    requires low <= 14 && Pow2(15 - low) < c < n <= 288
    ensures low >= 7 && (n <= 32 ==> low >= 11)
  {
    Pow2Table();
    hide Pow2;
    if low < 7 { Pow2Mono(9, 15 - low); }
    if n <= 32 && low < 11 { Pow2Mono(5, 15 - low); }
  }

  lemma {:induction false} OverPush(f: seq<nat>, l: seq<nat>, c: nat)
    requires |f| == |l| && c < |l| && l[c] < 15
    ensures Over(f[..c + 1], l[..c + 1]) == Over(f[..c], l[..c]) + Gain(f[c], l[c])
  {
    hide Gain;
    if c > 0 {
      assert f[..c + 1][1..] == f[1..][..c] && l[..c + 1][1..] == l[1..][..c];
      assert f[..c][1..] == f[1..][..c - 1] && l[..c][1..] == l[1..][..c - 1];
      OverPush(f[1..], l[1..], c - 1);
    } else {
      assert f[..1][1..] == [] && l[..1][1..] == [];
    }
  }

  /** Whatever the limiter did, the lengths cost little more than before. */
  lemma LimitedNear(f: seq<nat>, l: seq<nat>, m: seq<nat>, h: seq<nat>, num: seq<nat>, low: nat)
    requires Light(f, l, Sum(f)) && Share(l, 32) == Pow2(32) && |l| == |m| <= 288
    requires Ranked(l, h, 14) && Ranked(m, num, 15) && Reached(h, num, 15, low, |l|)
    requires forall j :: 0 <= j < |m| ==> m[j] <= 15
    ensures Near(f, l, m)
  {
    hide Sum, Cost, Upto, Reached, Fib, Pow2;
    if low < 15 {
      var c := ReachedPushed(l, m, h, num, low);
      PushedNear(f, l, m, c);
    } else {
      LowIs15(h, num, low, |l|);
      UntouchedCost(f, l, m, h, num, 15);
    }
  }

  lemma UntouchedCost(f: seq<nat>, l: seq<nat>, m: seq<nat>, h: seq<nat>, num: seq<nat>, max: nat)
    requires max >= 1 && |f| == |l| == |m| && Ranked(l, h, max - 1) && Ranked(m, num, max)
        && Reached(h, num, max, max, |l|)
    requires forall j :: 0 <= j < |m| ==> m[j] <= max
    ensures Cost(f, m) <= Cost(f, l)
  {
    hide Cost, Upto, Reached;
    forall j | 0 <= j < |m| ensures m[j] <= l[j] { UntouchedShorter(l, m, h, num, max, j); }
    LowerCost(f, l, m);
  }

  lemma LowIs15(h: seq<nat>, num: seq<nat>, low: nat, n: nat)
    requires Reached(h, num, 15, low, n)
    ensures low <= 15
  {
  }
}
