/**
  The second and third pass of tdefl_calculate_minimum_redundancy: from parents to depths of
  the internal nodes, and from those to code lengths of the leaves.
 */
module CodeDepths {
  import opened Bits
  import opened MinRedundancy
  import opened Optimality

  const MAX_SUPPORTED: nat := 32      // TDEFL_MAX_SUPPORTED_HUFF_CODESIZE

  /** Steps from internal node i up to the root, which is the node numbered |parents|. */
  function Depth(parents: seq<nat>, i: nat): nat
    decreases |parents| - i
  {
    if i < |parents| && i < parents[i] <= |parents| then 1 + Depth(parents, parents[i]) else 0
  }

  lemma {:induction false} DepthMono(parents: seq<nat>, i: nat, j: nat)
    requires Parents(parents, |parents| + 1) && i <= j <= |parents|
    ensures Depth(parents, i) >= Depth(parents, j)
    decreases |parents| - i
  {
    if i < j < |parents| { DepthMono(parents, parents[i], parents[j]); }
  }

  // ---------- depth against weight ----------

  /** The least weight of a node from which a path leads k steps down: 2, 3, 5, 8, ... */
  function Least(k: nat): nat {
    if k == 0 then 2 else if k == 1 then 3 else Least(k - 1) + Least(k - 2)
  }

  lemma {:induction false} Climb(weights: seq<nat>, parents: seq<nat>, g: nat, k: nat)
    requires Parents(parents, |weights|) && Growth(weights, parents) && |weights| == |parents| + 1
    requires g < |parents| && weights[g] >= Least(k) && weights[parents[g]] >= Least(k + 1)
    ensures weights[|parents|] >= Least(k + Depth(parents, g))
    decreases |parents| - g
  {
    var c := parents[g];
    if c < |parents| {
      assert weights[parents[c]] >= weights[c] + weights[g];
      Climb(weights, parents, c, k + 1);
    }
  }

  lemma LeastMono(k: nat, l: nat)
    requires k <= l
    ensures Least(k) <= Least(l)
    decreases l
  {
    if k < l { LeastMono(k, l - 1); }
  }

  lemma Least22()
    ensures Least(22) == 75025
  {
    assert Least(4) == 13 && Least(5) == 21;
    assert Least(8) == 89 && Least(9) == 144;
    assert Least(12) == 610 && Least(13) == 987;
    assert Least(16) == 4181 && Least(17) == 6765;
    assert Least(20) == 28657 && Least(21) == 46368;
  }

  /** With 16-bit weights no internal node is deeper than 21. */
  lemma DepthBound(weights: seq<nat>, parents: seq<nat>, i: nat)
    requires Parents(parents, |weights|) && Growth(weights, parents) && |weights| == |parents| + 1
    requires weights[|parents|] < 0x1_0000 && i <= |parents|
    ensures Depth(parents, i) <= 21
  {
    if i < |parents| {
      Climb(weights, parents, i, 0);
      if Depth(parents, i) >= 22 {
        LeastMono(22, Depth(parents, i));
        Least22();
      }
    }
  }

  ghost predicate Shallow(parents: seq<nat>) {
    forall i: nat :: i <= |parents| ==> Depth(parents, i) <= 21
  }

  // ---------- the second pass ----------

  lemma RootDepth(parents: seq<nat>)
    ensures Depth(parents, |parents|) == 0
  {
  }

  lemma NextDepth(parents: seq<nat>, i: nat)
    requires Parents(parents, |parents| + 1) && Shallow(parents) && i < |parents|
    ensures i < parents[i] <= |parents| && Depth(parents, i) == 1 + Depth(parents, parents[i]) <= 21
  {
  }

  method SetDepths(a: array<SymFreq>, n: nat, ghost parents: seq<nat>)
    requires 2 <= n <= a.Length && |parents| == n - 2 && Parents(parents, |parents| + 1) && Shallow(parents)
    requires forall i :: 0 <= i < |parents| ==> a[i].key == parents[i]
    modifies a
    ensures forall i: nat :: i <= |parents| ==> a[i].key == Depth(parents, i)
    ensures forall i :: 0 <= i < n ==> a[i].sym == old(a[i].sym)
  {
    hide Parents, Shallow, Depth;
    RootDepth(parents);
    a[n - 2] := a[n - 2].(key := 0);
    var next := n - 3;
    while next >= 0
      invariant -1 <= next <= n - 3
      invariant forall i :: next < i <= n - 2 ==> a[i].key == Depth(parents, i)
      invariant forall i :: 0 <= i <= next ==> a[i].key == parents[i]
      invariant forall i :: 0 <= i < n ==> a[i].sym == old(a[i].sym)
    {
      NextDepth(parents, next);
      SmallLow16(a[a[next].key].key + 1);
      a[next] := a[next].(key := Low16(a[a[next].key].key + 1));
      next := next - 1;
    }
  }

  // ---------- the third pass ----------

  /** Sum of 2^-length, in units of 2^-m. */
  function Kraft(s: seq<SymFreq>, m: nat): nat {
    if s == [] then 0 else (if s[0].key <= m then Pow2(m - s[0].key) else 0) + Kraft(s[1..], m)
  }

  /** The symbols' lengths are between 1 and max and do not increase. */
  ghost predicate Descending(s: seq<SymFreq>, max: nat) {
    && (forall i :: 0 <= i < |s| ==> 1 <= s[i].key <= max)
    && (forall i, j :: 0 <= i <= j < |s| ==> s[i].key >= s[j].key)
  }

  /**
    Before level d: the leaves above next have their lengths; internal nodes 0..root, all at
    level d or deeper, remain; the previous level had u internal nodes, just above root.
   */
  ghost predicate Level(parents: seq<nat>, keys: seq<SymFreq>, d: nat, avbl: nat, root: int, next: int, u: nat) {
    && |keys| == |parents| + 2 && d <= 23
    && -1 <= root <= |parents| && next == root + avbl && next < |keys|
    && (forall i: nat :: i <= root ==> keys[i].key == Depth(parents, i) && Depth(parents, i) >= d)
    && Descending(keys[next + 1..], if d == 0 then 0 else d - 1)
    && Kraft(keys[next + 1..], MAX_SUPPORTED) + avbl * Pow2(MAX_SUPPORTED - d) == Pow2(MAX_SUPPORTED)
    && Above(parents, d, avbl, root, u)
  }

  ghost predicate Above(parents: seq<nat>, d: nat, avbl: nat, root: int, u: nat) {
    if d == 0 then avbl == 1 && root == |parents|
    else
      && avbl == 2 * u && root + u <= |parents|
      && (forall i: nat :: root < i <= root + u ==> Depth(parents, i) == d - 1)
      && (forall i: nat :: root + u < i <= |parents| ==> Depth(parents, i) < d - 1)
  }

  lemma {:induction false} ParentSpread(parents: seq<nat>, i: nat, j: nat)
    requires Parents(parents, |parents| + 1) && i <= j < |parents|
    ensures parents[j] >= parents[i] + (j - i) / 2
    decreases j
  {
    if j >= i + 2 { ParentSpread(parents, i, j - 2); }
  }

  /** A level has at most two internal nodes for each one of the level above. */
  lemma LevelSize(parents: seq<nat>, d: nat, avbl: nat, root: int, u: nat, root': int)
    requires Parents(parents, |parents| + 1) && -1 <= root' <= root <= |parents| && Above(parents, d, avbl, root, u)
    requires forall i: nat :: root' < i <= root ==> Depth(parents, i) == d
    ensures root - root' <= avbl
  {
    if d == 0 {
      assert root > 0 ==> Depth(parents, root - 1) > 0;
    } else if root' < root {
      var lo := root' + 1;
      assert Depth(parents, root) == d && Depth(parents, lo) == d;
      assert root < |parents|;
      assert Depth(parents, parents[lo]) == d - 1;
      assert Depth(parents, parents[root]) == d - 1;
      ParentSpread(parents, lo, root);
      assert parents[root] <= root + u;
      assert parents[lo] > root;
    }
  }

  /** A node below an empty level would be above it. */
  lemma BelowEmpty(parents: seq<nat>, d: nat, root: nat, u: nat)
    requires Parents(parents, |parents| + 1) && root <= |parents| && Above(parents, d, 0, root, u)
    ensures Depth(parents, root) < d
  {
    if root < |parents| {
      assert Depth(parents, parents[root]) < d - 1;
    }
  }

  /** Once no node is left at the level above, no internal node remains at all. */
  lemma NoneLeft(parents: seq<nat>, keys: seq<SymFreq>, d: nat, root: int, next: int, u: nat)
    requires Parents(parents, |parents| + 1) && Level(parents, keys, d, 0, root, next, u)
    ensures next == -1
  {
    if root >= 0 { BelowEmpty(parents, d, root, u); }
  }

  /** The inner loop over internal nodes at depth d. */
  method CountInternal(a: array<SymFreq>, n: nat, ghost parents: seq<nat>, d: nat, root: int)
    returns (used: nat, root': int)
    requires -1 <= root < n <= a.Length && root <= |parents|
    requires forall i: nat :: i <= root ==> a[i].key == Depth(parents, i)
    ensures -1 <= root' <= root && used == root - root'
    ensures forall i: nat :: root' < i <= root ==> Depth(parents, i) == d
    ensures root' >= 0 ==> Depth(parents, root') != d
  {
    used, root' := 0, root;
    while root' >= 0 && a[root'].key == d
      invariant -1 <= root' <= root && used == root - root'
      invariant forall i: nat :: root' < i <= root ==> Depth(parents, i) == d
    {
      used := used + 1;
      root' := root' - 1;
    }
  }

  lemma DescendingPush(s: seq<SymFreq>, x: SymFreq, max: nat)
    requires Descending(s, x.key) && 1 <= x.key <= max
    ensures Descending([x] + s, max)
  {
  }

  lemma KraftPush(s: seq<SymFreq>, x: SymFreq, m: nat)
    requires x.key <= m
    ensures Kraft([x] + s, m) == Pow2(m - x.key) + Kraft(s, m)
  {
    assert ([x] + s)[1..] == s;
  }

  lemma DescendingMax(s: seq<SymFreq>, max: nat, max': nat)
    requires Descending(s, max) && max <= max'
    ensures Descending(s, max')
  {
  }

  /** The inner loop that gives the leaves of level d their length. */
  method WriteLeaves(a: array<SymFreq>, n: nat, d: nat, avbl: nat, used: nat, next: int) returns (next': int)
    requires used <= avbl && -1 <= next - (avbl - used) && next < n <= a.Length && d <= 23 && (used < avbl ==> d >= 1)
    requires Descending(a[next + 1..n], d)
    modifies a
    ensures next' == next - (avbl - used) && Descending(a[next' + 1..n], d)
    ensures Kraft(a[next' + 1..n], MAX_SUPPORTED) ==
        Kraft(old(a[next + 1..n]), MAX_SUPPORTED) + (avbl - used) * Pow2(MAX_SUPPORTED - d)
    ensures forall i :: 0 <= i <= next' || next < i < n ==> a[i] == old(a[i])
    ensures forall i :: next' < i <= next ==> a[i].key == d
    ensures forall i :: 0 <= i < n ==> a[i].sym == old(a[i].sym)
  {
    hide Descending, Kraft, Pow2;
    next' := next;
    var left := avbl;
    ghost var unit := Pow2(MAX_SUPPORTED - d);
    while left > used
      invariant used <= left <= avbl && next' == next - (avbl - left)
      invariant Descending(a[next' + 1..n], d)
      invariant Kraft(a[next' + 1..n], MAX_SUPPORTED) ==
          Kraft(old(a[next + 1..n]), MAX_SUPPORTED) + (avbl - left) * unit
      invariant forall i :: 0 <= i <= next' || next < i < n ==> a[i] == old(a[i])
      invariant forall i :: next' < i <= next ==> a[i].key == d
      invariant forall i :: 0 <= i < n ==> a[i].sym == old(a[i].sym)
    {
      ghost var tail := a[next' + 1..n];
      a[next'] := a[next'].(key := d);
      assert a[next'..n] == [a[next']] + tail;
      DescendingPush(tail, a[next'], d);
      KraftPush(tail, a[next'], MAX_SUPPORTED);
      assert (avbl - left + 1) * unit == (avbl - left) * unit + unit;
      next' := next' - 1;
      left := left - 1;
    }
  }

  lemma KraftMove(m: nat, k0: nat, k1: nat, avbl: nat, used: nat, d: nat)
    requires used <= avbl && d < m
    requires k0 + avbl * Pow2(m - d) == Pow2(m)
    requires k1 == k0 + (avbl - used) * Pow2(m - d)
    ensures k1 + 2 * used * Pow2(m - (d + 1)) == Pow2(m)
  {
    var unit := Pow2(m - (d + 1));
    assert Pow2(m - d) == 2 * unit;
    assert used * (2 * unit) == 2 * used * unit;
    assert (avbl - used) * (2 * unit) + used * (2 * unit) == avbl * (2 * unit);
  }

  /** What one turn of the outer loop leaves for the next level. */
  lemma NextLevel(parents: seq<nat>, keys: seq<SymFreq>, keys': seq<SymFreq>, d: nat, avbl: nat, root: int, next: int,
                  u: nat, used: nat, root': int, next': int)
    requires Parents(parents, |parents| + 1) && Shallow(parents) && Level(parents, keys, d, avbl, root, next, u)
    requires avbl > 0 && -1 <= root' <= root && used == root - root' && used <= avbl
    requires forall i: nat :: root' < i <= root ==> Depth(parents, i) == d
    requires root' >= 0 ==> Depth(parents, root') != d
    requires |keys'| == |keys| && next' == next - (avbl - used) && Descending(keys'[next' + 1..], d)
    requires Kraft(keys'[next' + 1..], MAX_SUPPORTED) ==
        Kraft(keys[next + 1..], MAX_SUPPORTED) + (avbl - used) * Pow2(MAX_SUPPORTED - d)
    requires forall i :: 0 <= i <= next' ==> keys'[i] == keys[i]
    ensures Level(parents, keys', d + 1, 2 * used, root', next', used)
  {
    hide Kraft, Descending, Pow2, Depth, Parents;
    LevelHigh(parents, d, avbl, root, u);
    KraftMove(MAX_SUPPORTED, Kraft(keys[next + 1..], MAX_SUPPORTED), Kraft(keys'[next' + 1..], MAX_SUPPORTED), avbl,
        used, d);
    forall i: nat | i <= root' ensures Depth(parents, i) >= d + 1 {
      DepthMono(parents, i, root');
      assert Depth(parents, root') >= d;
    }
    forall i: nat | root' + used < i <= |parents| ensures Depth(parents, i) < d {
      AboveAll(parents, d, avbl, root, u, i);
    }
  }

  lemma LevelHigh(parents: seq<nat>, d: nat, avbl: nat, root: int, u: nat)
    requires Above(parents, d, avbl, root, u) && avbl > 0 && Shallow(parents) && root >= -1
    ensures d <= 22
  {
    if d > 0 { assert Depth(parents, root + 1) == d - 1; }
  }

  lemma AboveAll(parents: seq<nat>, d: nat, avbl: nat, root: int, u: nat, i: nat)
    requires Above(parents, d, avbl, root, u) && root < i <= |parents|
    ensures Depth(parents, i) < d
  {
  }

  // ---------- what the lengths cost ----------

  function Keys(s: seq<SymFreq>): (ks: seq<nat>)
    ensures |ks| == |s| && forall i :: 0 <= i < |s| ==> ks[i] == s[i].key
  {
    seq(|s|, i requires 0 <= i < |s| => s[i].key)
  }

  lemma {:induction false} CostAppend(w: seq<nat>, l: seq<nat>, w': seq<nat>, l': seq<nat>)
    requires |w| == |l| && |w'| == |l'|
    ensures Cost(w + w', l + l') == Cost(w, l) + Cost(w', l')
  {
    if w == [] {
      JoinNothing(w');
      JoinNothing(l');
    } else {
      assert (w + w')[1..] == w[1..] + w' && (l + l')[1..] == l[1..] + l';
      CostAppend(w[1..], l[1..], w', l');
    }
  }

  lemma {:induction false} CostEqual(w: seq<nat>, l: seq<nat>, d: nat)
    requires |w| == |l| && forall i :: 0 <= i < |l| ==> l[i] == d
    ensures Cost(w, l) == d * Sum(w)
  {
    if w != [] {
      CostEqual(w[1..], l[1..], d);
      assert d * Sum(w) == d * w[0] + d * Sum(w[1..]);
    }
  }

  /**
    Counting d levels for each leaf not yet done, the leaves have cost as much as the internal
    nodes above level d weigh.
   */
  ghost predicate Spent(counts: seq<nat>, weights: seq<nat>, keys: seq<SymFreq>, d: nat, root: int, next: int) {
    && |counts| == |keys| && -1 <= next < |keys| && -1 <= root < |weights|
    && Cost(counts[next + 1..], Keys(keys[next + 1..])) + d * Sum(counts[..next + 1]) == Sum(weights[root + 1..])
  }

  lemma NothingSpent(counts: seq<nat>, weights: seq<nat>, keys: seq<SymFreq>)
    requires |counts| == |keys| == |weights| + 1 >= 2
    ensures Spent(counts, weights, keys, 0, |weights| - 1, |keys| - 1)
  {
    assert counts[|keys|..] == [] && keys[|keys|..] == [] && weights[|weights|..] == [] && Keys([]) == [];
  }

  lemma AllSpent(counts: seq<nat>, weights: seq<nat>, keys: seq<SymFreq>, d: nat)
    requires Spent(counts, weights, keys, d, -1, -1)
    ensures Cost(counts, Keys(keys)) == Sum(weights)
  {
    assert counts[0..] == counts && keys[0..] == keys && weights[0..] == weights && counts[..0] == [];
  }

  /** The nodes of a level and the leaves below it weigh the same. */
  lemma AboveOnly(parents: seq<nat>, d: nat, avbl: nat, root: int, u: nat, i: nat)
    requires Above(parents, d, avbl, root, u) && i <= |parents| && Depth(parents, i) >= d
    ensures i <= root
  {
  }

  lemma LevelBoundary(parents: seq<nat>, d: nat, avbl: nat, root: int, u: nat, root': int)
    requires Parents(parents, |parents| + 1) && Shallow(parents) && Above(parents, d, avbl, root, u) && avbl > 0
    requires -1 <= root' <= root <= |parents| && (forall i: nat :: root' < i <= root ==> Depth(parents, i) == d)
    requires (forall i: nat :: i <= root ==> Depth(parents, i) >= d) && (root' >= 0 ==> Depth(parents, root') != d)
    requires root' < |parents|
    ensures Boundary(parents, root + 1, root' + 1)
  {
    hide Depth, Above;
    forall i: nat | i <= root' ensures parents[i] < root + 1 {
      DepthMono(parents, i, root');
      NextDepth(parents, i);
      AboveOnly(parents, d, avbl, root, u, parents[i]);
    }
    forall i: nat | root' + 1 <= i < |parents| ensures parents[i] >= root + 1 {
      NextDepth(parents, i);
      if i <= root { assert Depth(parents, parents[i]) < d; }
    }
  }

  lemma SpentLevel(counts: seq<nat>, weights: seq<nat>, parents: seq<nat>, keys: seq<SymFreq>, keys': seq<SymFreq>,
                   d: nat, avbl: nat, root: int, next: int, u: nat, root': int, next': int)
    requires Parents(parents, |parents| + 1) && Shallow(parents) && Level(parents, keys, d, avbl, root, next, u)
        && avbl > 0
    requires |counts| == |keys| == |keys'| && |weights| == |counts| - 1 && Conserved(counts, weights, parents)
    requires Spent(counts, weights, keys, d, root, next)
    requires -1 <= root' <= root && root - root' <= avbl
        && (forall i: nat :: root' < i <= root ==> Depth(parents, i) == d)
    requires root' >= 0 ==> Depth(parents, root') != d
    requires next' == next - (avbl - (root - root')) >= -1 && (d == 0 ==> root - root' >= avbl)
    requires forall i :: next < i < |keys| ==> keys'[i] == keys[i]
    requires forall i :: next' < i <= next ==> keys'[i].key == d
    ensures Spent(counts, weights, keys', d + 1, root', next')
  {
    hide Kraft, Descending, Pow2, Depth, Parents, Shallow, Above, Cost, Sum, Conserved, Keys;
    LeavesCost(counts, keys, keys', d, next, next');
    LevelWeighs(counts, weights, parents, d, avbl, root, u, root', next');
    SumCut(weights, root' + 1, root + 1);
    SumPrefix(counts, next' + 1, next + 1);
    Levels(d, Sum(counts[..next' + 1]), Sum(counts[next' + 1..next + 1]));
  }

  lemma Levels(d: nat, x: nat, y: nat)
    ensures d * (x + y) == d * x + d * y && (d + 1) * x == d * x + x
  {
  }

  lemma SumCut(s: seq<nat>, i: nat, j: nat)
    requires i <= j <= |s|
    ensures Sum(s[i..]) == Sum(s[i..j]) + Sum(s[j..])
  {
    assert s[i..] == s[i..j] + s[j..];
    SumAppend(s[i..j], s[j..]);
  }

  lemma SumPrefix(s: seq<nat>, i: nat, j: nat)
    requires i <= j <= |s|
    ensures Sum(s[..j]) == Sum(s[..i]) + Sum(s[i..j])
  {
    assert s[..j] == s[..i] + s[i..j];
    SumAppend(s[..i], s[i..j]);
  }

  /** The leaves of one level cost its depth for each of their counts. */
  lemma LeavesCost(counts: seq<nat>, keys: seq<SymFreq>, keys': seq<SymFreq>, d: nat, next: int, next': int)
    requires |counts| == |keys| == |keys'| && -1 <= next' <= next < |keys|
    requires forall i :: next < i < |keys| ==> keys'[i] == keys[i]
    requires forall i :: next' < i <= next ==> keys'[i].key == d
    ensures Cost(counts[next' + 1..], Keys(keys'[next' + 1..]))
            == Cost(counts[next + 1..], Keys(keys[next + 1..])) + d * Sum(counts[next' + 1..next + 1])
  {
    hide Cost, Sum;
    var mid, hi := counts[next' + 1..next + 1], counts[next + 1..];
    var k, k' := Keys(keys'[next' + 1..next + 1]), Keys(keys[next + 1..]);
    assert counts[next' + 1..] == mid + hi;
    assert Keys(keys'[next' + 1..]) == k + k';
    CostAppend(mid, k, hi, k');
    CostEqual(mid, k, d);
  }

  lemma LevelWeighs(counts: seq<nat>, weights: seq<nat>, parents: seq<nat>, d: nat, avbl: nat, root: int, u: nat,
                    root': int, next': int)
    requires Parents(parents, |parents| + 1) && Shallow(parents) && Above(parents, d, avbl, root, u) && avbl > 0
    requires |counts| == |parents| + 2 && |weights| == |counts| - 1 && Conserved(counts, weights, parents)
    requires -1 <= root' <= root <= |parents| && (forall i: nat :: root' < i <= root ==> Depth(parents, i) == d)
    requires (forall i: nat :: i <= root ==> Depth(parents, i) >= d) && (root' >= 0 ==> Depth(parents, root') != d)
    requires -1 <= next' < |counts| && next' == 2 * root - root' && (d == 0 ==> root - root' >= avbl)
    ensures Sum(weights[root' + 1..root + 1]) == Sum(counts[..next' + 1])
  {
    hide Depth, Parents, Shallow, Sum;
    if root == -1 {
      assert weights[0..0] == [] && counts[..0] == [];
    } else {
      LevelBoundary(parents, d, avbl, root, u, root');
      assert Balanced(counts, weights, root + 1, root' + 1);
      SumAppend(counts[..next' + 1], counts[next' + 1..]);
      assert counts == counts[..next' + 1] + counts[next' + 1..];
    }
  }

  // ---------- frequent symbols have short codes ----------

  /** 1, 2, 3, 5, 8, ... */
  function Fib(k: nat): nat {
    if k == 0 then 1 else if k == 1 then 2 else Fib(k - 1) + Fib(k - 2)
  }

  lemma {:induction false} ClimbFrom(weights: seq<nat>, parents: seq<nat>, g: nat, k: nat, x: nat)
    requires Parents(parents, |weights|) && Growth(weights, parents) && |weights| == |parents| + 1
    requires g < |parents| && weights[g] >= x * Fib(k) && weights[parents[g]] >= x * Fib(k + 1)
    ensures weights[|parents|] >= x * Fib(k + Depth(parents, g))
    decreases |parents| - g
  {
    hide Fib, Growth;
    var c := parents[g];
    if c < |parents| {
      Grandchild(weights, parents, g);
      FibNext(k, x);
      ClimbFrom(weights, parents, c, k + 1, x);
    }
  }

  lemma Grandchild(weights: seq<nat>, parents: seq<nat>, g: nat)
    requires Growth(weights, parents) && g < |parents| && parents[g] < |parents|
    ensures parents[parents[g]] < |weights| && weights[parents[parents[g]]] >= weights[parents[g]] + weights[g]
  {
  }

  lemma FibNext(k: nat, x: nat)
    ensures x * Fib(k + 2) == x * Fib(k + 1) + x * Fib(k)
  {
    LengthTimes(x, Fib(k + 1), Fib(k));
  }

  lemma LengthTimes(x: nat, a: nat, b: nat)
    ensures x * (a + b) == x * a + x * b
  {
  }

  /** The boundary between two levels. */
  lemma AboveBoundary(parents: seq<nat>, d: nat, avbl: nat, root: int, u: nat)
    requires Parents(parents, |parents| + 1) && Shallow(parents) && d >= 1 && Above(parents, d, avbl, root, u)
    requires -1 <= root < |parents| && forall i: nat :: i <= root ==> Depth(parents, i) >= d
    ensures Boundary(parents, root + u + 1, root + 1)
  {
    hide Depth;
    forall i: nat | i <= root ensures parents[i] < root + u + 1 {
      NextDepth(parents, i);
    }
    forall i: nat | root + 1 <= i < |parents| ensures parents[i] >= root + u + 1 {
      NextDepth(parents, i);
      ShallowAbove(parents, d, avbl, root, u, i);
    }
  }

  lemma ShallowAbove(parents: seq<nat>, d: nat, avbl: nat, root: int, u: nat, i: nat)
    requires d >= 1 && Above(parents, d, avbl, root, u) && root < i <= |parents|
    ensures Depth(parents, i) <= d - 1
  {
  }

  /** A leaf at level d, times the Fibonacci number of the level, weighs at most the total. */
  lemma LeafWeight(counts: seq<nat>, weights: seq<nat>, parents: seq<nat>, d: nat, avbl: nat, root: int, u: nat, k: nat)
    requires Parents(parents, |parents| + 1) && Shallow(parents) && Growth(weights, parents)
        && |weights| == |parents| + 1
    requires InOrder(counts, weights, parents, |counts|) && |counts| == |parents| + 2
    requires d >= 1 && Above(parents, d, avbl, root, u) && avbl > 0
    requires -1 <= root < |parents| && (forall i: nat :: i <= root ==> Depth(parents, i) >= d)
    requires k <= root + avbl && k < |counts|
    ensures counts[k] * Fib(d - 1) <= weights[|parents|]
  {
    hide Depth, Fib, Growth, Shallow;
    AboveBoundary(parents, d, avbl, root, u);
    assert Lighter(counts, weights, parents, k, root + 1);
    var g := root + 1;
    assert Depth(parents, g) == d - 1;
    FirstFib();
    RootDepth(parents);
    assert counts[k] * Fib(0) == counts[k] && counts[k] * Fib(1) == counts[k] + counts[k];
    if g < |parents| {
      ClimbFrom(weights, parents, g, 0, counts[k]);
    }
  }

  lemma FirstFib()
    ensures Fib(0) == 1 && Fib(1) == 2
  {
  }

  /** The leaves that have their lengths already are light enough for them. */
  ghost predicate LightLeaves(counts: seq<nat>, keys: seq<SymFreq>, next: int, total: nat) {
    && |counts| == |keys|
    && forall k: nat :: next < k < |keys| ==> keys[k].key >= 1 && counts[k] * Fib(keys[k].key - 1) <= total
  }

  lemma LightLevel(counts: seq<nat>, weights: seq<nat>, parents: seq<nat>, keys: seq<SymFreq>, keys': seq<SymFreq>,
                   d: nat, avbl: nat, root: int, next: int, u: nat, next': int)
    requires Parents(parents, |parents| + 1) && Shallow(parents) && Growth(weights, parents)
        && |weights| == |parents| + 1
    requires InOrder(counts, weights, parents, |counts|) && Level(parents, keys, d, avbl, root, next, u) && avbl > 0
    requires |counts| == |keys| == |keys'| && LightLeaves(counts, keys, next, weights[|parents|])
    requires -1 <= next' <= next && (d == 0 ==> next' == next)
    requires forall i :: next < i < |keys| ==> keys'[i] == keys[i]
    requires forall i :: next' < i <= next ==> keys'[i].key == d
    ensures LightLeaves(counts, keys', next', weights[|parents|])
  {
    hide Kraft, Descending, Pow2, Depth, Parents, Growth, Fib, InOrder, Shallow;
    forall k: nat | next' < k < |keys'| ensures keys'[k].key >= 1
        && counts[k] * Fib(keys'[k].key - 1) <= weights[|parents|] {
      if k <= next {
        LeafWeight(counts, weights, parents, d, avbl, root, u, k);
      }
    }
  }

  /** The third pass. */
  method AssignLengths(a: array<SymFreq>, n: nat, ghost counts: seq<nat>, ghost weights: seq<nat>,
                       ghost parents: seq<nat>)
    requires 2 <= n <= a.Length && |parents| == n - 2 && Parents(parents, |parents| + 1) && Shallow(parents)
    requires |counts| == n && |weights| == n - 1 && Conserved(counts, weights, parents)
    requires InOrder(counts, weights, parents, n) && Growth(weights, parents)
    requires forall i: nat :: i <= |parents| ==> a[i].key == Depth(parents, i)
    modifies a
    ensures Descending(a[..n], 22) && Kraft(a[..n], MAX_SUPPORTED) == Pow2(MAX_SUPPORTED)
    ensures Cost(counts, Keys(a[..n])) == Sum(weights) && LightLeaves(counts, a[..n], -1, weights[n - 2])
    ensures forall i :: 0 <= i < n ==> a[i].sym == old(a[i].sym)
  {
    hide Kraft, Descending, Pow2, Depth, Parents, Shallow, Above, Conserved, InOrder, Growth, LightLeaves, Spent, Sum,
         Cost, Keys;
    var avbl, dpth := 1, 0;
    var root, next := n - 2, n - 1;
    ghost var u: nat := 0;
    FirstLevel(parents, a[..n]);
    NothingSpent(counts, weights, a[..n]);
    NoneLight(counts, a[..n], weights[n - 2]);
    while avbl > 0
      invariant Level(parents, a[..n], dpth, avbl, root, next, u) && Spent(counts, weights, a[..n], dpth, root, next)
      invariant LightLeaves(counts, a[..n], next, weights[n - 2])
      invariant forall i :: 0 <= i < n ==> a[i].sym == old(a[i].sym)
      decreases root + 1, avbl
    {
      root, next, avbl, u := OneLevel(a, n, counts, weights, parents, dpth, avbl, root, next, u);
      dpth := dpth + 1;
    }
    NoneLeft(parents, a[..n], dpth, root, next, u);
    LastLevel(parents, a[..n], dpth, root, next, u);
    AllSpent(counts, weights, a[..n], dpth);
  }

  lemma NoneLight(counts: seq<nat>, keys: seq<SymFreq>, total: nat)
    requires |counts| == |keys|
    ensures LightLeaves(counts, keys, |keys| - 1, total)
  {
  }

  lemma FirstLevel(parents: seq<nat>, keys: seq<SymFreq>)
    requires |keys| == |parents| + 2
    requires forall i: nat :: i <= |parents| ==> keys[i].key == Depth(parents, i)
    ensures Level(parents, keys, 0, 1, |parents|, |parents| + 1, 0)
  {
    assert keys[|parents| + 2..] == [];
  }

  lemma LastLevel(parents: seq<nat>, keys: seq<SymFreq>, d: nat, root: int, next: int, u: nat)
    requires Level(parents, keys, d, 0, root, next, u) && next == -1
    ensures Descending(keys, 22) && Kraft(keys, MAX_SUPPORTED) == Pow2(MAX_SUPPORTED)
  {
    hide Kraft, Pow2, Depth;
    assert keys[0..] == keys;
    DescendingMax(keys, if d == 0 then 0 else d - 1, 22);
  }

  /** One turn of the outer loop. */
  method OneLevel(a: array<SymFreq>, n: nat, ghost counts: seq<nat>, ghost weights: seq<nat>, ghost parents: seq<nat>,
                  dpth: nat, avbl: nat, root: int, next: int, ghost u: nat)
    returns (root': int, next': int, avbl': nat, ghost used: nat)
    requires n == |parents| + 2 && n <= a.Length && Parents(parents, |parents| + 1) && Shallow(parents)
    requires |counts| == n && |weights| == n - 1 && Conserved(counts, weights, parents)
    requires InOrder(counts, weights, parents, n) && Growth(weights, parents)
    requires Level(parents, a[..n], dpth, avbl, root, next, u) && Spent(counts, weights, a[..n], dpth, root, next)
        && avbl > 0
    requires LightLeaves(counts, a[..n], next, weights[n - 2])
    modifies a
    ensures Level(parents, a[..n], dpth + 1, avbl', root', next', used) && avbl' == 2 * used
    ensures Spent(counts, weights, a[..n], dpth + 1, root', next') && LightLeaves(counts, a[..n], next', weights[n - 2])
    ensures root' == root - used
    ensures forall i :: 0 <= i < n ==> a[i].sym == old(a[i].sym)
  {
    hide Kraft, Pow2, Depth, Parents, Shallow, Above, Descending, Conserved, InOrder, Growth, LightLeaves, Spent;
    ghost var keys := a[..n];
    LevelHigh(parents, dpth, avbl, root, u);
    var k;
    k, root' := CountInternal(a, n, parents, dpth, root);
    LevelSize(parents, dpth, avbl, root, u, root');
    used := k;
    FirstLevelWrites(parents, dpth, avbl, root, u, root');
    DescendingMax(a[next + 1..n], if dpth == 0 then 0 else dpth - 1, dpth);
    next' := WriteLeaves(a, n, dpth, avbl, k, next);
    NextLevel(parents, keys, a[..n], dpth, avbl, root, next, u, used, root', next');
    SpentLevel(counts, weights, parents, keys, a[..n], dpth, avbl, root, next, u, root', next');
    LightLevel(counts, weights, parents, keys, a[..n], dpth, avbl, root, next, u, next');
    avbl' := 2 * k;
  }

  /** At level 0 there is only the root, and no leaf. */
  lemma FirstLevelWrites(parents: seq<nat>, d: nat, avbl: nat, root: int, u: nat, root': int)
    requires Above(parents, d, avbl, root, u) && -1 <= root' <= root && (root' >= 0 ==> Depth(parents, root') != d)
    ensures d == 0 ==> root - root' >= avbl
  {
  }

  // ---------- the whole function ----------

  lemma {:induction false} SumAtLeast(s: seq<nat>)
    requires forall i :: 0 <= i < |s| ==> s[i] >= 1
    ensures Sum(s) >= |s|
  {
    if s != [] { SumAtLeast(s[1..]); }
  }

  /**
    tdefl_calculate_minimum_redundancy. On two or more symbols in ascending order of positive
    counts with a 16-bit total, the counts become lengths of a complete code that never grow
    with the count, and no code sends the symbols in fewer bits; a lone symbol gets length 1.
   */
  method CalculateMinimumRedundancy(a: array<SymFreq>, n: nat)
    requires n <= a.Length && Ascending(Keys(a[..n])) && (forall i :: 0 <= i < n ==> a[i].key >= 1)
    requires Sum(Keys(a[..n])) < 0x1_0000
    modifies a
    ensures Descending(a[..n], 22)
    ensures n >= 2 ==> Kraft(a[..n], MAX_SUPPORTED) == Pow2(MAX_SUPPORTED)
    ensures n >= 2 ==> AtLeast(Keys(old(a[..n])), Cost(Keys(old(a[..n])), Keys(a[..n])))
    ensures n >= 2 ==> LightLeaves(Keys(old(a[..n])), a[..n], -1, Sum(Keys(old(a[..n]))))
    ensures n == 1 ==> a[0].key == 1
    ensures forall i :: 0 <= i < n ==> a[i].sym == old(a[i].sym)
  {
    hide Kraft, Pow2, Sum, Depth, Parents, Growth, AtLeast, Cost, Conserved, InOrder, LightLeaves;
    if n == 0 {
      return;
    } else if n == 1 {
      a[0] := a[0].(key := 1);
      return;
    }
    ghost var counts := Keys(a[..n]);
    SumAtLeast(counts);
    ghost var weights, parents := FormTree(a, n, counts);
    forall i: nat | i <= |parents| ensures Depth(parents, i) <= 21 { DepthBound(weights, parents, i); }
    SetDepths(a, n, parents);
    AssignLengths(a, n, counts, weights, parents);
  }
}
