/**
  Why joining the two lightest items is best: any lengths a code can have for the items cost at
  least as much as the weights of the joined nodes add up to.
 */
module Optimality {
  import opened Bits

  /** The bits it takes to send item i w[i] times with l[i] bits. */
  function Cost(w: seq<nat>, l: seq<nat>): nat
    requires |w| == |l|
  {
    if w == [] then 0 else w[0] * l[0] + Cost(w[1..], l[1..])
  }

  /** The Kraft sum, in units of 2^-m. */
  function Share(l: seq<nat>, m: nat): nat {
    if l == [] then 0 else (if l[0] <= m then Pow2(m - l[0]) else 0) + Share(l[1..], m)
  }

  /** Lengths of at most m that satisfy Kraft's inequality, as those of every uniquely decodable code do. */
  ghost predicate Decodable(l: seq<nat>, m: nat) {
    (forall i :: 0 <= i < |l| ==> l[i] <= m) && Share(l, m) <= Pow2(m)
  }

  // ---------- one item more or less ----------

  function Cut<T>(s: seq<T>, i: nat): seq<T>
    requires i < |s|
  {
    s[..i] + s[i + 1..]
  }

  lemma {:induction false} CutCost(w: seq<nat>, l: seq<nat>, i: nat)
    requires |w| == |l| && i < |w|
    ensures Cost(w, l) == Cost(Cut(w, i), Cut(l, i)) + w[i] * l[i]
  {
    if i == 0 {
      assert Cut(w, 0) == w[1..] && Cut(l, 0) == l[1..];
    } else {
      CutCost(w[1..], l[1..], i - 1);
      assert Cut(w, i)[1..] == Cut(w[1..], i - 1) && Cut(l, i)[1..] == Cut(l[1..], i - 1);
    }
  }

  lemma {:induction false} CutShare(l: seq<nat>, m: nat, i: nat)
    requires i < |l| && l[i] <= m
    ensures Share(l, m) == Share(Cut(l, i), m) + Pow2(m - l[i])
  {
    hide Pow2;
    if i == 0 {
      assert Cut(l, 0) == l[1..];
    } else {
      CutShare(l[1..], m, i - 1);
      assert Cut(l, i)[1..] == Cut(l[1..], i - 1);
    }
  }

  lemma NewLength(w: seq<nat>, l: seq<nat>, m: nat, i: nat, v: nat)
    requires |w| == |l| && i < |l| && l[i] <= m && v <= m
    ensures Cost(w, l[i := v]) + w[i] * l[i] == Cost(w, l) + w[i] * v
    ensures Share(l[i := v], m) + Pow2(m - l[i]) == Share(l, m) + Pow2(m - v)
  {
    hide Cost, Share, Pow2;
    assert Cut(l[i := v], i) == Cut(l, i);
    CutCost(w, l, i);
    CutCost(w, l[i := v], i);
    CutShare(l, m, i);
    CutShare(l[i := v], m, i);
  }

  lemma PushCost(w: seq<nat>, l: seq<nat>, x: nat, v: nat)
    requires |w| == |l|
    ensures Cost(w + [x], l + [v]) == Cost(w, l) + x * v
  {
    hide Cost;
    CutCost(w + [x], l + [v], |w|);
    assert Cut(w + [x], |w|) == w && Cut(l + [v], |w|) == l;
  }

  lemma PushShare(l: seq<nat>, m: nat, v: nat)
    requires v <= m
    ensures Share(l + [v], m) == Share(l, m) + Pow2(m - v)
  {
    hide Share, Pow2;
    CutShare(l + [v], m, |l|);
    assert Cut(l + [v], |l|) == l;
  }

  // ---------- two longest lengths ----------

  /** Lengths below m count twice as much in units of 2^-m as in units of 2^-(m-1). */
  lemma {:induction false} HalfShare(l: seq<nat>, m: nat)
    requires m >= 1 && forall i :: 0 <= i < |l| ==> l[i] < m
    ensures Share(l, m) == 2 * Share(l, m - 1)
  {
    if l != [] { HalfShare(l[1..], m); }
  }

  /** A single longest length leaves room, so it can be one shorter. */
  lemma Shorten(w: seq<nat>, l: seq<nat>, m: nat, p: nat)
    requires |w| == |l| && Decodable(l, m) && m >= 1 && p < |l| && l[p] == m
    requires forall i :: 0 <= i < |l| && i != p ==> l[i] < m
    ensures Decodable(l[p := m - 1], m - 1) && Cost(w, l[p := m - 1]) <= Cost(w, l)
  {
    hide Cost, Share;
    var short := l[p := m - 1];
    NewLength(w, l, m, p, m - 1);
    CutShare(l, m, p);
    var rest := Cut(l, p);
    assert forall i :: 0 <= i < |rest| ==> rest[i] < m;
    HalfShare(rest, m);
    HalfShare(short, m);
    assert w[p] * (m - 1) <= w[p] * m;
  }

  /** Any lengths can be made cheaper, or left as they are, so that at least two are the longest. */
  lemma {:induction false} TwoLongest(w: seq<nat>, l: seq<nat>, m: nat) returns (l': seq<nat>, m': nat, p: nat, q: nat)
    requires |w| == |l| >= 2 && Decodable(l, m)
    ensures |l'| == |l| && Decodable(l', m') && Cost(w, l') <= Cost(w, l)
    ensures p < |l'| && q < |l'| && p != q && l'[p] == l'[q] == m' >= 1
    decreases m
  {
    hide Cost, Share;
    if p0: nat :| p0 < |l| && l[p0] == m {
      if q0: nat :| q0 < |l| && q0 != p0 && l[q0] == m {
        if m == 0 { NoRoom(l); }
        return l, m, p0, q0;
      }
      var other: nat := if p0 == 0 then 1 else 0;
      assert l[other] < m;
      Shorten(w, l, m, p0);
      l', m', p, q := TwoLongest(w, l[p0 := m - 1], m - 1);
    } else {
      assert l[0] < m;
      HalfShare(l, m);
      l', m', p, q := TwoLongest(w, l, m - 1);
    }
  }

  /** Two empty codes would be one too many. */
  lemma NoRoom(l: seq<nat>)
    requires |l| >= 2 && forall i :: 0 <= i < |l| ==> l[i] == 0
    ensures Share(l, 0) > Pow2(0)
  {
    assert Share(l[1..], 0) >= Pow2(0 - l[1..][0]);
  }

  // ---------- the lightest items are the deepest ----------

  ghost predicate Lightest(w: seq<nat>, i: nat, j: nat) {
    && i < |w| && j < |w| && i != j
    && forall k :: 0 <= k < |w| && k != i && k != j ==> w[i] <= w[k] && w[j] <= w[k]
  }

  /** Exchanging a lighter item's length for a longer one of a heavier item costs nothing. */
  lemma Exchange(w: seq<nat>, l: seq<nat>, m: nat, i: nat, k: nat)
    requires |w| == |l| && Decodable(l, m) && i < |w| && k < |w| && w[i] <= w[k] && l[k] == m
    ensures Decodable(l[i := m][k := l[i]], m) && Cost(w, l[i := m][k := l[i]]) <= Cost(w, l)
  {
    hide Cost, Share, Pow2;
    if i != k {
      NewLength(w, l, m, i, m);
      NewLength(w, l[i := m], m, k, l[i]);
      Cheaper(w[i], w[k], l[i], m);
    } else {
      assert l[i := m][k := l[i]] == l;
    }
  }

  lemma Cheaper(x: nat, y: nat, a: nat, b: nat)
    requires x <= y && a <= b
    ensures x * b + y * a <= x * a + y * b
  {
    assert (y - x) * (b - a) >= 0;
  }

  /** The two lightest items can have the longest length. */
  lemma LightestDeep(w: seq<nat>, l: seq<nat>, m: nat, i: nat, j: nat) returns (l': seq<nat>, m': nat)
    requires |w| == |l| && Decodable(l, m) && Lightest(w, i, j)
    ensures |l'| == |l| && Decodable(l', m') && Cost(w, l') <= Cost(w, l) && l'[i] == l'[j] == m' >= 1
  {
    hide Cost, Decodable;
    var p: nat, q: nat;
    l', m', p, q := TwoLongest(w, l, m);
    if l'[i] != m' {
      if p == j { p, q := q, p; }
      Longest(l', m', i);
      Exchange(w, l', m', i, p);
      l' := l'[i := m'][p := l'[i]];
      p := i;
    }
    if l'[j] != m' {
      var o := if p == i then q else p;
      Exchange(w, l', m', j, o);
      l' := l'[j := m'][o := l'[j]];
    }
  }

  lemma Longest(l: seq<nat>, m: nat, i: nat)
    requires Decodable(l, m) && i < |l|
    ensures l[i] <= m
  {
  }

  // ---------- joining ----------

  /** Items i and j make way for one that weighs as much as both. */
  function Join(w: seq<nat>, i: nat, j: nat): seq<nat>
    requires i < j < |w|
  {
    Cut(Cut(w, j), i) + [w[i] + w[j]]
  }

  lemma JoinLengths(w: seq<nat>, l: seq<nat>, m: nat, i: nat, j: nat) returns (l': seq<nat>)
    requires |w| == |l| && Decodable(l, m) && i < j < |w| && l[i] == l[j] == m >= 1
    ensures |l'| == |w| - 1 && Decodable(l', m) && Cost(Join(w, i, j), l') + w[i] + w[j] == Cost(w, l)
  {
    hide Cost, Share;
    var w1, l1 := Cut(w, j), Cut(l, j);
    var w2, l2 := Cut(w1, i), Cut(l1, i);
    l' := l2 + [m - 1];
    CutCost(w, l, j);
    CutCost(w1, l1, i);
    PushCost(w2, l2, w[i] + w[j], m - 1);
    CutShare(l, m, j);
    CutShare(l1, m, i);
    PushShare(l2, m, m - 1);
    assert (w[i] + w[j]) * (m - 1) + w[i] + w[j] == w[i] * m + w[j] * m;
  }

  /** Whatever lengths the items w have, the items u can have lengths that are cheaper by t. */
  ghost predicate Lower(w: seq<nat>, u: seq<nat>, t: nat) {
    forall l: seq<nat>, m: nat :: |l| == |w| && Decodable(l, m) ==>
      exists l': seq<nat>, m': nat :: |l'| == |u| && Decodable(l', m') && Cost(u, l') + t <= Cost(w, l)
  }

  lemma LowerStart(w: seq<nat>)
    ensures Lower(w, w, 0)
  {
  }

  /** Joining the two lightest items. */
  lemma LowerStep(w: seq<nat>, u: seq<nat>, t: nat, i: nat, j: nat)
    requires Lower(w, u, t) && i < j && Lightest(u, i, j)
    ensures Lower(w, Join(u, i, j), t + (u[i] + u[j]))
  {
    hide Cost, Decodable, Lightest, Join;
    InRange(u, i, j);
    forall l: seq<nat>, m: nat | |l| == |w| && Decodable(l, m)
      ensures exists l': seq<nat>, m': nat ::
                && |l'| == |u| - 1 == |Join(u, i, j)| && Decodable(l', m')
                && Cost(Join(u, i, j), l') + (t + (u[i] + u[j])) <= Cost(w, l)
    {
      var l1: seq<nat>, m1: nat :| |l1| == |u| && Decodable(l1, m1) && Cost(u, l1) + t <= Cost(w, l);
      var l2, m2 := LightestDeep(u, l1, m1, i, j);
      var l3 := JoinLengths(u, l2, m2, i, j);
    }
  }

  lemma InRange(u: seq<nat>, i: nat, j: nat)
    requires i < j && Lightest(u, i, j)
    ensures j < |u| && |Join(u, i, j)| == |u| - 1
  {
  }

  /** w cannot be sent in fewer than t bits, by any code. */
  ghost predicate AtLeast(w: seq<nat>, t: nat) {
    forall l: seq<nat>, m: nat :: |l| == |w| && Decodable(l, m) ==> t <= Cost(w, l)
  }

  lemma LowerEnd(w: seq<nat>, u: seq<nat>, t: nat)
    requires Lower(w, u, t)
    ensures AtLeast(w, t)
  {
  }
}
