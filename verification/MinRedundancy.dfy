/**
  tdefl_calculate_minimum_redundancy: Moffat and Katajainen's in-place computation of Huffman
  code lengths. One array of 16-bit keys holds, in turn, the symbol counts, the weights and
  parents of the internal nodes, their depths, and finally the code lengths.
 */
module MinRedundancy {
  import opened Bits
  import opened Optimality

  datatype SymFreq = SymFreq(key: nat, sym: nat)     // tdefl_sym_freq

  function Sum(s: seq<nat>): nat {
    if s == [] then 0 else s[0] + Sum(s[1..])
  }

  lemma {:induction false} SumSnoc(s: seq<nat>, x: nat)
    ensures Sum(s + [x]) == Sum(s) + x
  {
    if s == [] {
      assert s + [x] == [x];
    } else {
      SumSnoc(s[1..], x);
      assert (s + [x])[1..] == s[1..] + [x];
    }
  }

  lemma {:induction false} SumAppend(s: seq<nat>, t: seq<nat>)
    ensures Sum(s + t) == Sum(s) + Sum(t)
  {
    if s == [] {
      assert s + t == t;
    } else {
      assert (s + t)[1..] == s[1..] + t;
      SumAppend(s[1..], t);
    }
  }

  ghost predicate Ascending(s: seq<nat>) {
    forall i, j :: 0 <= i <= j < |s| ==> s[i] <= s[j]
  }

  // ---------- the first pass: a forest of weights ----------

  /** parents[i] is the parent of internal node i; parents come in order, each at most twice. */
  ghost predicate Parents(parents: seq<nat>, n: nat) {
    && (forall i :: 0 <= i < |parents| ==> i < parents[i] < n)
    && (forall i, j :: 0 <= i <= j < |parents| ==> parents[i] <= parents[j])
    && (forall i, j :: 0 <= i && j == i + 2 && j < |parents| ==> parents[i] < parents[j])
  }

  /** A node weighs at least as much as any child and grandchild on one path together. */
  ghost predicate Growth(weights: seq<nat>, parents: seq<nat>) {
    && (forall i :: 0 <= i < |weights| ==> weights[i] >= 2)
    && (forall i :: 0 <= i < |parents| ==> parents[i] < |weights| && i < |weights|)
    && (forall g, c :: 0 <= g < |parents| && 0 <= c < |parents| && parents[g] == c ==>
          weights[parents[c]] >= weights[c] + weights[g])
    && (forall i :: 0 <= i < |parents| ==> weights[parents[i]] >= weights[i] + 1)
  }

  /** The two queues: leaves from leaf on, internal nodes from root on; everything taken so far is at most last. */
  ghost predicate Queues(counts: seq<nat>, weights: seq<nat>, root: nat, leaf: nat, last: nat) {
    && root <= |weights| && leaf <= |counts|
    && Ascending(counts) && Ascending(weights)
    && last >= 1
    && (forall i :: leaf <= i < |counts| ==> counts[i] >= last)
    && (forall i :: root <= i < |weights| ==> weights[i] >= last)
    && (forall i :: 0 <= i < root ==> weights[i] <= last)
    && (forall i :: 0 <= i < leaf ==> counts[i] <= last)
  }

  function Left(counts: seq<nat>, weights: seq<nat>, root: nat, leaf: nat): nat
    requires root <= |weights| && leaf <= |counts|
  {
    Sum(weights[root..]) + Sum(counts[leaf..])
  }

  /** Between rounds of the first pass: |weights| nodes are formed and |parents| of them taken. */
  ghost predicate Formed(counts: seq<nat>, weights: seq<nat>, parents: seq<nat>, leaf: nat, last: nat) {
    && |parents| < |weights| && |parents| + leaf == 2 * |weights|
    && Queues(counts, weights, |parents|, leaf, last)
    && Parents(parents, |weights|)
    && Growth(weights, parents)
    && weights[|weights| - 1] <= 2 * last
    && Left(counts, weights, |parents|, leaf) == Sum(counts)
  }

  /** What the array holds then. */
  ghost predicate Holds(keys: seq<SymFreq>, counts: seq<nat>, weights: seq<nat>, parents: seq<nat>, leaf: nat) {
    && |keys| == |counts| && |parents| <= |weights| <= leaf <= |keys|
    && (forall i :: 0 <= i < |parents| ==> keys[i].key == parents[i])
    && (forall i :: |parents| <= i < |weights| ==> keys[i].key == weights[i])
    && (forall i :: leaf <= i < |keys| ==> keys[i].key == counts[i])
  }

  /** The rule by which the lighter queue head is taken. */
  ghost predicate Choice(counts: seq<nat>, weights: seq<nat>, root: nat, leaf: nat, internal: bool) {
    if internal then root < |weights| && (leaf < |counts| ==> weights[root] <= counts[leaf])
    else leaf < |counts| && (root < |weights| ==> counts[leaf] <= weights[root])
  }

  function Chosen(counts: seq<nat>, weights: seq<nat>, root: nat, leaf: nat, internal: bool): nat
    requires if internal then root < |weights| else leaf < |counts|
  {
    if internal then weights[root] else counts[leaf]
  }

  /** Taking the lighter head keeps the queues sorted above everything taken. */
  lemma Take(counts: seq<nat>, weights: seq<nat>, root: nat, leaf: nat, last: nat, internal: bool)
    requires Queues(counts, weights, root, leaf, last) && Choice(counts, weights, root, leaf, internal)
    ensures var x := Chosen(counts, weights, root, leaf, internal);
            var root', leaf' := if internal then root + 1 else root, if internal then leaf else leaf + 1;
            && last <= x && Queues(counts, weights, root', leaf', x)
            && Left(counts, weights, root', leaf') + x == Left(counts, weights, root, leaf)
  {
    if internal {
      assert weights[root..][1..] == weights[root + 1..];
    } else {
      assert counts[leaf..][1..] == counts[leaf + 1..];
    }
  }

  /** The taken internal nodes get node n as their parent. */
  function Adopt(parents: seq<nat>, n: nat, internal: bool): seq<nat> {
    if internal then parents + [n] else parents
  }

  lemma AdoptTwice(parents: seq<nat>, n: nat, b: bool, c: bool)
    requires Parents(parents, n) && |Adopt(Adopt(parents, n, b), n, c)| <= n
    ensures Parents(Adopt(Adopt(parents, n, b), n, c), n + 1)
  {
    var ps := Adopt(Adopt(parents, n, b), n, c);
    forall i, j | 0 <= i && j == i + 2 && j < |ps| ensures ps[i] < ps[j] {
      assert i < |parents|;
    }
  }

  /** Adding a node that outweighs each of its children by everything taken before them. */
  lemma GrowthPush(weights: seq<nat>, parents: seq<nat>, ps: seq<nat>, w: nat, last: nat)
    requires Growth(weights, parents) && Parents(parents, |weights|) && parents <= ps && |ps| <= |weights|
    requires forall i :: 0 <= i < |parents| ==> weights[i] <= last
    requires forall i :: |parents| <= i < |ps| ==> ps[i] == |weights| && w >= weights[i] + last
    requires last >= 1 && w >= 2
    ensures Growth(weights + [w], ps)
  {
    var ws := weights + [w];
    forall g, d | 0 <= g < |ps| && 0 <= d < |ps| && ps[g] == d ensures ws[ps[d]] >= ws[d] + ws[g] {
      assert g < |parents|;
      assert ws[g] <= last;
    }
  }

  lemma GrowthTwice(counts: seq<nat>, weights: seq<nat>, parents: seq<nat>, leaf: nat, b: bool, c: bool, x: nat,
                    y: nat, last: nat)
    requires Growth(weights, parents) && Parents(parents, |weights|) && Queues(counts, weights, |parents|, leaf, last)
    requires x >= last && y >= last
    requires b ==> |parents| < |weights| && weights[|parents|] == x
    requires c ==> |Adopt(parents, |weights|, b)| < |weights| && weights[|Adopt(parents, |weights|, b)|] == y
    ensures Growth(weights + [x + y], Adopt(Adopt(parents, |weights|, b), |weights|, c))
  {
    hide Growth, Parents, Ascending;
    GrowthPush(weights, parents, Adopt(Adopt(parents, |weights|, b), |weights|, c), x + y, last);
  }

  lemma QueuesPush(counts: seq<nat>, weights: seq<nat>, root: nat, leaf: nat, last: nat, w: nat)
    requires Queues(counts, weights, root, leaf, last) && weights != [] && weights[|weights| - 1] <= w && last <= w
    ensures Queues(counts, weights + [w], root, leaf, last)
    ensures Left(counts, weights + [w], root, leaf) == Left(counts, weights, root, leaf) + w
  {
    assert (weights + [w])[root..] == weights[root..] + [w];
    SumSnoc(weights[root..], w);
  }

  /** One round of the first pass forms the next node from the two lightest items. */
  lemma Round(counts: seq<nat>, weights: seq<nat>, parents: seq<nat>, leaf: nat, last: nat, b: bool, c: bool, x: nat,
              y: nat)
    requires Formed(counts, weights, parents, leaf, last)
    requires Choice(counts, weights, |parents|, leaf, b) && x == Chosen(counts, weights, |parents|, leaf, b)
    requires var root', leaf' := |Adopt(parents, |weights|, b)|, if b then leaf else leaf + 1;
             Choice(counts, weights, root', leaf', c) && y == Chosen(counts, weights, root', leaf', c)
    ensures Formed(counts, weights + [x + y], Adopt(Adopt(parents, |weights|, b), |weights|, c),
                   leaf + (if b then 0 else 1) + (if c then 0 else 1), y)
  {
    hide Queues, Parents, Growth, Left;
    var n := |weights|;
    var root', leaf' := |Adopt(parents, n, b)|, if b then leaf else leaf + 1;
    var root'', leaf'' := |Adopt(Adopt(parents, n, b), n, c)|, if c then leaf' else leaf' + 1;
    Take(counts, weights, |parents|, leaf, last, b);
    Take(counts, weights, root', leaf', x, c);
    QueuesPush(counts, weights, root'', leaf'', y, x + y);
    AdoptTwice(parents, n, b, c);
    GrowthTwice(counts, weights, parents, leaf, b, c, x, y, last);
  }

  lemma Start(counts: seq<nat>)
    requires |counts| >= 2 && Ascending(counts) && counts[0] >= 1
    ensures Formed(counts, [counts[0] + counts[1]], [], 2, counts[1])
  {
    assert counts[0..] == counts;
    assert counts[0..][1..] == counts[1..] && counts[1..][1..] == counts[2..];
    assert [counts[0] + counts[1]][0..] == [counts[0] + counts[1]];
    assert Sum([counts[0] + counts[1]]) == counts[0] + counts[1] + Sum([]);
  }

  // ---------- the nodes formed so far are the cheapest ----------

  /** What is in the two queues. */
  function Items(counts: seq<nat>, weights: seq<nat>, root: nat, leaf: nat): seq<nat>
    requires root <= |weights| && leaf <= |counts|
  {
    counts[leaf..] + weights[root..]
  }

  /** No lengths for the counts are cheaper than the nodes formed and some lengths for what is left. */
  ghost predicate Cheapest(counts: seq<nat>, weights: seq<nat>, root: nat, leaf: nat)
    requires root <= |weights| && leaf <= |counts|
  {
    Lower(counts, Items(counts, weights, root, leaf), Sum(weights))
  }

  /** Two sorted queues whose lightest items are two of the first ... */
  lemma TwoLeaves(a: seq<nat>, b: seq<nat>)
    requires Ascending(a) && Ascending(b) && |a| >= 2 && (b != [] ==> a[1] <= b[0])
    ensures Lightest(a + b, 0, 1) && Join(a + b, 0, 1) == a[2..] + b + [a[0] + a[1]]
  {
    assert forall k :: 0 <= k < |a + b| ==> (a + b)[k] == if k < |a| then a[k] else b[k - |a|];
  }

  /** ... one of each ... */
  lemma OneOfEach(a: seq<nat>, b: seq<nat>)
    requires Ascending(a) && Ascending(b) && a != [] && b != [] && (|a| >= 2 ==> b[0] <= a[1])
        && (|b| >= 2 ==> a[0] <= b[1])
    ensures Lightest(a + b, 0, |a|) && Join(a + b, 0, |a|) == a[1..] + b[1..] + [a[0] + b[0]]
  {
    assert forall k :: 0 <= k < |a + b| ==> (a + b)[k] == if k < |a| then a[k] else b[k - |a|];
  }

  /** ... or two of the second. */
  lemma TwoNodes(a: seq<nat>, b: seq<nat>)
    requires Ascending(a) && Ascending(b) && |b| >= 2 && (a != [] ==> b[1] <= a[0])
    ensures Lightest(a + b, |a|, |a| + 1) && Join(a + b, |a|, |a| + 1) == a + b[2..] + [b[0] + b[1]]
  {
    assert forall k :: 0 <= k < |a + b| ==> (a + b)[k] == if k < |a| then a[k] else b[k - |a|];
  }

  /** Joining the two items taken in a round. */
  lemma JoinHeads(counts: seq<nat>, weights: seq<nat>, root: nat, leaf: nat, last: nat, b: bool, c: bool, x: nat,
                  y: nat, t: nat)
    requires Queues(counts, weights, root, leaf, last) && Lower(counts, Items(counts, weights, root, leaf), t)
    requires Choice(counts, weights, root, leaf, b) && x == Chosen(counts, weights, root, leaf, b)
    requires var root', leaf' := if b then root + 1 else root, if b then leaf else leaf + 1;
             Choice(counts, weights, root', leaf', c) && y == Chosen(counts, weights, root', leaf', c)
    ensures Lower(counts, counts[leaf + (if b then 0 else 1) + (if c then 0 else 1)..]
                          + weights[root + (if b then 1 else 0) + (if c then 1 else 0)..] + [x + y], t + (x + y))
  {
    hide Lower, Lightest, Join;
    var p, q := counts[leaf..], weights[root..];
    if b && c {
      TwoNodes(p, q);
      LowerStep(counts, p + q, t, |p|, |p| + 1);
      assert q[2..] == weights[root + 2..];
    } else if !b && !c {
      TwoLeaves(p, q);
      LowerStep(counts, p + q, t, 0, 1);
      assert p[2..] == counts[leaf + 2..];
    } else {
      OneOfEach(p, q);
      LowerStep(counts, p + q, t, 0, |p|);
      assert p[1..] == counts[leaf + 1..] && q[1..] == weights[root + 1..];
    }
  }

  /** Joining them keeps the nodes cheapest. */
  lemma RoundCheapest(counts: seq<nat>, weights: seq<nat>, root: nat, leaf: nat, last: nat, b: bool, c: bool, x: nat,
                      y: nat)
    requires Queues(counts, weights, root, leaf, last) && Cheapest(counts, weights, root, leaf)
    requires Choice(counts, weights, root, leaf, b) && x == Chosen(counts, weights, root, leaf, b)
    requires var root', leaf' := if b then root + 1 else root, if b then leaf else leaf + 1;
             Choice(counts, weights, root', leaf', c) && y == Chosen(counts, weights, root', leaf', c)
    ensures Cheapest(counts, weights + [x + y], root + (if b then 1 else 0) + (if c then 1 else 0),
                     leaf + (if b then 0 else 1) + (if c then 0 else 1))
  {
    hide Lower, Sum, Ascending;
    JoinHeads(counts, weights, root, leaf, last, b, c, x, y, Sum(weights));
    SumSnoc(weights, x + y);
    var root'', leaf'' := root + (if b then 1 else 0) + (if c then 1 else 0),
        leaf + (if b then 0 else 1) + (if c then 0 else 1);
    assert (weights + [x + y])[root''..] == weights[root''..] + [x + y];
    JoinAssoc(counts[leaf''..], weights[root''..], [x + y]);
  }

  lemma StartCheapest(counts: seq<nat>)
    requires |counts| >= 2 && Ascending(counts)
    ensures Cheapest(counts, [counts[0] + counts[1]], 0, 2)
  {
    hide Lower, Lightest, Join;
    var w := counts[0] + counts[1];
    LowerStart(counts);
    TwoLeaves(counts, []);
    JoinNothing(counts);
    LowerStep(counts, counts, 0, 0, 1);
    JoinNothing(counts[2..]);
    assert [w][0..] == [w] && [w][1..] == [];
    assert Sum([w]) == w + Sum([]);
  }

  /** Nodes from r on are not yet taken when the first t nodes have been formed. */
  ghost predicate Boundary(parents: seq<nat>, t: nat, r: nat) {
    && r <= |parents|
    && (forall i :: 0 <= i < r ==> parents[i] < t)
    && (forall i :: r <= i < |parents| ==> parents[i] >= t)
  }

  /** When t nodes were formed and r of them taken, the two queues together weighed what the leaves weigh. */
  ghost predicate Balanced(counts: seq<nat>, weights: seq<nat>, t: nat, r: nat) {
    r <= t <= |weights| && 2 * t - r <= |counts| && Sum(weights[r..t]) + Sum(counts[2 * t - r..]) == Sum(counts)
  }

  ghost predicate Conserved(counts: seq<nat>, weights: seq<nat>, parents: seq<nat>) {
    forall t: nat, r: nat :: 1 <= t <= |weights| && Boundary(parents, t, r) ==> Balanced(counts, weights, t, r)
  }

  lemma ConservedPush(counts: seq<nat>, weights: seq<nat>, parents: seq<nat>, ps: seq<nat>, leaf: nat, w: nat)
    requires Conserved(counts, weights, parents) && Parents(ps, |weights| + 1)
    requires parents <= ps && (forall i :: |parents| <= i < |ps| ==> ps[i] == |weights|)
    requires |ps| <= |weights| && leaf <= |counts| && |ps| + leaf == 2 * (|weights| + 1)
    requires Left(counts, weights + [w], |ps|, leaf) == Sum(counts)
    ensures Conserved(counts, weights + [w], ps)
  {
    hide Sum, Parents, Boundary, Left, Conserved;
    var ws := weights + [w];
    assert Conserved(counts, ws, ps) by {
      forall t: nat, r: nat | 1 <= t <= |ws| && Boundary(ps, t, r) ensures Balanced(counts, ws, t, r) {
        if t <= |weights| {
          BoundaryBefore(parents, ps, |weights|, t, r);
          BalancedBefore(counts, weights, parents, t, r, w);
        } else {
          BoundaryEnd(ps, t, r);
          BalancedEnd(counts, ws, r, leaf);
        }
      }
      AllBalanced(counts, ws, ps);
    }
  }

  lemma AllBalanced(counts: seq<nat>, weights: seq<nat>, parents: seq<nat>)
    requires forall t: nat, r: nat :: 1 <= t <= |weights| && Boundary(parents, t, r) ==> Balanced(counts, weights, t, r)
    ensures Conserved(counts, weights, parents)
  {
  }

  lemma BalancedBefore(counts: seq<nat>, weights: seq<nat>, parents: seq<nat>, t: nat, r: nat, w: nat)
    requires Conserved(counts, weights, parents) && 1 <= t <= |weights| && Boundary(parents, t, r)
    ensures Balanced(counts, weights + [w], t, r)
  {
    assert Balanced(counts, weights, t, r);
    assert (weights + [w])[r..t] == weights[r..t];
  }

  lemma BalancedEnd(counts: seq<nat>, weights: seq<nat>, r: nat, leaf: nat)
    requires r <= |weights| && leaf <= |counts| && r + leaf == 2 * |weights|
        && Left(counts, weights, r, leaf) == Sum(counts)
    ensures Balanced(counts, weights, |weights|, r)
  {
    assert weights[r..|weights|] == weights[r..];
  }

  lemma BoundaryBefore(parents: seq<nat>, ps: seq<nat>, n: nat, t: nat, r: nat)
    requires parents <= ps && (forall i :: |parents| <= i < |ps| ==> ps[i] == n) && t <= n && Boundary(ps, t, r)
    ensures Boundary(parents, t, r)
  {
    var x := if |parents| < |ps| then ps[|parents|] else n;
    assert x == n;
  }

  lemma ParentBelow(ps: seq<nat>, n: nat, i: nat)
    requires Parents(ps, n) && i < |ps|
    ensures ps[i] < n
  {
  }

  lemma BoundaryEnd(ps: seq<nat>, t: nat, r: nat)
    requires Parents(ps, t) && t >= 1 && Boundary(ps, t, r)
    ensures r == |ps|
  {
    hide Parents;
    if r < |ps| { ParentBelow(ps, t, r); }
  }

  lemma StartConserved(counts: seq<nat>)
    requires |counts| >= 2
    ensures Conserved(counts, [counts[0] + counts[1]], [])
  {
    var w := [counts[0] + counts[1]];
    assert counts[1..][1..] == counts[2..];
    assert Sum(w) == counts[0] + counts[1] + Sum(w[1..]);
    forall t: nat, r: nat | 1 <= t <= 1 && Boundary([], t, r) ensures Balanced(counts, w, t, r) {
      assert w[r..t] == w;
    }
  }

  /**
    A leaf taken while the first t nodes were formed weighs no more than any node not taken by
    then, and no more than that node's sibling.
   */
  ghost predicate Lighter(counts: seq<nat>, weights: seq<nat>, parents: seq<nat>, k: nat, r: nat)
    requires k < |counts|
  {
    && (forall i :: r <= i < |weights| ==> counts[k] <= weights[i])
    && (forall g :: r <= g < |parents| && g < |weights| && parents[g] < |weights| ==>
        weights[parents[g]] >= weights[g] + counts[k])
  }

  ghost predicate InOrder(counts: seq<nat>, weights: seq<nat>, parents: seq<nat>, leaf: nat) {
    forall t: nat, r: nat :: 1 <= t <= |weights| && Boundary(parents, t, r) ==>
      r <= t && 2 * t - r <= leaf <= |counts| && forall k: nat :: k < 2 * t - r ==>
          Lighter(counts, weights, parents, k, r)
  }

  lemma LighterPush(counts: seq<nat>, weights: seq<nat>, parents: seq<nat>, ps: seq<nat>, k: nat, r: nat, w: nat,
                    last: nat)
    requires k < |counts| && Lighter(counts, weights, parents, k, r) && counts[k] <= last <= w
    requires parents <= ps && |parents| <= |weights| && Parents(parents, |weights|) && |ps| <= |weights|
    requires forall i :: |parents| <= i < |ps| ==> ps[i] == |weights| && w >= weights[i] + last
    ensures Lighter(counts, weights + [w], ps, k, r)
  {
  }

  lemma LighterLast(counts: seq<nat>, weights: seq<nat>, parents: seq<nat>, leaf: nat, last: nat, k: nat)
    requires Queues(counts, weights, |parents|, leaf, last) && k < leaf
    ensures Lighter(counts, weights, parents, k, |parents|)
  {
  }

  lemma InOrderPush(counts: seq<nat>, weights: seq<nat>, parents: seq<nat>, leaf: nat, last: nat, ps: seq<nat>,
                    leaf': nat, w: nat, y: nat)
    requires InOrder(counts, weights, parents, leaf) && Queues(counts, weights, |parents|, leaf, last)
        && Parents(parents, |weights|)
    requires parents <= ps && |ps| <= |weights| && Parents(ps, |weights| + 1) && last <= w
    requires forall i :: |parents| <= i < |ps| ==> ps[i] == |weights| && w >= weights[i] + last
    requires leaf <= leaf' && |ps| + leaf' == 2 * (|weights| + 1) && Queues(counts, weights + [w], |ps|, leaf', y)
    ensures InOrder(counts, weights + [w], ps, leaf')
  {
    hide Parents, Boundary, Lighter, Ascending;
    var ws := weights + [w];
    forall t: nat, r: nat | 1 <= t <= |ws| && Boundary(ps, t, r)
      ensures r <= t && 2 * t - r <= leaf' <= |counts| && forall k: nat :: k < 2 * t - r ==>
          Lighter(counts, ws, ps, k, r)
    {
      if t <= |weights| {
        BoundaryBefore(parents, ps, |weights|, t, r);
        forall k: nat | k < 2 * t - r ensures Lighter(counts, ws, ps, k, r) {
          LighterPush(counts, weights, parents, ps, k, r, w, last);
        }
      } else {
        BoundaryEnd(ps, t, r);
        forall k: nat | k < leaf' ensures Lighter(counts, ws, ps, k, r) {
          LighterLast(counts, ws, ps, leaf', y, k);
        }
      }
    }
  }

  lemma StartInOrder(counts: seq<nat>)
    requires |counts| >= 2 && Ascending(counts)
    ensures InOrder(counts, [counts[0] + counts[1]], [], 2)
  {
  }

  /** All three, for one round. */
  lemma RoundKeeps(counts: seq<nat>, weights: seq<nat>, parents: seq<nat>, leaf: nat, last: nat, b: bool, c: bool,
                   x: nat, y: nat)
    requires Formed(counts, weights, parents, leaf, last) && Cheapest(counts, weights, |parents|, leaf)
        && Conserved(counts, weights, parents)
    requires InOrder(counts, weights, parents, leaf)
    requires Choice(counts, weights, |parents|, leaf, b) && x == Chosen(counts, weights, |parents|, leaf, b)
    requires var root', leaf' := |Adopt(parents, |weights|, b)|, if b then leaf else leaf + 1;
             Choice(counts, weights, root', leaf', c) && y == Chosen(counts, weights, root', leaf', c)
    ensures var ps, leaf'' := Adopt(Adopt(parents, |weights|, b), |weights|, c),
        leaf + (if b then 0 else 1) + (if c then 0 else 1);
            leaf'' <= |counts| && |ps| <= |weights| && Cheapest(counts, weights + [x + y], |ps|, leaf'')
                && Conserved(counts, weights + [x + y], ps)
            && InOrder(counts, weights + [x + y], ps, leaf'')
  {
    hide Queues, Growth, Left, Cheapest, Conserved, InOrder, Sum, Choice, Chosen, Parents;
    TakenTwice(counts, weights, parents, leaf, last, b, c, x, y);
    Round(counts, weights, parents, leaf, last, b, c, x, y);
    var ps, leaf'' := Adopt(Adopt(parents, |weights|, b), |weights|, c),
        leaf + (if b then 0 else 1) + (if c then 0 else 1);
    LeafBound(counts, weights + [x + y], ps, leaf'', y);
    RoundCheapest(counts, weights, |parents|, leaf, last, b, c, x, y);
    ConservedPush(counts, weights, parents, ps, leaf'', x + y);
    InOrderPush(counts, weights, parents, leaf, last, ps, leaf'', x + y, y);
  }

  /** A node taken in a round is outweighed by the new node by at least everything taken before. */
  lemma TakenTwice(counts: seq<nat>, weights: seq<nat>, parents: seq<nat>, leaf: nat, last: nat, b: bool, c: bool,
                   x: nat, y: nat)
    requires Queues(counts, weights, |parents|, leaf, last)
    requires Choice(counts, weights, |parents|, leaf, b) && x == Chosen(counts, weights, |parents|, leaf, b)
    requires var root', leaf' := |Adopt(parents, |weights|, b)|, if b then leaf else leaf + 1;
             Choice(counts, weights, root', leaf', c) && y == Chosen(counts, weights, root', leaf', c)
    ensures var ps := Adopt(Adopt(parents, |weights|, b), |weights|, c);
            parents <= ps && |ps| <= |weights| && last <= x + y
            && forall i :: |parents| <= i < |ps| ==> ps[i] == |weights| && x + y >= weights[i] + last
  {
  }

  lemma LeafBound(counts: seq<nat>, weights: seq<nat>, parents: seq<nat>, leaf: nat, last: nat)
    requires Formed(counts, weights, parents, leaf, last)
    ensures leaf <= |counts| && |parents| < |weights|
  {
  }

  lemma {:induction false} SumAt(s: seq<nat>, i: nat)
    requires i < |s|
    ensures s[i] <= Sum(s)
  {
    if i > 0 { SumAt(s[1..], i - 1); }
  }

  /** The two items taken in a round weigh at most the total. */
  lemma PairFits(counts: seq<nat>, weights: seq<nat>, parents: seq<nat>, leaf: nat, last: nat, b: bool, c: bool,
                 x: nat, y: nat)
    requires Formed(counts, weights, parents, leaf, last)
    requires Choice(counts, weights, |parents|, leaf, b) && x == Chosen(counts, weights, |parents|, leaf, b)
    requires var root', leaf' := |Adopt(parents, |weights|, b)|, if b then leaf else leaf + 1;
             Choice(counts, weights, root', leaf', c) && y == Chosen(counts, weights, root', leaf', c)
    ensures x + y <= Sum(counts)
  {
    var root', leaf' := |Adopt(parents, |weights|, b)|, if b then leaf else leaf + 1;
    Take(counts, weights, |parents|, leaf, last, b);
    Take(counts, weights, root', leaf', x, c);
  }

  /** C's conversion to mz_uint16. */
  function Low16(x: nat): nat { x % 0x1_0000 }

  /**
    The first pass. It reads a queue head only where there is one, and no 16-bit key overflows.
   */
  method FormTree(a: array<SymFreq>, n: nat, ghost counts: seq<nat>)
    returns (ghost weights: seq<nat>, ghost parents: seq<nat>)
    requires n == |counts| >= 2 && n <= a.Length && Ascending(counts) && counts[0] >= 1 && Sum(counts) < 0x1_0000
    requires |counts| < 0x1_0000
    requires forall i :: 0 <= i < n ==> a[i].key == counts[i]
    modifies a
    ensures |weights| == n - 1 && |parents| == n - 2
    ensures Parents(parents, |weights|) && Growth(weights, parents) && weights[|weights| - 1] == Sum(counts)
    ensures AtLeast(counts, Sum(weights)) && Conserved(counts, weights, parents) && InOrder(counts, weights, parents, n)
    ensures forall i :: 0 <= i < |parents| ==> a[i].key == parents[i]
    ensures forall i :: 0 <= i < n ==> a[i].sym == old(a[i].sym)
  {
    hide Formed, Sum, Cheapest, Conserved, InOrder, AtLeast;
    Start(counts);
    StartCheapest(counts);
    StartConserved(counts);
    StartInOrder(counts);
    weights, parents := [counts[0] + counts[1]], [];
    FirstFits(counts);
    a[0] := a[0].(key := Low16(a[0].key + a[1].key));
    var root, leaf := 0, 2;
    ghost var last := counts[1];
    for next := 1 to n - 1
      invariant |weights| == next && |parents| == root
      invariant 0 <= root <= next && 0 <= leaf <= n && Formed(counts, weights, parents, leaf, last)
          && Holds(a[..n], counts, weights, parents, leaf)
      invariant Cheapest(counts, weights, root, leaf) && Conserved(counts, weights, parents)
          && InOrder(counts, weights, parents, leaf)
      invariant forall i :: 0 <= i < n ==> a[i].sym == old(a[i].sym)
    {
      root, leaf, weights, parents, last := FormNode(a, n, counts, weights, parents, next, root, leaf, last);
    }
    Finished(counts, weights, parents, leaf, last);
    FinishedCheapest(counts, weights, root, leaf);
  }

  lemma FinishedCheapest(counts: seq<nat>, weights: seq<nat>, root: nat, leaf: nat)
    requires root <= |weights| && leaf <= |counts| && Cheapest(counts, weights, root, leaf)
    ensures AtLeast(counts, Sum(weights))
  {
    hide Lower, AtLeast;
    LowerEnd(counts, Items(counts, weights, root, leaf), Sum(weights));
  }

  lemma FirstFits(counts: seq<nat>)
    requires |counts| >= 2
    ensures counts[0] + counts[1] <= Sum(counts)
  {
    assert counts[1..][0] == counts[1];
  }

  lemma Finished(counts: seq<nat>, weights: seq<nat>, parents: seq<nat>, leaf: nat, last: nat)
    requires Formed(counts, weights, parents, leaf, last) && |weights| == |counts| - 1
    ensures |parents| == |counts| - 2 && leaf == |counts|
    ensures Parents(parents, |weights|) && Growth(weights, parents) && weights[|weights| - 1] == Sum(counts)
  {
    assert weights[|parents|..] == [weights[|weights| - 1]];
    assert counts[leaf..] == [];
    assert Sum([weights[|weights| - 1]]) == weights[|weights| - 1] + Sum([]);
  }

  /** One round of the loop: both halves of its body. */
  method FormNode(a: array<SymFreq>, n: nat, ghost counts: seq<nat>, ghost weights: seq<nat>, ghost parents: seq<nat>,
                  next: nat, root: nat, leaf: nat, ghost last: nat)
    returns (root': nat, leaf': nat, ghost weights': seq<nat>, ghost parents': seq<nat>, ghost last': nat)
    requires n == |counts| < 0x1_0000 && n <= a.Length && Sum(counts) < 0x1_0000 && next < n - 1
    requires |weights| == next && |parents| == root
    requires Formed(counts, weights, parents, leaf, last) && Holds(a[..n], counts, weights, parents, leaf)
    requires leaf <= n && root <= next && Cheapest(counts, weights, root, leaf) && Conserved(counts, weights, parents)
    requires InOrder(counts, weights, parents, leaf)
    modifies a
    ensures |weights'| == next + 1 && |parents'| == root'
    ensures Formed(counts, weights', parents', leaf', last') && Holds(a[..n], counts, weights', parents', leaf')
    ensures leaf' <= n && root' <= next + 1 && Cheapest(counts, weights', root', leaf')
        && Conserved(counts, weights', parents')
    ensures InOrder(counts, weights', parents', leaf')
    ensures forall i :: 0 <= i < n ==> a[i].sym == old(a[i].sym)
  {
    hide Queues, Parents, Growth, Sum, Left, Holds, Cheapest, Conserved, InOrder;
    ghost var b, c;
    root', leaf', b := FirstChild(a, n, counts, weights, parents, next, root, leaf);
    ghost var x := Chosen(counts, weights, root, leaf, b);
    ghost var half := Adopt(parents, next, b);
    ghost var y;
    root', leaf', c, y := SecondChild(a, n, counts, weights, half, next, root', leaf', x);
    PairFits(counts, weights, parents, leaf, last, b, c, x, y);
    SmallLow16(x + y);
    Round(counts, weights, parents, leaf, last, b, c, x, y);
    RoundKeeps(counts, weights, parents, leaf, last, b, c, x, y);
    weights', parents', last' := weights + [x + y], Adopt(half, next, c), y;
  }

  lemma SmallLow16(x: nat)
    requires x < 0x1_0000
    ensures Low16(x) == x
  {
  }

  method FirstChild(a: array<SymFreq>, n: nat, ghost counts: seq<nat>, ghost weights: seq<nat>, ghost parents: seq<nat>,
                    next: nat, root: nat, leaf: nat)
    returns (root': nat, leaf': nat, ghost b: bool)
    requires n == |counts| < 0x1_0000 && n <= a.Length && |weights| == next < leaf && |parents| == root < next < n
    requires Holds(a[..n], counts, weights, parents, leaf)
    modifies a
    ensures Choice(counts, weights, root, leaf, b) && a[next].key == Chosen(counts, weights, root, leaf, b)
    ensures root' == |Adopt(parents, next, b)| && leaf' == if b then leaf else leaf + 1
    ensures Holds(a[..n], counts, weights, Adopt(parents, next, b), leaf')
    ensures forall i :: 0 <= i < n ==> a[i].sym == old(a[i].sym)
  {
    root', leaf' := root, leaf;
    if leaf' >= n || a[root'].key < a[leaf'].key {
      b := true;
      a[next] := a[next].(key := a[root'].key);
      SmallLow16(next);
      a[root'] := a[root'].(key := Low16(next));
      root' := root' + 1;
    } else {
      b := false;
      a[next] := a[next].(key := a[leaf'].key);
      leaf' := leaf' + 1;
    }
  }

  method SecondChild(a: array<SymFreq>, n: nat, ghost counts: seq<nat>, ghost weights: seq<nat>,
                     ghost parents: seq<nat>, next: nat, root: nat, leaf: nat, ghost x: nat)
    returns (root': nat, leaf': nat, ghost c: bool, ghost y: nat)
    requires n == |counts| < 0x1_0000 && n <= a.Length && |weights| == next < leaf && |parents| == root <= next < n
    requires leaf >= n ==> root < next
    requires Holds(a[..n], counts, weights, parents, leaf) && a[next].key == x
    modifies a
    ensures Choice(counts, weights, root, leaf, c) && y == Chosen(counts, weights, root, leaf, c)
    ensures root' == |Adopt(parents, next, c)| && leaf' == if c then leaf else leaf + 1
    ensures Low16(x + y) == x + y ==> Holds(a[..n], counts, weights + [x + y], Adopt(parents, next, c), leaf')
    ensures forall i :: 0 <= i < n ==> a[i].sym == old(a[i].sym)
  {
    root', leaf' := root, leaf;
    if leaf' >= n || (root' < next && a[root'].key < a[leaf'].key) {
      c, y := true, weights[root'];
      a[next] := a[next].(key := Low16(a[next].key + a[root'].key));
      SmallLow16(next);
      a[root'] := a[root'].(key := Low16(next));
      root' := root' + 1;
    } else {
      c, y := false, counts[leaf'];
      a[next] := a[next].(key := Low16(a[next].key + a[leaf'].key));
      leaf' := leaf' + 1;
    }
  }
}
