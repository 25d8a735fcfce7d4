/**
  The inflater's two-level Huffman tables: a 1024-entry look-up on the next ten bits, whose
  negative entries lead into a binary tree kept in an array of pairs. A path is the string of
  bits read so far; a node is a path of ten bits or more that some code word goes on from.
 */
module InflateTables {
  import opened Bits

  /** The code word of each symbol; [] for an unused one. */
  type Words = seq<seq<bool>>

  predicate Used(words: Words, s: nat) {
    s < |words| && words[s] != []
  }

  predicate Starts(words: Words, bits: seq<bool>, s: nat) {
    Used(words, s) && words[s] <= bits
  }

  /** No code word is a prefix of another. */
  ghost predicate PrefixFree(words: Words) {
    forall s: nat, t: nat :: Used(words, s) && Used(words, t) && words[s] <= words[t] ==> s == t
  }

  const FAST_BITS: nat := 10         // TINFL_FAST_LOOKUP_BITS
  const FAST_SIZE: nat := 1024       // TINFL_FAST_LOOKUP_SIZE

  /** p is a proper prefix of the code word of s. */
  ghost predicate Inside(words: Words, p: seq<bool>, s: nat) {
    Used(words, s) && |p| < |words[s]| && p <= words[s]
  }

  /** The look-up entry the next ten bits select. */
  function Index(p: seq<bool>): nat { Val(p) }

  /** How a node with number j is referred to from a table cell. */
  function Ref(j: nat): int { -(2 * j + 1) }

  /** The look-up entry of a symbol of at most ten bits. */
  function Pack(words: Words, s: nat): int
    requires s < |words|
  {
    512 * |words[s]| + s
  }

  // ---------- what the cells hold ----------

  /** Nodes are numbered from 0 without repetition, and each leads on to one of the first upto symbols. */
  ghost predicate NodesOk(words: Words, upto: nat, nodes: map<seq<bool>, nat>) {
    && (forall p :: p in nodes ==> FAST_BITS <= |p| && nodes[p] < |nodes|)
    && (forall p :: p in nodes ==> exists s: nat :: s < upto && Inside(words, p, s))
    && (forall p, q :: p in nodes && q in nodes && nodes[p] == nodes[q] ==> p == q)
    && (forall p, b :: p + [b] in nodes && FAST_BITS <= |p| ==> p in nodes)
  }

  /** Every node on the way to one of the first done symbols is present. */
  ghost predicate PathsIn(words: Words, done: nat, nodes: map<seq<bool>, nat>) {
    forall p, s: nat :: s < done && Inside(words, p, s) && FAST_BITS <= |p| ==> p in nodes
  }

  ghost predicate LookCell(words: Words, done: nat, nodes: map<seq<bool>, nat>, p: seq<bool>, v: int) {
    if p in nodes then v == Ref(nodes[p])
    else
      && (forall s: nat :: s < done && Starts(words, p, s) ==> v == Pack(words, s))
      && ((forall s: nat :: s < done ==> !Starts(words, p, s)) ==> v == 0)
  }

  ghost predicate LookOk(words: Words, done: nat, nodes: map<seq<bool>, nat>, look: seq<int>) {
    && |look| == FAST_SIZE
    && (forall p :: |p| == FAST_BITS && Index(p) < |look| ==> LookCell(words, done, nodes, p, look[Index(p)]))
  }

  ghost predicate TreeCell(words: Words, done: nat, nodes: map<seq<bool>, nat>, p: seq<bool>, v: int) {
    if p in nodes then v == Ref(nodes[p])
    else
      && (forall s: nat :: s < done && Used(words, s) && words[s] == p ==> v == s)
      && ((forall s: nat :: s < done && Used(words, s) ==> words[s] != p) ==> v == 0)
  }

  /** The slot of the pair of node p that bit b selects. */
  function Slot(j: nat, b: bool): nat { 2 * j + if b then 1 else 0 }

  ghost predicate TreeOk(words: Words, done: nat, nodes: map<seq<bool>, nat>, tree: seq<int>) {
    && 2 * |nodes| <= |tree|
    && (forall p, b :: p in nodes && Slot(nodes[p], b) < |tree| ==>
        TreeCell(words, done, nodes, p + [b], tree[Slot(nodes[p], b)]))
    && (forall i :: 2 * |nodes| <= i < |tree| ==> tree[i] == 0)
  }

  lemma OneStart(words: Words, bits: seq<bool>, s: nat, t: nat)
    requires PrefixFree(words) && Starts(words, bits, s) && Starts(words, bits, t)
    ensures s == t
  {
    if words[s] <= words[t] {
    }
  }

  // ---------- inserting a short code ----------

  lemma NoNodeBelow(words: Words, nodes: map<seq<bool>, nat>, upto: nat, k: nat, p: seq<bool>)
    requires PrefixFree(words) && NodesOk(words, upto, nodes) && Starts(words, p, k)
    ensures p !in nodes
  {
    forall s: nat | s < upto && Inside(words, p, s) ensures false {
    }
  }

  lemma InsertShort(words: Words, k: nat, nodes: map<seq<bool>, nat>, look: seq<int>, look': seq<int>)
    requires PrefixFree(words) && Used(words, k) && NodesOk(words, k, nodes) && LookOk(words, k, nodes, look)
    requires |look'| == |look|
    requires forall p :: |p| == FAST_BITS && Index(p) < |look| ==>
               look'[Index(p)] == if Starts(words, p, k) then Pack(words, k) else look[Index(p)]
    ensures LookOk(words, k + 1, nodes, look')
  {
    forall p | |p| == FAST_BITS && Index(p) < |look'|
      ensures LookCell(words, k + 1, nodes, p, look'[Index(p)])
    {
      assert LookCell(words, k, nodes, p, look[Index(p)]);
      if Starts(words, p, k) {
        NoNodeBelow(words, nodes, k, k, p);
        forall s: nat | Starts(words, p, s) ensures s == k { OneStart(words, p, s, k); }
      } else if p !in nodes {
        assert forall s: nat :: s < k + 1 && Starts(words, p, s) ==> s < k;
        if forall s: nat :: s < k + 1 ==> !Starts(words, p, s) {
          assert forall s: nat :: s < k ==> !Starts(words, p, s);
        }
      }
    }
  }

  lemma InsertShortTree(words: Words, k: nat, nodes: map<seq<bool>, nat>, tree: seq<int>)
    requires Used(words, k) && |words[k]| <= FAST_BITS && NodesOk(words, k, nodes)
    requires TreeOk(words, k, nodes, tree) && PathsIn(words, k, nodes)
    ensures TreeOk(words, k + 1, nodes, tree) && PathsIn(words, k + 1, nodes)
  {
    forall p, b | p in nodes && Slot(nodes[p], b) < |tree|
      ensures TreeCell(words, k + 1, nodes, p + [b], tree[Slot(nodes[p], b)])
    {
      assert TreeCell(words, k, nodes, p + [b], tree[Slot(nodes[p], b)]);
      assert |p + [b]| > FAST_BITS;
    }
  }

  /** An unused symbol changes nothing. */
  lemma SkipUnused(words: Words, k: nat, nodes: map<seq<bool>, nat>, look: seq<int>, tree: seq<int>)
    requires k < |words| && !Used(words, k) && LookOk(words, k, nodes, look)
    requires TreeOk(words, k, nodes, tree) && PathsIn(words, k, nodes)
    ensures LookOk(words, k + 1, nodes, look) && TreeOk(words, k + 1, nodes, tree) && PathsIn(words, k + 1, nodes)
  {
    forall p | |p| == FAST_BITS && Index(p) < |look|
      ensures LookCell(words, k + 1, nodes, p, look[Index(p)])
    {
      assert LookCell(words, k, nodes, p, look[Index(p)]);
      assert forall s: nat :: s < k + 1 && Starts(words, p, s) ==> s < k;
      if forall s: nat :: s < k + 1 ==> !Starts(words, p, s) {
        assert forall s: nat :: s < k ==> !Starts(words, p, s);
      }
    }
    forall p, b | p in nodes && Slot(nodes[p], b) < |tree|
      ensures TreeCell(words, k + 1, nodes, p + [b], tree[Slot(nodes[p], b)])
    {
      assert TreeCell(words, k, nodes, p + [b], tree[Slot(nodes[p], b)]);
    }
  }

  // ---------- inserting a long code ----------

  /** The path q towards symbol k, not a node yet but with its parent one, becomes the next node. */
  ghost predicate Fresh(words: Words, k: nat, nodes: map<seq<bool>, nat>, q: seq<bool>) {
    && q !in nodes && FAST_BITS <= |q| && Inside(words, q, k)
    && (forall p, b :: q == p + [b] && FAST_BITS <= |p| ==> p in nodes)
  }

  lemma AddNode(words: Words, k: nat, nodes: map<seq<bool>, nat>, q: seq<bool>)
    requires NodesOk(words, k + 1, nodes) && PathsIn(words, k, nodes) && Fresh(words, k, nodes, q)
    ensures var nodes' := nodes[q := |nodes|];
            |nodes'| == |nodes| + 1 && NodesOk(words, k + 1, nodes') && PathsIn(words, k, nodes')
  {
    var nodes' := nodes[q := |nodes|];
    MapGrows(nodes, q, |nodes|);
    forall p | p in nodes' ensures exists s: nat :: s < k + 1 && Inside(words, p, s) {
      if p == q { assert k < k + 1 && Inside(words, p, k); }
    }
  }

  lemma StepInside(words: Words, q: seq<bool>, b: bool, s: nat)
    ensures Used(words, s) && words[s] == q + [b] ==> Inside(words, q, s)
  {
  }

  lemma MapGrows<K, V>(m: map<K, V>, k: K, v: V)
    requires k !in m
    ensures |m[k := v]| == |m| + 1
  {
    assert m[k := v].Keys == m.Keys + {k};
  }

  /** Nothing below a fresh path has been entered. */
  lemma NothingBelow(words: Words, k: nat, nodes: map<seq<bool>, nat>, q: seq<bool>, b: bool)
    requires NodesOk(words, k + 1, nodes) && PathsIn(words, k, nodes) && Fresh(words, k, nodes, q)
    ensures q + [b] !in nodes && TreeCell(words, k, nodes, q + [b], 0)
  {
    forall s: nat | s < k && Used(words, s) ensures words[s] != q + [b] {
      StepInside(words, q, b, s);
    }
  }

  /** The cells after q became a node: only the one that leads to q has changed. */
  lemma TreeAfter(words: Words, k: nat, nodes: map<seq<bool>, nat>, q: seq<bool>, tree: seq<int>, tree': seq<int>)
    requires TreeOk(words, k, nodes, tree) && q !in nodes && 2 * |nodes| + 2 <= |tree| == |tree'|
    requires forall b :: q + [b] !in nodes && q + [b] != q && TreeCell(words, k, nodes, q + [b], 0)
    requires forall p :: p in nodes ==> nodes[p] < |nodes|
    requires forall p, b :: p in nodes && Slot(nodes[p], b) < |tree| ==>
               tree'[Slot(nodes[p], b)] == if p + [b] == q then Ref(|nodes|) else tree[Slot(nodes[p], b)]
    requires forall i :: 2 * |nodes| <= i < |tree| ==> tree'[i] == 0
    ensures TreeOk(words, k, nodes[q := |nodes|], tree')
  {
    var nodes' := nodes[q := |nodes|];
    MapGrows(nodes, q, |nodes|);
    forall p, b | p in nodes' && Slot(nodes'[p], b) < |tree'|
      ensures TreeCell(words, k, nodes', p + [b], tree'[Slot(nodes'[p], b)])
    {
      if p == q {
        assert TreeCell(words, k, nodes, q + [b], 0);
      } else {
        assert TreeCell(words, k, nodes, p + [b], tree[Slot(nodes[p], b)]);
      }
    }
  }

  lemma LookAfter(words: Words, k: nat, nodes: map<seq<bool>, nat>, q: seq<bool>, look: seq<int>, look': seq<int>)
    requires LookOk(words, k, nodes, look) && q !in nodes && |look'| == |look|
    requires forall p :: |p| == FAST_BITS && Index(p) < |look| ==>
        look'[Index(p)] == if p == q then Ref(|nodes|) else look[Index(p)]
    ensures LookOk(words, k, nodes[q := |nodes|], look')
  {
    var nodes' := nodes[q := |nodes|];
    forall p | |p| == FAST_BITS && Index(p) < |look'|
      ensures LookCell(words, k, nodes', p, look'[Index(p)])
    {
      assert LookCell(words, k, nodes, p, look[Index(p)]);
    }
  }

  lemma ValInjective(p: seq<bool>, q: seq<bool>)
    requires |p| == |q| && Index(p) == Index(q)
    ensures p == q
  {
    ToBitsOfVal(p);
    ToBitsOfVal(q);
  }

  lemma AddRoot(words: Words, k: nat, nodes: map<seq<bool>, nat>, q: seq<bool>, look: seq<int>, tree: seq<int>)
    requires NodesOk(words, k + 1, nodes) && PathsIn(words, k, nodes) && Fresh(words, k, nodes, q)
    requires |q| == FAST_BITS && LookOk(words, k, nodes, look) && TreeOk(words, k, nodes, tree)
    requires Index(q) < |look| && 2 * |nodes| + 2 <= |tree|
    ensures LookOk(words, k, nodes[q := |nodes|], look[Index(q) := Ref(|nodes|)])
    ensures TreeOk(words, k, nodes[q := |nodes|], tree)
  {
    forall b ensures q + [b] !in nodes && q + [b] != q && TreeCell(words, k, nodes, q + [b], 0) {
      NothingBelow(words, k, nodes, q, b);
      assert |q + [b]| != |q|;
    }
    forall p, b | p in nodes ensures p + [b] != q {
      assert |p + [b]| > |q|;
    }
    TreeAfter(words, k, nodes, q, tree, tree);
    var look' := look[Index(q) := Ref(|nodes|)];
    forall p | |p| == FAST_BITS && Index(p) < |look| ensures look'[Index(p)] == if p == q then Ref(|nodes|)
        else look[Index(p)] {
      if Index(p) == Index(q) { ValInjective(p, q); }
    }
    LookAfter(words, k, nodes, q, look, look');
  }

  lemma LastStep(p: seq<bool>, b: bool, p0: seq<bool>, b0: bool)
    requires p + [b] == p0 + [b0]
    ensures p == p0 && b == b0
  {
    assert |p + [b]| == |p| + 1 && |p0 + [b0]| == |p0| + 1;
    assert (p + [b])[|p|] == b && (p0 + [b0])[|p0|] == b0;
    assert p == (p + [b])[..|p|] && p0 == (p0 + [b0])[..|p0|];
  }

  /** Slots tell nodes and bits apart. */
  lemma SlotInjective(i: nat, b: bool, j: nat, c: bool)
    requires Slot(i, b) == Slot(j, c)
    ensures i == j && b == c
  {
  }

  /** Overwriting the slot of (p0, b0) overwrites exactly the cell of the path p0 + [b0]. */
  lemma OneSlot(nodes: map<seq<bool>, nat>, p0: seq<bool>, b0: bool, tree: seq<int>, v: int)
    requires p0 in nodes && nodes[p0] < |nodes| && 2 * |nodes| <= |tree|
    requires forall p, q :: p in nodes && q in nodes && nodes[p] == nodes[q] ==> p == q
    ensures Slot(nodes[p0], b0) < 2 * |nodes|
    ensures forall p, b :: p in nodes && Slot(nodes[p], b) < |tree| ==>
              tree[Slot(nodes[p0], b0) := v][Slot(nodes[p], b)] == if p + [b] == p0 + [b0] then v
                  else tree[Slot(nodes[p], b)]
  {
    forall p, b | p in nodes && Slot(nodes[p], b) < |tree|
      ensures tree[Slot(nodes[p0], b0) := v][Slot(nodes[p], b)] == if p + [b] == p0 + [b0] then v
          else tree[Slot(nodes[p], b)]
    {
      if p + [b] == p0 + [b0] {
        LastStep(p, b, p0, b0);
      } else if Slot(nodes[p], b) == Slot(nodes[p0], b0) {
        SlotInjective(nodes[p], b, nodes[p0], b0);
      }
    }
  }

  lemma AddChild(words: Words, k: nat, nodes: map<seq<bool>, nat>, p0: seq<bool>, b0: bool, look: seq<int>,
                 tree: seq<int>)
    requires NodesOk(words, k + 1, nodes) && PathsIn(words, k, nodes)
    requires p0 in nodes && Fresh(words, k, nodes, p0 + [b0])
    requires LookOk(words, k, nodes, look) && TreeOk(words, k, nodes, tree) && 2 * |nodes| + 2 <= |tree|
    ensures Slot(nodes[p0], b0) < |tree|
    ensures LookOk(words, k, nodes[p0 + [b0] := |nodes|], look)
    ensures TreeOk(words, k, nodes[p0 + [b0] := |nodes|], tree[Slot(nodes[p0], b0) := Ref(|nodes|)])
  {
    var q := p0 + [b0];
    forall b ensures q + [b] !in nodes && q + [b] != q && TreeCell(words, k, nodes, q + [b], 0) {
      NothingBelow(words, k, nodes, q, b);
      assert |q + [b]| != |q|;
    }
    OneSlot(nodes, p0, b0, tree, Ref(|nodes|));
    TreeAfter(words, k, nodes, q, tree, tree[Slot(nodes[p0], b0) := Ref(|nodes|)]);
    assert |q| > FAST_BITS;
    LookAfter(words, k, nodes, q, look, look);
  }

  /** The last bit of the code word of k: its slot becomes the symbol. */
  lemma InsertLeafTree(words: Words, k: nat, nodes: map<seq<bool>, nat>, tree: seq<int>, tree': seq<int>)
    requires PrefixFree(words) && Used(words, k) && words[k] !in nodes
    requires TreeOk(words, k, nodes, tree) && |tree'| == |tree|
    requires forall p, b :: p in nodes && Slot(nodes[p], b) < |tree| ==>
               tree'[Slot(nodes[p], b)] == if p + [b] == words[k] then k as int else tree[Slot(nodes[p], b)]
    requires forall i :: 2 * |nodes| <= i < |tree| ==> tree'[i] == 0
    ensures TreeOk(words, k + 1, nodes, tree')
  {
    forall p, b | p in nodes && Slot(nodes[p], b) < |tree'|
      ensures TreeCell(words, k + 1, nodes, p + [b], tree'[Slot(nodes[p], b)])
    {
      assert TreeCell(words, k, nodes, p + [b], tree[Slot(nodes[p], b)]);
    }
  }

  lemma InsertLeafLook(words: Words, k: nat, nodes: map<seq<bool>, nat>, look: seq<int>)
    requires Used(words, k) && |words[k]| > FAST_BITS && LookOk(words, k, nodes, look)
    ensures LookOk(words, k + 1, nodes, look)
  {
    forall p | |p| == FAST_BITS && Index(p) < |look|
      ensures LookCell(words, k + 1, nodes, p, look[Index(p)])
    {
      assert LookCell(words, k, nodes, p, look[Index(p)]);
      assert !Starts(words, p, k);
      if forall s: nat :: s < k + 1 ==> !Starts(words, p, s) {
        assert forall s: nat :: s < k ==> !Starts(words, p, s);
      }
    }
  }

  lemma InsertLeaf(words: Words, k: nat, nodes: map<seq<bool>, nat>, p0: seq<bool>, b0: bool, look: seq<int>,
                   tree: seq<int>)
    requires PrefixFree(words) && Used(words, k) && |words[k]| > FAST_BITS && NodesOk(words, k + 1, nodes)
    requires LookOk(words, k, nodes, look) && TreeOk(words, k, nodes, tree)
    requires words[k] == p0 + [b0] && p0 in nodes
    ensures Slot(nodes[p0], b0) < |tree|
    ensures LookOk(words, k + 1, nodes, look)
    ensures TreeOk(words, k + 1, nodes, tree[Slot(nodes[p0], b0) := k as int])
  {
    assert Starts(words, words[k], k);
    NoNodeBelow(words, nodes, k + 1, k, words[k]);
    OneSlot(nodes, p0, b0, tree, k as int);
    InsertLeafTree(words, k, nodes, tree, tree[Slot(nodes[p0], b0) := k as int]);
    InsertLeafLook(words, k, nodes, look);
  }
}
