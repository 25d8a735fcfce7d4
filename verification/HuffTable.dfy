/**
  Building the inflater's tables from code lengths, and decoding one symbol with them
  (the table loop of tinfl_decompress, TINFL_HUFF_BITBUF_FILL and TINFL_HUFF_DECODE).
 */
module HuffTable {
  import opened Bits
  import opened Canonical
  import opened InflateTables
  import opened NodeCount

  /** The low bits of x spell the code word exactly when the code word starts the path of x. */
  lemma LowStarts(words: Words, k: nat, p: seq<bool>, rev: nat)
    requires InflateTables.Used(words, k) && |words[k]| <= |p|
    requires rev < Pow2(|words[k]|) && ToBits(rev, |words[k]|) == words[k]
    ensures InflateTables.Starts(words, p, k) <==> Low(Val(p), |words[k]|) == rev
  {
    var l := |words[k]|;
    ToBitsOfVal(p);
    ToBitsSplit(Val(p), l, |p| - l);
    assert p[..l] == ToBits(Val(p), l);
    ToBitsOfLow(Val(p), l);
    LowBound(Val(p), l);
    if ToBits(Val(p), l) == words[k] {
      ToBitsInjective(Low(Val(p), l), rev, l);
    }
  }

  lemma {:induction false} LowStep(x: nat, l: nat)
    ensures Low(x + Pow2(l), l) == Low(x, l)
  {
    if l != 0 { LowStep(x / 2, l - 1); }
  }

  /** Numbers with the same l low bits are at least 2^l apart. */
  lemma {:induction false} LowGap(x: nat, y: nat, l: nat)
    requires Low(x, l) == Low(y, l) && x < y
    ensures x + Pow2(l) <= y
  {
    if l != 0 { LowGap(x / 2, y / 2, l - 1); }
  }

  class Table {
    const lookUp: array<int>                      // m_look_up[type]
    const tree: array<int>                        // m_tree_0, m_tree_1 or m_tree_2
    ghost var nodes: map<seq<bool>, nat>          // the number of each node's pair in tree

    constructor (maxSymbols: nat)
      ensures fresh(lookUp) && fresh(tree) && lookUp.Length == FAST_SIZE && tree.Length == 2 * maxSymbols
    {
      lookUp := new int[FAST_SIZE](_ => 0);
      tree := new int[2 * maxSymbols](_ => 0);
      nodes := map[];
    }

    ghost function Own(): set<object> { {lookUp as object, tree as object} }

    /** The first done symbols are entered; nodes may already lead to the first upto. */
    ghost predicate Entered(words: Words, done: nat, upto: nat)
      reads this, lookUp, tree
    {
      && lookUp.Length == FAST_SIZE
      && NodesOk(words, upto, nodes)
      && PathsIn(words, done, nodes)
      && LookOk(words, done, nodes, lookUp[..])
      && TreeOk(words, done, nodes, tree[..])
    }

    /** All symbols are entered. */
    ghost predicate Ready(words: Words)
      reads this, lookUp, tree
    {
      InflateTables.PrefixFree(words) && Entered(words, |words|, |words|)
    }

    /** Zero both arrays, as before the symbol loop. */
    method Clear(words: Words)
      requires lookUp.Length == FAST_SIZE && lookUp != tree
      modifies this, lookUp, tree
      ensures Entered(words, 0, 0) && nodes == map[]
    {
      for i := 0 to lookUp.Length
        invariant forall x :: 0 <= x < i ==> lookUp[x] == 0
      {
        lookUp[i] := 0;
      }
      for i := 0 to tree.Length
        invariant forall x :: 0 <= x < i ==> tree[x] == 0
        invariant forall x :: 0 <= x < lookUp.Length ==> lookUp[x] == 0
      {
        tree[i] := 0;
      }
      nodes := map[];
    }

    /** A code of at most ten bits: fill every look-up entry whose low bits spell it. */
    method EnterShort(words: Words, k: nat, rev: nat, l: nat)
      requires lookUp != tree && InflateTables.PrefixFree(words) && Entered(words, k, k)
      requires InflateTables.Used(words, k) && l == |words[k]| <= FAST_BITS
      requires rev < Pow2(l) && ToBits(rev, l) == words[k]
      modifies lookUp
      ensures Entered(words, k + 1, k + 1)
    {
      hide NodesOk, PathsIn, LookOk, TreeOk;
      ghost var before := lookUp[..];
      FillLookUp(rev, l, 512 * l + k);
      ShortCode(words, k, rev, nodes, before, lookUp[..], tree[..]);
    }

    method FillLookUp(rev: nat, l: nat, entry: int)
      requires lookUp.Length == FAST_SIZE && rev < Pow2(l)
      modifies lookUp
      ensures forall x :: 0 <= x < lookUp.Length ==> lookUp[x] == if Low(x, l) == rev then entry else old(lookUp[x])
    {
      var cur := rev;
      LowSmall(rev, l);
      assert forall x: nat :: x < cur && Low(x, l) == rev ==> false by {
        forall x: nat | x < cur && Low(x, l) == rev ensures false { LowGap(x, cur, l); }
      }
      while cur < FAST_SIZE
        invariant Low(cur, l) == rev
        invariant forall x: nat :: x < lookUp.Length ==>
            lookUp[x] == if x < cur && Low(x, l) == rev then entry else old(lookUp[x])
        decreases FAST_SIZE - cur
      {
        lookUp[cur] := entry;
        LowStep(cur, l);
        forall x: nat | cur < x < cur + Pow2(l) && Low(x, l) == rev ensures false { LowGap(cur, x, l); }
        cur := cur + Pow2(l);
      }
    }

    /** The state half-way through a long code: symbol k's node p is present, and cur refers to it. */
    ghost predicate At(words: Words, k: nat, p: seq<bool>, cur: int, treeNext: int)
      reads this, lookUp, tree
    {
      && lookUp != tree && InflateTables.PrefixFree(words)
      && Entered(words, k, k + 1) && treeNext == Ref(|nodes|)
      && InflateTables.Used(words, k) && Inside(words, p, k) && p in nodes && cur == Ref(nodes[p])
    }

    /** The node for the first ten bits of a long code, new or not. */
    method EnterRoot(words: Words, k: nat, index: nat, treeNext: int) returns (cur: int, treeNext': int)
      requires lookUp != tree && InflateTables.PrefixFree(words) && Entered(words, k, k)
          && RoomFor(words, k, tree.Length)
      requires InflateTables.Used(words, k) && |words[k]| > FAST_BITS && treeNext == Ref(|nodes|)
      requires index < FAST_SIZE && index == Index(words[k][..FAST_BITS])
      modifies this, lookUp
      ensures At(words, k, words[k][..FAST_BITS], cur, treeNext')
    {
      hide NodesOk, PathsIn, LookOk, TreeOk, RoomFor;
      ghost var q := words[k][..FAST_BITS];
      ghost var look := lookUp[..];
      RootStep(words, k, nodes, q, look, tree[..], tree.Length);
      cur, treeNext' := lookUp[index], treeNext;
      if cur == 0 {
        lookUp[index] := treeNext;
        assert lookUp[..] == look[Index(q) := Ref(|nodes|)];
        nodes := nodes[q := |nodes|];
        cur := treeNext;
        treeNext' := treeNext - 2;
      }
    }

    /** One more bit of a long code: down to the child node, new or not. */
    method Descend(words: Words, k: nat, ghost p: seq<bool>, cur: int, b: bool, treeNext: int)
      returns (cur': int, treeNext': int)
      requires At(words, k, p, cur, treeNext) && RoomFor(words, k, tree.Length) && Inside(words, p + [b], k)
      modifies this, tree
      ensures At(words, k, p + [b], cur', treeNext')
    {
      hide NodesOk, PathsIn, LookOk, TreeOk, RoomFor;
      ghost var cells := tree[..];
      ChildStep(words, k, nodes, p, b, lookUp[..], cells, tree.Length);
      cur' := cur - if b then 1 else 0;
      if tree[-cur' - 1] == 0 {
        tree[-cur' - 1] := treeNext;
        assert tree[..] == cells[Slot(nodes[p], b) := Ref(|nodes|)];
        nodes := nodes[p + [b] := |nodes|];
        cur' := treeNext;
        treeNext' := treeNext - 2;
      } else {
        cur' := tree[-cur' - 1];
        treeNext' := treeNext;
      }
    }

    /** The last bit of a long code: its slot becomes the symbol. */
    method EnterLeaf(words: Words, k: nat, ghost p: seq<bool>, cur: int, b: bool, treeNext: int)
      requires At(words, k, p, cur, treeNext) && words[k] == p + [b]
      modifies tree
      ensures Entered(words, k + 1, k + 1)
    {
      InsertLeaf(words, k, nodes, p, b, lookUp[..], tree[..]);
      ghost var cells := tree[..];
      var slot := cur - if b then 1 else 0;
      tree[-slot - 1] := k;
      assert tree[..] == cells[Slot(nodes[p], b) := k as int];
      PathDone(words, k, nodes, p, b);
    }

    /** A code of more than ten bits: a root cell, then a step down the tree for each further bit. */
    method EnterLong(words: Words, k: nat, rev: nat, l: nat, treeNext: int) returns (treeNext': int)
      requires lookUp != tree && InflateTables.PrefixFree(words) && Entered(words, k, k)
          && RoomFor(words, k, tree.Length)
      requires InflateTables.Used(words, k) && l == |words[k]| > FAST_BITS && treeNext == Ref(|nodes|)
      requires ToBits(rev, l) == words[k]
      modifies this, lookUp, tree
      ensures Entered(words, k + 1, k + 1) && treeNext' == Ref(|nodes|)
    {
      hide NodesOk, PathsIn, LookOk, TreeOk, RoomFor;
      RootIndex(words[k], rev);
      var cur;
      cur, treeNext' := EnterRoot(words, k, Low(rev, FAST_BITS), treeNext);
      var rest, j := Shr(rev, FAST_BITS - 1), l;
      ghost var d: nat := FAST_BITS;
      while j > FAST_BITS + 1
        invariant FAST_BITS < j <= l && d == FAST_BITS + (l - j) && rest == Shr(rev, d - 1)
        invariant At(words, k, words[k][..d], cur, treeNext')
      {
        NextBit(words[k], rev, d);
        rest := rest / 2;
        cur, treeNext' := Descend(words, k, words[k][..d], cur, rest % 2 == 1, treeNext');
        j := j - 1;
        d := d + 1;
      }
      NextBit(words[k], rev, d);
      rest := rest / 2;
      assert words[k][..l] == words[k];
      EnterLeaf(words, k, words[k][..d], cur, rest % 2 == 1, treeNext');
    }

    /**
      The table build. It is refused exactly when the lengths do not fill a binary tree,
      unless at most one symbol is used.
     */
    method Build(lens: seq<nat>) returns (ok: bool)
      requires Lengths(lens) && lookUp.Length == FAST_SIZE && lookUp != tree
      requires tree.Length >= 2 * |lens| && tree.Length >= 10
      modifies this, lookUp, tree
      ensures ok <==> Complete(lens) || UsedUpTo(lens, MAX_BITS) <= 1
      ensures ok ==> Fits(lens) && Ready(WordsOf(lens))
    {
      var words := WordsOf(lens);
      var totalSyms := CountLengths(lens);
      Clear(words);
      var nextCode, usedSyms, total := NextCodes(lens, totalSyms);
      Accepts(lens);
      if total != 65536 && usedSyms > 1 {
        return false;
      }
      EnterAll(lens, words, nextCode);
      return true;
    }

    /** The symbol loop. */
    method EnterAll(lens: seq<nat>, words: Words, nextCode: array<nat>)
      requires Fits(lens) && (Complete(lens) || UsedUpTo(lens, MAX_BITS) <= 1) && words == WordsOf(lens)
      requires Entered(words, 0, 0) && nodes == map[] && lookUp != tree
      requires tree.Length >= 2 * |lens| && tree.Length >= 10
      requires nextCode.Length == MAX_BITS + 2
      requires forall l: nat :: 1 <= l <= MAX_BITS ==> nextCode[l] == First(lens, l)
      modifies this, lookUp, tree, nextCode
      ensures Ready(words)
    {
      WordsPrefixFree(lens);
      var treeNext := -1;
      for k := 0 to |lens|
        invariant Entered(words, k, k) && treeNext == Ref(|nodes|)
        invariant forall l: nat :: 1 <= l <= MAX_BITS ==> nextCode[l] == First(lens, l) + Count(lens[..k], l)
      {
        treeNext := EnterSymbol(lens, words, nextCode, k, treeNext);
      }
    }

    method EnterSymbol(lens: seq<nat>, words: Words, nextCode: array<nat>, k: nat, treeNext: int)
      returns (treeNext': int)
      requires Lengths(lens) && (Complete(lens) || UsedUpTo(lens, MAX_BITS) <= 1) && words == WordsOf(lens)
      requires InflateTables.PrefixFree(words) && k < |lens| && Entered(words, k, k) && lookUp != tree
      requires tree.Length >= 2 * |lens| && tree.Length >= 10 && treeNext == Ref(|nodes|)
      requires nextCode.Length == MAX_BITS + 2
      requires forall l: nat :: 1 <= l <= MAX_BITS ==> nextCode[l] == First(lens, l) + Count(lens[..k], l)
      modifies this, lookUp, tree, nextCode
      ensures Entered(words, k + 1, k + 1) && treeNext' == Ref(|nodes|)
      ensures forall l: nat :: 1 <= l <= MAX_BITS ==> nextCode[l] == First(lens, l) + Count(lens[..k + 1], l)
    {
      hide NodesOk, PathsIn, LookOk, TreeOk, RoomFor, InflateTables.PrefixFree, Fits, Complete, Taken, UsedUpTo;
      var l := lens[k];
      var rev := TakeCode(lens, k, l, nextCode, MAX_BITS);
      treeNext' := treeNext;
      if l == 0 {
        SkipUnused(words, k, nodes, lookUp[..], tree[..]);
        NodesUpto(words, k, nodes);
      } else if l <= FAST_BITS {
        EnterShort(words, k, rev, l);
      } else {
        RoomForNodes(lens, k, tree.Length);
        treeNext' := EnterLong(words, k, rev, l, treeNext);
      }
    }
  }

  /** The first loops of the table build: how many codes there are of each length. */
  method CountLengths(lens: seq<nat>) returns (totalSyms: array<nat>)
    requires Lengths(lens)
    ensures fresh(totalSyms) && totalSyms.Length == MAX_BITS + 1
    ensures forall l: nat :: l <= MAX_BITS ==> totalSyms[l] == Count(lens, l)
  {
    totalSyms := new nat[MAX_BITS + 1](_ => 0);
    for i := 0 to |lens|
      invariant forall l: nat :: l <= MAX_BITS ==> totalSyms[l] == Count(lens[..i], l)
    {
      CountSnoc(lens, i);
      totalSyms[lens[i]] := totalSyms[lens[i]] + 1;
    }
    assert lens[..|lens|] == lens;
  }

  /** The smallest code of each length, the number of symbols used, and the Kraft sum in units of 2^-16. */
  method NextCodes(ghost lens: seq<nat>, totalSyms: array<nat>)
    returns (nextCode: array<nat>, usedSyms: nat, total: nat)
    requires totalSyms.Length == MAX_BITS + 1 && forall l: nat :: l <= MAX_BITS ==> totalSyms[l] == Count(lens, l)
    ensures fresh(nextCode) && nextCode.Length == MAX_BITS + 2
    ensures forall l: nat :: 1 <= l <= MAX_BITS + 1 ==> nextCode[l] == First(lens, l)
    ensures usedSyms == UsedUpTo(lens, MAX_BITS) && total == 2 * Taken(lens, MAX_BITS)
  {
    nextCode := new nat[MAX_BITS + 2](_ => 0);
    usedSyms, total := 0, 0;
    for i := 1 to MAX_BITS + 1
      invariant usedSyms == UsedUpTo(lens, i - 1) && total == 2 * Taken(lens, i - 1)
      invariant forall l: nat :: 1 <= l <= i ==> nextCode[l] == First(lens, l)
    {
      usedSyms := usedSyms + totalSyms[i];
      total := 2 * (total + totalSyms[i]);
      nextCode[i + 1] := total;
    }
  }

  /** The completeness check is exact, and whatever passes it fits in a tree. */
  lemma Accepts(lens: seq<nat>)
    requires Lengths(lens)
    ensures 2 * Taken(lens, MAX_BITS) == 65536 <==> Complete(lens)
    ensures Complete(lens) || UsedUpTo(lens, MAX_BITS) <= 1 ==> Fits(lens)
  {
    Pow2Values();
    if UsedUpTo(lens, MAX_BITS) <= 1 { FewFit(lens, MAX_BITS); }
  }

  lemma RoomForNodes(lens: seq<nat>, k: nat, size: nat)
    requires Complete(lens) || (Lengths(lens) && UsedUpTo(lens, MAX_BITS) <= 1)
    requires size >= 2 * |lens| && size >= 10
    ensures RoomFor(WordsOf(lens), k, size)
  {
    forall m: map<seq<bool>, nat> | NodesOk(WordsOf(lens), k + 1, m) ensures 2 * |m| <= size {
      if Complete(lens) {
        NodesComplete(lens, k + 1, m);
      } else {
        NodesLone(lens, k + 1, m);
      }
    }
  }

  lemma RootIndex(w: seq<bool>, rev: nat)
    requires |w| > FAST_BITS && ToBits(rev, |w|) == w
    ensures Low(rev, FAST_BITS) == Index(w[..FAST_BITS]) && Low(rev, FAST_BITS) < FAST_SIZE
  {
    Prefix(w, rev, FAST_BITS);
    Pow2Values();
  }

  lemma Prefix(w: seq<bool>, rev: nat, n: nat)
    requires |w| > n && ToBits(rev, |w|) == w
    ensures Low(rev, n) == Val(w[..n]) && Low(rev, n) < Pow2(n)
  {
    ToBitsSplit(rev, n, |w| - n);
    assert w[..n] == ToBits(rev, n);
    ValOfToBits(rev, n);
    LowBound(rev, n);
  }

  /** The next bit to shift out is the next bit of the code word. */
  lemma NextBit(w: seq<bool>, rev: nat, d: nat)
    requires 0 < d < |w| && ToBits(rev, |w|) == w
    ensures Shr(rev, d - 1) / 2 == Shr(rev, d)
    ensures w[..d + 1] == w[..d] + [Shr(rev, d) % 2 == 1]
  {
    ShrHalf(rev, d - 1);
    BitAt(rev, |w|, d);
  }

  /** A tree array of this size always has room for the next node on the way to symbol k. */
  ghost predicate RoomFor(words: Words, k: nat, size: nat) {
    forall m: map<seq<bool>, nat> :: NodesOk(words, k + 1, m) ==> 2 * |m| <= size
  }

  lemma ShortCode(words: Words, k: nat, rev: nat, nodes: map<seq<bool>, nat>, look: seq<int>, look': seq<int>,
                  tree: seq<int>)
    requires InflateTables.PrefixFree(words) && InflateTables.Used(words, k) && |words[k]| <= FAST_BITS
    requires NodesOk(words, k, nodes) && PathsIn(words, k, nodes) && LookOk(words, k, nodes, look)
        && TreeOk(words, k, nodes, tree)
    requires rev < Pow2(|words[k]|) && ToBits(rev, |words[k]|) == words[k] && |look'| == |look|
    requires forall x :: 0 <= x < |look| ==> look'[x] == if Low(x, |words[k]|) == rev then Pack(words, k) else look[x]
    ensures NodesOk(words, k + 1, nodes) && PathsIn(words, k + 1, nodes)
    ensures LookOk(words, k + 1, nodes, look') && TreeOk(words, k + 1, nodes, tree)
  {
    forall p | |p| == FAST_BITS && Index(p) < |look|
      ensures look'[Index(p)] == if InflateTables.Starts(words, p, k) then Pack(words, k) else look[Index(p)]
    {
      LowStarts(words, k, p, rev);
    }
    InsertShort(words, k, nodes, look, look');
    InsertShortTree(words, k, nodes, tree);
    NodesUpto(words, k, nodes);
  }

  lemma NodesUpto(words: Words, k: nat, nodes: map<seq<bool>, nat>)
    requires NodesOk(words, k, nodes)
    ensures NodesOk(words, k + 1, nodes)
  {
    forall p | p in nodes ensures exists s: nat :: s < k + 1 && Inside(words, p, s) {
      var s: nat :| s < k && Inside(words, p, s);
      assert s < k + 1;
    }
  }

  /** Where symbol k has not been entered, an empty root cell is one without a node. */
  lemma RootCell(words: Words, k: nat, nodes: map<seq<bool>, nat>, q: seq<bool>, v: int)
    requires InflateTables.PrefixFree(words) && NodesOk(words, k, nodes) && PathsIn(words, k, nodes)
    requires LookCell(words, k, nodes, q, v) && |q| == FAST_BITS && Inside(words, q, k)
    ensures if v == 0 then Fresh(words, k, nodes, q) else q in nodes && v == Ref(nodes[q])
  {
    if q !in nodes {
      forall s: nat | s < k ensures !InflateTables.Starts(words, q, s) {
        StartsInside(words, q, s, k);
      }
    }
  }

  lemma CellOfRoot(words: Words, k: nat, nodes: map<seq<bool>, nat>, q: seq<bool>, look: seq<int>)
    requires LookOk(words, k, nodes, look) && |q| == FAST_BITS && Index(q) < |look|
    ensures LookCell(words, k, nodes, q, look[Index(q)])
  {
  }

  lemma RootStep(words: Words, k: nat, nodes: map<seq<bool>, nat>, q: seq<bool>, look: seq<int>, tree: seq<int>,
                 size: nat)
    requires InflateTables.PrefixFree(words) && NodesOk(words, k, nodes) && PathsIn(words, k, nodes)
    requires LookOk(words, k, nodes, look) && TreeOk(words, k, nodes, tree)
    requires |q| == FAST_BITS && Inside(words, q, k) && RoomFor(words, k, size) && size == |tree| && Index(q) < |look|
    ensures NodesOk(words, k + 1, nodes)
    ensures look[Index(q)] != 0 ==> q in nodes && look[Index(q)] == Ref(nodes[q])
    ensures look[Index(q)] == 0 ==>
              var nodes' := nodes[q := |nodes|];
              |nodes'| == |nodes| + 1 && NodesOk(words, k + 1, nodes') && PathsIn(words, k, nodes') &&
              LookOk(words, k, nodes', look[Index(q) := Ref(|nodes|)]) && TreeOk(words, k, nodes', tree)
  {
    hide NodesOk, PathsIn, LookOk, TreeOk, LookCell, Inside, InflateTables.PrefixFree, Ref;
    CellOfRoot(words, k, nodes, q, look);
    RootCell(words, k, nodes, q, look[Index(q)]);
    NodesUpto(words, k, nodes);
    if look[Index(q)] == 0 {
      AddNode(words, k, nodes, q);
      AddRoot(words, k, nodes, q, look, tree);
    }
  }

  lemma StartsInside(words: Words, q: seq<bool>, s: nat, k: nat)
    requires InflateTables.PrefixFree(words) && Inside(words, q, k) && s != k
    ensures !InflateTables.Starts(words, q, s)
  {
  }

  /** Likewise for a tree cell. */
  lemma ChildCell(words: Words, k: nat, nodes: map<seq<bool>, nat>, q: seq<bool>, v: int)
    requires InflateTables.PrefixFree(words) && TreeCell(words, k, nodes, q, v) && Inside(words, q, k)
    ensures if v == 0 then q !in nodes else q in nodes && v == Ref(nodes[q])
  {
    if q !in nodes {
      forall s: nat | s < k && InflateTables.Used(words, s) ensures words[s] != q {
        StartsInside(words, q, s, k);
      }
    }
  }

  lemma FreshChild(words: Words, k: nat, nodes: map<seq<bool>, nat>, p: seq<bool>, b: bool)
    requires p in nodes && p + [b] !in nodes && FAST_BITS <= |p| && Inside(words, p + [b], k)
    ensures Fresh(words, k, nodes, p + [b])
  {
    forall r, c | p + [b] == r + [c] ensures r in nodes { LastStep(p, b, r, c); }
  }

  lemma CellOfChild(words: Words, k: nat, nodes: map<seq<bool>, nat>, p: seq<bool>, b: bool, tree: seq<int>)
    requires NodesOk(words, k + 1, nodes) && TreeOk(words, k, nodes, tree) && p in nodes && RoomFor(words, k, |tree|)
    ensures FAST_BITS <= |p| && Slot(nodes[p], b) < |tree|
        && TreeCell(words, k, nodes, p + [b], tree[Slot(nodes[p], b)])
  {
  }

  lemma ChildStep(words: Words, k: nat, nodes: map<seq<bool>, nat>, p: seq<bool>, b: bool, look: seq<int>,
                  tree: seq<int>, size: nat)
    requires InflateTables.PrefixFree(words) && NodesOk(words, k + 1, nodes) && PathsIn(words, k, nodes)
    requires LookOk(words, k, nodes, look) && TreeOk(words, k, nodes, tree)
    requires p in nodes && Inside(words, p + [b], k) && RoomFor(words, k, size) && size == |tree|
    ensures Slot(nodes[p], b) < |tree|
    ensures tree[Slot(nodes[p], b)] != 0 ==> p + [b] in nodes && tree[Slot(nodes[p], b)] == Ref(nodes[p + [b]])
    ensures tree[Slot(nodes[p], b)] == 0 ==>
              var nodes' := nodes[p + [b] := |nodes|];
              |nodes'| == |nodes| + 1 && NodesOk(words, k + 1, nodes') && PathsIn(words, k, nodes') &&
              LookOk(words, k, nodes', look) && TreeOk(words, k, nodes', tree[Slot(nodes[p], b) := Ref(|nodes|)])
  {
    hide NodesOk, PathsIn, LookOk, TreeOk, Inside, TreeCell, InflateTables.PrefixFree, Fresh, Slot, Ref;
    CellOfChild(words, k, nodes, p, b, tree);
    ChildCell(words, k, nodes, p + [b], tree[Slot(nodes[p], b)]);
    if tree[Slot(nodes[p], b)] == 0 {
      FreshChild(words, k, nodes, p, b);
      AddNode(words, k, nodes, p + [b]);
      AddChild(words, k, nodes, p, b, look, tree);
    }
  }

  /** Once its last node is present all of a symbol's nodes are. */
  lemma PathDone(words: Words, k: nat, nodes: map<seq<bool>, nat>, p: seq<bool>, b: bool)
    requires PathsIn(words, k, nodes) && NodesOk(words, k + 1, nodes) && p in nodes
    requires k < |words| && words[k] == p + [b]
    ensures PathsIn(words, k + 1, nodes)
  {
    forall q, s: nat | s < k + 1 && Inside(words, q, s) && FAST_BITS <= |q| ensures q in nodes {
      if s == k {
        assert q == p[..|q|];
        Ancestors(words, k + 1, nodes, p, |q|);
      }
    }
  }

  lemma ParentNode(words: Words, upto: nat, nodes: map<seq<bool>, nat>, q: seq<bool>, b: bool)
    requires NodesOk(words, upto, nodes) && q + [b] in nodes && FAST_BITS <= |q|
    ensures q in nodes
  {
  }

  lemma {:induction false} Ancestors(words: Words, upto: nat, nodes: map<seq<bool>, nat>, p: seq<bool>, d: nat)
    requires NodesOk(words, upto, nodes) && p in nodes && FAST_BITS <= d <= |p|
    ensures p[..d] in nodes
    decreases |p|
  {
    hide NodesOk;
    if d < |p| {
      var q, b := p[..|p| - 1], p[|p| - 1];
      assert p == q + [b];
      ParentNode(words, upto, nodes, q, b);
      Ancestors(words, upto, nodes, q, d);
      assert q[..d] == p[..d];
    } else {
      assert p[..d] == p;
    }
  }
}
