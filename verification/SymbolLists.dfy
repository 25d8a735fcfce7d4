/**
  Lists of the symbols in use: in symbol order, as the compressor collects them, and sorted by
  count. What lengths cost, summed over a whole table, is what they cost summed over such a list.
 */
module SymbolLists {
  import opened Bits
  import opened MinRedundancy
  import opened CodeDepths
  import opened Optimality
  import RadixSort

  // ---------- the symbols in use ----------

  /** The first loop's list: the used symbols with their counts, in symbol order. */
  function UsedSyms(count: seq<nat>): seq<SymFreq> {
    if count == [] then []
    else
      var n := |count| - 1;
      UsedSyms(count[..n]) + if count[n] != 0 then [SymFreq(count[n], n)] else []
  }

  lemma {:induction false} UsedSymsFacts(count: seq<nat>)
    ensures |UsedSyms(count)| <= |count|
    ensures forall i :: 0 <= i < |UsedSyms(count)| ==>
              UsedSyms(count)[i].sym < |count| && UsedSyms(count)[i].key == count[UsedSyms(count)[i].sym] > 0
    ensures forall i, j :: 0 <= i < j < |UsedSyms(count)| ==> UsedSyms(count)[i].sym != UsedSyms(count)[j].sym
  {
    if count != [] { UsedSymsFacts(count[..|count| - 1]); }
  }

  lemma {:induction false} UsedSymsAll(count: seq<nat>, s: nat)
    requires s < |count| && count[s] > 0
    ensures SymFreq(count[s], s) in UsedSyms(count)
  {
    if s < |count| - 1 { UsedSymsAll(count[..|count| - 1], s); }
  }

  lemma {:induction false} UsedSymsSum(count: seq<nat>)
    ensures Sum(Keys(UsedSyms(count))) == Sum(count)
  {
    if count != [] {
      var n := |count| - 1;
      UsedSymsSum(count[..n]);
      var u := UsedSyms(count[..n]);
      assert count == count[..n] + [count[n]];
      SumSnoc(count[..n], count[n]);
      if count[n] != 0 {
        assert Keys(u + [SymFreq(count[n], n)]) == Keys(u) + [count[n]];
        SumSnoc(Keys(u), count[n]);
      } else {
        assert u + [] == u;
      }
    }
  }

  lemma {:induction false} SumOfMultiset(s: seq<SymFreq>, r: seq<SymFreq>)
    requires multiset(s) == multiset(r)
    ensures Sum(Keys(s)) == Sum(Keys(r))
  {
    hide Keys, Sum;
    if s == [] {
      assert |multiset(r)| == |r| == 0;
    } else {
      var n := |s| - 1;
      var i := RadixSort.TakenOut(s, r);
      SumOfMultiset(s[..n], r[..i] + r[i + 1..]);
      SumAround(s, n);
      SumAround(r, i);
      assert s[..n] + s[n + 1..] == s[..n];
    }
  }

  lemma SumAround(r: seq<SymFreq>, i: nat)
    requires i < |r|
    ensures Sum(Keys(r)) == Sum(Keys(r[..i] + r[i + 1..])) + r[i].key
  {
    hide Keys, Sum;
    var a, b, k := Keys(r[..i]), Keys(r[i + 1..]), r[i].key;
    var ak := a + [k];
    assert Keys(r) == ak + b;
    assert Keys(r[..i] + r[i + 1..]) == a + b;
    SumAppend(ak, b);
    SumSnoc(a, k);
    SumAppend(a, b);
  }

  /** s lists the used symbols of count, each once. */
  ghost predicate Lists(count: seq<nat>, s: seq<SymFreq>) {
    && (forall j :: 0 <= j < |s| ==> s[j].sym < |count| && count[s[j].sym] > 0)
    && (forall i, j :: 0 <= i < j < |s| ==> s[i].sym != s[j].sym)
    && (forall k: nat :: k < |count| && count[k] > 0 ==> exists j :: 0 <= j < |s| && s[j].sym == k)
  }

  /** From the less to the more frequent. */
  ghost predicate ByCount(count: seq<nat>, s: seq<SymFreq>) {
    forall i, j :: 0 <= i <= j < |s| && s[i].sym < |count| && s[j].sym < |count| ==> count[s[i].sym] <= count[s[j].sym]
  }

  /** Two equal entries of a list are two in its multiset. */
  lemma TwiceIn<T>(s: seq<T>, i: nat, j: nat)
    requires i < j < |s| && s[i] == s[j]
    ensures multiset(s)[s[i]] >= 2
  {
    assert s == s[..i] + [s[i]] + s[i + 1..j] + [s[j]] + s[j + 1..];
  }

  lemma {:induction false} OnceIn(u: seq<SymFreq>, x: SymFreq)
    requires forall i, j :: 0 <= i < j < |u| ==> u[i].sym != u[j].sym
    ensures multiset(u)[x] <= 1
  {
    if u != [] {
      OnceIn(u[1..], x);
      assert u == [u[0]] + u[1..];
      assert u[0] !in u[1..];
    }
  }

  /** A permutation of the used symbols has each of them once. */
  lemma PermutedLists(count: seq<nat>, u: seq<SymFreq>, r: seq<SymFreq>)
    requires u == UsedSyms(count) && multiset(r) == multiset(u)
    ensures Lists(count, r) && forall j :: 0 <= j < |r| ==> r[j].sym < |count| && r[j].key == count[r[j].sym] > 0
  {
    hide UsedSyms;
    UsedSymsFacts(count);
    forall j | 0 <= j < |r| ensures r[j].sym < |count| && r[j].key == count[r[j].sym] > 0 {
      assert r[j] in multiset(r);
      assert r[j] in u;
    }
    forall i, j | 0 <= i < j < |r| ensures r[i].sym != r[j].sym {
      if r[i].sym == r[j].sym {
        TwiceIn(r, i, j);
        OnceIn(u, r[i]);
      }
    }
    forall k: nat | k < |count| && count[k] > 0 ensures exists j :: 0 <= j < |r| && r[j].sym == k {
      var x := SymFreq(count[k], k);
      UsedSymsAll(count, k);
      assert x in multiset(u);
      assert x in r;
      var j :| 0 <= j < |r| && r[j] == x;
      assert r[j].sym == k;
    }
  }

  lemma SortedLists(count: seq<nat>, r: seq<SymFreq>)
    requires RadixSort.StableSorted(UsedSyms(count), r)
    ensures |r| == |UsedSyms(count)| && Lists(count, r) && ByCount(count, r)
    ensures Ascending(Keys(r)) && (forall i :: 0 <= i < |r| ==> r[i].key >= 1) && Sum(Keys(r)) == Sum(count)
    ensures ListsCounts(count, r)
  {
    hide UsedSyms, Lists, Sum;
    var u := UsedSyms(count);
    RadixSort.SortedPermutes(u, r);
    PermutedLists(count, u, r);
    SumOfMultiset(u, r);
    UsedSymsSum(count);
  }

  // ---------- sums over a list ----------

  /** The values of x at the symbols of a list. */
  function At(x: seq<nat>, s: seq<SymFreq>): (r: seq<nat>)
    ensures |r| == |s| && forall k :: 0 <= k < |s| && s[k].sym < |x| ==> r[k] == x[s[k].sym]
  {
    seq(|s|, k requires 0 <= k < |s| => if s[k].sym < |x| then x[s[k].sym] else 0)
  }

  function Total(s: seq<SymFreq>, g: SymFreq -> nat): nat {
    if s == [] then 0 else Total(s[..|s| - 1], g) + g(s[|s| - 1])
  }

  lemma {:induction false} TotalAppend(s: seq<SymFreq>, t: seq<SymFreq>, g: SymFreq -> nat)
    ensures Total(s + t, g) == Total(s, g) + Total(t, g)
  {
    if t == [] {
      JoinNothing(s);
    } else {
      var n := |t| - 1;
      assert (s + t)[..|s + t| - 1] == s + t[..n];
      TotalAppend(s, t[..n], g);
    }
  }

  lemma TotalCut(s: seq<SymFreq>, i: nat, g: SymFreq -> nat)
    requires i < |s|
    ensures Total(s, g) == Total(s[..i] + s[i + 1..], g) + g(s[i])
  {
    hide Total;
    var a, b := s[..i], s[i + 1..];
    assert s[..i + 1] == a + [s[i]];
    assert s == s[..i + 1] + b;
    TotalAppend(s[..i + 1], b, g);
    TotalPush(a, s[i], g);
    TotalAppend(a, b, g);
  }

  lemma TotalPush(s: seq<SymFreq>, x: SymFreq, g: SymFreq -> nat)
    ensures Total(s + [x], g) == Total(s, g) + g(x)
  {
    assert (s + [x])[..|s|] == s;
  }

  /** The order of the list does not matter. */
  lemma {:induction false} TotalPermuted(s: seq<SymFreq>, r: seq<SymFreq>, g: SymFreq -> nat)
    requires multiset(s) == multiset(r)
    ensures Total(s, g) == Total(r, g)
  {
    hide Total;
    if s == [] {
      assert |multiset(r)| == |r| == 0;
    } else {
      var n := |s| - 1;
      var i := RadixSort.TakenOut(s, r);
      TotalPermuted(s[..n], r[..i] + r[i + 1..], g);
      TotalCut(s, n, g);
      TotalCut(r, i, g);
      assert s[..n] + s[n + 1..] == s[..n];
    }
  }

  function Charge(x: seq<nat>): SymFreq -> nat {
    (e: SymFreq) => if e.sym < |x| then e.key * x[e.sym] else 0
  }

  function Claim(x: seq<nat>, m: nat): SymFreq -> nat {
    (e: SymFreq) => if e.sym < |x| && x[e.sym] <= m then Pow2(m - x[e.sym]) else 0
  }

  /** Summed over the used symbols in order, and over the whole table. */
  lemma {:induction false} TableCost(count: seq<nat>, x: seq<nat>)
    requires |count| <= |x|
    ensures Total(UsedSyms(count), Charge(x)) == Cost(count, x[..|count|])
  {
    if count != [] {
      var n := |count| - 1;
      var u, e := UsedSyms(count[..n]), SymFreq(count[n], n);
      assert UsedSyms(count) == if count[n] != 0 then u + [e] else u + [];
      TableCost(count[..n], x);
      hide Total, Cost, UsedSyms;
      assert count == count[..n] + [count[n]] && x[..|count|] == x[..n] + [x[n]];
      PushCost(count[..n], x[..n], count[n], x[n]);
      if count[n] != 0 {
        TotalPush(u, e, Charge(x));
      } else {
        JoinNothing(u);
      }
    }
  }

  lemma {:induction false} TableShare(count: seq<nat>, x: seq<nat>, m: nat)
    requires |count| <= |x| && forall k :: 0 <= k < |x| ==> x[k] <= m
    ensures Total(UsedSyms(count), Claim(x, m)) <= Share(x[..|count|], m)
  {
    hide Pow2;
    if count != [] {
      var n := |count| - 1;
      var u, e := UsedSyms(count[..n]), SymFreq(count[n], n);
      assert UsedSyms(count) == if count[n] != 0 then u + [e] else u + [];
      TableShare(count[..n], x, m);
      hide Total, Share, UsedSyms;
      assert x[..|count|] == x[..n] + [x[n]];
      PushShare(x[..n], m, x[n]);
      if count[n] != 0 {
        TotalPush(u, e, Claim(x, m));
      } else {
        JoinNothing(u);
      }
    }
  }

  /** Summed over a list, as lengths and counts in the order of the list. */
  lemma {:induction false} ListCost(s: seq<SymFreq>, x: seq<nat>)
    requires forall k :: 0 <= k < |s| ==> s[k].sym < |x|
    ensures Total(s, Charge(x)) == Cost(Keys(s), At(x, s))
  {
    if s != [] {
      var n := |s| - 1;
      ListCost(s[..n], x);
      assert Keys(s) == Keys(s[..n]) + [s[n].key] && At(x, s) == At(x, s[..n]) + [x[s[n].sym]];
      PushCost(Keys(s[..n]), At(x, s[..n]), s[n].key, x[s[n].sym]);
    }
  }

  lemma {:induction false} ListShare(s: seq<SymFreq>, x: seq<nat>, m: nat)
    requires (forall k :: 0 <= k < |s| ==> s[k].sym < |x|) && forall k :: 0 <= k < |x| ==> x[k] <= m
    ensures Total(s, Claim(x, m)) == Share(At(x, s), m)
  {
    hide Pow2;
    if s != [] {
      var n := |s| - 1;
      ListShare(s[..n], x, m);
      assert At(x, s) == At(x, s[..n]) + [x[s[n].sym]];
      PushShare(At(x, s[..n]), m, x[s[n].sym]);
    }
  }

  /** r lists the used symbols of count with their counts. */
  ghost predicate ListsCounts(count: seq<nat>, r: seq<SymFreq>) {
    multiset(r) == multiset(UsedSyms(count)) && forall k :: 0 <= k < |r| ==> r[k].sym < |count|
  }

  lemma SameCost(count: seq<nat>, r: seq<SymFreq>, x: seq<nat>)
    requires ListsCounts(count, r) && |x| == |count|
    ensures Cost(count, x) == Cost(Keys(r), At(x, r))
  {
    hide Total, Cost, Keys, At, UsedSyms;
    assert x[..|count|] == x;
    TableCost(count, x);
    TotalPermuted(r, UsedSyms(count), Charge(x));
    ListCost(r, x);
  }

  lemma SameDecodable(count: seq<nat>, r: seq<SymFreq>, x: seq<nat>, m: nat)
    requires ListsCounts(count, r) && |x| == |count| && Decodable(x, m)
    ensures Decodable(At(x, r), m)
  {
    hide Total, Share, UsedSyms;
    assert x[..|count|] == x;
    TableShare(count, x, m);
    TotalPermuted(r, UsedSyms(count), Claim(x, m));
    ListShare(r, x, m);
  }

  // ---------- good lengths for a table ----------

  /** Other lengths for the symbols of a table: decodable, and no used symbol takes less than one bit. */
  ghost predicate Rival(count: seq<nat>, x: seq<nat>, m: nat) {
    |x| == |count| && Decodable(x, m) && forall k :: 0 <= k < |count| && count[k] > 0 ==> x[k] >= 1
  }

  /** No code sends the symbols in fewer bits. */
  ghost predicate Best(count: seq<nat>, lens: seq<nat>) {
    |lens| == |count| && forall x: seq<nat>, m: nat :: Rival(count, x, m) ==> Cost(count, lens) <= Cost(count, x)
  }

  /** No code saves more than 0.92 bits a symbol, or more than a tenth of a bit if there are at most 32 symbols. */
  ghost predicate NearBest(count: seq<nat>, lens: seq<nat>) {
    && |lens| == |count|
    && forall x: seq<nat>, m: nat :: Rival(count, x, m) ==>
         && 25 * Cost(count, lens) <= 25 * Cost(count, x) + 23 * Sum(count)
         && (|count| <= 32 ==> 10 * Cost(count, lens) <= 10 * Cost(count, x) + Sum(count))
  }

  lemma BestIsNear(count: seq<nat>, lens: seq<nat>)
    requires Best(count, lens)
    ensures NearBest(count, lens)
  {
    hide Cost, Sum, Rival;
  }
}
