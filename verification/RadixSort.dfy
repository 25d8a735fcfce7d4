/**
  tdefl_radix_sort_syms: a least-significant-digit radix sort of 16-bit keys, one byte a pass,
  between two buffers.
 */
module RadixSort {
  import opened MinRedundancy

  /** (key >> (8 * pass)) & 0xFF. */
  function Digit(key: nat, pass: nat): (d: nat)
    ensures d < 256
  {
    if pass == 0 then key % 256 else key / 256 % 256
  }

  /** The entries with digit v, in order. */
  function Bucket(s: seq<SymFreq>, pass: nat, v: nat): seq<SymFreq> {
    if s == [] then []
    else
      var n := |s| - 1;
      Bucket(s[..n], pass, v) + if Digit(s[n].key, pass) == v then [s[n]] else []
  }

  /** The buckets of digits below v, one after another: what one pass produces when v is 256. */
  function Buckets(s: seq<SymFreq>, pass: nat, v: nat): seq<SymFreq> {
    if v == 0 then [] else Buckets(s, pass, v - 1) + Bucket(s, pass, v - 1)
  }

  function Start(s: seq<SymFreq>, pass: nat, v: nat): nat { |Buckets(s, pass, v)| }

  /** The entries with one key, in order. */
  function Select(s: seq<SymFreq>, key: nat): seq<SymFreq> {
    if s == [] then []
    else
      var n := |s| - 1;
      Select(s[..n], key) + if s[n].key == key then [s[n]] else []
  }

  // ---------- buckets ----------

  lemma {:induction false} StartMono(s: seq<SymFreq>, pass: nat, v: nat, w: nat)
    requires v < w
    ensures Start(s, pass, v) + |Bucket(s, pass, v)| <= Start(s, pass, w)
    decreases w
  {
    if v < w - 1 { StartMono(s, pass, v, w - 1); }
  }

  lemma {:induction false} BucketPrefix(s: seq<SymFreq>, pass: nat, v: nat, i: nat)
    requires i <= |s|
    ensures |Bucket(s[..i], pass, v)| <= |Bucket(s, pass, v)|
    ensures i < |s| && Digit(s[i].key, pass) == v ==> |Bucket(s[..i], pass, v)| < |Bucket(s, pass, v)|
    decreases |s|
  {
    var n := |s| - 1;
    if i < n {
      BucketPrefix(s[..n], pass, v, i);
      assert s[..n][..i] == s[..i];
    } else if i == |s| {
      assert s[..i] == s;
    }
  }

  lemma BucketSnoc(s: seq<SymFreq>, pass: nat, i: nat, v: nat)
    requires i < |s|
    ensures Bucket(s[..i + 1], pass, v) == Bucket(s[..i], pass, v) + if Digit(s[i].key, pass) == v then [s[i]] else []
  {
    assert s[..i + 1][..i] == s[..i];
  }

  /** Together the buckets hold as many entries as the list. */
  lemma {:induction false} StartAll(s: seq<SymFreq>, pass: nat, v: nat)
    ensures Start(s, pass, v) == BelowDigit(s, pass, v)
  {
    if v != 0 {
      StartAll(s, pass, v - 1);
      BelowStep(s, pass, v - 1);
    } else {
      BelowNone(s, pass);
    }
  }

  function BelowDigit(s: seq<SymFreq>, pass: nat, v: nat): nat {
    if s == [] then 0 else BelowDigit(s[..|s| - 1], pass, v) + if Digit(s[|s| - 1].key, pass) < v then 1 else 0
  }

  lemma {:induction false} BelowStep(s: seq<SymFreq>, pass: nat, v: nat)
    ensures BelowDigit(s, pass, v + 1) == BelowDigit(s, pass, v) + |Bucket(s, pass, v)|
  {
    if s != [] { BelowStep(s[..|s| - 1], pass, v); }
  }

  lemma {:induction false} BelowNone(s: seq<SymFreq>, pass: nat)
    ensures BelowDigit(s, pass, 0) == 0
  {
    if s != [] { BelowNone(s[..|s| - 1], pass); }
  }

  lemma {:induction false} BelowAll(s: seq<SymFreq>, pass: nat)
    ensures BelowDigit(s, pass, 256) == |s|
  {
    if s != [] { BelowAll(s[..|s| - 1], pass); }
  }

  // ---------- a pass is stable ----------

  lemma SelectNone(key: nat)
    ensures Select([], key) == []
  {
  }

  lemma {:induction false} SelectAppend(s: seq<SymFreq>, t: seq<SymFreq>, key: nat)
    ensures Select(s + t, key) == Select(s, key) + Select(t, key)
  {
    if t == [] {
      assert s + t == s;
    } else {
      var n := |t| - 1;
      SelectAppend(s, t[..n], key);
      assert (s + t)[..|s + t| - 1] == s + t[..n];
    }
  }

  lemma {:induction false} SelectBucket(s: seq<SymFreq>, pass: nat, v: nat, key: nat)
    ensures Select(Bucket(s, pass, v), key) == if Digit(key, pass) == v then Select(s, key) else []
  {
    if s != [] {
      var n := |s| - 1;
      SelectBucket(s[..n], pass, v, key);
      var last := if Digit(s[n].key, pass) == v then [s[n]] else [];
      SelectAppend(Bucket(s[..n], pass, v), last, key);
      assert last != [] ==> last[..0] == [];
    }
  }

  lemma {:induction false} SelectBuckets(s: seq<SymFreq>, pass: nat, v: nat, key: nat)
    ensures Select(Buckets(s, pass, v), key) == if Digit(key, pass) < v then Select(s, key) else []
  {
    hide Select, Bucket, Digit;
    if v == 0 {
      SelectNone(key);
    } else {
      SelectBuckets(s, pass, v - 1, key);
      SelectAppend(Buckets(s, pass, v - 1), Bucket(s, pass, v - 1), key);
      SelectBucket(s, pass, v - 1, key);
    }
  }

  // ---------- passes sort ----------

  /** Ascending in the digits of the first passes passes. */
  ghost predicate SortedTo(s: seq<SymFreq>, passes: nat) {
    forall i, j :: 0 <= i <= j < |s| ==> Rank(s[i].key, passes) <= Rank(s[j].key, passes)
  }

  function Rank(key: nat, passes: nat): nat {
    if passes == 0 then 0 else if passes == 1 then Digit(key, 0) else Digit(key, 0) + 256 * Digit(key, 1)
  }

  /** A bucket keeps the order of the list it is drawn from. */
  lemma {:induction false} BucketSorted(s: seq<SymFreq>, pass: nat, v: nat, passes: nat)
    requires SortedTo(s, passes)
    ensures SortedTo(Bucket(s, pass, v), passes)
    ensures forall x <- Bucket(s, pass, v) :: x in s && Digit(x.key, pass) == v
  {
    if s != [] {
      var n := |s| - 1;
      BucketSorted(s[..n], pass, v, passes);
      forall x <- Bucket(s[..n], pass, v) ensures Rank(x.key, passes) <= Rank(s[n].key, passes) {
        assert x in s[..n];
      }
    }
  }

  lemma {:induction false} BucketsSorted(s: seq<SymFreq>, pass: nat, v: nat)
    requires pass <= 1 && SortedTo(s, pass)
    ensures SortedTo(Buckets(s, pass, v), pass + 1)
    ensures forall x <- Buckets(s, pass, v) :: Digit(x.key, pass) < v
  {
    if v != 0 {
      BucketsSorted(s, pass, v - 1);
      BucketSorted(s, pass, v - 1, pass);
      var lo, hi := Buckets(s, pass, v - 1), Bucket(s, pass, v - 1);
      forall i, j | 0 <= i <= j < |hi| ensures Rank(hi[i].key, pass + 1) <= Rank(hi[j].key, pass + 1) {
        assert hi[i] in hi && hi[j] in hi;
      }
      forall x, y | x in lo && y in hi ensures Rank(x.key, pass + 1) <= Rank(y.key, pass + 1) {
      }
    }
  }

  /** The rank of a 16-bit key on both digits is the key. */
  lemma RankIsKey(key: nat)
    requires key < 0x1_0000
    ensures Rank(key, 2) == key
    ensures Digit(key, 1) == 0 ==> Rank(key, 1) == key
  {
  }

  // ---------- the scatter loop ----------

  /** After i entries: bucket v has been filled from its start up to offsets[v]. */
  ghost predicate Scattered(s: seq<SymFreq>, pass: nat, i: nat, out: seq<SymFreq>, offsets: seq<nat>)
    requires i <= |s|
  {
    && |offsets| == 256 && |out| == |s|
    && (forall v: nat :: v < 256 ==>
          && offsets[v] == Start(s, pass, v) + |Bucket(s[..i], pass, v)|
          && offsets[v] <= |out|
          && out[Start(s, pass, v)..offsets[v]] == Bucket(s[..i], pass, v))
  }

  lemma ScatterStep(s: seq<SymFreq>, pass: nat, i: nat, out: seq<SymFreq>, offsets: seq<nat>)
    requires i < |s| && Scattered(s, pass, i, out, offsets)
    ensures var w := Digit(s[i].key, pass);
            offsets[w] < |out| && Scattered(s, pass, i + 1, out[offsets[w] := s[i]], offsets[w := offsets[w] + 1])
  {
    var w := Digit(s[i].key, pass);
    BucketPrefix(s, pass, w, i);
    StartMono(s, pass, w, 256);
    StartAll(s, pass, 256);
    BelowAll(s, pass);
    var out', offsets' := out[offsets[w] := s[i]], offsets[w := offsets[w] + 1];
    forall v: nat | v < 256
      ensures offsets'[v] == Start(s, pass, v) + |Bucket(s[..i + 1], pass, v)|
      ensures offsets'[v] <= |out'| && out'[Start(s, pass, v)..offsets'[v]] == Bucket(s[..i + 1], pass, v)
    {
      BucketSnoc(s, pass, i, v);
      assert out[Start(s, pass, v)..offsets[v]] == Bucket(s[..i], pass, v);
      if v == w {
        assert out'[Start(s, pass, v)..offsets'[v]] == out[Start(s, pass, v)..offsets[v]] + [s[i]];
      } else {
        BucketPrefix(s, pass, v, i);
        if v < w { StartMono(s, pass, v, w); } else { StartMono(s, pass, w, v); }
        assert out'[Start(s, pass, v)..offsets[v]] == out[Start(s, pass, v)..offsets[v]];
      }
    }
  }

  lemma {:induction false} ScatterEnd(s: seq<SymFreq>, pass: nat, out: seq<SymFreq>, offsets: seq<nat>, v: nat)
    requires Scattered(s, pass, |s|, out, offsets) && v <= 256
    ensures Start(s, pass, v) <= |out| && out[..Start(s, pass, v)] == Buckets(s, pass, v)
  {
    if v != 0 {
      ScatterEnd(s, pass, out, offsets, v - 1);
      assert s[..|s|] == s;
      assert out[Start(s, pass, v - 1)..offsets[v - 1]] == Bucket(s, pass, v - 1);
      assert out[..offsets[v - 1]] == out[..Start(s, pass, v - 1)] + out[Start(s, pass, v - 1)..offsets[v - 1]];
    }
  }

  /** One pass: the prefix sums of the histogram, then the scatter. */
  method Pass(src: array<SymFreq>, dst: array<SymFreq>, n: nat, hist: array<nat>, pass: nat)
    requires src != dst && n <= src.Length && n <= dst.Length && pass <= 1 && hist.Length == 512
    requires forall v: nat :: v < 256 ==> hist[256 * pass + v] == |Bucket(src[..n], pass, v)|
    modifies dst
    ensures dst[..n] == Buckets(src[..n], pass, 256)
  {
    hide Bucket, Buckets, Digit, Scattered;
    ghost var s := src[..n];
    var offsets := Offsets(s, hist, pass);
    ScatterStart(s, pass, dst[..n], offsets[..]);
    for i := 0 to n
      invariant offsets.Length == 256 && src[..n] == s && Scattered(s, pass, i, dst[..n], offsets[..])
    {
      var d := Digit(src[i].key, pass);
      ScatterStep(s, pass, i, dst[..n], offsets[..]);
      ghost var out, offs := dst[..n], offsets[..];
      dst[offsets[d]] := src[i];
      assert dst[..n] == out[offs[d] := s[i]];
      offsets[d] := offsets[d] + 1;
      assert offsets[..] == offs[d := offs[d] + 1];
    }
    ScatterEnd(s, pass, dst[..n], offsets[..], 256);
    StartAll(s, pass, 256);
    BelowAll(s, pass);
    assert dst[..n][..n] == dst[..n];
  }

  method Offsets(ghost s: seq<SymFreq>, hist: array<nat>, pass: nat) returns (offsets: array<nat>)
    requires pass <= 1 && hist.Length == 512
    requires forall v: nat :: v < 256 ==> hist[256 * pass + v] == |Bucket(s, pass, v)|
    ensures fresh(offsets) && offsets.Length == 256 && forall v: nat :: v < 256 ==> offsets[v] == Start(s, pass, v)
  {
    offsets := new nat[256](_ => 0);
    var curOfs := 0;
    for v := 0 to 256
      invariant curOfs == Start(s, pass, v)
      invariant forall w: nat :: w < v ==> offsets[w] == Start(s, pass, w)
    {
      offsets[v] := curOfs;
      curOfs := curOfs + hist[256 * pass + v];
    }
  }

  lemma ScatterStart(s: seq<SymFreq>, pass: nat, out: seq<SymFreq>, offsets: seq<nat>)
    requires |offsets| == 256 && |out| == |s| && forall v: nat :: v < 256 ==> offsets[v] == Start(s, pass, v)
    ensures Scattered(s, pass, 0, out, offsets)
  {
    StartAll(s, pass, 256);
    BelowAll(s, pass);
    forall v: nat | v < 256 ensures Start(s, pass, v) <= |out| { StartMono(s, pass, v, 256); }
    assert s[..0] == [];
  }

  method Histogram(a: array<SymFreq>, n: nat) returns (hist: array<nat>)
    requires n <= a.Length
    ensures fresh(hist) && hist.Length == 512
    ensures forall v: nat :: v < 256 ==> hist[v] == |Bucket(a[..n], 0, v)| && hist[256 + v] == |Bucket(a[..n], 1, v)|
  {
    hide Digit, Bucket;
    ghost var s := a[..n];
    hist := new nat[512](_ => 0);
    EmptyBuckets();
    assert s[..0] == [];
    for i := 0 to n
      invariant forall v: nat :: v < 256 ==> hist[v] == |Bucket(s[..i], 0, v)|
      invariant forall w :: 256 <= w < 512 ==> hist[w] == |Bucket(s[..i], 1, w - 256)|
    {
      var lo, hi := Digit(a[i].key, 0), 256 + Digit(a[i].key, 1);
      BucketCounts(s, 0, i);
      BucketCounts(s, 1, i);
      hist[lo] := hist[lo] + 1;
      hist[hi] := hist[hi] + 1;
    }
    assert s[..n] == s;
  }

  lemma EmptyBuckets()
    ensures forall pass: nat, v: nat :: Bucket([], pass, v) == []
  {
  }

  lemma BucketCounts(s: seq<SymFreq>, pass: nat, i: nat)
    requires i < |s|
    ensures forall v: nat :: |Bucket(s[..i + 1], pass, v)| == |Bucket(s[..i], pass, v)| + if Digit(s[i].key, pass) ==
        v then 1 else 0
  {
    forall v: nat { BucketSnoc(s, pass, i, v); }
  }

  /** When the bucket of digit 0 is as large as the list, every digit is 0. */
  lemma {:induction false} AllZero(s: seq<SymFreq>, pass: nat)
    ensures |Bucket(s, pass, 0)| <= |s|
    ensures |Bucket(s, pass, 0)| == |s| ==> forall x <- s :: Digit(x.key, pass) == 0
  {
    if s != [] { AllZero(s[..|s| - 1], pass); }
  }

  /** r is s sorted by key, equal keys in their original order. */
  ghost predicate StableSorted(s: seq<SymFreq>, r: seq<SymFreq>) {
    && (forall i, j :: 0 <= i <= j < |r| ==> r[i].key <= r[j].key)
    && (forall k: nat :: Select(r, k) == Select(s, k))
  }

  lemma OnePass(s: seq<SymFreq>)
    requires forall x <- s :: x.key < 0x1_0000 && Digit(x.key, 1) == 0
    ensures StableSorted(s, Buckets(s, 0, 256))
  {
    var r := Buckets(s, 0, 256);
    BucketsSorted(s, 0, 256);
    BucketsFrom(s, 0, 256);
    forall i, j | 0 <= i <= j < |r| ensures r[i].key <= r[j].key {
      assert r[i] in r && r[j] in r;
      RankIsKey(r[i].key);
      RankIsKey(r[j].key);
    }
    forall k: nat ensures Select(r, k) == Select(s, k) { SelectBuckets(s, 0, 256, k); }
  }

  lemma TwoPasses(s: seq<SymFreq>)
    requires forall x <- s :: x.key < 0x1_0000
    ensures StableSorted(s, Buckets(Buckets(s, 0, 256), 1, 256))
  {
    var r1 := Buckets(s, 0, 256);
    var r := Buckets(r1, 1, 256);
    BucketsSorted(s, 0, 256);
    BucketsSorted(r1, 1, 256);
    BucketsFrom(s, 0, 256);
    BucketsFrom(r1, 1, 256);
    forall i, j | 0 <= i <= j < |r| ensures r[i].key <= r[j].key {
      assert r[i] in r && r[j] in r;
      RankIsKey(r[i].key);
      RankIsKey(r[j].key);
    }
    forall k: nat ensures Select(r, k) == Select(s, k) {
      SelectBuckets(s, 0, 256, k);
      SelectBuckets(r1, 1, 256, k);
    }
  }

  lemma {:induction false} BucketsFrom(s: seq<SymFreq>, pass: nat, v: nat)
    ensures forall x <- Buckets(s, pass, v) :: x in s
  {
    if v != 0 {
      BucketsFrom(s, pass, v - 1);
      BucketSorted(s, pass, v - 1, 0);
    }
  }

  /** Lists with the same entries for every key are permutations of each other. */
  lemma {:induction false} SelectCounts(s: seq<SymFreq>, x: SymFreq)
    ensures multiset(s)[x] == multiset(Select(s, x.key))[x]
  {
    if s != [] {
      var n := |s| - 1;
      SelectCounts(s[..n], x);
      assert s == s[..n] + [s[n]];
    }
  }

  lemma SortedPermutes(s: seq<SymFreq>, r: seq<SymFreq>)
    requires StableSorted(s, r)
    ensures multiset(r) == multiset(s) && |r| == |s|
  {
    forall x: SymFreq ensures multiset(r)[x] == multiset(s)[x] {
      SelectCounts(r, x);
      SelectCounts(s, x);
    }
    assert |multiset(r)| == |r| && |multiset(s)| == |s|;
  }

  /**
    tdefl_radix_sort_syms. The result is one of the two buffers: the second after a single pass
    (every high byte zero), the first after two.
   */
  method RadixSortSyms(n: nat, syms0: array<SymFreq>, syms1: array<SymFreq>) returns (r: array<SymFreq>)
    requires syms0 != syms1 && n <= syms0.Length && n <= syms1.Length
    requires forall i :: 0 <= i < n ==> syms0[i].key < 0x1_0000
    modifies syms0, syms1
    ensures r == syms0 || r == syms1
    ensures StableSorted(old(syms0[..n]), r[..n])
  {
    hide Digit, Bucket, Buckets, StableSorted;
    var hist := Histogram(syms0, n);
    ghost var s := syms0[..n];
    AllZero(s, 1);
    var totalPasses := 2;
    while totalPasses > 1 && n == hist[(totalPasses - 1) * 256]
      invariant 1 <= totalPasses <= 2 && (totalPasses == 1 ==> n == hist[256])
    {
      totalPasses := totalPasses - 1;
    }
    Pass(syms0, syms1, n, hist, 0);
    if totalPasses == 1 {
      OnePass(s);
      return syms1;
    }
    SameBuckets(s, 0);
    Pass(syms1, syms0, n, hist, 1);
    TwoPasses(s);
    return syms0;
  }

  /** A pass moves entries around but does not change how many have a digit. */
  lemma SameBuckets(s: seq<SymFreq>, pass: nat)
    ensures forall p: nat, v: nat :: |Bucket(Buckets(s, pass, 256), p, v)| == |Bucket(s, p, v)|
  {
    var r := Buckets(s, pass, 256);
    forall p: nat, v: nat ensures |Bucket(r, p, v)| == |Bucket(s, p, v)| {
      forall k: nat ensures Select(r, k) == Select(s, k) { SelectBuckets(s, pass, 256, k); }
      forall x: SymFreq ensures multiset(r)[x] == multiset(s)[x] {
        SelectCounts(r, x);
        SelectCounts(s, x);
      }
      assert multiset(r) == multiset(s);
      BucketOfMultiset(s, r, p, v);
    }
  }

  lemma {:induction false} BucketOfMultiset(s: seq<SymFreq>, r: seq<SymFreq>, p: nat, v: nat)
    requires multiset(s) == multiset(r)
    ensures |Bucket(s, p, v)| == |Bucket(r, p, v)|
  {
    if s == [] {
      assert |multiset(r)| == |r| == 0;
    } else {
      var n := |s| - 1;
      var i := TakenOut(s, r);
      var r' := r[..i] + r[i + 1..];
      BucketOfMultiset(s[..n], r', p, v);
      BucketCut(s, n, p, v);
      BucketCut(r, i, p, v);
      assert s[..n] + s[n + 1..] == s[..n];
    }
  }

  /** The last entry of one list, somewhere in the other; without it the two still have the same entries. */
  lemma TakenOut(s: seq<SymFreq>, r: seq<SymFreq>) returns (i: nat)
    requires s != [] && multiset(s) == multiset(r)
    ensures i < |r| && r[i] == s[|s| - 1] && multiset(s[..|s| - 1]) == multiset(r[..i] + r[i + 1..])
  {
    var n := |s| - 1;
    var x := s[n];
    assert s == s[..n] + [x];
    assert x in multiset(r);
    i :| 0 <= i < |r| && r[i] == x;
    assert r == r[..i] + [x] + r[i + 1..];
    assert multiset(r[..i] + r[i + 1..]) == multiset(r) - multiset{x};
    assert multiset(s[..n]) == multiset(s) - multiset{x};
  }

  /** Taking one entry out of a list takes it out of its bucket. */
  lemma BucketCut(r: seq<SymFreq>, i: nat, p: nat, v: nat)
    requires i < |r|
    ensures |Bucket(r, p, v)| == |Bucket(r[..i] + r[i + 1..], p, v)| + if Digit(r[i].key, p) == v then 1 else 0
  {
    hide Bucket, Digit;
    var a, b := r[..i], r[i + 1..];
    var ax := a + [r[i]];
    assert r == ax + b;
    BucketOne(r[i], p, v);
    BucketAppend(a, b, p, v);
    BucketAppend(a, [r[i]], p, v);
    BucketAppend(ax, b, p, v);
  }

  lemma BucketOne(x: SymFreq, p: nat, v: nat)
    ensures |Bucket([x], p, v)| == if Digit(x.key, p) == v then 1 else 0
  {
    assert [x][..0] == [];
  }

  lemma {:induction false} BucketAppend(s: seq<SymFreq>, t: seq<SymFreq>, p: nat, v: nat)
    ensures |Bucket(s + t, p, v)| == |Bucket(s, p, v)| + |Bucket(t, p, v)|
  {
    if t == [] {
      assert s + t == s;
    } else {
      var n := |t| - 1;
      BucketAppend(s, t[..n], p, v);
      assert (s + t)[..|s + t| - 1] == s + t[..n];
    }
  }
}
