/**
  The central directory of a zip archive as mz_zip_reader_locate_file_v2 searches it: by a binary
  search over an index sorted by case-folded name, or by a scan of all entries.
 */
module CentralDir {
  import opened Bits

  datatype Entry = Entry(name: seq<byte>, comment: seq<byte>)

  // ---------- names up to case ----------

  /** MZ_TOLOWER. */
  function ToLower(c: byte): byte {
    if 'A' as int <= c <= 'Z' as int then c - 'A' as int + 'a' as int else c
  }

  function Fold(s: seq<byte>): (r: seq<byte>)
    ensures |r| == |s| && forall i :: 0 <= i < |s| ==> r[i] == ToLower(s[i])
  {
    if s == [] then [] else [ToLower(s[0])] + Fold(s[1..])
  }

  lemma FoldSame(a: seq<byte>, b: seq<byte>)
    requires |a| == |b| && forall i :: 0 <= i < |a| ==> ToLower(a[i]) == ToLower(b[i])
    ensures Fold(a) == Fold(b)
  {
  }

  /** The same byte, or the same letter of ASCII in upper and in lower case. */
  predicate SameLetter(a: byte, b: byte) {
    a == b || (65 <= a <= 90 && b == a + 32) || (65 <= b <= 90 && a == b + 32)
  }

  lemma ToLowerEqual(a: byte, b: byte)
    ensures ToLower(a) == ToLower(b) <==> SameLetter(a, b)
  {
  }

  /** Two names are the same up to case exactly when they differ in nothing but the case of ASCII letters. */
  lemma FoldEqual(a: seq<byte>, b: seq<byte>)
    ensures Fold(a) == Fold(b) <==> |a| == |b| && forall i :: 0 <= i < |a| ==> SameLetter(a[i], b[i])
  {
    hide ToLower, SameLetter;
    if |a| == |b| {
      forall i | 0 <= i < |a| ensures Fold(a)[i] == Fold(b)[i] <==> SameLetter(a[i], b[i]) {
        ToLowerEqual(a[i], b[i]);
      }
      if forall i :: 0 <= i < |a| ==> SameLetter(a[i], b[i]) { FoldSame(a, b); }
    } else {
      assert |Fold(a)| != |Fold(b)|;
    }
  }

  /** Byte by byte, and a proper prefix comes first. */
  predicate Before(a: seq<byte>, b: seq<byte>) {
    b != [] && (a == [] || a[0] < b[0] || (a[0] == b[0] && Before(a[1..], b[1..])))
  }

  lemma {:induction false} BeforeTotal(a: seq<byte>, b: seq<byte>)
    ensures !(Before(a, b) && Before(b, a))
    ensures Before(a, b) || Before(b, a) <==> a != b
  {
    if a != [] && b != [] && a[0] == b[0] {
      BeforeTotal(a[1..], b[1..]);
      assert a == [a[0]] + a[1..] && b == [b[0]] + b[1..];
    }
  }

  lemma {:induction false} BeforeTrans(a: seq<byte>, b: seq<byte>, c: seq<byte>)
    requires !Before(b, a) && !Before(c, b)
    ensures !Before(c, a)
  {
    if a != [] && b != [] && c != [] && a[0] == b[0] == c[0] {
      BeforeTrans(a[1..], b[1..], c[1..]);
    }
  }

  /** The first difference decides. */
  lemma {:induction false} BeforeAt(a: seq<byte>, b: seq<byte>, k: nat)
    requires k <= |a| && k <= |b| && a[..k] == b[..k]
    ensures k < |a| && k < |b| && a[k] != b[k] ==> (Before(a, b) <==> a[k] < b[k])
    ensures k == |a| || k == |b| ==> (Before(a, b) <==> |a| < |b|)
  {
    if k > 0 {
      assert a[0] == a[..k][0] == b[..k][0] == b[0];
      assert a[1..][..k - 1] == a[..k][1..] && b[1..][..k - 1] == b[..k][1..];
      BeforeAt(a[1..], b[1..], k - 1);
    }
  }

  // ---------- comparing ----------

  /** How far two names agree up to case; the loop both comparisons begin with. */
  method Agree(l: seq<byte>, r: seq<byte>) returns (k: nat)
    ensures k <= |l| && k <= |r| && Fold(l)[..k] == Fold(r)[..k]
    ensures k == |l| || k == |r| || Fold(l)[k] != Fold(r)[k]
  {
    hide Fold, ToLower;
    var n := if |l| < |r| then |l| else |r|;
    k := 0;
    while k < n
      invariant k <= n && Fold(l)[..k] == Fold(r)[..k]
    {
      if ToLower(l[k]) != ToLower(r[k]) {
        break;
      }
      assert Fold(l)[..k + 1] == Fold(l)[..k] + [Fold(l)[k]];
      assert Fold(r)[..k + 1] == Fold(r)[..k] + [Fold(r)[k]];
      k := k + 1;
    }
  }

  /** mz_zip_reader_filename_less. */
  method FilenameLess(l: seq<byte>, r: seq<byte>) returns (less: bool)
    ensures less <==> Before(Fold(l), Fold(r))
  {
    var k := Agree(l, r);
    BeforeAt(Fold(l), Fold(r), k);
    less := if k == |l| || k == |r| then |l| < |r| else ToLower(l[k]) < ToLower(r[k]);
  }

  /** (int)(l - r) for two unsigned numbers. */
  function Difference(l: nat, r: nat): int {
    var d := (l - r) % 0x1_0000_0000;
    if d < 0x8000_0000 then d else d - 0x1_0000_0000
  }

  /**
    mz_zip_filename_compare, for a name whose length fits in 32 bits: zero means equal, and the
    sign is the order of the names unless the difference of their lengths, which then decides,
    is more than 2^31.
   */
  method FilenameCompare(l: seq<byte>, r: seq<byte>) returns (c: int)
    requires |l| <= 0xFFFF && |r| < 0x1_0000_0000
    ensures c == 0 <==> Fold(l) == Fold(r)
    ensures (c < 0 <==> Before(Fold(l), Fold(r))) <==> !(Fold(l) <= Fold(r) && |r| - |l| > 0x8000_0000)
  {
    var k := Agree(l, r);
    BeforeAt(Fold(l), Fold(r), k);
    BeforeTotal(Fold(l), Fold(r));
    assert Fold(l)[..|l|] == Fold(l) && Fold(r)[..|r|] == Fold(r);
    c := if k == |l| || k == |r| then Difference(|l|, |r|) else ToLower(l[k]) as int - ToLower(r[k]) as int;
  }

  // ---------- the order of entries ----------

  ghost predicate Indexes(entries: seq<Entry>, s: seq<nat>) {
    forall i :: 0 <= i < |s| ==> s[i] < |entries|
  }

  /** Entry a does not come after entry b. */
  ghost predicate Le(entries: seq<Entry>, a: nat, b: nat) {
    a < |entries| && b < |entries| ==> !Before(Fold(entries[b].name), Fold(entries[a].name))
  }

  lemma LeTrans(entries: seq<Entry>, a: nat, b: nat, c: nat)
    requires a < |entries| && b < |entries| && c < |entries| && Le(entries, a, b) && Le(entries, b, c)
    ensures Le(entries, a, c)
  {
    BeforeTrans(Fold(entries[a].name), Fold(entries[b].name), Fold(entries[c].name));
  }

  method IndexLess(entries: seq<Entry>, a: nat, b: nat) returns (less: bool)
    requires a < |entries| && b < |entries|
    ensures less ==> Le(entries, a, b)
    ensures !less ==> Le(entries, b, a)
  {
    BeforeTotal(Fold(entries[a].name), Fold(entries[b].name));
    less := FilenameLess(entries[a].name, entries[b].name);
  }

  function Parent(i: nat): nat
    requires i > 0
  {
    (i - 1) / 2
  }

  /** Every element from position lo on down, within the first n, is no smaller than its children. */
  ghost predicate Heap(entries: seq<Entry>, s: seq<nat>, lo: nat, n: nat)
    requires n <= |s|
  {
    forall i: nat :: 0 < i < n && Parent(i) >= lo ==> Le(entries, s[i], s[Parent(i)])
  }

  /** The same, but for the children of the element on its way down, which suit its parent instead. */
  ghost predicate HeapBut(entries: seq<Entry>, s: seq<nat>, lo: nat, n: nat, root: nat)
    requires n <= |s|
  {
    && (forall i: nat :: 0 < i < n && Parent(i) >= lo && Parent(i) != root ==> Le(entries, s[i], s[Parent(i)]))
    && (root > lo ==> forall i: nat :: 0 < i < n && Parent(i) == root ==> Le(entries, s[i], s[Parent(root)]))
  }

  /** child is the larger child of root. */
  ghost predicate Larger(entries: seq<Entry>, s: seq<nat>, n: nat, root: nat, child: nat)
    requires n <= |s|
  {
    && 0 < child < n && Parent(child) == root
    && forall i: nat :: 0 < i < n && Parent(i) == root ==> Le(entries, s[i], s[child])
  }

  function Swapped(s: seq<nat>, i: nat, j: nat): (r: seq<nat>)
    requires i < |s| && j < |s|
    ensures |r| == |s|
  {
    s[i := s[j]][j := s[i]]
  }

  lemma SwapDown(entries: seq<Entry>, s: seq<nat>, lo: nat, n: nat, root: nat, child: nat)
    requires lo <= root < n <= |s| && HeapBut(entries, s, lo, n, root) && Larger(entries, s, n, root, child)
    requires Le(entries, s[root], s[child])
    ensures HeapBut(entries, Swapped(s, root, child), lo, n, child)
  {
    hide Le;
    var t := Swapped(s, root, child);
    forall i: nat | 0 < i < n && Parent(i) >= lo && Parent(i) != child ensures Le(entries, t[i], t[Parent(i)]) {
    }
  }

  lemma StopHere(entries: seq<Entry>, s: seq<nat>, lo: nat, n: nat, root: nat, child: nat)
    requires lo <= root < n <= |s| && Indexes(entries, s) && HeapBut(entries, s, lo, n, root)
        && Larger(entries, s, n, root, child)
    requires Le(entries, s[child], s[root])
    ensures Heap(entries, s, lo, n)
  {
    hide Le;
    forall i: nat | 0 < i < n && Parent(i) >= lo ensures Le(entries, s[i], s[Parent(i)]) {
      if Parent(i) == root { LeTrans(entries, s[i], s[child], s[root]); }
    }
  }

  lemma SwapPermutes(s: seq<nat>, i: nat, j: nat)
    requires i < |s| && j < |s|
    ensures multiset(Swapped(s, i, j)) == multiset(s)
  {
  }

  // ---------- heap sort ----------

  /** The larger child of root, if it has any. */
  method LargerChild(entries: seq<Entry>, a: array<nat>, root: nat, n: nat) returns (child: nat)
    requires n <= a.Length && Indexes(entries, a[..])
    ensures child >= n <==> 2 * root + 1 >= n
    ensures child < n ==> root < child && Larger(entries, a[..], n, root, child)
  {
    hide Le;
    child := 2 * root + 1;
    if child >= n {
      return;
    }
    SameLe(entries, a[child]);
    if child + 1 < n {
      SameLe(entries, a[child + 1]);
      var less := IndexLess(entries, a[child], a[child + 1]);
      if less {
        child := child + 1;
      }
    }
  }

  lemma SameLe(entries: seq<Entry>, a: nat)
    ensures Le(entries, a, a)
  {
    if a < |entries| { BeforeTotal(Fold(entries[a].name), Fold(entries[a].name)); }
  }

  method Swap(a: array<nat>, i: nat, j: nat)
    requires i < a.Length && j < a.Length
    modifies a
    ensures a[..] == Swapped(old(a[..]), i, j) && multiset(a[..]) == multiset(old(a[..]))
  {
    SwapPermutes(a[..], i, j);
    a[i], a[j] := a[j], a[i];
    assert a[..] == Swapped(old(a[..]), i, j);
  }

  /** One descent of the heap sort: the element at root goes down to where it belongs. */
  method SiftDown(entries: seq<Entry>, a: array<nat>, start: nat, n: nat)
    requires start < n <= a.Length && Indexes(entries, a[..]) && Heap(entries, a[..], start + 1, n)
    modifies a
    ensures Heap(entries, a[..], start, n) && Indexes(entries, a[..])
    ensures multiset(a[..]) == multiset(old(a[..])) && a[n..] == old(a[n..])
        && multiset(a[..n]) == multiset(old(a[..n]))
  {
    hide Le, Heap, HeapBut, Larger, Indexes;
    var root := start;
    HeapOpen(entries, a[..], start, n);
    while true
      invariant start <= root < n && Indexes(entries, a[..]) && HeapBut(entries, a[..], start, n, root)
      invariant multiset(a[..]) == multiset(old(a[..])) && a[n..] == old(a[n..])
      decreases n - root
    {
      var child := LargerChild(entries, a, root, n);
      if child >= n {
        HeapLeaf(entries, a[..], start, n, root);
        break;
      }
      InRange(entries, a[..]);
      var less := IndexLess(entries, a[root], a[child]);
      if !less {
        StopHere(entries, a[..], start, n, root, child);
        break;
      }
      SwapDown(entries, a[..], start, n, root, child);
      IndexesKept(entries, a[..], root, child);
      Swap(a, root, child);
      root := child;
    }
    FrontPermuted(a[..], old(a[..]), n);
  }

  lemma InRange(entries: seq<Entry>, s: seq<nat>)
    requires Indexes(entries, s)
    ensures forall i :: 0 <= i < |s| ==> s[i] < |entries|
  {
  }

  lemma IndexesKept(entries: seq<Entry>, s: seq<nat>, i: nat, j: nat)
    requires Indexes(entries, s) && i < |s| && j < |s|
    ensures Indexes(entries, Swapped(s, i, j))
  {
  }

  lemma HeapOpen(entries: seq<Entry>, s: seq<nat>, lo: nat, n: nat)
    requires n <= |s| && Heap(entries, s, lo + 1, n)
    ensures HeapBut(entries, s, lo, n, lo)
  {
  }

  /** At a leaf there is nothing left to repair. */
  lemma HeapLeaf(entries: seq<Entry>, s: seq<nat>, lo: nat, n: nat, root: nat)
    requires n <= |s| && HeapBut(entries, s, lo, n, root) && 2 * root + 1 >= n
    ensures Heap(entries, s, lo, n)
  {
  }

  /** A permutation that keeps the back permutes the front. */
  lemma FrontPermuted(s: seq<nat>, t: seq<nat>, n: nat)
    requires |s| == |t| && n <= |s| && multiset(s) == multiset(t) && s[n..] == t[n..]
    ensures multiset(s[..n]) == multiset(t[..n])
  {
    assert s == s[..n] + s[n..] && t == t[..n] + t[n..];
    assert multiset(s[..n]) == multiset(s) - multiset(s[n..]);
    assert multiset(t[..n]) == multiset(t) - multiset(t[n..]);
  }

  /** The front of a heap is its largest element. */
  lemma {:induction false} HeapTop(entries: seq<Entry>, s: seq<nat>, n: nat, i: nat)
    requires n <= |s| && Indexes(entries, s) && Heap(entries, s, 0, n) && i < n
    ensures Le(entries, s[i], s[0])
  {
    if i == 0 {
      SameLe(entries, s[0]);
    } else {
      HeapTop(entries, s, n, Parent(i));
      LeTrans(entries, s[i], s[Parent(i)], s[0]);
    }
  }

  /** From position from on the index is in order, and nothing before it comes later. */
  ghost predicate SortedFrom(entries: seq<Entry>, s: seq<nat>, from: nat) {
    forall i: nat, j: nat :: i < j < |s| && from <= j ==> Le(entries, s[i], s[j])
  }

  ghost predicate Sorted(entries: seq<Entry>, s: seq<nat>) {
    forall i: nat, j: nat :: i < j < |s| ==> Le(entries, s[i], s[j])
  }

  /** The largest element of the heap goes to its end, which is then in place. */
  lemma TopOut(entries: seq<Entry>, s: seq<nat>, end: nat)
    requires 0 < end < |s| && Indexes(entries, s) && Heap(entries, s, 0, end + 1) && SortedFrom(entries, s, end + 1)
    ensures SortedFrom(entries, Swapped(s, end, 0), end) && Heap(entries, Swapped(s, end, 0), 1, end)
  {
    hide Le;
    var t := Swapped(s, end, 0);
    forall i: nat, j: nat | i < j < |t| && end <= j ensures Le(entries, t[i], t[j]) {
      if j == end { HeapTop(entries, s, end + 1, if i == 0 then end else i); }
    }
  }

  /** Rearranging what comes before changes nothing about being sorted from there on. */
  lemma SortedKept(entries: seq<Entry>, s: seq<nat>, t: seq<nat>, end: nat)
    requires |s| == |t| && end <= |s| && SortedFrom(entries, s, end) && s[end..] == t[end..]
        && multiset(s[..end]) == multiset(t[..end])
    ensures SortedFrom(entries, t, end)
  {
    hide Le;
    forall i: nat, j: nat | i < j < |t| && end <= j ensures Le(entries, t[i], t[j]) {
      assert t[j] == t[end..][j - end] == s[end..][j - end] == s[j];
      if i < end {
        assert t[i] in multiset(t[..end]);
        assert t[i] in multiset(s[..end]);
        var k :| 0 <= k < end && s[k] == t[i];
        assert Le(entries, s[k], s[j]);
      } else {
        assert t[i] == t[end..][i - end] == s[end..][i - end] == s[i];
      }
    }
  }

  /** mz_zip_reader_sort_central_dir_offsets_by_filename: the same indexes, in the order of the names. */
  method SortByFilename(entries: seq<Entry>, a: array<nat>)
    requires Indexes(entries, a[..])
    modifies a
    ensures Sorted(entries, a[..]) && multiset(a[..]) == multiset(old(a[..])) && Indexes(entries, a[..])
  {
    hide Le, Heap, Indexes, SortedFrom;
    var size := a.Length;
    if size <= 1 {
      return;
    }
    BuildHeap(entries, a);
    NothingSorted(entries, a[..]);
    var end := size - 1;
    while end > 0
      invariant end < size && Indexes(entries, a[..]) && multiset(a[..]) == multiset(old(a[..]))
      invariant Heap(entries, a[..], 0, end + 1) && SortedFrom(entries, a[..], end + 1)
    {
      TopOut(entries, a[..], end);
      IndexesKept(entries, a[..], end, 0);
      Swap(a, end, 0);
      ghost var s := a[..];
      SiftDown(entries, a, 0, end);
      SortedKept(entries, s, a[..], end);
      end := end - 1;
    }
    AllSorted(entries, a[..]);
  }

  lemma NothingSorted(entries: seq<Entry>, s: seq<nat>)
    ensures SortedFrom(entries, s, |s|)
  {
  }

  lemma AllSorted(entries: seq<Entry>, s: seq<nat>)
    requires SortedFrom(entries, s, 1)
    ensures Sorted(entries, s)
  {
  }

  method BuildHeap(entries: seq<Entry>, a: array<nat>)
    requires a.Length >= 2 && Indexes(entries, a[..])
    modifies a
    ensures Heap(entries, a[..], 0, a.Length) && Indexes(entries, a[..]) && multiset(a[..]) == multiset(old(a[..]))
  {
    hide Le, Heap, Indexes;
    var start: nat := (a.Length - 2) / 2;
    NoChildren(entries, a[..], start + 1);
    while true
      invariant start < a.Length && Heap(entries, a[..], start + 1, a.Length) && Indexes(entries, a[..])
      invariant multiset(a[..]) == multiset(old(a[..]))
      decreases start
    {
      SiftDown(entries, a, start, a.Length);
      if start == 0 {
        break;
      }
      start := start - 1;
    }
  }

  lemma NoChildren(entries: seq<Entry>, s: seq<nat>, lo: nat)
    requires |s| >= 2 && lo == (|s| - 2) / 2 + 1
    ensures Heap(entries, s, lo, |s|)
  {
  }

  // ---------- finding a name ----------

  /** The index lists every entry once, in the order of the names. */
  ghost predicate Index(entries: seq<Entry>, s: seq<nat>) {
    && |s| == |entries| && Indexes(entries, s) && Sorted(entries, s)
    && forall i: nat :: i < |entries| ==> i in s
  }

  /** The index as it is set up before sorting. */
  function Identity(n: nat): (s: seq<nat>)
    ensures |s| == n && forall i :: 0 <= i < n ==> s[i] == i
  {
    seq(n, i requires 0 <= i => i)
  }

  /** Setting up and sorting the index. */
  method BuildIndex(entries: seq<Entry>) returns (a: array<nat>)
    ensures fresh(a) && Index(entries, a[..]) && multiset(a[..]) == multiset(Identity(|entries|))
  {
    a := new nat[|entries|](i requires 0 <= i => i);
    assert a[..] == Identity(|entries|);
    SortByFilename(entries, a);
    forall i: nat | i < |entries| ensures i in a[..] {
      assert Identity(|entries|)[i] == i;
      assert i in multiset(Identity(|entries|));
      assert i in multiset(a[..]);
    }
    assert |multiset(a[..])| == |a[..]|;
  }

  /** In a sorted index, everything before a smaller name is smaller, and everything after a larger one larger. */
  lemma Beyond(entries: seq<Entry>, s: seq<nat>, m: nat, i: nat, name: seq<byte>)
    requires Indexes(entries, s) && Sorted(entries, s) && m < |s| && i < |s|
    ensures i <= m && Before(Fold(entries[s[m]].name), Fold(name)) ==> Fold(entries[s[i]].name) != Fold(name)
    ensures m <= i && Before(Fold(name), Fold(entries[s[m]].name)) ==> Fold(entries[s[i]].name) != Fold(name)
  {
    BeforeTotal(Fold(entries[s[m]].name), Fold(name));
    if i < m { assert Le(entries, s[i], s[m]); }
    if m < i { assert Le(entries, s[m], s[i]); }
  }

  /** A directory as the format allows it: the length of a name is stored in 16 bits. */
  ghost predicate Small(entries: seq<Entry>) {
    forall e <- entries :: |e.name| <= 0xFFFF
  }

  /** The part of a name that is compared: its length is kept in 32 bits. */
  function Compared(name: seq<byte>): (s: seq<byte>)
    ensures s <= name && |s| < 0x1_0000_0000 && (|name| < 0x1_0000_0000 ==> s == name)
  {
    name[..|name| % 0x1_0000_0000]
  }

  /** Some entry has this name, up to case. */
  ghost predicate Listed(entries: seq<Entry>, name: seq<byte>) {
    exists i: nat :: i < |entries| && Fold(entries[i].name) == Fold(name)
  }

  /**
    mz_zip_locate_file_binary_search, for any name: an entry is found exactly when one has what
    is compared of the name, up to case.
   */
  method BinarySearch(entries: seq<Entry>, a: array<nat>, name: seq<byte>) returns (found: bool, index: nat)
    requires Index(entries, a[..]) && Small(entries)
    ensures found <==> Listed(entries, Compared(name))
    ensures found ==> index < |entries| && Fold(entries[index].name) == Fold(Compared(name))
  {
    found, index := Narrow(entries, a, Compared(name));
  }

  /**
    The answer is right for every directory exactly when the name is shorter than 4 GiB, or what
    is left of its length in 32 bits is still more than any entry's.
   */
  lemma SearchRightWhen(name: seq<byte>)
    ensures (forall entries :: Small(entries) ==> (Listed(entries, Compared(name)) <==> Listed(entries, name)))
       <==> |name| < 0x1_0000_0000 || |name| % 0x1_0000_0000 > 0xFFFF
  {
    hide Listed, Small;
    var part := Compared(name);
    if |name| < 0x1_0000_0000 {
    } else if |part| > 0xFFFF {
      forall entries | Small(entries) ensures !Listed(entries, part) && !Listed(entries, name) {
        TooLong(entries, part);
        TooLong(entries, name);
      }
    } else {
      var entries := [Entry(part, [])];
      Alone(part);
      TooLong(entries, name);
      assert Listed(entries, part) && !Listed(entries, name);
    }
  }

  lemma Alone(name: seq<byte>)
    ensures Listed([Entry(name, [])], name) && (|name| <= 0xFFFF ==> Small([Entry(name, [])]))
  {
    var entries := [Entry(name, [])];
    assert Fold(entries[0].name) == Fold(name);
  }

  lemma TooLong(entries: seq<Entry>, name: seq<byte>)
    requires |name| > 0xFFFF && Small(entries)
    ensures !Listed(entries, name)
  {
    forall i: nat | i < |entries| ensures Fold(entries[i].name) != Fold(name) {
      assert entries[i] in entries && |Fold(entries[i].name)| == |entries[i].name|;
      assert |Fold(name)| == |name|;
    }
  }

  /** For instance, the entry "a" is found under every name of 2^32 + 1 bytes that begins with an A. */
  lemma LongNameFound(name: seq<byte>)
    requires |name| == 0x1_0000_0001 && name[0] == 'A' as int
    ensures var entries := [Entry(['a' as int], [])];
            Listed(entries, Compared(name)) && !Listed(entries, name)
  {
    var entries := [Entry(['a' as int], [])];
    assert Compared(name) == ['A' as int];
    assert Fold(['A' as int]) == ['a' as int] == Fold(entries[0].name);
    assert |Fold(name)| == |name|;
  }

  /** The loop of the search, for a name whose length fits in 32 bits. */
  method Narrow(entries: seq<Entry>, a: array<nat>, name: seq<byte>) returns (found: bool, index: nat)
    requires Index(entries, a[..]) && |name| < 0x1_0000_0000 && Small(entries)
    ensures found <==> Listed(entries, name)
    ensures found ==> index < |entries| && Fold(entries[index].name) == Fold(name)
  {
    hide Le, Sorted, Fold, Before;
    found, index := false, 0;
    var l, h := 0, a.Length - 1;
    ghost var s := a[..];
    while l <= h
      invariant 0 <= l <= a.Length && -1 <= h < a.Length && a[..] == s && !found
      invariant forall i: nat :: i < |s| && (i < l || i > h) ==> Fold(entries[s[i]].name) != Fold(name)
      decreases h - l + 1
    {
      var m := l + (h - l) / 2;
      var fileIndex := a[m];
      assert entries[fileIndex] in entries;
      var c := FilenameCompare(entries[fileIndex].name, name);
      if c == 0 {
        return true, fileIndex;
      }
      forall i: nat | i < |s| ensures (c < 0 && i <= m) || (c > 0 && i >= m) ==>
          Fold(entries[s[i]].name) != Fold(name) {
        Beyond(entries, s, m, i, name);
        BeforeTotal(Fold(entries[s[m]].name), Fold(name));
        assert entries[s[i]] in entries;
      }
      if c < 0 {
        l := m + 1;
      } else {
        h := m - 1;
      }
    }
    forall i: nat | i < |entries| ensures Fold(entries[i].name) != Fold(name) {
      assert i in s;
    }
  }

  // ---------- the scan ----------

  /** What makes a character end a path. */
  predicate Separates(c: byte) {
    c == '/' as int || c == '\\' as int || c == ':' as int
  }

  /** A name without its path. */
  function BaseName(s: seq<byte>): seq<byte> {
    if s == [] || Separates(s[|s| - 1]) then [] else BaseName(s[..|s| - 1]) + [s[|s| - 1]]
  }

  datatype Search = Search(name: seq<byte>, comment: seq<byte>, hasComment: bool, ignorePath: bool, caseSensitive: bool)
  {
    predicate Same(a: seq<byte>, b: seq<byte>) {
      if caseSensitive then a == b else Fold(a) == Fold(b)
    }

    /** The entry is one that is looked for. */
    predicate Matches(e: Entry) {
      && |e.name| >= |name|
      && (comment != [] ==> Same(comment, e.comment))
      && Same(name, if ignorePath then BaseName(e.name) else e.name)
    }
  }

  /** mz_zip_string_equal, for two strings of the same length. */
  method StringEqual(a: seq<byte>, b: seq<byte>, caseSensitive: bool) returns (equal: bool)
    requires |a| == |b|
    ensures equal <==> if caseSensitive then a == b else Fold(a) == Fold(b)
  {
    if caseSensitive {
      return a == b;
    }
    var i := 0;
    while i < |a|
      invariant i <= |a| && forall k :: 0 <= k < i ==> ToLower(a[k]) == ToLower(b[k])
    {
      if ToLower(a[i]) != ToLower(b[i]) {
        assert Fold(a)[i] != Fold(b)[i];
        return false;
      }
      i := i + 1;
    }
    FoldSame(a, b);
    return true;
  }

  lemma {:induction false} BaseNameFrom(s: seq<byte>, ofs: nat)
    requires ofs <= |s| && (forall k :: ofs <= k < |s| ==> !Separates(s[k])) && (ofs == 0 || Separates(s[ofs - 1]))
    ensures BaseName(s) == s[ofs..]
  {
    if ofs < |s| {
      BaseNameFrom(s[..|s| - 1], ofs);
      assert s[ofs..] == s[..|s| - 1][ofs..] + [s[|s| - 1]];
    }
  }

  /** Everything behind the last separator. */
  method StripPath(s: seq<byte>) returns (base: seq<byte>)
    ensures base == BaseName(s)
  {
    var ofs := |s| - 1;
    while ofs >= 0
      invariant -1 <= ofs < |s| && forall k :: ofs < k < |s| ==> !Separates(s[k])
    {
      if Separates(s[ofs]) {
        break;
      }
      ofs := ofs - 1;
    }
    BaseNameFrom(s, ofs + 1);
    base := s[ofs + 1..];
  }

  /** From here on a name has no more path: a separator, or nothing, stands in front, and none behind. */
  ghost predicate BaseFrom(s: seq<byte>, from: nat) {
    && from <= |s| && (forall k :: from <= k < |s| ==> s[k] != 47 && s[k] != 92 && s[k] != 58)
    && (from > 0 ==> s[from - 1] == 47 || s[from - 1] == 92 || s[from - 1] == 58)
  }

  lemma BaseFromOnly(s: seq<byte>, i: nat, j: nat)
    requires BaseFrom(s, i) && BaseFrom(s, j)
    ensures i == j
  {
  }

  lemma BaseExists(s: seq<byte>) returns (from: nat)
    ensures BaseFrom(s, from) && BaseName(s) == s[from..]
  {
    from := |s|;
    while from > 0 && !Separates(s[from - 1])
      invariant from <= |s| && forall k :: from <= k < |s| ==> !Separates(s[k])
    {
      from := from - 1;
    }
    BaseNameFrom(s, from);
  }

  /** Two strings agree, letter by letter. */
  ghost predicate Agreeing(a: seq<byte>, b: seq<byte>, caseSensitive: bool) {
    |a| == |b| && forall k :: 0 <= k < |a| ==> if caseSensitive then a[k] == b[k] else SameLetter(a[k], b[k])
  }

  lemma SameMeans(q: Search, a: seq<byte>, b: seq<byte>)
    ensures q.Same(a, b) <==> Agreeing(a, b, q.caseSensitive)
  {
    hide Fold, SameLetter;
    FoldEqual(a, b);
  }

  /**
    What it means to match, written out: the name agrees with the entry's name, or with what follows
    the last '/', '\' or ':' of it, and the comment, if one is given, with the entry's comment.
   */
  lemma MatchMeans(q: Search, e: Entry)
    ensures q.Matches(e) <==>
        && (exists from: nat :: (if q.ignorePath then BaseFrom(e.name, from) else from == 0)
                  && from <= |e.name| && Agreeing(q.name, e.name[from..], q.caseSensitive))
        && (q.comment == [] || Agreeing(q.comment, e.comment, q.caseSensitive))
  {
    hide Search.Same, BaseName, BaseFrom, Agreeing;
    var from := BaseExists(e.name);
    forall i: nat | BaseFrom(e.name, i) ensures i == from { BaseFromOnly(e.name, i, from); }
    assert e.name[0..] == e.name;
    SameMeans(q, q.name, e.name[from..]);
    SameMeans(q, q.name, e.name);
    SameMeans(q, q.comment, e.comment);
    AgreeingLength(q.name, e.name[from..], q.caseSensitive);
    AgreeingLength(q.name, e.name, q.caseSensitive);
    BaseFromInside(e.name, from);
  }

  lemma AgreeingLength(a: seq<byte>, b: seq<byte>, caseSensitive: bool)
    ensures Agreeing(a, b, caseSensitive) ==> |a| == |b|
  {
  }

  lemma BaseFromInside(s: seq<byte>, from: nat)
    requires BaseFrom(s, from)
    ensures from <= |s|
  {
  }

  /** One entry of the scan. */
  method Check(e: Entry, q: Search) returns (ok: bool)
    ensures ok <==> q.Matches(e)
  {
    if |e.name| < |q.name| {
      return false;
    }
    if q.comment != [] {
      if |e.comment| != |q.comment| {
        return false;
      }
      ok := StringEqual(q.comment, e.comment, q.caseSensitive);
      if !ok {
        return;
      }
    }
    var base := e.name;
    if q.ignorePath {
      base := StripPath(base);
    }
    if |base| != |q.name| {
      return false;
    }
    ok := StringEqual(q.name, base, q.caseSensitive);
  }

  datatype Outcome = Found(index: nat) | NotFound | InvalidParameter

  /** The scan of the entire central directory: the first entry that matches. */
  method Scan(entries: seq<Entry>, q: Search) returns (r: Outcome)
    ensures r.InvalidParameter? <==> |q.name| > 0xFFFF || |q.comment| > 0xFFFF
    ensures r.Found? ==> r.index < |entries| && q.Matches(entries[r.index]) && forall i: nat :: i < r.index ==>
        !q.Matches(entries[i])
    ensures r.NotFound? ==> forall i: nat :: i < |entries| ==> !q.Matches(entries[i])
  {
    if |q.name| > 0xFFFF || |q.comment| > 0xFFFF {
      return InvalidParameter;
    }
    var i: nat := 0;
    while i < |entries|
      invariant i <= |entries| && forall k: nat :: k < i ==> !q.Matches(entries[k])
    {
      var ok := Check(entries[i], q);
      if ok {
        return Found(i);
      }
      i := i + 1;
    }
    return NotFound;
  }

  /** When the index is used. */
  predicate Searched(a: array<nat>, sorted: bool, q: Search) {
    sorted && !q.ignorePath && !q.caseSensitive && !q.hasComment && a.Length > 0
  }

  /** mz_zip_reader_locate_file_v2, for an archive being read whose index may have been sorted. */
  method Locate(entries: seq<Entry>, a: array<nat>, sorted: bool, q: Search) returns (r: Outcome)
    requires sorted ==> Index(entries, a[..])
    requires Small(entries) && (!q.hasComment ==> q.comment == [])
    ensures r.Found? && |q.name| < 0x1_0000_0000 ==> r.index < |entries| && q.Matches(entries[r.index])
    ensures |q.name| <= 0xFFFF && |q.comment| <= 0xFFFF ==>
        (r.Found? <==> exists i: nat :: i < |entries| && q.Matches(entries[i]))
    ensures |q.name| > 0xFFFF ==> (r.Found? <==> Searched(a, sorted, q) && Listed(entries, Compared(q.name)))
  {
    if Searched(a, sorted, q) {
      var found, index := BinarySearch(entries, a, q.name);
      SearchMeans(entries, q);
      r := if found then Found(index) else NotFound;
    } else {
      r := Scan(entries, q);
    }
  }

  /** Without flags or comment an entry matches exactly when its name is the same up to case. */
  lemma SearchMeans(entries: seq<Entry>, q: Search)
    requires !q.ignorePath && !q.caseSensitive && q.comment == []
    ensures forall i: nat :: i < |entries| ==> (q.Matches(entries[i]) <==> Fold(entries[i].name) == Fold(q.name))
  {
    forall i: nat | i < |entries| ensures q.Matches(entries[i]) <==> Fold(entries[i].name) == Fold(q.name) {
      assert |Fold(entries[i].name)| == |entries[i].name|;
    }
  }

  /**
    The two ways of looking agree on whether a name is there, but for those the search is wrong
    about, which the scan refuses.
   */
  method SearchesAgree(entries: seq<Entry>, name: seq<byte>) returns (found: bool, scanned: Outcome)
    requires Small(entries)
    ensures |name| < 0x1_0000_0000 || |name| % 0x1_0000_0000 > 0xFFFF ==> (found <==> scanned.Found?)
    ensures |name| >= 0x1_0000_0000 ==> scanned.InvalidParameter? && (found <==> Listed(entries, Compared(name)))
  {
    var a := BuildIndex(entries);
    var index;
    var q := Search(name, [], false, false, false);
    found, index := BinarySearch(entries, a, name);
    SearchMeans(entries, q);
    if |name| > 0xFFFF {
      TooLong(entries, name);
      if |Compared(name)| > 0xFFFF { TooLong(entries, Compared(name)); }
    }
    scanned := Scan(entries, q);
  }
}
