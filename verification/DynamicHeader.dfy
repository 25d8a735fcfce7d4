/**
  The header of a dynamic block (section 3.2.7 of RFC 1951): writing it
  (tdefl_start_dynamic_block) and what it looks like as bits.
 */
module DynamicHeader {
  import opened Bits
  import opened BitIO
  import opened Canonical
  import opened CodeLengthRle
  import opened HuffmanEncoder
  import opened SymbolLists
  import MinRedundancy

  /** The bits of one symbol under a code. */
  function SymBits(lens: seq<nat>, s: nat): seq<bool> {
    if Used(lens, s) then Word(lens, s) else []
  }

  // ---------- cutting trailing unused symbols ----------

  ghost predicate Trimmed(lens: seq<nat>, n: nat) {
    n <= |lens| && forall k :: n <= k < |lens| ==> lens[k] == 0
  }

  lemma {:induction false} TrimTaken(lens: seq<nat>, n: nat, l: nat)
    requires Trimmed(lens, n)
    ensures Taken(lens[..n], l) == Taken(lens, l)
  {
    if l != 0 {
      TrimTaken(lens, n, l - 1);
      CountTail(lens, n, l);
    }
  }

  /** Trailing unused symbols matter neither for the codes nor for their completeness. */
  lemma TrimCode(lens: seq<nat>, n: nat)
    requires Trimmed(lens, n)
    ensures forall s: nat :: SymBits(lens[..n], s) == SymBits(lens, s)
    ensures Fits(lens) ==> Fits(lens[..n])
    ensures Complete(lens) ==> Complete(lens[..n])
    ensures UsedUpTo(lens[..n], MAX_BITS) == UsedUpTo(lens, MAX_BITS)
  {
    hide Taken;
    TrimTaken(lens, n, MAX_BITS);
    TrimUsed(lens, n, MAX_BITS);
    forall s: nat ensures SymBits(lens[..n], s) == SymBits(lens, s) {
      if Used(lens, s) {
        assert s < n;
        TrimTaken(lens, n, lens[s] - 1);
        assert lens[..n][..s] == lens[..s];
      }
    }
  }

  lemma {:induction false} TrimUsed(lens: seq<nat>, n: nat, l: nat)
    requires Trimmed(lens, n)
    ensures UsedUpTo(lens[..n], l) == UsedUpTo(lens, l)
  {
    if l != 0 {
      TrimUsed(lens, n, l - 1);
      CountTail(lens, n, l);
    }
  }

  // ---------- the header as bits ----------

  /** s_tdefl_packed_code_size_syms_swizzle and s_length_dezigzag: the order code-length lengths are sent in. */
  const ORDER: seq<nat> := [16, 17, 18, 0, 8, 7, 9, 6, 10, 5, 11, 4, 12, 3, 13, 2, 14, 1, 15]

  /** The code-length symbol whose length is sent in place i. */
  function OrderAt(i: nat): (s: nat)
    requires i < 19
    ensures s < 19
  {
    assert |ORDER| == 19;
    assert forall k :: 0 <= k < 19 ==> ORDER[k] < 19;
    ORDER[i]
  }

  /** Where symbol s stands in ORDER. */
  function Place(s: nat): nat {
    if s >= 16 then s - 16
    else if s == 0 then 3
    else if s >= 8 then 4 + 2 * (s - 8)
    else 5 + 2 * (7 - s)
  }

  lemma OrderPlaces(i: nat)
    requires i < 19
    ensures Place(OrderAt(i)) == i
  {
    assert forall k :: 0 <= k < 19 ==> Place(ORDER[k]) == k;
  }

  lemma PlaceOrders(s: nat)
    requires s < 19
    ensures Place(s) < 19 && OrderAt(Place(s)) == s
  {
    if s < 10 { PlaceLow(s); } else { PlaceHigh(s); }
  }

  lemma PlaceLow(s: nat)
    requires s < 10
    ensures Place(s) < 19 && OrderAt(Place(s)) == s
  {
  }

  lemma PlaceHigh(s: nat)
    requires 10 <= s < 19
    ensures Place(s) < 19 && OrderAt(Place(s)) == s
  {
  }

  /** The first k code-length lengths, three bits each. */
  function SizeBits(cl: seq<nat>, k: nat): seq<bool>
    requires |cl| == 19 && k <= 19
  {
    if k == 0 then [] else SizeBits(cl, k - 1) + ToBits(cl[OrderAt(k - 1)], 3)
  }

  lemma OrderClosed(k: nat)
    requires k < 19
    ensures OrderAt(k) == if k < 3 then 16 + k else if k == 3 then 0 else if k % 2 == 0 then 6 + k / 2
                          else (19 - k) / 2
  {
    if k < 10 { OrderLow(k); } else { OrderHigh(k); }
  }

  lemma OrderLow(k: nat)
    requires k < 10
    ensures OrderAt(k) == if k < 3 then 16 + k else if k == 3 then 0 else if k % 2 == 0 then 6 + k / 2
                          else (19 - k) / 2
  {
  }

  lemma OrderHigh(k: nat)
    requires 10 <= k < 19
    ensures OrderAt(k) == if k % 2 == 0 then 6 + k / 2 else (19 - k) / 2
  {
  }

  /**
    The order of section 3.2.7 of RFC 1951 written out: first the lengths of 16, 17, 18 and 0, then
    from the middle outwards those of 8, 7, 9, 6, and so on to 1 and 15, three bits each.
   */
  lemma {:induction false} SizesInOrder(cl: seq<nat>, n: nat, k: nat)
    requires |cl| == 19 && k < n <= 19
    ensures |SizeBits(cl, n)| == 3 * n
    ensures SizeBits(cl, n)[3 * k..3 * k + 3]
         == ToBits(cl[if k < 3 then 16 + k else if k == 3 then 0 else if k % 2 == 0 then 6 + k / 2
                      else (19 - k) / 2], 3)
  {
    hide OrderAt, ToBits;
    SizeBitsLength(cl, n - 1);
    OrderClosed(k);
    if k < n - 1 {
      SizesInOrder(cl, n - 1, k);
      assert SizeBits(cl, n)[3 * k..3 * k + 3] == SizeBits(cl, n - 1)[3 * k..3 * k + 3];
    } else {
      assert SizeBits(cl, n)[3 * k..3 * k + 3] == ToBits(cl[OrderAt(k)], 3);
    }
  }

  /** The k-th three bits are the size that the standard says comes k-th. */
  ghost predicate SentAt(cl: seq<nat>, k: nat, bits: seq<bool>) {
    && |cl| == 19 && k < 19 && 3 * k + 3 <= |bits|
    && bits[3 * k..3 * k + 3]
      == ToBits(cl[if k < 3 then 16 + k else if k == 3 then 0 else if k % 2 == 0 then 6 + k / 2
                   else (19 - k) / 2], 3)
  }

  ghost predicate SentInOrder(cl: seq<nat>, n: nat, bits: seq<bool>) {
    forall k: nat :: k < n ==> SentAt(cl, k, bits)
  }

  lemma AllInOrder(cl: seq<nat>, n: nat, more: seq<bool>)
    requires |cl| == 19 && n <= 19
    ensures SentInOrder(cl, n, SizeBits(cl, n) + more)
  {
    hide ToBits, SizeBits;
    SizeBitsLength(cl, n);
    var bits := SizeBits(cl, n);
    forall k: nat | k < n ensures SentAt(cl, k, bits + more) {
      SizesInOrder(cl, n, k);
      assert (bits + more)[3 * k..3 * k + 3] == bits[3 * k..3 * k + 3];
    }
  }

  lemma {:induction false} SizeBitsLength(cl: seq<nat>, n: nat)
    requires |cl| == 19 && n <= 19
    ensures |SizeBits(cl, n)| == 3 * n
  {
    hide OrderAt, ToBits;
    if n > 0 { SizeBitsLength(cl, n - 1); }
  }

  function ItemBits(cl: seq<nat>, item: Item): seq<bool> {
    SymBits(cl, item.Symbol()) + ToBits(item.Extra(), item.ExtraBits())
  }

  function ItemsBits(cl: seq<nat>, items: seq<Item>): seq<bool> {
    if items == [] then [] else ItemBits(cl, items[0]) + ItemsBits(cl, items[1..])
  }

  lemma {:induction false} ItemsBitsPush(cl: seq<nat>, items: seq<Item>, item: Item)
    ensures ItemsBits(cl, items + [item]) == ItemsBits(cl, items) + ItemBits(cl, item)
  {
    hide ItemBits;
    var x := ItemBits(cl, item);
    if items == [] {
      assert items + [item] == [item] && [item][1..] == [];
      JoinNothing(x);
    } else {
      ItemsBitsPush(cl, items[1..], item);
      assert (items + [item])[1..] == items[1..] + [item];
      JoinAssoc(ItemBits(cl, items[0]), ItemsBits(cl, items[1..]), x);
    }
  }

  /** What the header says: the two lists of lengths, and how they are sent. */
  datatype Header = Header(lit: seq<nat>, dist: seq<nat>, cl: seq<nat>, sent: nat, items: seq<Item>)
  {
    /** A header any inflater must accept and understand. */
    ghost predicate Valid() {
      && 257 <= |lit| <= 288 && 1 <= |dist| <= 32 && |cl| == 19 && 4 <= sent <= 19
      && WellFormed(items) && Expand(items) == lit + dist
      && (forall k :: 0 <= k < 19 ==> cl[k] < 8)
      && (forall k: nat :: sent <= k < 19 ==> cl[OrderAt(k)] == 0)
      && Acceptable(cl) && Acceptable(lit) && Acceptable(dist)
      && (forall i :: 0 <= i < |items| ==> Used(cl, items[i].Symbol()))
    }

    /** Its bits, after the two bits of the block type. */
    function ToBitString(): seq<bool>
      requires |cl| == 19 && 257 <= |lit| && 1 <= |dist| && 4 <= sent <= 19
    {
      ToBits(|lit| - 257, 5) + ToBits(|dist| - 1, 5) + ToBits(sent - 4, 4) + SizeBits(cl, sent) + ItemsBits(cl, items)
    }
  }

  /** Lengths that pass the inflater's check and fit in a tree. */
  ghost predicate Acceptable(lens: seq<nat>) {
    Fits(lens) && (Complete(lens) || UsedUpTo(lens, MAX_BITS) <= 1)
  }

  // ---------- writing it ----------

  /** The count table that the packed items call for. */
  function UseCounts(items: seq<Item>, n: nat): seq<nat> {
    if n == 0 then [] else UseCounts(items, n - 1) + [Uses(items, n - 1)]
  }

  lemma {:induction false} UseCountsSum(items: seq<Item>, n: nat)
    ensures |UseCounts(items, n)| == n && MinRedundancy.Sum(UseCounts(items, n)) <= |items|
    decreases items
  {
    if items == [] {
      UseCountsNone(n);
    } else {
      UseCountsStep(items, n);
      UseCountsSum(items[..|items| - 1], n);
    }
  }

  lemma {:induction false} UseCountsNone(n: nat)
    ensures |UseCounts([], n)| == n && MinRedundancy.Sum(UseCounts([], n)) == 0
  {
    if n != 0 {
      UseCountsNone(n - 1);
      MinRedundancy.SumSnoc(UseCounts([], n - 1), 0);
    }
  }

  lemma {:induction false} UseCountsStep(items: seq<Item>, n: nat)
    requires items != []
    ensures |UseCounts(items, n)| == n
    ensures MinRedundancy.Sum(UseCounts(items, n))
         == MinRedundancy.Sum(UseCounts(items[..|items| - 1], n)) + if items[|items| - 1].Symbol() < n then 1 else 0
  {
    if n != 0 {
      UseCountsStep(items, n - 1);
      MinRedundancy.SumSnoc(UseCounts(items, n - 1), Uses(items, n - 1));
      MinRedundancy.SumSnoc(UseCounts(items[..|items| - 1], n - 1), Uses(items[..|items| - 1], n - 1));
    }
  }

  lemma {:induction false} UseCountsAt(items: seq<Item>, n: nat, count: seq<nat>)
    requires |count| == n && forall s: nat :: s < n ==> count[s] == Uses(items, s)
    ensures count == UseCounts(items, n)
  {
    if n != 0 { UseCountsAt(items, n - 1, count[..n - 1]); }
  }

  lemma {:induction false} FlatLonger(items: seq<Item>)
    ensures |items| <= |Flat(items)|
  {
    if items != [] { FlatLonger(items[..|items| - 1]); }
  }

  lemma {:induction false} UsedItems(items: seq<Item>, i: nat)
    requires i < |items|
    ensures Uses(items, items[i].Symbol()) > 0
  {
    if i < |items| - 1 { UsedItems(items[..|items| - 1], i); }
  }

  /** Where item q lies in the packed list. */
  lemma {:induction false} FlatAt(items: seq<Item>, q: nat)
    requires q < |items|
    ensures |Flat(items[..q])| < |Flat(items)| && Flat(items)[|Flat(items[..q])|] == items[q].Symbol()
    ensures !items[q].Len? ==>
            |Flat(items[..q])| + 1 < |Flat(items)|
            && Flat(items)[|Flat(items[..q])| + 1] == items[q].extra
    ensures |Flat(items[..q + 1])| == |Flat(items[..q])| + if items[q].Len? then 1 else 2
    decreases |items|
  {
    var n := |items| - 1;
    if q < n {
      FlatAt(items[..n], q);
      assert items[..n][..q] == items[..q] && items[..n][..q + 1] == items[..q + 1];
    } else {
      assert items[..q + 1] == items;
    }
  }

  /** The table of the code lengths can be sent as it stands. */
  ghost predicate Sendable(t: CodeTable, n: nat)
    reads t.sizes, t.codes
  {
    t.Valid() && n <= MAX_SYMBOLS && Acceptable(t.sizes[..n]) && t.Coded(n)
  }

  lemma AcceptableLength(lens: seq<nat>, s: nat)
    requires Acceptable(lens) && s < |lens|
    ensures lens[s] <= 15
  {
  }

  method PutSymbol(w: BitWriter, t: CodeTable, n: nat, s: nat)
    requires w.Valid() && Sendable(t, n) && Used(t.sizes[..n], s) && w.out as object != t.sizes
        && w.out as object != t.codes
    modifies w, w.out
    ensures w.Valid() && w.stream == old(w.stream) + SymBits(t.sizes[..n], s)
  {
    hide Acceptable, Word, Pow2;
    AcceptableLength(t.sizes[..n], s);
    w.Put(t.codes[s], t.sizes[s]);
  }

  /** The trailing unused symbols are not sent. */
  method LastUsed(t: CodeTable, from: nat, least: nat) returns (n: nat)
    requires t.Valid() && least <= from <= MAX_SYMBOLS
    ensures least <= n <= from && Trimmed(t.sizes[..from], n)
  {
    n := from;
    while n > least
      invariant least <= n <= from && Trimmed(t.sizes[..from], n)
    {
      if t.sizes[n - 1] != 0 {
        break;
      }
      n := n - 1;
    }
  }

  method LastSent(cl: CodeTable) returns (n: nat)
    requires cl.Valid()
    ensures 4 <= n <= 19
    ensures forall k: nat :: n <= k < 19 ==> cl.sizes[OrderAt(k)] == 0
  {
    var i := 18;
    while i >= 0
      invariant -1 <= i <= 18
      invariant forall k: nat :: i < k < 19 ==> cl.sizes[OrderAt(k)] == 0
    {
      if cl.sizes[OrderAt(i)] != 0 {
        break;
      }
      i := i - 1;
    }
    n := if 4 < i + 1 then i + 1 else 4;
  }

  method SendSizes(w: BitWriter, t: CodeTable, n: nat)
    requires w.Valid() && t.Valid() && n <= 19 && w.out as object != t.sizes
    requires forall k :: 0 <= k < 19 ==> t.sizes[k] < 8
    modifies w, w.out
    ensures w.Valid() && w.stream == old(w.stream) + SizeBits(t.sizes[..19], n)
    ensures SentInOrder(t.sizes[..19], n, w.stream[|old(w.stream)|..])
  {
    hide OrderAt, ToBits, BytesBits;
    Pow2Values();
    ghost var cl := t.sizes[..19];
    for i := 0 to n
      invariant w.Valid() && t.sizes[..19] == cl && w.stream == old(w.stream) + SizeBits(cl, i)
    {
      ghost var sent := SizeBits(cl, i);
      w.Put(t.sizes[OrderAt(i)], 3);
      assert SizeBits(cl, i + 1) == sent + ToBits(cl[OrderAt(i)], 3);
    }
    AllInOrder(cl, n, []);
    assert w.stream[|old(w.stream)|..] == SizeBits(cl, n) + [];
  }

  /** "\02\03\07"[code - 16]. */
  function ExtraWidth(code: nat): nat
    requires 16 <= code <= 18
  {
    if code == 16 then 2 else if code == 17 then 3 else 7
  }

  method SendItems(w: BitWriter, t: CodeTable, packed: array<nat>, numPacked: nat, ghost items: seq<Item>)
    requires w.Valid() && Sendable(t, 19) && w.out as object != t.sizes && w.out as object != t.codes
        && w.out as object != packed
    requires numPacked <= packed.Length && WellFormed(items) && packed[..numPacked] == Flat(items)
    requires forall i :: 0 <= i < |items| ==> Used(t.sizes[..19], items[i].Symbol())
    modifies w, w.out
    ensures w.Valid() && w.stream == old(w.stream) + ItemsBits(t.sizes[..19], items)
  {
    hide Flat, Expand, Acceptable, SymBits, Used, ItemsBits, ItemBits, ToBits, Pow2;
    ghost var cl := t.sizes[..19];
    var index := 0;
    ghost var q := 0;
    assert items[..0] == [];
    FlatEmpty(cl);
    while index < numPacked
      invariant 0 <= q <= |items| && index == |Flat(items[..q])| && Sendable(t, 19) && t.sizes[..19] == cl
      invariant packed[..numPacked] == Flat(items) && index <= numPacked
      invariant w.Valid() && w.stream == old(w.stream) + ItemsBits(cl, items[..q])
      decreases numPacked - index
    {
      FlatEnd(items, q);
      FlatAt(items, q);
      ItemsBitsPush(cl, items[..q], items[q]);
      assert items[..q + 1] == items[..q] + [items[q]];
      index := SendItem(w, t, packed, numPacked, index, items[q]);
      q := q + 1;
      FlatBound(items, q);
    }
    AllSent(items, q);
  }

  lemma FlatEmpty(cl: seq<nat>)
    ensures Flat([]) == [] && ItemsBits(cl, []) == []
  {
  }

  lemma FlatEnd(items: seq<Item>, q: nat)
    requires q <= |items|
    ensures q == |items| ==> |Flat(items[..q])| == |Flat(items)|
  {
    if q == |items| { assert items[..q] == items; }
  }

  lemma {:induction false} FlatBound(items: seq<Item>, q: nat)
    requires q <= |items|
    ensures |Flat(items[..q])| <= |Flat(items)|
    ensures q < |items| ==> |Flat(items[..q])| < |Flat(items)|
  {
    if q == |items| { assert items[..q] == items; } else { FlatAt(items, q); }
  }

  lemma AllSent(items: seq<Item>, q: nat)
    requires q <= |items| && |Flat(items[..q])| >= |Flat(items)|
    ensures items[..q] == items
  {
    FlatBound(items, q);
  }

  method SendItem(w: BitWriter, t: CodeTable, packed: array<nat>, numPacked: nat, index: nat, ghost item: Item)
    returns (index': nat)
    requires w.Valid() && Sendable(t, 19) && w.out as object != t.sizes && w.out as object != t.codes
        && w.out as object != packed
    requires item.Valid() && Used(t.sizes[..19], item.Symbol()) && index < numPacked <= packed.Length
    requires packed[index] == item.Symbol() && (!item.Len? ==> index + 1 < numPacked && packed[index + 1] == item.extra)
    modifies w, w.out
    ensures index' == index + if item.Len? then 1 else 2
    ensures w.Valid() && w.stream == old(w.stream) + ItemBits(old(t.sizes[..19]), item)
    ensures t.sizes[..] == old(t.sizes[..]) && t.codes[..] == old(t.codes[..]) && packed[..] == old(packed[..])
  {
    hide Acceptable, Used, Pow2, ToBits, SymBits;
    var code := packed[index];
    index' := index + 1;
    PutSymbol(w, t, 19, code);
    if code >= 16 {
      w.Put(packed[index'], ExtraWidth(code));
      index' := index' + 1;
    }
  }

  /** The Huffman half of a tdefl_compressor: its bit writer and its three tables. */
  class Encoder {
    const w: BitWriter
    const lit: CodeTable             // table 0: literals and match lengths
    const dist: CodeTable            // table 1: match distances
    const cl: CodeTable              // table 2: code lengths

    constructor (capacity: nat)
      ensures Valid() && w.stream == [] && w.end == capacity && fresh(w)
      ensures fresh(w.out) && fresh(lit.Own()) && fresh(dist.Own()) && fresh(cl.Own()) && w.pos == 0 && w.Intact()
      ensures lit.Valid() && dist.Valid() && forall k :: 0 <= k < MAX_SYMBOLS ==>
          lit.count[k] == 0 && dist.count[k] == 0
    {
      hide BitWriter.Valid;
      var out := new BitWriter(capacity);
      var t0 := new CodeTable();
      var t1 := new CodeTable();
      var t2 := new CodeTable();
      w, lit, dist, cl := out, t0, t1, t2;
    }

    ghost function Arrays(): set<object> {
      {w.out as object} + lit.Own() + dist.Own() + cl.Own()
    }

    /** The arrays are all different. */
    ghost predicate Apart() {
      && lit.Valid() && dist.Valid() && cl.Valid()
      && w.out !in lit.Own() + dist.Own() + cl.Own()
      && lit.Own() !! dist.Own() && lit.Own() !! cl.Own() && dist.Own() !! cl.Own()
    }

    ghost predicate Valid()
      reads w, w.out
    {
      Apart() && w.Valid()
    }

    /** The counts of a block, with the end-of-block symbol counted in, do not overflow. */
    ghost predicate CountsFit()
      reads lit.count, dist.count
    {
      && lit.Valid() && dist.Valid()
      && MinRedundancy.Sum(lit.count[..MAX_SYMBOLS]) < 0x1_0000
      && MinRedundancy.Sum(dist.count[..32]) < 0x1_0000
      && (forall k :: 286 <= k < MAX_SYMBOLS ==> lit.count[k] == 0)
      && (forall k :: 30 <= k < 32 ==> dist.count[k] == 0)
    }

    /** The literal and distance codes are set up and can be sent. */
    ghost predicate CodesReady()
      reads lit.sizes, lit.codes, dist.sizes, dist.codes
    {
      Sendable(lit, MAX_SYMBOLS) && Sendable(dist, 32)
    }

    /** h describes the literal and distance codes. */
    ghost predicate Describes(h: Header)
      reads lit.sizes, dist.sizes
    {
      && lit.Valid() && dist.Valid()
      && Trimmed(lit.sizes[..MAX_SYMBOLS], |h.lit|) && h.lit == lit.sizes[..|h.lit|]
      && Trimmed(dist.sizes[..32], |h.dist|) && h.dist == dist.sizes[..|h.dist|]
    }

    /** The literal and distance codes of a dynamic block. */
    method BuildCodes()
      requires Apart() && CountsFit() && lit.count[256] == 1
      modifies lit.sizes, lit.codes, dist.sizes, dist.codes
      ensures CodesReady()
      ensures LengthsFor(lit.count[..MAX_SYMBOLS], lit.sizes[..MAX_SYMBOLS], 15)
      ensures LengthsFor(dist.count[..32], dist.sizes[..32], 15)
      ensures NearBest(lit.count[..MAX_SYMBOLS], lit.sizes[..MAX_SYMBOLS])
          && NearBest(dist.count[..32], dist.sizes[..32])
    {
      hide Fits, Complete, UsedUpTo, Pow2, Word, LengthsFor;
      TwoTo15();
      lit.OptimizeHuffmanTable(MAX_SYMBOLS, 15, false);
      dist.OptimizeHuffmanTable(32, 15, false);
    }

    /** The lengths to be packed: both lists without their trailing zeros. */
    method ListLengths() returns (numLit: nat, numDist: nat, lens: seq<nat>)
      requires Apart() && CodesReady()
      requires forall k :: 286 <= k < MAX_SYMBOLS ==> lit.sizes[k] == 0
      requires forall k :: 30 <= k < 32 ==> dist.sizes[k] == 0
      ensures 257 <= numLit <= 286 && 1 <= numDist <= 30
      ensures Trimmed(lit.sizes[..MAX_SYMBOLS], numLit) && Trimmed(dist.sizes[..32], numDist)
      ensures lens == lit.sizes[..numLit] + dist.sizes[..numDist] && forall i :: 0 <= i < |lens| ==> lens[i] <= 15
      ensures Acceptable(lit.sizes[..numLit]) && Acceptable(dist.sizes[..numDist])
    {
      hide Acceptable;
      numLit := LastUsed(lit, 286, 257);
      numDist := LastUsed(dist, 30, 1);
      lens := lit.sizes[..numLit] + dist.sizes[..numDist];
      AcceptableTrim(lit.sizes[..MAX_SYMBOLS], numLit);
      AcceptableTrim(dist.sizes[..32], numDist);
      assert lit.sizes[..MAX_SYMBOLS][..numLit] == lit.sizes[..numLit];
      assert dist.sizes[..32][..numDist] == dist.sizes[..numDist];
      AcceptableLengths(lit.sizes[..numLit]);
      AcceptableLengths(dist.sizes[..numDist]);
    }

    /** The code for code lengths. */
    method BuildLengthCode(ghost items: seq<Item>)
      requires Apart() && WellFormed(items) && |items| <= 320
      requires forall s: nat :: s < 19 ==> cl.count[s] == Uses(items, s)
      modifies cl.sizes, cl.codes
      ensures Sendable(cl, 19) && forall k :: 0 <= k < 19 ==> cl.sizes[k] < 8
      ensures forall i :: 0 <= i < |items| ==> Used(cl.sizes[..19], items[i].Symbol())
    {
      hide Fits, Complete, UsedUpTo, Pow2, Word, Uses, MinRedundancy.Sum;
      UseCountsAt(items, 19, cl.count[..19]);
      UseCountsSum(items, 19);
      TwoTo15();
      cl.OptimizeHuffmanTable(19, 7, false);
      forall i | 0 <= i < |items| ensures Used(cl.sizes[..19], items[i].Symbol()) {
        UsedItems(items, i);
        assert cl.count[..19][items[i].Symbol()] > 0;
      }
    }

    /**
      tdefl_start_dynamic_block: the codes are built from the counts, and the header that describes
      them is written.
     */
    method StartDynamicBlock() returns (ghost h: Header)
      requires Valid() && lit.count[256] == 0 && MinRedundancy.Sum(lit.count[..MAX_SYMBOLS]) + 1 < 0x1_0000
          && CountsFit()
      modifies w, Arrays()
      ensures Valid() && CodesReady() && h.Valid() && Describes(h)
      ensures w.stream == old(w.stream) + ToBits(2, 2) + h.ToBitString()
      ensures lit.count[..] == old(lit.count[..])[256 := 1] && dist.count[..] == old(dist.count[..])
      ensures LengthsFor(lit.count[..MAX_SYMBOLS], lit.sizes[..MAX_SYMBOLS], 15)
      ensures LengthsFor(dist.count[..32], dist.sizes[..32], 15)
      ensures NearBest(lit.count[..MAX_SYMBOLS], lit.sizes[..MAX_SYMBOLS])
          && NearBest(dist.count[..32], dist.sizes[..32])
    {
      hide Acceptable, Pow2, Flat, Expand, Uses, MinRedundancy.Sum, BytesBits, ToBits, SizeBits, ItemsBits, Sendable,
           LengthsFor, NearBest;
      CountOne(lit.count[..MAX_SYMBOLS], 256);
      ghost var lc := lit.count[..MAX_SYMBOLS];
      lit.count[256] := 1;
      assert lit.count[..MAX_SYMBOLS] == lc[256 := 1];
      BuildCodes();
      UnusedTails();
      var numLit, numDist, lens := ListLengths();
      h := SendLengths(numLit, numDist, lens);
    }

    /** The symbols DEFLATE does not use have no code. */
    lemma UnusedTails()
      requires Apart() && CountsFit()
      requires LengthsFor(lit.count[..MAX_SYMBOLS], lit.sizes[..MAX_SYMBOLS], 15)
      requires LengthsFor(dist.count[..32], dist.sizes[..32], 15)
      ensures forall k :: 286 <= k < MAX_SYMBOLS ==> lit.sizes[k] == 0
      ensures forall k :: 30 <= k < 32 ==> dist.sizes[k] == 0
    {
      forall k | 286 <= k < MAX_SYMBOLS ensures lit.sizes[k] == 0 {
        assert lit.count[..MAX_SYMBOLS][k] == 0;
      }
      forall k | 30 <= k < 32 ensures dist.sizes[k] == 0 {
        assert dist.count[..32][k] == 0;
      }
    }

    /** From the packing of the lengths on. */
    method SendLengths(numLit: nat, numDist: nat, lens: seq<nat>) returns (ghost h: Header)
      requires Valid() && CodesReady() && 257 <= numLit <= 286 && 1 <= numDist <= 30
      requires Trimmed(lit.sizes[..MAX_SYMBOLS], numLit) && Trimmed(dist.sizes[..32], numDist)
      requires lens == lit.sizes[..numLit] + dist.sizes[..numDist] && forall i :: 0 <= i < |lens| ==> lens[i] <= 15
      requires Acceptable(lit.sizes[..numLit]) && Acceptable(dist.sizes[..numDist])
      modifies w, w.out, cl.Own()
      ensures Valid() && CodesReady() && h.Valid() && Describes(h)
      ensures w.stream == old(w.stream) + ToBits(2, 2) + h.ToBitString()
    {
      hide Acceptable, Pow2, Flat, Expand, Uses, BytesBits, ToBits, SizeBits, ItemsBits, Trimmed, CodeTable.Coded,
           Header.ToBitString, Packed, WellFormed;
      var packed := new nat[320](_ => 0);
      var numPacked;
      ghost var items;
      numPacked, items := Pack(lens, packed, cl.count);
      PackedSize(items, packed[..numPacked], cl.count[..], lens);
      BuildLengthCode(items);
      var sent := WriteHeader(numLit, numDist, packed, numPacked, items);
      h := HeaderOf(numLit, numDist, sent, items);
    }

    /** The header of the lengths there are. */
    ghost function HeaderOf(numLit: nat, numDist: nat, sent: nat, items: seq<Item>): (h: Header)
      requires Apart() && numLit <= MAX_SYMBOLS && numDist <= MAX_SYMBOLS
      reads lit.sizes, dist.sizes, cl.sizes
    {
      Header(lit.sizes[..numLit], dist.sizes[..numDist], cl.sizes[..19], sent, items)
    }

    /** Enough lengths of the code-length code are sent, and the block type and the header have been put. */
    ghost predicate Written(was: seq<bool>, numLit: nat, numDist: nat, sent: nat, items: seq<Item>)
      requires Apart() && 257 <= numLit <= MAX_SYMBOLS && 1 <= numDist <= MAX_SYMBOLS
      reads w, lit.sizes, dist.sizes, cl.sizes
    {
      && 4 <= sent <= 19 && (forall k: nat :: sent <= k < 19 ==> cl.sizes[OrderAt(k)] == 0)
      && w.stream == was + ToBits(2, 2) + HeaderOf(numLit, numDist, sent, items).ToBitString()
    }

    /** The part that puts bits. */
    method WriteHeader(numLit: nat, numDist: nat, packed: array<nat>, numPacked: nat, ghost items: seq<Item>)
      returns (sent: nat)
      requires Valid() && 257 <= numLit <= 288 && 1 <= numDist <= 32 && w.out as object != packed
      requires Sendable(cl, 19) && forall k :: 0 <= k < 19 ==> cl.sizes[k] < 8
      requires numPacked <= packed.Length && WellFormed(items) && packed[..numPacked] == Flat(items)
      requires forall i :: 0 <= i < |items| ==> Used(cl.sizes[..19], items[i].Symbol())
      modifies w, w.out
      ensures Valid() && Written(old(w.stream), numLit, numDist, sent, items)
    {
      hide Acceptable, Flat, Expand, BytesBits, ToBits, SizeBits, ItemsBits, Used, Pow2, OrderAt, Word, Shr;
      sent := LastSent(cl);
      PutCounts(numLit, numDist, sent);
      SendSizes(w, cl, sent);
      SendItems(w, cl, packed, numPacked, items);
      Regroup(old(w.stream), ToBits(2, 2), ToBits(numLit - 257, 5), ToBits(numDist - 1, 5), ToBits(sent - 4, 4),
              SizeBits(cl.sizes[..19], sent), ItemsBits(cl.sizes[..19], items));
    }

    /** The block type and the three counts. */
    method PutCounts(numLit: nat, numDist: nat, sent: nat)
      requires Valid() && 257 <= numLit <= 288 && 1 <= numDist <= 32 && 4 <= sent <= 19
      modifies w, w.out
      ensures Valid()
      ensures w.stream == old(w.stream) + ToBits(2, 2) + ToBits(numLit - 257, 5) + ToBits(numDist - 1, 5)
          + ToBits(sent - 4, 4)
    {
      hide Pow2, ToBits, Apart, BytesBits;
      Pow2Values();
      w.Put(2, 2);
      w.Put(numLit - 257, 5);
      w.Put(numDist - 1, 5);
      w.Put(sent - 4, 4);
    }
  }

  lemma PackedSize(items: seq<Item>, packed: seq<nat>, count: seq<nat>, lens: seq<nat>)
    requires Packed(items, packed, count) && Expand(items) == lens
    ensures |items| <= |lens| && WellFormed(items) && packed == Flat(items)
    ensures forall s: nat :: s < 19 ==> count[s] == Uses(items, s)
  {
    FlatLonger(items);
    FlatFits(items);
  }

  lemma Regroup(a: seq<bool>, b: seq<bool>, c: seq<bool>, d: seq<bool>, e: seq<bool>, f: seq<bool>, g: seq<bool>)
    ensures a + b + c + d + e + f + g == a + b + (c + d + e + f + g)
  {
  }

  lemma TwoTo15()
    ensures Pow2(15) == 0x8000 && Pow2(7) == 128
  {
    Pow2Values();
  }

  lemma {:induction false} CountOne(s: seq<nat>, k: nat)
    requires k < |s| && s[k] == 0
    ensures MinRedundancy.Sum(s[k := 1]) == MinRedundancy.Sum(s) + 1
  {
    if k == 0 {
      assert s[0 := 1][1..] == s[1..];
    } else {
      CountOne(s[1..], k - 1);
      assert s[k := 1][1..] == s[1..][k - 1 := 1];
    }
  }

  lemma AcceptableTrim(lens: seq<nat>, n: nat)
    requires Acceptable(lens) && Trimmed(lens, n)
    ensures Acceptable(lens[..n])
  {
    TrimCode(lens, n);
  }

  lemma AcceptableLengths(lens: seq<nat>)
    requires Acceptable(lens)
    ensures forall i :: 0 <= i < |lens| ==> lens[i] <= 15
  {
  }
}
