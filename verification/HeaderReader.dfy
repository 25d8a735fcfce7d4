/**
  Reading the header of a dynamic block: the part of tinfl_decompress between the block type
  and the first symbol. Each contract covers every input; the round-trip clauses say what
  happens when the input is one that a header stands for.
 */
module HeaderReader {
  import opened Bits
  import opened BitIO
  import opened Canonical
  import opened CodeLengthRle
  import opened DynamicHeader
  import opened NodeCount
  import opened HuffTable
  import opened HuffDecode
  import opened Lenient
  import InflateTables

  datatype Status = Ok | Failed | NeedsMoreInput | HasMoreOutput

  // ---------- fields ----------

  lemma GotField(b: nat, v: nat, n: nat, rest: seq<bool>, more: seq<bool>)
    requires rest == ToBits(v, n) + more && v < Pow2(n) && b < Pow2(n) && ToBits(b, n) == rest[..n]
    ensures b == v && rest[n..] == more
  {
    ToBitsInjective(b, v, n);
  }

  /** Read an n-bit field; if the unread bits begin with the field v, that is what is read. */
  method ReadField(r: BitReader, n: nat, ghost v: nat, ghost more: seq<bool>) returns (ok: bool, b: nat)
    requires r.Valid() && n <= 16
    modifies r
    ensures r.Valid() && b < Pow2(n) && |r.Rest()| <= |old(r.Rest())| && (ok ==> |r.Rest()| + n == |old(r.Rest())|)
    ensures old(r.Rest()) == ToBits(v, n) + more && v < Pow2(n) ==> ok && b == v && r.Rest() == more
    ensures ok && old(r.Snug()) ==> r.Snug()
    ensures ok ==> old(r.Rest()) == ToBits(b, n) + r.Rest()
  {
    ok, b := r.GetBits(n);
    if !ok { b := 0; }
    ghost var rest := old(r.Rest());
    if ok { assert rest == rest[..n] + rest[n..]; }
    if rest == ToBits(v, n) + more && v < Pow2(n) {
      GotField(b, v, n, rest, more);
    }
  }

  /** Code-length lengths i up to n. */
  function SizeFrom(cl: seq<nat>, i: nat, n: nat): seq<bool>
    requires |cl| == 19 && n <= 19
    decreases n - i
  {
    if i >= n then [] else ToBits(cl[OrderAt(i)], 3) + SizeFrom(cl, i + 1, n)
  }

  lemma {:induction false} SizeFromAll(cl: seq<nat>, i: nat, n: nat)
    requires |cl| == 19 && i <= n <= 19
    ensures SizeBits(cl, n) == SizeBits(cl, i) + SizeFrom(cl, i, n)
    decreases n - i
  {
    hide OrderAt, ToBits;
    if i < n {
      SizeFromAll(cl, i + 1, n);
      JoinAssoc(SizeBits(cl, i), ToBits(cl[OrderAt(i)], 3), SizeFrom(cl, i + 1, n));
    }
  }

  /** The first i places of the sending order are filled in; the others are zero. */
  ghost predicate Placed(sizes: seq<nat>, cl: seq<nat>, i: nat)
    requires |sizes| == 19 && |cl| == 19
  {
    forall s: nat :: s < 19 ==> sizes[s] == if Place(s) < i then cl[s] else 0
  }

  lemma PlaceNext(sizes: seq<nat>, cl: seq<nat>, i: nat)
    requires |sizes| == 19 && |cl| == 19 && i < 19 && Placed(sizes, cl, i)
    ensures Placed(sizes[OrderAt(i) := cl[OrderAt(i)]], cl, i + 1)
  {
    OrderPlaces(i);
    forall s: nat | s < 19 ensures Place(s) == i ==> s == OrderAt(i) { PlaceOrders(s); }
  }

  lemma PlacedAll(sizes: seq<nat>, cl: seq<nat>, n: nat)
    requires |sizes| == 19 && |cl| == 19 && n <= 19 && Placed(sizes, cl, n)
    requires forall k: nat :: n <= k < 19 ==> cl[OrderAt(k)] == 0
    ensures sizes == cl
  {
    forall s: nat | s < 19 ensures sizes[s] == cl[s] { PlaceOrders(s); }
  }

  lemma NonePlaced(sizes: seq<nat>, cl: seq<nat>)
    requires |sizes| == 19 && |cl| == 19 && forall s: nat :: s < 19 ==> sizes[s] == 0
    ensures Placed(sizes, cl, 0)
  {
  }

  lemma SizeFromStart(cl: seq<nat>, n: nat)
    requires |cl| == 19 && n <= 19
    ensures SizeBits(cl, n) == SizeFrom(cl, 0, n)
  {
    SizeFromAll(cl, 0, n);
    JoinNothing(SizeFrom(cl, 0, n));
  }

  lemma SizeFromNext(cl: seq<nat>, i: nat, n: nat, more: seq<bool>)
    requires |cl| == 19 && i < n <= 19
    ensures SizeFrom(cl, i, n) + more == ToBits(cl[OrderAt(i)], 3) + (SizeFrom(cl, i + 1, n) + more)
  {
    hide ToBits, OrderAt;
    JoinAssoc(ToBits(cl[OrderAt(i)], 3), SizeFrom(cl, i + 1, n), more);
  }

  lemma SizeFromEnd(cl: seq<nat>, n: nat, more: seq<bool>)
    requires |cl| == 19 && n <= 19
    ensures SizeFrom(cl, n, n) + more == more
  {
    JoinNothing(more);
  }

  /** The lengths of the code-length code. */
  method ReadSizes(r: BitReader, n: nat, ghost cl: seq<nat>, ghost more: seq<bool>)
    returns (ok: bool, sizes: array<nat>)
    requires r.Valid() && n <= 19 && |cl| == 19
    modifies r
    ensures r.Valid() && |r.Rest()| <= |old(r.Rest())|
    ensures fresh(sizes) && sizes.Length == 19 && forall s: nat :: s < 19 ==> sizes[s] < 8
    ensures old(r.Rest()) == SizeBits(cl, n) + more && (forall s: nat :: s < 19 ==> cl[s] < 8)
            && (forall k: nat :: n <= k < 19 ==> cl[OrderAt(k)] == 0)
            ==> ok && sizes[..] == cl && r.Rest() == more
    ensures ok && old(r.Snug()) ==> r.Snug()
    ensures ok ==> old(r.Rest()) == SizeBits(sizes[..], n) + r.Rest() && forall k: nat :: n <= k < 19 ==>
        sizes[OrderAt(k)] == 0
    ensures ok ==> SentInOrder(sizes[..], n, old(r.Rest()))
  {
    hide Supplied, ToBits, BytesBits, SentAt, Place, OrderAt, Pow2, SizeFrom, SizeBits, Placed, BitReader.Valid,
         BitReader.Rest, SizesRead;
    Pow2Values();
    sizes := new nat[19](_ => 0);
    ok := true;
    SizeFromStart(cl, n);
    NonePlaced(sizes[..], cl);
    NoSizesRead(sizes[..], r.Rest());
    ghost var matches := old(r.Rest()) == SizeBits(cl, n) + more && (forall s: nat :: s < 19 ==> cl[s] < 8);
    for i := 0 to n
      invariant r.Valid() && ok && |r.Rest()| <= |old(r.Rest())| && forall s: nat :: s < 19 ==> sizes[s] < 8
      invariant matches ==> r.Rest() == SizeFrom(cl, i, n) + more && Placed(sizes[..], cl, i)
      invariant old(r.Snug()) ==> r.Snug()
      invariant SizesRead(sizes[..], i, old(r.Rest()), r.Rest())
    {
      ghost var tail := SizeFrom(cl, i + 1, n) + more;
      SizeFromNext(cl, i, n, more);
      var b;
      ghost var rest := r.Rest();
      ok, b := ReadField(r, 3, cl[OrderAt(i)], tail);
      if !ok { return; }
      ghost var before := sizes[..];
      sizes[OrderAt(i)] := b;
      SizesReadNext(before, sizes[..], i, b, old(r.Rest()), rest, r.Rest());
      if matches {
        PlaceNext(before, cl, i);
        assert sizes[..] == before[OrderAt(i) := cl[OrderAt(i)]];
      }
    }
    SizeFromEnd(cl, n, more);
    if matches && forall k: nat :: n <= k < 19 ==> cl[OrderAt(k)] == 0 {
      PlacedAll(sizes[..], cl, n);
    }
    AllSizesRead(sizes[..], n, old(r.Rest()), r.Rest());
    AllInOrder(sizes[..], n, r.Rest());
  }

  /** The first i places of the sending order have been read, and nothing has been put in the others. */
  ghost predicate SizesRead(sizes: seq<nat>, i: nat, before: seq<bool>, after: seq<bool>) {
    && |sizes| == 19 && i <= 19 && before == SizeBits(sizes, i) + after
    && forall k: nat :: i <= k < 19 ==> sizes[OrderAt(k)] == 0
  }

  lemma NoSizesRead(sizes: seq<nat>, before: seq<bool>)
    requires |sizes| == 19 && forall s: nat :: s < 19 ==> sizes[s] == 0
    ensures SizesRead(sizes, 0, before, before)
  {
    JoinNothing(before);
  }

  lemma AllSizesRead(sizes: seq<nat>, n: nat, before: seq<bool>, after: seq<bool>)
    requires SizesRead(sizes, n, before, after)
    ensures before == SizeBits(sizes, n) + after && forall k: nat :: n <= k < 19 ==> sizes[OrderAt(k)] == 0
  {
  }

  lemma SizesReadNext(sizes: seq<nat>, sizes': seq<nat>, i: nat, b: nat, before: seq<bool>, rest: seq<bool>,
                      after: seq<bool>)
    requires SizesRead(sizes, i, before, rest) && i < 19 && sizes' == sizes[OrderAt(i) := b]
        && rest == ToBits(b, 3) + after
    ensures SizesRead(sizes', i + 1, before, after)
  {
    hide ToBits, OrderAt;
    SizesElsewhere(sizes, sizes', i, i);
    JoinAssoc(SizeBits(sizes, i), ToBits(b, 3), after);
    forall k: nat | i + 1 <= k < 19 ensures sizes'[OrderAt(k)] == 0 {
      OrderPlaces(i);
      OrderPlaces(k);
    }
  }

  /** Only the places sent count. */
  lemma {:induction false} SizesElsewhere(sizes: seq<nat>, sizes': seq<nat>, i: nat, at: nat)
    requires |sizes| == |sizes'| == 19 && i <= at < 19 && forall s: nat :: s < 19 && s != OrderAt(at) ==>
        sizes[s] == sizes'[s]
    ensures SizeBits(sizes, i) == SizeBits(sizes', i)
  {
    hide ToBits, OrderAt;
    if i > 0 {
      SizesElsewhere(sizes, sizes', i - 1, at);
      OrderPlaces(i - 1);
      OrderPlaces(at);
    }
  }

  // ---------- symbols ----------

  /** Read one symbol; if the unread bits begin with the code word of s, s is what is read. */
  method ReadSymbol(t: Table, r: BitReader, ghost lens: seq<nat>, ghost s: nat, ghost more: seq<bool>)
    returns (ok: bool, sym: nat)
    requires Usable(t, WordsOf(lens)) && r.Valid()
    modifies r
    ensures r.Valid() && (sym == 0 || sym < |lens|)
    ensures |r.Rest()| <= |old(r.Rest())| && (sym > 0 ==> |r.Rest()| < |old(r.Rest())|)
    ensures old(r.Rest()) == SymBits(lens, s) + more && Used(lens, s) ==>
        ok && sym == s && r.Rest() == more && (old(r.Snug()) ==> r.Snug())
    ensures ok ==> ReadFrom(lens, old(r.Rest()), r.Rest(), sym)
  {
    hide Supplied, Usable, WordsOf, Word, ReadFrom, BitReader.Rest;
    SymStarts(lens, s, more);
    ok, sym := Decode(t, r, WordsOf(lens));
    if ok { WordRead(lens, old(r.Rest()), r.Rest(), sym); }
  }

  /** What Decode promises is that the symbol has been read. */
  lemma WordRead(lens: seq<nat>, before: seq<bool>, after: seq<bool>, sym: nat)
    requires EndOf(after, before)
    requires forall s: nat :: InflateTables.Starts(WordsOf(lens), before, s) ==>
        sym == s && after == before[|WordsOf(lens)[s]|..]
    requires sym > 0 ==> InflateTables.Starts(WordsOf(lens), before, sym)
    requires !(Fills(WordsOf(lens)) && NoCode(WordsOf(lens), before))
    ensures ReadFrom(lens, before, after, sym)
  {
    hide Fills, WordsOf, Word;
    if Complete(lens) { CompleteFills(lens); }
    if s: nat :| InflateTables.Starts(WordsOf(lens), before, s) {
      assert Used(lens, sym) && WordsOf(lens)[sym] == Word(lens, sym);
      assert Between(before, after) == WordsOf(lens)[sym];
    }
  }

  lemma SymStarts(lens: seq<nat>, s: nat, more: seq<bool>)
    ensures |WordsOf(lens)| == |lens|
    ensures Used(lens, s) ==> InflateTables.Starts(WordsOf(lens), SymBits(lens, s) + more, s)
    ensures Used(lens, s) ==> (SymBits(lens, s) + more)[|WordsOf(lens)[s]|..] == more
  {
  }

  // ---------- the lengths of both codes ----------

  const LEN_CODES: nat := 457        // the size of m_len_codes

  method Fill(a: array<nat>, from: nat, value: nat, n: nat)
    requires from + n <= a.Length
    modifies a
    ensures a[..from + n] == old(a[..from]) + Copies(value, n)
    ensures forall k :: 0 <= k < a.Length && (k < from || k >= from + n) ==> a[k] == old(a[k])
  {
    for i := 0 to n
      invariant a[..from + i] == old(a[..from]) + Copies(value, i)
      invariant forall k :: 0 <= k < a.Length && (k < from || k >= from + i) ==> a[k] == old(a[k])
    {
      a[from + i] := value;
    }
  }

  /** The unread bits begin with item, and item makes sense here. */
  ghost predicate ItemNext(rest: seq<bool>, cl: seq<nat>, item: Item, more: seq<bool>, counter: nat) {
    && rest == ItemBits(cl, item) + more
    && item.Valid() && Used(cl, item.Symbol()) && (item.Repeat? ==> counter > 0)
  }

  /** One turn of the repeat loop. */
  method ReadItem(t: Table, r: BitReader, a: array<nat>, counter: nat, ghost cl: seq<nat>, ghost item: Item,
                  ghost more: seq<bool>)
    returns (status: Status, counter': nat, ghost read: Item, ghost w: seq<bool>)
    requires Usable(t, WordsOf(cl)) && |cl| == 19 && r.Valid() && a as object != t.lookUp && a as object != t.tree
    requires a.Length == LEN_CODES && counter < 320 && forall k :: 0 <= k < counter ==> a[k] <= 15
    modifies r, a
    ensures r.Valid() && |r.Rest()| <= |old(r.Rest())|
    ensures counter <= counter' <= a.Length && (status.Ok? ==> counter' > counter)
    ensures forall k :: 0 <= k < counter' ==> a[k] <= 15
    ensures ItemNext(old(r.Rest()), cl, item, more, counter) ==>
              && status.Ok? && r.Rest() == more && (old(r.Snug()) ==> r.Snug())
              && a[..counter'] == old(a[..counter]) + Run(old(a[..counter]), item)
    ensures status.Ok? ==> ItemRead(cl, w, read, old(a[..counter]), a[..counter'], old(r.Rest()), r.Rest())
  {
    hide Supplied, Usable, WordsOf, ToBits, SymBits, BytesBits, Used, Pow2, ReadFrom, ReadAs, ItemRead, BitReader.Rest;
    ghost var expected := ItemNext(old(r.Rest()), cl, item, more, counter);
    ghost var extras := ToBits(item.Extra(), item.ExtraBits()) + more;
    assert ItemBits(cl, item) + more == SymBits(cl, item.Symbol()) + extras;
    counter', read, w := counter, Len(0), [];
    ghost var before, done := r.Rest(), a[..counter];
    var ok, dist := ReadSymbol(t, r, cl, item.Symbol(), extras);
    if !ok {
      return NeedsMoreInput, counter', read, w;
    }
    ghost var mid := r.Rest();
    if dist < 16 {
      NoExtra(item, more);
      a[counter] := dist;
      counter' := counter + 1;
      assert a[..counter'] == old(a[..counter]) + [dist];
      w := LengthTaken(cl, dist, done, before, mid);
      return Ok, counter', Len(dist), w;
    }
    if dist == 16 && counter == 0 {
      return Failed, counter', read, w;
    }
    var s;
    ok, s := ReadField(r, ExtraWidth(dist), item.Extra(), more);
    if !ok {
      return NeedsMoreInput, counter', read, w;
    }
    read, w := RunTaken(cl, dist, s, done, before, mid, r.Rest());
    ExtraSmall(dist, s);
    s := s + if dist == 18 then 11 else 3;
    Fill(a, counter, if dist == 16 then a[counter - 1] else 0, s);
    counter' := counter + s;
    status := Ok;
  }

  lemma LengthTaken(cl: seq<nat>, len: nat, done: seq<nat>, before: seq<bool>, after: seq<bool>) returns (w: seq<bool>)
    requires len < 16 && ReadFrom(cl, before, after, len)
    ensures ItemRead(cl, w, Len(len), done, done + [len], before, after)
  {
    hide ReadAs;
    w := Between(before, after);
    Parts(before, after);
    JoinNothing(w);
    assert ToBits(0, 0) == [];
  }

  /** The repeat or the run of zeros that a symbol from 16 to 18 and its extra value are. */
  function RunItem(dist: nat, s: nat): Item
    requires 16 <= dist <= 18
  {
    if dist == 16 then Repeat(s) else if dist == 17 then Zeros(s) else ManyZeros(s)
  }

  lemma RunTaken(cl: seq<nat>, dist: nat, s: nat, done: seq<nat>, before: seq<bool>, mid: seq<bool>, after: seq<bool>)
    returns (item: Item, w: seq<bool>)
    requires 16 <= dist <= 18 && ReadFrom(cl, before, mid, dist) && (dist == 16 ==> done != [])
    requires s < Pow2(ExtraWidth(dist)) && mid == ToBits(s, ExtraWidth(dist)) + after
    ensures ItemRead(cl, w, item, done, done + Copies(if dist == 16 then done[|done| - 1]
        else 0, s + if dist == 18 then 11 else 3), before, after)
  {
    hide ReadAs, ToBits, Pow2;
    item, w := RunItem(dist, s), Between(before, mid);
    Parts(before, mid);
    JoinAssoc(w, ToBits(s, ExtraWidth(dist)), after);
  }

  lemma NoExtra(item: Item, more: seq<bool>)
    ensures item.Len? ==> ToBits(item.Extra(), item.ExtraBits()) + more == more
  {
    assert ToBits(item.Extra(), 0) == [];
  }

  lemma ExtraSmall(dist: nat, s: nat)
    requires 16 <= dist <= 18 && s < Pow2(ExtraWidth(dist))
    ensures s < 128
  {
    Pow2Values();
  }

  /** The repeat loop: lengths for both codes, one after another. */
  method ReadLengths(t: Table, r: BitReader, total: nat, ghost cl: seq<nat>, ghost items: seq<Item>,
                     ghost more: seq<bool>)
    returns (status: Status, a: array<nat>, ghost words: seq<seq<bool>>, ghost read: seq<Item>)
    requires Usable(t, WordsOf(cl)) && |cl| == 19 && r.Valid() && total <= 320
    modifies r
    ensures r.Valid() && |r.Rest()| <= |old(r.Rest())| && fresh(a) && a.Length == LEN_CODES
    ensures status.Ok? ==> forall k :: 0 <= k < total ==> a[k] <= 15
    ensures old(r.Rest()) == ItemsBits(cl, items) + more && SentLengths(cl, items, total)
            ==> status.Ok? && a[..total] == Expand(items) && r.Rest() == more && (old(r.Snug()) ==> r.Snug())
    ensures status.Ok? ==> LengthsRead(cl, words, read, a[..total], old(r.Rest()), r.Rest())
  {
    hide Supplied, Usable, WordsOf, ToBits, BytesBits, ItemsBits, ItemBits, SentLengths, Expand, LengthsRead, ItemRead,
         BitReader.Rest;
    a, words, read := new nat[LEN_CODES](_ => 0), [], [];
    NoLengthsRead(cl, r.Rest());
    assert a[..0] == [];
    var counter: nat := 0;
    ghost var k: nat := 0;
    ghost var expected := old(r.Rest()) == ItemsBits(cl, items) + more && SentLengths(cl, items, total);
    if expected { LengthsStart(cl, items, total, more); }
    while counter < total
      invariant r.Valid() && |r.Rest()| <= |old(r.Rest())| && counter <= a.Length && forall j :: 0 <= j < counter ==>
          a[j] <= 15
      invariant fresh(a) && a.Length == LEN_CODES && Usable(t, WordsOf(cl))
      invariant expected ==>
              LengthsTo(cl, items, total, more, k, counter, a[..counter], r.Rest())
              && (old(r.Snug()) ==> r.Snug())
      invariant LengthsRead(cl, words, read, a[..counter], old(r.Rest()), r.Rest())
      decreases LEN_CODES - counter
    {
      ghost var item := if expected && k < |items| then items[k] else Len(0);
      ghost var tail := if expected && k < |items| then ItemsBits(cl, items[k + 1..]) + more else [];
      ghost var done := a[..counter];
      if expected { LengthsNext(cl, items, total, more, k, counter, done, r.Rest()); }
      ghost var one, w, before := Len(0), [], r.Rest();
      status, counter, one, w := ReadItem(t, r, a, counter, cl, item, tail);
      if !status.Ok? { return; }
      LengthsReadNext(cl, words, read, done, old(r.Rest()), before, w, one, a[..counter], r.Rest());
      words, read := words + [w], read + [one];
      if expected {
        LengthsStep(cl, items, total, more, k, done, a[..counter], counter, r.Rest());
        k := k + 1;
      }
    }
    if expected { LengthsEnd(cl, items, total, more, k, counter, a[..counter], r.Rest()); }
    status := if counter != total then Failed else Ok;
  }

  /** The items are sendable and stand for total lengths. */
  ghost predicate SentLengths(cl: seq<nat>, items: seq<Item>, total: nat) {
    && WellFormed(items) && |Expand(items)| == total
    && forall i :: 0 <= i < |items| ==> Used(cl, items[i].Symbol())
  }

  /** k items are done. */
  ghost predicate LengthsTo(cl: seq<nat>, items: seq<Item>, total: nat, more: seq<bool>, k: nat, counter: nat,
                            done: seq<nat>, rest: seq<bool>) {
    && SentLengths(cl, items, total) && k <= |items|
    && WellFormed(items[..k]) && done == Expand(items[..k]) && counter == |done|
    && rest == ItemsBits(cl, items[k..]) + more
  }

  lemma LengthsStart(cl: seq<nat>, items: seq<Item>, total: nat, more: seq<bool>)
    requires SentLengths(cl, items, total)
    ensures LengthsTo(cl, items, total, more, 0, 0, [], ItemsBits(cl, items) + more)
  {
    assert items[0..] == items && items[..0] == [];
  }

  lemma LengthsNext(cl: seq<nat>, items: seq<Item>, total: nat, more: seq<bool>, k: nat, counter: nat, done: seq<nat>,
                    rest: seq<bool>)
    requires LengthsTo(cl, items, total, more, k, counter, done, rest) && counter < total
    ensures k < |items| && ItemNext(rest, cl, items[k], ItemsBits(cl, items[k + 1..]) + more, counter)
  {
    hide WellFormed, Expand, ItemsBits, ItemBits;
    AllDone(items, k);
    ItemFirst(cl, items, k, more);
    FormedAt(items, k);
  }

  lemma ItemFirst(cl: seq<nat>, items: seq<Item>, k: nat, more: seq<bool>)
    requires k < |items|
    ensures ItemsBits(cl, items[k..]) + more == ItemBits(cl, items[k]) + (ItemsBits(cl, items[k + 1..]) + more)
  {
    hide ItemBits;
    assert items[k..][0] == items[k] && items[k..][1..] == items[k + 1..];
    JoinAssoc(ItemBits(cl, items[k]), ItemsBits(cl, items[k + 1..]), more);
  }

  /** Each item of a well-formed list is, and a repeat is never the first. */
  lemma FormedAt(items: seq<Item>, k: nat)
    requires WellFormed(items) && k < |items| && WellFormed(items[..k])
    ensures items[k].Valid() && (items[k].Repeat? ==> Expand(items[..k]) != [])
  {
    hide Expand;
  }

  lemma AllDone(items: seq<Item>, k: nat)
    requires WellFormed(items) && k <= |items|
    ensures WellFormed(items[..k]) && (k == |items| ==> Expand(items[..k]) == Expand(items))
  {
    if k == |items| { assert items[..k] == items; }
  }

  lemma LengthsStep(cl: seq<nat>, items: seq<Item>, total: nat, more: seq<bool>, k: nat, done: seq<nat>,
                    done': seq<nat>, counter': nat, rest': seq<bool>)
    requires SentLengths(cl, items, total) && k < |items| && WellFormed(items[..k]) && done == Expand(items[..k])
    requires items[k].Repeat? ==> done != []
    requires done' == done + Run(done, items[k]) && counter' == |done'| && rest' == ItemsBits(cl, items[k + 1..]) + more
    ensures LengthsTo(cl, items, total, more, k + 1, counter', done', rest')
  {
    assert items[..k + 1][..k] == items[..k];
    AllDone(items, k + 1);
  }

  lemma LengthsEnd(cl: seq<nat>, items: seq<Item>, total: nat, more: seq<bool>, k: nat, counter: nat, done: seq<nat>,
                   rest: seq<bool>)
    requires LengthsTo(cl, items, total, more, k, counter, done, rest) && counter >= total
    ensures counter == total && done == Expand(items) && rest == more
  {
    ExpandPrefix(items, k);
    AllDone(items, k);
    assert k == |items|;
    assert items[k..] == [];
    assert ItemsBits(cl, []) + more == more;
  }

  lemma LastRun(items: seq<Item>)
    requires WellFormed(items) && items != []
    ensures WellFormed(items[..|items| - 1]) && |Expand(items[..|items| - 1])| < |Expand(items)|
  {
    hide Run, Item.Valid;
    var n := |items| - 1;
    assert items[..n] != [] ==> items[..n][0] == items[0];
    assert WellFormed(items[..n]);
    RunSome(Expand(items[..n]), items[n]);
  }

  lemma RunSome(done: seq<nat>, item: Item)
    requires item.Repeat? ==> done != []
    ensures |Run(done, item)| > 0
  {
  }

  lemma {:induction false} ExpandPrefix(items: seq<Item>, k: nat)
    requires WellFormed(items) && k <= |items|
    ensures WellFormed(items[..k]) && |Expand(items[..k])| <= |Expand(items)|
    ensures k < |items| ==> |Expand(items[..k])| < |Expand(items)|
    decreases |items|
  {
    hide Expand, WellFormed;
    if k < |items| {
      var n := |items| - 1;
      LastRun(items);
      ExpandPrefix(items[..n], k);
      assert items[..n][..k] == items[..k];
    } else {
      assert items[..k] == items;
    }
  }

  // ---------- the whole header ----------

  /** The three table arrays are big enough, and are different objects. */
  ghost predicate Roomy(t0: Table, t1: Table, t2: Table) {
    && t0 != t1 && t0 != t2 && t1 != t2
    && t0.lookUp.Length == t1.lookUp.Length == t2.lookUp.Length == InflateTables.FAST_SIZE
    && t0.tree.Length == 576 && t1.tree.Length == 64 && t2.tree.Length == 38
    && t0.Own() !! t1.Own() && t0.Own() !! t2.Own() && t1.Own() !! t2.Own()
    && t0.lookUp != t0.tree && t1.lookUp != t1.tree && t2.lookUp != t2.tree
  }

  /** A table built from lengths decodes them. */
  ghost predicate BuiltFor(t: Table, lens: seq<nat>)
    reads t, t.lookUp, t.tree
  {
    Acceptable(lens) && Usable(t, WordsOf(lens))
  }

  /** The table build, refused exactly for lengths that are not acceptable. */
  method BuildFor(t: Table, lens: seq<nat>) returns (ok: bool)
    requires Lengths(lens) && |lens| <= 288 && t.lookUp.Length == InflateTables.FAST_SIZE && t.lookUp != t.tree
    requires t.tree.Length >= 2 * |lens| && t.tree.Length >= 10
    modifies t, t.lookUp, t.tree
    ensures ok <==> Acceptable(lens)
    ensures ok ==> BuiltFor(t, lens)
  {
    ok := t.Build(lens);
    if Acceptable(lens) { AcceptedCheck(lens); }
    ShortWords(lens);
  }

  lemma AcceptedCheck(lens: seq<nat>)
    requires Acceptable(lens)
    ensures Complete(lens) || UsedUpTo(lens, MAX_BITS) <= 1
  {
  }

  lemma ShortWords(lens: seq<nat>)
    requires Lengths(lens) && |lens| <= 288
    ensures Short(WordsOf(lens))
  {
  }

  /** Header fields: HLIT, HDIST and HCLEN. */
  method ReadCounts(r: BitReader, ghost h: Header, ghost more: seq<bool>)
    returns (ok: bool, numLit: nat, numDist: nat, sent: nat)
    requires r.Valid() && h.Valid()
    modifies r
    ensures r.Valid() && |r.Rest()| <= |old(r.Rest())| && 257 <= numLit <= 288 && 1 <= numDist <= 32 && 4 <= sent <= 19
    ensures old(r.Rest()) == h.ToBitString() + more ==>
              && ok && numLit == |h.lit| && numDist == |h.dist| && sent == h.sent
              && r.Rest() == SizeBits(h.cl, h.sent) + (ItemsBits(h.cl, h.items) + more) && (old(r.Snug()) ==> r.Snug())
    ensures ok ==>
            old(r.Rest()) == ToBits(numLit - 257, 5)
            + (ToBits(numDist - 1, 5) + (ToBits(sent - 4, 4) + r.Rest()))
  {
    hide Supplied, ToBits, BytesBits, SizeBits, ItemsBits, Pow2, Acceptable, Expand, Header.Valid, BitReader.Rest;
    Pow2Values();
    HeaderShape(h);
    numLit, numDist, sent := 257, 1, 4;
    ghost var f3 := SizeBits(h.cl, h.sent) + (ItemsBits(h.cl, h.items) + more);
    ghost var f2 := ToBits(h.sent - 4, 4) + f3;
    ghost var f1 := ToBits(|h.dist| - 1, 5) + f2;
    assert h.ToBitString() + more == ToBits(|h.lit| - 257, 5) + f1;
    var b;
    ok, b := ReadField(r, 5, |h.lit| - 257, f1);
    numLit := b + 257;
    if !ok { return; }
    ok, b := ReadField(r, 5, |h.dist| - 1, f2);
    numDist := b + 1;
    if !ok { return; }
    ok, b := ReadField(r, 4, h.sent - 4, f3);
    sent := b + 4;
  }

  lemma HeaderShape(h: Header)
    requires h.Valid()
    ensures 257 <= |h.lit| <= 288 && 1 <= |h.dist| <= 32 && |h.cl| == 19 && 4 <= h.sent <= 19
  {
  }

  /** The code for the code lengths, then the code lengths. */
  method ReadBothLengths(r: BitReader, t2: Table, sent: nat, total: nat, ghost h: Header, ghost more: seq<bool>)
    returns (status: Status, a: array<nat>, ghost cl: seq<nat>, ghost words: seq<seq<bool>>,
        ghost items: seq<CodeLengthRle.Item>)
    requires r.Valid() && h.Valid() && 4 <= sent <= 19 && total <= 320
    requires t2.lookUp.Length == InflateTables.FAST_SIZE && t2.lookUp != t2.tree && t2.tree.Length == 38
    modifies r, t2, t2.lookUp, t2.tree
    ensures r.Valid() && |r.Rest()| <= |old(r.Rest())| && fresh(a) && a.Length == LEN_CODES
    ensures status.Ok? ==> forall k :: 0 <= k < total ==> a[k] <= 15
    ensures && old(r.Rest()) == SizeBits(h.cl, h.sent) + (ItemsBits(h.cl, h.items) + more)
            && sent == h.sent && total == |h.lit + h.dist|
            ==> status.Ok? && a[..total] == h.lit + h.dist && r.Rest() == more && (old(r.Snug()) ==> r.Snug())
    ensures status.Ok? ==> BothRead(cl, sent, words, items, a[..total], old(r.Rest()), r.Rest())
  {
    hide Supplied, SizeBits, ItemsBits, BytesBits, ToBits, OrderAt, Acceptable, Usable, WordsOf, BothRead, LengthsRead,
         BitReader.Rest;
    a, cl, words, items := new nat[LEN_CODES](_ => 0), [], [], [];
    ghost var expected := old(r.Rest()) == SizeBits(h.cl, h.sent) + (ItemsBits(h.cl, h.items) + more)
      && sent == h.sent && total == |h.lit + h.dist|;
    var ok, sizes := ReadSizes(r, sent, h.cl, ItemsBits(h.cl, h.items) + more);
    if !ok {
      return NeedsMoreInput, a, cl, words, items;
    }
    SmallLengths(sizes[..]);
    ok := BuildFor(t2, sizes[..]);
    if !ok {
      return Failed, a, cl, words, items;
    }
    cl := sizes[..];
    HeaderSends(h);
    ghost var mid := r.Rest();
    status, a, words, items := ReadLengths(t2, r, total, cl, h.items, more);
    if status.Ok? { BothTold(cl, sent, words, items, a[..total], old(r.Rest()), mid, r.Rest()); }
  }

  lemma HeaderSends(h: Header)
    requires h.Valid()
    ensures SentLengths(h.cl, h.items, |h.lit + h.dist|)
  {
  }

  lemma SmallLengths(lens: seq<nat>)
    requires forall k :: 0 <= k < |lens| ==> lens[k] < 8
    ensures Lengths(lens)
  {
  }

  /** HLIT, HDIST, HCLEN, the code for the code lengths, and the two lists of code lengths. */
  method ReadLists(r: BitReader, t2: Table, ghost h: Header, ghost more: seq<bool>)
    returns (status: Status, lit: seq<nat>, dist: seq<nat>, ghost read: Header, ghost words: seq<seq<bool>>)
    requires r.Valid() && h.Valid()
    requires t2.lookUp.Length == InflateTables.FAST_SIZE && t2.lookUp != t2.tree && t2.tree.Length == 38
    modifies r, t2, t2.lookUp, t2.tree
    ensures r.Valid() && |r.Rest()| <= |old(r.Rest())|
    ensures status.Ok? ==> Lengths(lit) && Lengths(dist) && 257 <= |lit| <= 288 && 1 <= |dist| <= 32
    ensures old(r.Rest()) == h.ToBitString() + more ==>
              status.Ok? && lit == h.lit && dist == h.dist && r.Rest() == more && (old(r.Snug()) ==> r.Snug())
    ensures status.Ok? ==> ListsRead(lit, dist, read, words, old(r.Rest()), r.Rest())
  {
    hide Supplied, SizeBits, ItemsBits, BytesBits, ToBits, OrderAt, Acceptable, Usable, WordsOf, Header.ToBitString,
         Header.Valid, Expand, WellFormed, BothRead, ListsRead, BitReader.Rest;
    HeaderShape(h);
    lit, dist, read, words := [], [], h, [];
    ghost var before := r.Rest();
    var ok, numLit, numDist, sent := ReadCounts(r, h, more);
    if !ok {
      return NeedsMoreInput, lit, dist, read, words;
    }
    ghost var mid := r.Rest();
    var a;
    ghost var cl, items;
    status, a, cl, words, items := ReadBothLengths(r, t2, sent, numLit + numDist, h, more);
    if status.Ok? {
      lit, dist := a[..numLit], a[numLit..numLit + numDist];
      ghost var both := a[..numLit + numDist];
      assert lit == both[..numLit] && dist == both[numLit..];
      Halves(both, numLit, h.lit, h.dist);
      read := ListsTold(lit, dist, cl, sent, words, items, before, mid, r.Rest());
    }
  }

  /**
    The header of a dynamic block. Whatever the input, an accepted header leaves two tables that
    decode the lengths read, and its bits are those the lengths were read from; on the bits of a
    valid header those are the lengths it was made from.
   */
  method ReadHeader(r: BitReader, t0: Table, t1: Table, t2: Table, ghost h: Header, ghost more: seq<bool>)
    returns (status: Status, lit: seq<nat>, dist: seq<nat>, ghost read: Header, ghost words: seq<seq<bool>>)
    requires r.Valid() && h.Valid() && Roomy(t0, t1, t2)
    modifies r, t0, t1, t2, t0.Own(), t1.Own(), t2.Own()
    ensures r.Valid() && |r.Rest()| <= |old(r.Rest())|
    ensures status.Ok? ==> BuiltFor(t0, lit) && BuiltFor(t1, dist) && 257 <= |lit| <= 288 && 1 <= |dist| <= 32
    ensures old(r.Rest()) == h.ToBitString() + more ==>
              status.Ok? && lit == h.lit && dist == h.dist && r.Rest() == more && (old(r.Snug()) ==> r.Snug())
    ensures status.Ok? ==>
              read.lit == lit && read.dist == dist && HeaderRead(read, words)
                  && old(r.Rest()) == HeaderText(read, words) + r.Rest()
  {
    hide Supplied, Acceptable, BuiltFor, Header.ToBitString, Header.Valid, ListsRead, HeaderRead, HeaderText,
         BitReader.Rest;
    status, lit, dist, read, words := ReadLists(r, t2, h, more);
    if !status.Ok? {
      return;
    }
    HeaderAccepted(h);
    var ok := BuildBoth(t0, t1, t2, lit, dist);
    if !ok {
      return Failed, lit, dist, read, words;
    }
    HeaderTold(lit, dist, read, words, old(r.Rest()), r.Rest());
  }

  /** The tables of both codes, the one for distances first. */
  method BuildBoth(t0: Table, t1: Table, ghost t2: Table, lit: seq<nat>, dist: seq<nat>) returns (ok: bool)
    requires Roomy(t0, t1, t2) && Lengths(lit) && |lit| <= 288 && Lengths(dist) && |dist| <= 32
    modifies t0, t1, t0.Own(), t1.Own()
    ensures ok <==> Acceptable(lit) && Acceptable(dist)
    ensures ok ==> BuiltFor(t0, lit) && BuiltFor(t1, dist)
  {
    hide Acceptable, Usable, WordsOf;
    ok := BuildFor(t1, dist);
    if ok { ok := BuildFor(t0, lit); }
  }

  lemma HeaderAccepted(h: Header)
    requires h.Valid()
    ensures Acceptable(h.lit) && Acceptable(h.dist)
  {
  }

  lemma Halves(a: seq<nat>, n: nat, lit: seq<nat>, dist: seq<nat>)
    requires n <= |a|
    ensures a == lit + dist && n == |lit| ==> a[..n] == lit && a[n..] == dist
    ensures a[..n] + a[n..] == a
  {
  }
}
