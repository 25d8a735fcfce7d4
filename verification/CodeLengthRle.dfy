/**
  Run-length coding of code lengths (section 3.2.7 of RFC 1951): the packing loop of
  tdefl_start_dynamic_block with its two RLE macros.
 */
module CodeLengthRle {
  import opened Bits

  /** What one code-length symbol, with its extra value, stands for. */
  datatype Item =
    | Len(len: nat)             // symbols 0..15
    | Repeat(extra: nat)        // symbol 16: the previous length 3..6 times
    | Zeros(extra: nat)         // symbol 17: 3..10 zeros
    | ManyZeros(extra: nat)     // symbol 18: 11..138 zeros
  {
    function Symbol(): nat {
      match this
      case Len(l) => l
      case Repeat(_) => 16
      case Zeros(_) => 17
      case ManyZeros(_) => 18
    }

    function ExtraBits(): nat {
      match this
      case Len(_) => 0
      case Repeat(_) => 2
      case Zeros(_) => 3
      case ManyZeros(_) => 7
    }

    function Extra(): nat {
      if Len? then 0 else extra
    }

    predicate Valid() {
      if Len? then len <= 15 else extra < Pow2(ExtraBits())
    }
  }

  function Copies(x: nat, n: nat): (s: seq<nat>)
    ensures |s| == n && forall i :: 0 <= i < n ==> s[i] == x
  {
    seq(n, _ => x)
  }

  /** The lengths one item adds after the list done so far; a repeat needs something to repeat. */
  function Run(done: seq<nat>, item: Item): seq<nat>
    requires item.Repeat? ==> done != []
  {
    match item
    case Len(l) => [l]
    case Repeat(e) => Copies(done[|done| - 1], e + 3)
    case Zeros(e) => Copies(0, e + 3)
    case ManyZeros(e) => Copies(0, e + 11)
  }

  /** The items make sense one after another: extra values fit, and symbol 16 is never first. */
  predicate WellFormed(items: seq<Item>) {
    (forall i :: 0 <= i < |items| ==> items[i].Valid()) && (items != [] ==> !items[0].Repeat?)
  }

  /** The list of lengths the items stand for. */
  function Expand(items: seq<Item>): (lens: seq<nat>)
    requires WellFormed(items)
    ensures items != [] ==> lens != []
  {
    if items == [] then []
    else
      var n := |items| - 1;
      var done := Expand(items[..n]);
      done + Run(done, items[n])
  }

  /** The items as the code packs them: a symbol byte, then the extra value if there is one. */
  function Flat(items: seq<Item>): seq<nat> {
    if items == [] then []
    else
      var n := |items| - 1;
      Flat(items[..n]) + if items[n].Len? then [items[n].len] else [items[n].Symbol(), items[n].extra]
  }

  /** How often a symbol occurs. */
  function Uses(items: seq<Item>, s: nat): nat {
    if items == [] then 0
    else
      var n := |items| - 1;
      Uses(items[..n], s) + if items[n].Symbol() == s then 1 else 0
  }

  // ---------- appending items ----------

  lemma ExpandPush(items: seq<Item>, item: Item)
    requires WellFormed(items) && item.Valid() && (item.Repeat? ==> items != [])
    ensures WellFormed(items + [item]) && Expand(items + [item]) == Expand(items) + Run(Expand(items), item)
    ensures Flat(items + [item]) == Flat(items) + if item.Len? then [item.len] else [item.Symbol(), item.extra]
    ensures forall s: nat :: Uses(items + [item], s) == Uses(items, s) + if item.Symbol() == s then 1 else 0
  {
    assert (items + [item])[..|items|] == items;
  }

  /** n items of one length. */
  function Singles(l: nat, n: nat): seq<Item> {
    seq(n, _ => Len(l))
  }

  lemma {:induction false} ExpandSingles(items: seq<Item>, l: nat, n: nat)
    requires WellFormed(items) && l <= 15
    ensures WellFormed(items + Singles(l, n)) && Expand(items + Singles(l, n)) == Expand(items) + Copies(l, n)
    ensures Flat(items + Singles(l, n)) == Flat(items) + Copies(l, n)
    ensures forall s: nat :: Uses(items + Singles(l, n), s) == Uses(items, s) + if l == s then n else 0
  {
    hide Expand, Flat, Uses;
    if n == 0 {
      assert items + Singles(l, 0) == items && Copies(l, 0) == [];
      assert Expand(items) + [] == Expand(items) && Flat(items) + [] == Flat(items);
    } else {
      ExpandSingles(items, l, n - 1);
      ExpandPush(items + Singles(l, n - 1), Len(l));
      assert items + Singles(l, n) == items + Singles(l, n - 1) + [Len(l)];
      assert Copies(l, n) == Copies(l, n - 1) + [l];
      assert Expand(items) + Copies(l, n) == Expand(items) + Copies(l, n - 1) + [l];
      assert Flat(items) + Copies(l, n) == Flat(items) + Copies(l, n - 1) + [l];
    }
  }

  /** Packing never takes more room than the lengths themselves. */
  lemma {:induction false} FlatFits(items: seq<Item>)
    requires WellFormed(items)
    ensures |Flat(items)| <= |Expand(items)|
  {
    if items != [] { FlatFits(items[..|items| - 1]); }
  }

  const NUM_SYMBOLS: nat := 19       // TDEFL_MAX_HUFF_SYMBOLS_2

  /** The packed list and the symbol counts say the same as items. */
  ghost predicate Packed(items: seq<Item>, packed: seq<nat>, count: seq<nat>) {
    && WellFormed(items) && packed == Flat(items)
    && |count| >= NUM_SYMBOLS && forall s: nat :: s < NUM_SYMBOLS ==> count[s] == Uses(items, s)
  }

  /** TDEFL_RLE_PREV_CODE_SIZE: write out a pending run of the previous length. */
  method FlushRepeat(packed: array<nat>, numPacked: nat, count: array<nat>, prev: nat, repeatCount: nat,
                     ghost items: seq<Item>)
    returns (numPacked': nat, ghost items': seq<Item>)
    requires packed != count && numPacked <= packed.Length && Packed(items, packed[..numPacked], count[..])
    requires repeatCount > 0 ==>
            prev <= 15 && repeatCount <= 6 && Expand(items) != []
            && Expand(items)[|Expand(items)| - 1] == prev
    requires numPacked + repeatCount <= packed.Length
    modifies packed, count
    ensures numPacked' <= packed.Length && Packed(items', packed[..numPacked'], count[..])
    ensures Expand(items') == Expand(items) + Copies(prev, repeatCount)
  {
    hide Expand, Flat, Uses;
    numPacked', items' := numPacked, items;
    if repeatCount != 0 {
      if repeatCount < 3 {
        ExpandSingles(items, prev, repeatCount);
        items' := items + Singles(prev, repeatCount);
        count[prev] := count[prev] + repeatCount;
        var left := repeatCount;
        while left > 0
          invariant 0 <= left <= repeatCount && numPacked' == numPacked + (repeatCount - left)
          invariant packed[..numPacked'] == old(packed[..numPacked]) + Copies(prev, repeatCount - left)
          invariant count[..] == old(count[..])[prev := old(count[prev]) + repeatCount]
        {
          left := left - 1;
          packed[numPacked'] := prev;
          numPacked' := numPacked' + 1;
        }
      } else {
        RepeatItem(items, repeatCount);
        items' := items + [Repeat(repeatCount - 3)];
        count[16] := count[16] + 1;
        packed[numPacked'] := 16;
        packed[numPacked' + 1] := repeatCount - 3;
        numPacked' := numPacked' + 2;
      }
    } else {
      assert Expand(items) + Copies(prev, 0) == Expand(items);
    }
  }

  lemma RepeatItem(items: seq<Item>, n: nat)
    requires WellFormed(items) && 3 <= n <= 6 && Expand(items) != []
    ensures items != [] && Repeat(n - 3).Valid()
    ensures WellFormed(items + [Repeat(n - 3)])
    ensures Expand(items + [Repeat(n - 3)]) == Expand(items) + Copies(Expand(items)[|Expand(items)| - 1], n)
    ensures Flat(items + [Repeat(n - 3)]) == Flat(items) + [16, n - 3]
    ensures forall s: nat :: Uses(items + [Repeat(n - 3)], s) == Uses(items, s) + if s == 16 then 1 else 0
  {
    ExpandPush(items, Repeat(n - 3));
  }

  lemma ZeroItem(items: seq<Item>, n: nat, item: Item)
    requires WellFormed(items) && 3 <= n <= 138 && item == if n <= 10 then Zeros(n - 3) else ManyZeros(n - 11)
    ensures item.Valid() && WellFormed(items + [item])
    ensures Expand(items + [item]) == Expand(items) + Copies(0, n)
    ensures Flat(items + [item]) == Flat(items) + [item.Symbol(), item.extra]
    ensures forall s: nat :: Uses(items + [item], s) == Uses(items, s) + if s == item.Symbol() then 1 else 0
  {
    Pow2Values();
    ExpandPush(items, item);
  }

  /** TDEFL_RLE_ZERO_CODE_SIZE: write out a pending run of zeros. */
  method FlushZeros(packed: array<nat>, numPacked: nat, count: array<nat>, zCount: nat, ghost items: seq<Item>)
    returns (numPacked': nat, ghost items': seq<Item>)
    requires packed != count && numPacked <= packed.Length && Packed(items, packed[..numPacked], count[..])
    requires zCount <= 138 && numPacked + zCount <= packed.Length
    modifies packed, count
    ensures numPacked' <= packed.Length && Packed(items', packed[..numPacked'], count[..])
    ensures Expand(items') == Expand(items) + Copies(0, zCount)
  {
    hide Expand, Flat, Uses;
    numPacked', items' := numPacked, items;
    if zCount != 0 {
      if zCount < 3 {
        ExpandSingles(items, 0, zCount);
        items' := items + Singles(0, zCount);
        count[0] := count[0] + zCount;
        var left := zCount;
        while left > 0
          invariant 0 <= left <= zCount && numPacked' == numPacked + (zCount - left)
          invariant packed[..numPacked'] == old(packed[..numPacked]) + Copies(0, zCount - left)
          invariant count[..] == old(count[..])[0 := old(count[0]) + zCount]
        {
          left := left - 1;
          packed[numPacked'] := 0;
          numPacked' := numPacked' + 1;
        }
      } else if zCount <= 10 {
        ZeroItem(items, zCount, Zeros(zCount - 3));
        items' := items + [Zeros(zCount - 3)];
        count[17] := count[17] + 1;
        packed[numPacked'] := 17;
        packed[numPacked' + 1] := zCount - 3;
        numPacked' := numPacked' + 2;
      } else {
        ZeroItem(items, zCount, ManyZeros(zCount - 11));
        items' := items + [ManyZeros(zCount - 11)];
        count[18] := count[18] + 1;
        packed[numPacked'] := 18;
        packed[numPacked' + 1] := zCount - 11;
        numPacked' := numPacked' + 2;
      }
    } else {
      assert Expand(items) + Copies(0, 0) == Expand(items);
    }
  }

  /** Between two lengths: done items plus the pending run are the lengths seen so far. */
  ghost predicate Pending(lens: seq<nat>, i: nat, items: seq<Item>, zCount: nat, repeatCount: nat, prev: nat)
    requires i <= |lens|
  {
    && WellFormed(items)
    && Expand(items) + Copies(if repeatCount > 0 then prev else 0, zCount + repeatCount) == lens[..i]
    && zCount < 138 && repeatCount < 6 && (zCount == 0 || repeatCount == 0)
    && prev == (if i == 0 then 0xFF else lens[i - 1])
    && (repeatCount > 0 ==> 0 < prev <= 15 && Expand(items) != [] && Expand(items)[|Expand(items)| - 1] == prev)
    && (0 < prev <= 15 && repeatCount == 0 ==>
        zCount == 0 && Expand(items) != [] && Expand(items)[|Expand(items)| - 1] == prev)
  }

  lemma CopiesMore(x: nat, m: nat, s: seq<nat>)
    ensures s + Copies(x, m + 1) == (s + Copies(x, m)) + [x]
    ensures s + Copies(x, 0) == s
  {
    assert Copies(x, m + 1) == Copies(x, m) + [x];
    assert Copies(x, 0) == [];
  }

  /** One turn of the packing loop on a length of zero. */
  method PackZero(lens: seq<nat>, i: nat, packed: array<nat>, numPacked: nat, count: array<nat>, prev: nat,
                  zCount: nat, repeatCount: nat, ghost items: seq<Item>)
    returns (numPacked': nat, zCount': nat, repeatCount': nat, ghost items': seq<Item>)
    requires i < |lens| <= packed.Length && lens[i] <= 15 && packed != count && lens[i] == 0
    requires numPacked <= packed.Length && Packed(items, packed[..numPacked], count[..])
    requires Pending(lens, i, items, zCount, repeatCount, prev)
    modifies packed, count
    ensures numPacked' <= packed.Length && Packed(items', packed[..numPacked'], count[..])
    ensures Pending(lens, i + 1, items', zCount', repeatCount', lens[i])
  {
    hide Expand, Flat, Uses;
    FlatFits(items);
    assert lens[..i + 1] == lens[..i] + [0];
    numPacked', items' := FlushRepeat(packed, numPacked, count, prev, repeatCount, items);
    repeatCount' := 0;
    zCount' := zCount + 1;
    CopiesMore(0, zCount, Expand(items'));
    CopiesMore(prev, 0, Expand(items));
    assert Expand(items') + Copies(0, zCount') == lens[..i + 1];
    if zCount' == 138 {
      FlatFits(items');
      numPacked', items' := FlushZeros(packed, numPacked', count, zCount', items');
      zCount' := 0;
      CopiesMore(0, 0, Expand(items'));
    }
  }

  /** One turn of the packing loop on any other length. */
  method PackLength(lens: seq<nat>, i: nat, packed: array<nat>, numPacked: nat, count: array<nat>, prev: nat,
                    zCount: nat, repeatCount: nat, ghost items: seq<Item>)
    returns (numPacked': nat, zCount': nat, repeatCount': nat, ghost items': seq<Item>)
    requires i < |lens| <= packed.Length && lens[i] <= 15 && packed != count && lens[i] != 0
    requires numPacked <= packed.Length && Packed(items, packed[..numPacked], count[..])
    requires Pending(lens, i, items, zCount, repeatCount, prev)
    modifies packed, count
    ensures numPacked' <= packed.Length && Packed(items', packed[..numPacked'], count[..])
    ensures Pending(lens, i + 1, items', zCount', repeatCount', lens[i])
  {
    hide Expand, Flat, Uses;
    var codeSize := lens[i];
    FlatFits(items);
    assert lens[..i + 1] == lens[..i] + [codeSize];
    numPacked', items' := FlushZeros(packed, numPacked, count, zCount, items);
    zCount', repeatCount' := 0, repeatCount;
    CopiesMore(0, 0, Expand(items));
    FlatFits(items');
    if codeSize != prev {
      CopiesMore(prev, 0, Expand(items'));
      numPacked', items' := FlushRepeat(packed, numPacked', count, prev, repeatCount, items');
      repeatCount' := 0;
      assert Expand(items') == lens[..i];
      FlatFits(items');
      ExpandPush(items', Len(codeSize));
      items' := items' + [Len(codeSize)];
      count[codeSize] := count[codeSize] + 1;
      packed[numPacked'] := codeSize;
      numPacked' := numPacked' + 1;
    } else {
      repeatCount' := repeatCount' + 1;
      CopiesMore(prev, repeatCount, Expand(items'));
      assert Expand(items') + Copies(prev, repeatCount') == lens[..i + 1];
      if repeatCount' == 6 {
        numPacked', items' := FlushRepeat(packed, numPacked', count, prev, repeatCount', items');
        repeatCount' := 0;
      }
    }
    CopiesMore(0, 0, Expand(items'));
  }

  /**
    The packing loop. Expanding what is packed gives the lengths back, the counts are those of the
    packed symbols, and the packed list is no longer than the lengths.
   */
  method Pack(lens: seq<nat>, packed: array<nat>, count: array<nat>) returns (numPacked: nat, ghost items: seq<Item>)
    requires |lens| <= packed.Length && packed != count && count.Length >= NUM_SYMBOLS
    requires forall i :: 0 <= i < |lens| ==> lens[i] <= 15
    modifies packed, count
    ensures numPacked <= |lens| && Packed(items, packed[..numPacked], count[..])
    ensures Expand(items) == lens
  {
    hide Expand, Flat, Uses;
    for s := 0 to NUM_SYMBOLS
      invariant forall k :: 0 <= k < s ==> count[k] == 0
    {
      count[s] := 0;
    }
    numPacked, items := 0, [];
    var zCount, repeatCount, prev := 0, 0, 0xFF;
    NothingPacked(lens, packed[..0], count[..]);
    for i := 0 to |lens|
      invariant numPacked <= packed.Length && Packed(items, packed[..numPacked], count[..])
      invariant Pending(lens, i, items, zCount, repeatCount, prev)
    {
      if lens[i] == 0 {
        numPacked, zCount, repeatCount, items := PackZero(lens, i, packed, numPacked, count, prev, zCount, repeatCount,
            items);
      } else {
        numPacked, zCount, repeatCount, items := PackLength(lens, i, packed, numPacked, count, prev, zCount,
            repeatCount, items);
      }
      prev := lens[i];
    }
    FlatFits(items);
    assert lens[..|lens|] == lens;
    if repeatCount != 0 {
      numPacked, items := FlushRepeat(packed, numPacked, count, prev, repeatCount, items);
    } else {
      numPacked, items := FlushZeros(packed, numPacked, count, zCount, items);
    }
    FlatFits(items);
  }

  lemma NothingPacked(lens: seq<nat>, packed: seq<nat>, count: seq<nat>)
    requires packed == [] && |count| >= NUM_SYMBOLS && forall k :: 0 <= k < NUM_SYMBOLS ==> count[k] == 0
    ensures Packed([], packed, count) && Pending(lens, 0, [], 0, 0, 0xFF)
  {
  }
}
