/**
  Headers of dynamic blocks, measured against the decoder of the standard: it reads from the bits of
  a valid header the lengths the header gives, and whatever it reads are the bits of one.
 */
module StandardHeaders {
  import opened Bits
  import opened Canonical
  import opened CodeLengthRle
  import opened DynamicHeader
  import opened HeaderReader
  import opened StandardCodes
  import Std = Standard

  // ---------- the sizes of the code-length code ----------

  lemma SentIsOrder(k: nat)
    requires k < 19
    ensures Std.Sent(k) == OrderAt(k)
  {
    OrderClosed(k);
  }

  lemma {:induction false} SizesReads(cl: seq<nat>, i: nat, n: nat, acc: seq<nat>, more: seq<bool>)
    requires |cl| == |acc| == 19 && i <= n <= 19 && Placed(acc, cl, i)
    requires (forall s :: 0 <= s < 19 ==> cl[s] < 8) && forall k: nat :: n <= k < 19 ==> cl[OrderAt(k)] == 0
    ensures Std.Sizes(SizeFrom(cl, i, n) + more, i, n, acc) == Std.Read(cl, more)
    decreases n - i
  {
    hide ToBits, OrderAt, Placed, Std.Field, Std.Sent, Place, SizeFrom;
    if i == n {
      SizeFromEnd(cl, n, more);
      PlacedAll(acc, cl, n);
    } else {
      SizeFromNext(cl, i, n, more);
      SentIsOrder(i);
      Pow2Values();
      FieldReads(cl[OrderAt(i)], 3, SizeFrom(cl, i + 1, n) + more);
      PlaceNext(acc, cl, i);
      SizesReads(cl, i + 1, n, acc[OrderAt(i) := cl[OrderAt(i)]], more);
    }
  }

  lemma {:induction false} SizesIs(bits: seq<bool>, k: nat, n: nat, acc: seq<nat>, before: seq<bool>)
    requires SizesRead(acc, k, before, bits) && k <= n <= 19 && |acc| == 19
    requires forall s :: 0 <= s < 19 ==> acc[s] < 8
    ensures var r := Std.Sizes(bits, k, n, acc);
            r.Read? ==> SizesRead(r.value, n, before, r.rest) && forall s :: 0 <= s < 19 ==> r.value[s] < 8
    decreases n - k
  {
    hide ToBits, OrderAt, SizesRead, SizeBits, Std.Field, Std.Sent;
    if k < n {
      FieldIs(bits, 3);
      Pow2Values();
      var f := Std.Field(bits, 3);
      if f.Read? {
        SentIsOrder(k);
        var next := acc[OrderAt(k) := f.value];
        SizesReadNext(acc, next, k, f.value, before, bits, f.rest);
        SizesIs(f.rest, k + 1, n, next, before);
      }
    }
  }

  // ---------- the lengths ----------

  lemma CopiesAre(x: nat, n: nat)
    ensures Copies(x, n) == seq(n, _ => x)
  {
  }

  /** One item is read as its run. */
  lemma ItemReads(cl: seq<nat>, item: Item, done: seq<nat>, total: nat, more: seq<bool>)
    requires Fits(cl) && |cl| == 19 && item.Valid() && Used(cl, item.Symbol()) && |done| < total
    requires item.Repeat? ==> done != []
    ensures Std.Lengths(cl, ItemBits(cl, item) + more, done, total)
         == Std.Lengths(cl, more, done + Run(done, item), total)
  {
    hide SymBits, ToBits, Std.Decode, Std.Field, Pow2, Fits, Used;
    Pow2Values();
    var extra := ToBits(item.Extra(), item.ExtraBits());
    JoinAssoc(SymBits(cl, item.Symbol()), extra, more);
    DecodeReads(cl, item.Symbol(), extra + more);
    match item
    case Len(l) =>
      assert extra == [] by { NoBits(l); }
      JoinNothing(more);
    case Repeat(e) =>
      FieldReads(e, 2, more);
      CopiesAre(done[|done| - 1], 3 + e);
    case Zeros(e) =>
      FieldReads(e, 3, more);
      CopiesAre(0, 3 + e);
    case ManyZeros(e) =>
      FieldReads(e, 7, more);
      CopiesAre(0, 11 + e);
  }

  lemma NoBits(l: nat)
    ensures ToBits(0, 0) == []
  {
  }

  lemma RunLonger(items: seq<Item>, item: Item)
    requires WellFormed(items) && item.Valid() && (item.Repeat? ==> items != [])
    ensures WellFormed(items + [item]) && Expand(items + [item]) == Expand(items) + Run(Expand(items), item)
    ensures |Expand(items)| < |Expand(items + [item])|
  {
    hide Flat, Uses;
    CodeLengthRle.ExpandPush(items, item);
  }

  lemma {:induction false} ExpandGrows(items: seq<Item>, more: seq<Item>)
    requires WellFormed(items + more)
    ensures WellFormed(items) && |Expand(items)| <= |Expand(items + more)|
    decreases |more|
  {
    hide Expand, Item.Valid;
    if more == [] {
      assert items + more == items;
    } else {
      var n := |more| - 1;
      assert items + more == (items + more[..n]) + [more[n]];
      LastLonger(items + more[..n], more[n]);
      ExpandGrows(items, more[..n]);
    }
  }

  lemma LastLonger(items: seq<Item>, item: Item)
    requires WellFormed(items + [item])
    ensures WellFormed(items) && |Expand(items)| <= |Expand(items + [item])|
  {
    hide Expand, Item.Valid;
    NextItem(items, [item]);
    RunLonger(items, item);
  }

  /** The items still to come are read after those read so far. */
  lemma {:induction false} LengthsReads(cl: seq<nat>, items: seq<Item>, next: seq<Item>, total: nat, more: seq<bool>)
    requires Fits(cl) && |cl| == 19 && WellFormed(items + next) && |Expand(items + next)| == total && WellFormed(items)
    requires forall i :: 0 <= i < |next| ==> Used(cl, next[i].Symbol())
    ensures Std.Lengths(cl, ItemsBits(cl, next) + more, Expand(items), total) == Std.Read(Expand(items + next), more)
    decreases |next|
  {
    hide Fits, Used, ItemBits, Run, Expand, Item.Valid, Item.Symbol;
    if next == [] {
      assert items + next == items;
      JoinNothing(more);
    } else {
      var item := next[0];
      NextItem(items, next);
      RunLonger(items, item);
      assert items + next == (items + [item]) + next[1..];
      ExpandGrows(items + [item], next[1..]);
      JoinAssoc(ItemBits(cl, item), ItemsBits(cl, next[1..]), more);
      ItemReads(cl, item, Expand(items), total, ItemsBits(cl, next[1..]) + more);
      LengthsReads(cl, items + [item], next[1..], total, more);
    }
  }

  lemma NextItem(items: seq<Item>, next: seq<Item>)
    requires WellFormed(items + next) && next != []
    ensures WellFormed(items) && next[0].Valid() && (next[0].Repeat? ==> items != [] && Expand(items) != [])
  {
    assert (items + next)[|items|] == next[0];
    assert forall i :: 0 <= i < |items| ==> (items + next)[i] == items[i];
  }

  /** Whatever is read as lengths are the bits of items. */
  lemma {:induction false} LengthsIs(cl: seq<nat>, bits: seq<bool>, items: seq<Item>, total: nat)
    returns (next: seq<Item>)
    requires WellFormed(items) && |cl| == 19 && Std.Lengths(cl, bits, Expand(items), total).Read?
    ensures WellFormed(items + next) && forall i :: 0 <= i < |next| ==> Used(cl, next[i].Symbol())
    ensures var r := Std.Lengths(cl, bits, Expand(items), total);
            r.value == Expand(items + next) && bits == ItemsBits(cl, next) + r.rest
    decreases |bits|
  {
    hide Used, ItemBits, Expand, Item.Valid, Item.Symbol, Std.Decode, Std.Field;
    var done := Expand(items);
    if |done| == total {
      next := [];
      assert items + next == items;
      JoinNothing(bits);
    } else {
      var item, rest := ItemIs(cl, bits, items, total);
      RunLonger(items, item);
      var us := LengthsIs(cl, rest, items + [item], total);
      next := [item] + us;
      assert items + next == (items + [item]) + us && next[1..] == us;
      JoinAssoc(ItemBits(cl, item), ItemsBits(cl, us), Std.Lengths(cl, bits, done, total).rest);
    }
  }

  lemma ItemIs(cl: seq<nat>, bits: seq<bool>, items: seq<Item>, total: nat) returns (item: Item, rest: seq<bool>)
    requires WellFormed(items) && |cl| == 19 && Std.Lengths(cl, bits, Expand(items), total).Read?
    requires |Expand(items)| != total
    ensures item.Valid() && (item.Repeat? ==> items != []) && Used(cl, item.Symbol()) && |rest| < |bits|
    ensures bits == ItemBits(cl, item) + rest
    ensures Std.Lengths(cl, bits, Expand(items), total)
         == Std.Lengths(cl, rest, Expand(items) + Run(Expand(items), item), total)
  {
    hide SymBits, ToBits, Std.Decode, Std.Field, Pow2, Used, Expand;
    Pow2Values();
    var done := Expand(items);
    NoItems();
    DecodeIs(cl, bits);
    var sym, r := Std.Decode(cl, bits).value, Std.Decode(cl, bits).rest;
    if sym < 16 {
      item, rest := Len(sym), r;
      NoBits(sym);
      JoinNothing(SymBits(cl, sym));
    } else {
      var n := if sym == 16 then 2 else if sym == 17 then 3 else 7;
      FieldIs(r, n);
      var f := Std.Field(r, n);
      item, rest := RunItem(sym, f.value), f.rest;
      JoinAssoc(SymBits(cl, sym), ToBits(f.value, n), rest);
      if sym == 16 {
        CopiesAre(done[|done| - 1], 3 + f.value);
      } else {
        CopiesAre(0, (if sym == 17 then 3 else 11) + f.value);
      }
    }
  }

  lemma NoItems()
    ensures Expand([]) == []
  {
  }

  // ---------- whole headers ----------

  lemma HeaderParts(h: Header, more: seq<bool>)
    requires h.Valid()
    ensures h.ToBitString() + more
         == ToBits(|h.lit| - 257, 5) + (ToBits(|h.dist| - 1, 5) + (ToBits(h.sent - 4, 4)
             + (SizeBits(h.cl, h.sent) + (ItemsBits(h.cl, h.items) + more))))
  {
    hide ToBits, SizeBits, ItemsBits, Acceptable, Expand, WellFormed;
    var a, b, c, d, e := ToBits(|h.lit| - 257, 5), ToBits(|h.dist| - 1, 5), ToBits(h.sent - 4, 4),
        SizeBits(h.cl, h.sent), ItemsBits(h.cl, h.items);
    JoinAssoc(a + b + c + d, e, more);
    JoinAssoc(a + b + c, d, e + more);
    JoinAssoc(a + b, c, d + (e + more));
    JoinAssoc(a, b, c + (d + (e + more)));
  }

  /** The bits of a valid header are read as the lengths it gives, and then the body is read. */
  lemma HeaderReads(h: Header, more: seq<bool>, s: seq<byte>)
    requires h.Valid()
    ensures Std.Dynamic(h.ToBitString() + more, s) == Std.Body(h.lit, h.dist, more, s)
  {
    hide ToBits, SizeBits, ItemsBits, Acceptable, Expand, WellFormed, Used, Fits, OrderAt, Std.Field, Std.Sizes,
         Std.Lengths, Std.Body, Std.MakesCode, Pow2, Std.WithCodes, Header.ToBitString;
    Pow2Values();
    HeaderParts(h, more);
    var r4 := SizeBits(h.cl, h.sent) + (ItemsBits(h.cl, h.items) + more);
    FieldReads(|h.lit| - 257, 5, ToBits(|h.dist| - 1, 5) + (ToBits(h.sent - 4, 4) + r4));
    FieldReads(|h.dist| - 1, 5, ToBits(h.sent - 4, 4) + r4);
    FieldReads(h.sent - 4, 4, r4);
    CodesRead(h, more, s);
  }

  lemma CodesRead(h: Header, more: seq<bool>, s: seq<byte>)
    requires h.Valid()
    ensures Std.WithCodes(SizeBits(h.cl, h.sent) + (ItemsBits(h.cl, h.items) + more), |h.lit|, |h.dist|, h.sent, s)
         == Std.Body(h.lit, h.dist, more, s)
  {
    hide ToBits, SizeBits, ItemsBits, Expand, WellFormed, Used, Fits, OrderAt, Std.Sizes, Std.Lengths, Std.Body,
         Std.MakesCode, Complete, Placed;
    var items := ItemsBits(h.cl, h.items) + more;
    var none := seq(19, _ => 0);
    NonePlaced(none, h.cl);
    SizeFromStart(h.cl, h.sent);
    SizesReads(h.cl, 0, h.sent, none, items);
    NoItems();
    assert [] + h.items == h.items;
    NoneWellFormed();
    LengthsReads(h.cl, [], h.items, |h.lit| + |h.dist|, more);
    CodeMade(h.cl);
    CodeMade(h.lit);
    CodeMade(h.dist);
    var lens := h.lit + h.dist;
    assert lens[..|h.lit|] == h.lit && lens[|h.lit|..] == h.dist;
  }

  lemma NoneWellFormed()
    ensures WellFormed([])
  {
  }

  /** Whatever is read as a dynamic block begins with the bits of a valid header. */
  lemma HeaderIs(bits: seq<bool>, s: seq<byte>) returns (h: Header, rest: seq<bool>)
    requires Std.Dynamic(bits, s).Read?
    ensures h.Valid() && bits == h.ToBitString() + rest
    ensures Std.Dynamic(bits, s) == Std.Body(h.lit, h.dist, rest, s)
  {
    hide ToBits, SizeBits, ItemsBits, Acceptable, Expand, WellFormed, Used, OrderAt, Std.Field, Std.Sizes, Std.Lengths,
         Std.Body, Std.MakesCode, Pow2, Std.WithCodes, Header.Valid;
    Pow2Values();
    FieldIs(bits, 5);
    var hlit, r1 := Std.Field(bits, 5).value, Std.Field(bits, 5).rest;
    FieldIs(r1, 5);
    var hdist, r2 := Std.Field(r1, 5).value, Std.Field(r1, 5).rest;
    FieldIs(r2, 4);
    var hclen, r3 := Std.Field(r2, 4).value, Std.Field(r2, 4).rest;
    h, rest := CodesAre(r3, hlit + 257, hdist + 1, hclen + 4, s);
    HeaderParts(h, rest);
  }

  lemma CodesAre(bits: seq<bool>, lits: nat, dists: nat, sent: nat, s: seq<byte>)
    returns (h: Header, rest: seq<bool>)
    requires 257 <= lits <= 288 && 1 <= dists <= 32 && 4 <= sent <= 19
    requires Std.WithCodes(bits, lits, dists, sent, s).Read?
    ensures h.Valid() && |h.lit| == lits && |h.dist| == dists && h.sent == sent
    ensures bits == SizeBits(h.cl, h.sent) + (ItemsBits(h.cl, h.items) + rest)
    ensures Std.WithCodes(bits, lits, dists, sent, s) == Std.Body(h.lit, h.dist, rest, s)
  {
    hide ToBits, SizeBits, ItemsBits, Expand, WellFormed, Used, OrderAt, Std.Sizes, Std.Lengths, Std.Body,
         Std.MakesCode, Acceptable;
    var none := seq(19, _ => 0);
    NoSizesRead(none, bits);
    SizesIs(bits, 0, sent, none, bits);
    var cl, r1 := Std.Sizes(bits, 0, sent, none).value, Std.Sizes(bits, 0, sent, none).rest;
    AllSizesRead(cl, sent, bits, r1);
    CodeMade(cl);
    NoItems();
    NoneWellFormed();
    var items := LengthsIs(cl, r1, [], lits + dists);
    assert [] + items == items;
    var lens := Expand(items);
    rest := Std.Lengths(cl, r1, [], lits + dists).rest;
    CodeMade(lens[..lits]);
    CodeMade(lens[lits..]);
    h := Header(lens[..lits], lens[lits..], cl, sent, items);
    assert h.lit + h.dist == lens;
  }
}
