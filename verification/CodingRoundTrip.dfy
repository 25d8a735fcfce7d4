/**
  The two ends undo each other, one layer at a time: fields written by the bit writer and read by
  the bit reader, and symbols sent with the compressor's Huffman codes and decoded with the
  inflater's tables for the same lengths.
 */
module CodingRoundTrip {
  import opened Bits
  import opened BitIO
  import opened Canonical
  import opened HuffmanEncoder
  import opened DynamicHeader
  import opened HuffTable
  import opened HuffDecode
  import opened HeaderReader
  import opened NodeCount
  import MinRedundancy

  // ---------- fields ----------

  /** Values and widths as TDEFL_PUT_BITS takes them. */
  predicate Fields(items: seq<(nat, nat)>) {
    forall it <- items :: it.1 <= 16 && it.0 < Pow2(it.1)
  }

  lemma {:induction false} PutAllSnoc(items: seq<(nat, nat)>, it: (nat, nat))
    ensures PutAll(items + [it]) == PutAll(items) + ToBits(it.0, it.1)
  {
    hide ToBits;
    if items == [] {
      assert items + [it] == [it] && [it][1..] == [];
      JoinNothing(ToBits(it.0, it.1));
    } else {
      assert (items + [it])[1..] == items[1..] + [it];
      PutAllSnoc(items[1..], it);
      JoinAssoc(ToBits(items[0].0, items[0].1), PutAll(items[1..]), ToBits(it.0, it.1));
    }
  }

  lemma {:induction false} PutAllSize(items: seq<(nat, nat)>)
    requires Fields(items)
    ensures |PutAll(items)| <= 16 * |items|
  {
    hide ToBits, Pow2;
    if items != [] {
      assert items[0] in items && forall it <- items[1..] :: it in items;
      PutAllSize(items[1..]);
    }
  }

  /** Put the fields and fill the last byte. */
  method PutFields(items: seq<(nat, nat)>) returns (bytes: seq<byte>)
    requires Fields(items)
    ensures exists pad: nat :: pad < 8 && BytesBits(bytes) == PutAll(items) + ToBits(0, pad)
  {
    hide ToBits, BytesBits, Pow2, PutAll, BitWriter.Valid, Fields;
    var w := new BitWriter(2 * |items| + 1);
    NoFields();
    assert items[..0] == [];
    for i := 0 to |items|
      invariant w.Valid() && w.stream == PutAll(items[..i]) && w.end == 2 * |items| + 1
    {
      FieldAt(items, i);
      w.Put(items[i].0, items[i].1);
      assert items[..i + 1] == items[..i] + [items[i]];
      PutAllSnoc(items[..i], items[i]);
    }
    assert items[..|items|] == items;
    PutAllSize(items);
    w.PadToByte();
    PosFits(w);
    bytes := w.out[..w.pos];
    assert (8 - |PutAll(items)| % 8) % 8 < 8;
  }

  lemma PosFits(w: BitWriter)
    requires w.Valid()
    ensures w.pos <= w.out.Length
  {
  }

  lemma NoFields()
    ensures PutAll([]) == []
  {
  }

  lemma FieldAt(items: seq<(nat, nat)>, i: nat)
    requires Fields(items) && i < |items|
    ensures items[i].1 <= 16 && items[i].0 < Pow2(items[i].1)
  {
    assert items[i] in items;
  }

  lemma {:induction false} PutAllFrom(items: seq<(nat, nat)>, i: nat, pad: seq<bool>)
    requires i < |items|
    ensures PutAll(items[i..]) + pad == ToBits(items[i].0, items[i].1) + (PutAll(items[i + 1..]) + pad)
  {
    hide ToBits;
    assert items[i..][1..] == items[i + 1..];
    JoinAssoc(ToBits(items[i].0, items[i].1), PutAll(items[i + 1..]), pad);
  }

  /** Reading fields of the same widths gives the same values. */
  method FieldsThereAndBack(items: seq<(nat, nat)>) returns (values: seq<nat>)
    requires Fields(items)
    ensures |values| == |items| && forall i :: 0 <= i < |items| ==> values[i] == items[i].0
  {
    hide ToBits, BytesBits, Pow2, PutAll, BitReader.Valid, BitReader.Rest, Fields;
    var bytes := PutFields(items);
    ghost var pad: nat :| pad < 8 && BytesBits(bytes) == PutAll(items) + ToBits(0, pad);
    var r := new BitReader(bytes, []);
    assert r.all == bytes;
    values := [];
    assert items[0..] == items;
    for i := 0 to |items|
      invariant r.Valid() && r.Rest() == PutAll(items[i..]) + ToBits(0, pad)
      invariant |values| == i && forall k :: 0 <= k < i ==> values[k] == items[k].0
    {
      FieldAt(items, i);
      PutAllFrom(items, i, ToBits(0, pad));
      var ok, v := ReadField(r, items[i].1, items[i].0, PutAll(items[i + 1..]) + ToBits(0, pad));
      values := values + [v];
    }
  }

  // ---------- symbols ----------

  /** The code words of a list of symbols. */
  ghost function WordsBits(lens: seq<nat>, syms: seq<nat>): seq<bool> {
    if syms == [] then [] else SymBits(lens, syms[0]) + WordsBits(lens, syms[1..])
  }

  lemma {:induction false} WordsSnoc(lens: seq<nat>, syms: seq<nat>, s: nat)
    ensures WordsBits(lens, syms + [s]) == WordsBits(lens, syms) + SymBits(lens, s)
  {
    hide SymBits;
    if syms == [] {
      assert syms + [s] == [s] && [s][1..] == [];
      JoinNothing(SymBits(lens, s));
    } else {
      assert (syms + [s])[1..] == syms[1..] + [s];
      WordsSnoc(lens, syms[1..], s);
      JoinAssoc(SymBits(lens, syms[0]), WordsBits(lens, syms[1..]), SymBits(lens, s));
    }
  }

  lemma WordsFrom(lens: seq<nat>, syms: seq<nat>, i: nat, pad: seq<bool>)
    requires i < |syms|
    ensures WordsBits(lens, syms[i..]) + pad == SymBits(lens, syms[i]) + (WordsBits(lens, syms[i + 1..]) + pad)
  {
    hide SymBits;
    assert syms[i..][1..] == syms[i + 1..];
    JoinAssoc(SymBits(lens, syms[i]), WordsBits(lens, syms[i + 1..]), pad);
  }

  lemma NoWords(lens: seq<nat>)
    ensures WordsBits(lens, []) == []
  {
  }

  lemma {:induction false} WordsSize(lens: seq<nat>, syms: seq<nat>)
    requires Acceptable(lens)
    ensures |WordsBits(lens, syms)| <= 15 * |syms|
  {
    hide Acceptable, Word;
    if syms != [] {
      WordsSize(lens, syms[1..]);
      if Used(lens, syms[0]) { AcceptableLength(lens, syms[0]); }
    }
  }

  /** Lengths and codes for the counts, as tdefl_start_dynamic_block sets them up. */
  method CodesFor(count: seq<nat>, limit: nat) returns (t: CodeTable)
    requires |count| <= MAX_SYMBOLS && 1 <= limit <= 15 && |count| <= Pow2(limit) && MinRedundancy.Sum(count) < 0x1_0000
    ensures fresh(t) && fresh(t.Own()) && Sendable(t, |count|) && LengthsFor(count, t.sizes[..|count|], limit)
  {
    hide Pow2, MinRedundancy.Sum, Word, Fits, Complete, UsedUpTo, LengthsFor;
    t := new CodeTable();
    for i := 0 to |count|
      invariant forall k :: 0 <= k < i ==> t.count[k] == count[k]
    {
      t.count[i] := count[i];
    }
    assert t.count[..|count|] == count;
    t.OptimizeHuffmanTable(|count|, limit, false);
    assert t.count[..|count|] == count;
  }

  /** Send the symbols. */
  method PutSymbols(t: CodeTable, n: nat, syms: seq<nat>) returns (bytes: seq<byte>)
    requires Sendable(t, n) && forall i :: 0 <= i < |syms| ==> Used(t.sizes[..n], syms[i])
    ensures exists pad: nat :: pad < 8 && BytesBits(bytes) == WordsBits(t.sizes[..n], syms) + ToBits(0, pad)
  {
    hide ToBits, BytesBits, WordsBits, SymBits, BitWriter.Valid, Acceptable, CodeTable.Coded, Used;
    ghost var lens := t.sizes[..n];
    var w := new BitWriter(2 * |syms| + 1);
    NoWords(lens);
    assert syms[..0] == [];
    for i := 0 to |syms|
      invariant w.Valid() && w.stream == WordsBits(lens, syms[..i]) && w.end == 2 * |syms| + 1
      invariant Sendable(t, n) && t.sizes[..n] == lens
    {
      PutSymbol(w, t, n, syms[i]);
      assert syms[..i + 1] == syms[..i] + [syms[i]];
      WordsSnoc(lens, syms[..i], syms[i]);
    }
    assert syms[..|syms|] == syms;
    WordsSize(lens, syms);
    w.PadToByte();
    PosFits(w);
    bytes := w.out[..w.pos];
    assert (8 - |WordsBits(lens, syms)| % 8) % 8 < 8;
  }

  /** Decode as many symbols as were sent. */
  method GetSymbols(t: Table, bytes: seq<byte>, n: nat, ghost lens: seq<nat>, ghost syms: seq<nat>, ghost pad: nat)
    returns (decoded: seq<nat>)
    requires BuiltFor(t, lens) && n == |syms| && BytesBits(bytes) == WordsBits(lens, syms) + ToBits(0, pad)
    requires forall i :: 0 <= i < |syms| ==> Used(lens, syms[i])
    ensures decoded == syms
  {
    hide ToBits, BytesBits, WordsBits, SymBits, BitReader.Valid, BitReader.Rest, Usable, Acceptable, Used, WordsOf;
    var r := new BitReader(bytes, []);
    assert r.all == bytes;
    decoded := [];
    assert syms[0..] == syms;
    for i := 0 to n
      invariant r.Valid() && BuiltFor(t, lens)
      invariant r.Rest() == WordsBits(lens, syms[i..]) + ToBits(0, pad) && decoded == syms[..i]
    {
      WordsFrom(lens, syms, i, ToBits(0, pad));
      var ok, s := ReadSymbol(t, r, lens, syms[i], WordsBits(lens, syms[i + 1..]) + ToBits(0, pad));
      decoded := decoded + [s];
      assert syms[..i + 1] == syms[..i] + [syms[i]];
    }
    assert syms[..n] == syms;
  }

  /**
    For any counts with a 16-bit total and any list of counted symbols: the inflater accepts the
    lengths the compressor has made, and decodes what the compressor's codes say.
   */
  method SymbolsThereAndBack(count: seq<nat>, limit: nat, syms: seq<nat>) returns (accepted: bool, decoded: seq<nat>)
    requires |count| <= MAX_SYMBOLS && 1 <= limit <= 15 && |count| <= Pow2(limit) && MinRedundancy.Sum(count) < 0x1_0000
    requires forall i :: 0 <= i < |syms| ==> syms[i] < |count| && count[syms[i]] > 0
    ensures accepted && decoded == syms
  {
    hide Pow2, MinRedundancy.Sum, ToBits, BytesBits, WordsBits, Usable, WordsOf, Word, BuiltFor, CodeTable.Coded;
    var t := CodesFor(count, limit);
    AllUsed(count, t.sizes[..|count|], limit, syms);
    var bytes := PutSymbols(t, |count|, syms);
    ghost var pad: nat :| pad < 8 && BytesBits(bytes) == WordsBits(t.sizes[..|count|], syms) + ToBits(0, pad);
    var lens := t.sizes[..|count|];
    AllShort(lens);
    var table := new Table(288);
    accepted := BuildFor(table, lens);
    decoded := GetSymbols(table, bytes, |syms|, lens, syms, pad);
  }

  lemma AllUsed(count: seq<nat>, lens: seq<nat>, limit: nat, syms: seq<nat>)
    requires LengthsFor(count, lens, limit) && forall i :: 0 <= i < |syms| ==> syms[i] < |count| && count[syms[i]] > 0
    ensures forall i :: 0 <= i < |syms| ==> Used(lens, syms[i])
  {
  }

  lemma AllShort(lens: seq<nat>)
    requires Acceptable(lens)
    ensures Lengths(lens)
  {
  }
}
