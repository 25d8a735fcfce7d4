/**
  Blocks, measured against the decoder of the standard. Both ways: from the bits of valid blocks it
  reads their data, and whatever it reads are the bits of valid blocks.
 */
module StandardBlocks {
  import opened Bits
  import opened Canonical
  import opened CodeBuffer
  import opened DynamicHeader
  import opened TokenWriter
  import opened Lz77
  import opened FixedCodes
  import opened Blocks
  import opened StandardCodes
  import opened StandardBodies
  import opened StandardHeaders
  import CodeLengthRle
  import InflateBlocks
  import Std = Standard

  // ---------- stored blocks ----------

  lemma {:induction false} BytesRead(bytes: seq<byte>, more: seq<bool>)
    ensures Std.Bytes(BytesBits(bytes) + more, |bytes|) == Std.Read(bytes, more)
    decreases |bytes|
  {
    hide ToBits, Std.Field, Pow2;
    if bytes == [] {
      JoinNothing(more);
    } else {
      Pow2Values();
      JoinAssoc(ToBits(bytes[0], 8), BytesBits(bytes[1..]), more);
      FieldReads(bytes[0], 8, BytesBits(bytes[1..]) + more);
      BytesRead(bytes[1..], more);
      assert [bytes[0]] + bytes[1..] == bytes;
    }
  }

  lemma {:induction false} BytesAre(bits: seq<bool>, n: nat)
    ensures var r := Std.Bytes(bits, n); r.Read? ==> bits == BytesBits(r.value) + r.rest
    decreases n
  {
    hide ToBits, Std.Field, Pow2;
    if n == 0 {
      JoinNothing(bits);
    } else {
      Pow2Values();
      FieldIs(bits, 8);
      var f := Std.Field(bits, 8);
      if f.Read? {
        BytesAre(f.rest, n - 1);
        var r := Std.Bytes(f.rest, n - 1);
        if r.Read? {
          assert ([f.value] + r.value)[1..] == r.value;
          JoinAssoc(ToBits(f.value, 8), BytesBits(r.value), r.rest);
        }
      }
    }
  }

  lemma StoredReads(fill: seq<bool>, bytes: seq<byte>, s: seq<byte>, more: seq<bool>)
    requires |bytes| < 0x1_0000
    requires |fill| == |fill + (StoredBits(bytes) + more)| % 8
    ensures Std.Stored(fill + (StoredBits(bytes) + more), s) == Std.Read(s + bytes, more)
  {
    hide ToBits, Std.Field, Std.Bytes, BytesBits, Pow2;
    Pow2Values();
    var n, x := |bytes|, BytesBits(bytes);
    var a, b := ToBits(n, 16), ToBits(0xFFFF - n, 16);
    JoinAssoc(a, b, x);
    JoinAssoc(a, b + x, more);
    JoinAssoc(b, x, more);
    assert Std.ToByte(fill + (StoredBits(bytes) + more)) == a + (b + (x + more));
    FieldReads(n, 16, b + (x + more));
    FieldReads(0xFFFF - n, 16, x + more);
    BytesRead(bytes, more);
  }

  lemma StoredIs(bits: seq<bool>, s: seq<byte>) returns (fill: seq<bool>, bytes: seq<byte>)
    requires Std.Stored(bits, s).Read?
    ensures |bytes| < 0x1_0000 && |fill| == |bits| % 8
    ensures var r := Std.Stored(bits, s); r.value == s + bytes && bits == fill + (StoredBits(bytes) + r.rest)
  {
    hide ToBits, Std.Field, Std.Bytes, BytesBits, Pow2;
    Pow2Values();
    fill := bits[..|bits| % 8];
    var r0 := Std.ToByte(bits);
    assert bits == fill + r0;
    FieldIs(r0, 16);
    var n, r1 := Std.Field(r0, 16).value, Std.Field(r0, 16).rest;
    FieldIs(r1, 16);
    var r2 := Std.Field(r1, 16).rest;
    BytesAre(r2, n);
    bytes := Std.Bytes(r2, n).value;
    var rest := Std.Bytes(r2, n).rest;
    var a, b, x := ToBits(n, 16), ToBits(0xFFFF - n, 16), BytesBits(bytes);
    JoinAssoc(a, b, x);
    JoinAssoc(a, b + x, rest);
    JoinAssoc(b, x, rest);
  }

  // ---------- single blocks ----------

  lemma FixedAgree()
    ensures Std.FixedLengths() == FixedLit() && Std.FixedDistances() == FixedDist()
  {
    FixedAt();
  }

  lemma FixedFitsTree()
    ensures Fits(FixedLit()) && Fits(FixedDist())
  {
    FixedComplete();
  }

  /** The standard reads from the content of a valid block its data. */
  lemma BlockReads(b: Block, s: seq<byte>, pos: nat, more: seq<bool>)
    requires b.Valid(s) && b.Shaped() && (pos + |b.Content(pos) + more|) % 8 == 0
    ensures Std.Block(b.Type(), b.Content(pos) + more, s) == Std.Read(b.Data(s), more)
  {
    hide ToBits, StoredBits, BodyBits, Expand, Feasible, Covers, FixedLit, FixedDist, Acceptable, Header.ToBitString,
         Std.Stored, Std.Body, Std.Dynamic, Fits, Padding, Filled, Std.FixedLengths, Std.FixedDistances;
    match b
    case Stored(bytes, fill) =>
      var front := Filled(fill, Padding(pos));
      JoinAssoc(front, StoredBits(bytes), more);
      InflateBlocks.SamePadding(pos, |b.Content(pos) + more|);
      StoredReads(front, bytes, s, more);
    case Fixed(ts) =>
      FixedAgree();
      FixedFitsTree();
      FixedCovers(ts);
      BodyReads(FixedLit(), FixedDist(), ts, s, more);
    case Dynamic(h, ts) =>
      JoinAssoc(h.ToBitString(), BodyBits(h.lit, h.dist, ts), more);
      HeaderReads(h, BodyBits(h.lit, h.dist, ts) + more, s);
      HeaderFitsTree(h);
      BodyReads(h.lit, h.dist, ts, s, more);
  }

  lemma HeaderFitsTree(h: Header)
    requires h.Valid()
    ensures Fits(h.lit) && Fits(h.dist)
  {
    hide Fits, Complete, CodeLengthRle.Expand, CodeLengthRle.WellFormed;
  }

  /** Whatever the standard reads as a block is the content of a valid one. */
  lemma BlockIs(type': nat, bits: seq<bool>, s: seq<byte>, pos: nat) returns (b: Block)
    requires Std.Block(type', bits, s).Read? && (pos + |bits|) % 8 == 0
    ensures b.Valid(s) && b.Shaped() && b.Type() == type'
    ensures var r := Std.Block(type', bits, s); b.Data(s) == r.value && bits == b.Content(pos) + r.rest
  {
    hide ToBits, StoredBits, BodyBits, Expand, Feasible, Covers, FixedLit, FixedDist, Acceptable, Header.ToBitString,
         Std.Stored, Std.Body, Std.Dynamic, Padding, Std.FixedLengths, Std.FixedDistances;
    if type' == 0 {
      var fill, bytes := StoredIs(bits, s);
      InflateBlocks.SamePadding(pos, |bits|);
      b := Stored(bytes, fill);
      JoinAssoc(fill, StoredBits(bytes), Std.Stored(bits, s).rest);
    } else if type' == 1 {
      FixedAgree();
      var ts := BodyIs(FixedLit(), FixedDist(), bits, s);
      b := Fixed(ts);
    } else {
      var h, rest := HeaderIs(bits, s);
      var ts := BodyIs(h.lit, h.dist, rest, s);
      b := Dynamic(h, ts);
      JoinAssoc(h.ToBitString(), BodyBits(h.lit, h.dist, ts), Std.Body(h.lit, h.dist, rest, s).rest);
    }
  }

  // ---------- lists of blocks ----------

  /** The bits of the first block, and those of the others. */
  lemma FirstBits(bs: seq<Block>, pos: nat, more: seq<bool>)
    requires AllShaped(bs) && bs != []
    ensures AllShaped(bs[1..]) && bs[0].Shaped()
    ensures var b, n := bs[0], pos + 3 + |bs[0].Content(pos + 3)|;
            AllBits(bs, pos, true) + more
            == ToBits(if |bs| == 1 then 1 else 0, 1) + (ToBits(b.Type(), 2)
                + (b.Content(pos + 3) + (AllBits(bs[1..], n, true) + more)))
  {
    hide ToBits, Block.Content, Block.Shaped;
    var b := bs[0];
    assert b in bs && forall c <- bs[1..] :: c in bs;
    var f, t, c := ToBits(if |bs| == 1 then 1 else 0, 1), ToBits(b.Type(), 2), b.Content(pos + 3);
    var others := AllBits(bs[1..], pos + 3 + |c|, true);
    JoinAssoc(f + t + c, others, more);
    JoinAssoc(f + t, c, others + more);
    JoinAssoc(f, t, c + (others + more));
  }

  /** The standard reads from the bits of valid blocks their data. */
  lemma {:induction false} InflateReads(bs: seq<Block>, s: seq<byte>, pos: nat, more: seq<bool>)
    requires ValidBlocks(s, bs) && AllShaped(bs) && bs != [] && (pos + |AllBits(bs, pos, true) + more|) % 8 == 0
    ensures Std.Inflate(AllBits(bs, pos, true) + more, s) == Std.Read(AllData(s, bs), more)
    decreases |bs|
  {
    hide ToBits, Block.Content, Block.Shaped, Block.Valid, Block.Data, AllBits, Std.Field, Std.Block, Pow2;
    Pow2Values();
    FirstBits(bs, pos, more);
    var b, n := bs[0], pos + 3 + |bs[0].Content(pos + 3)|;
    var others := AllBits(bs[1..], n, true) + more;
    FieldReads(if |bs| == 1 then 1 else 0, 1, ToBits(b.Type(), 2) + (b.Content(pos + 3) + others));
    FieldReads(b.Type(), 2, b.Content(pos + 3) + others);
    BlockReads(b, s, pos + 3, others);
    if |bs| == 1 {
      NoBlocks(n, more);
      assert bs[1..] == [];
    } else {
      InflateReads(bs[1..], b.Data(s), n, more);
    }
  }

  lemma NoBlocks(pos: nat, more: seq<bool>)
    ensures AllBits([], pos, true) + more == more
  {
    JoinNothing(more);
  }

  /** Whatever the standard reads as blocks are the bits of valid ones. */
  lemma {:induction false} InflateIs(bits: seq<bool>, s: seq<byte>, pos: nat) returns (bs: seq<Block>)
    requires Std.Inflate(bits, s).Read? && (pos + |bits|) % 8 == 0
    ensures ValidBlocks(s, bs) && AllShaped(bs) && bs != []
    ensures var r := Std.Inflate(bits, s); AllData(s, bs) == r.value && bits == AllBits(bs, pos, true) + r.rest
    decreases |bits|
  {
    hide ToBits, Block.Content, Block.Shaped, Block.Valid, Block.Data, AllBits, Std.Field, Std.Block, Pow2;
    Pow2Values();
    FieldIs(bits, 1);
    var final, r1 := Std.Field(bits, 1).value, Std.Field(bits, 1).rest;
    FieldIs(r1, 2);
    var type', r2 := Std.Field(r1, 2).value, Std.Field(r1, 2).rest;
    var b := BlockIs(type', r2, s, pos + 3);
    var n, r3 := pos + 3 + |b.Content(pos + 3)|, Std.Block(type', r2, s).rest;
    if final == 1 {
      bs := [b];
      assert bs[1..] == [];
      NoBlocks(n, r3);
      FirstBits(bs, pos, r3);
    } else {
      var cs := InflateIs(r3, b.Data(s), n);
      bs := [b] + cs;
      assert bs[1..] == cs;
      FirstBits(bs, pos, Std.Inflate(bits, s).rest);
    }
  }
}
