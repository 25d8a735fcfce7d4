/**
  A DEFLATE stream as a list of blocks (sections 3.2.3 and 3.2.4 of RFC 1951): the bits of each,
  which for a stored block depend on where it starts, and the data it adds.
 */
module Blocks {
  import opened Bits
  import opened Canonical
  import opened Tokens
  import opened CodeBuffer
  import opened TokenWriter
  import opened Lz77
  import opened DynamicHeader
  import opened FixedCodes
  import CodeLengthRle

  datatype Block =
    | Stored(bytes: seq<byte>, fill: seq<bool>)
    | Fixed(ts: seq<Token>)
    | Dynamic(h: Header, ts: seq<Token>)
  {
    /** The block makes sense after the data s. */
    ghost predicate Valid(s: seq<byte>) {
      match this
      case Stored(bytes, _) => |bytes| < 0x1_0000
      case Fixed(ts) => AllValid(ts) && Feasible(s, ts)
      case Dynamic(h, ts) => h.Valid() && AllValid(ts) && Covers(h.lit, h.dist, ts) && Feasible(s, ts)
    }

    /** The data after the block. */
    ghost function Data(s: seq<byte>): (r: seq<byte>)
      requires Valid(s)
      ensures s <= r
    {
      match this
      case Stored(bytes, _) => s + bytes
      case Fixed(ts) => Expand(s, ts)
      case Dynamic(_, ts) => Expand(s, ts)
    }

    /** Its form is all its bits need. */
    ghost predicate Shaped() {
      match this
      case Stored(bytes, _) => |bytes| < 0x1_0000
      case Fixed(ts) => AllValid(ts)
      case Dynamic(h, ts) => h.Valid() && AllValid(ts)
    }

    function Type(): nat {
      match this
      case Stored(_, _) => 0
      case Fixed(_) => 1
      case Dynamic(_, _) => 2
    }

    /** The bits after the block type, for a block whose content starts pos bits into the stream. */
    ghost function Content(pos: nat): seq<bool>
      requires Shaped()
    {
      match this
      case Stored(bytes, fill) => Filled(fill, Padding(pos)) + StoredBits(bytes)
      case Fixed(ts) => BodyBits(FixedLit(), FixedDist(), ts)
      case Dynamic(h, ts) => h.ToBitString() + BodyBits(h.lit, h.dist, ts)
    }

    /** The whole block, starting pos bits into the stream. */
    ghost function ToBitString(pos: nat, last: bool): seq<bool>
      requires Shaped()
    {
      ToBits(if last then 1 else 0, 1) + ToBits(Type(), 2) + Content(pos + 3)
    }
  }

  /** The bits up to the next byte boundary. */
  function Padding(pos: nat): nat {
    (8 - pos % 8) % 8
  }

  /** Bits up to a byte boundary, which say nothing: the given ones if they are n, otherwise zeros. */
  function Filled(fill: seq<bool>, n: nat): (bs: seq<bool>)
    ensures |bs| == n
  {
    if |fill| == n then fill else ToBits(0, n)
  }

  lemma FilledZero(n: nat)
    ensures Filled([], n) == ToBits(0, n)
  {
  }

  /** LEN, NLEN and the bytes themselves. */
  function StoredBits(bytes: seq<byte>): seq<bool>
    requires |bytes| < 0x1_0000
  {
    ToBits(|bytes|, 16) + ToBits(0xFFFF - |bytes|, 16) + BytesBits(bytes)
  }

  ghost predicate ValidBlocks(s: seq<byte>, bs: seq<Block>)
    decreases |bs|
  {
    bs == [] || (bs[0].Valid(s) && ValidBlocks(bs[0].Data(s), bs[1..]))
  }

  ghost function AllData(s: seq<byte>, bs: seq<Block>): (r: seq<byte>)
    requires ValidBlocks(s, bs)
    ensures s <= r
    decreases |bs|
  {
    if bs == [] then s else AllData(bs[0].Data(s), bs[1..])
  }

  ghost predicate AllShaped(bs: seq<Block>) {
    forall b <- bs :: b.Shaped()
  }

  /** The bits of a list of blocks of which the last one is marked as the final one, or none is. */
  ghost function AllBits(bs: seq<Block>, pos: nat, last: bool): seq<bool>
    requires AllShaped(bs)
  {
    if bs == [] then []
    else
      var b := bs[0].ToBitString(pos, last && |bs| == 1);
      b + AllBits(bs[1..], pos + |b|, last)
  }

  /** One more block at the end. */
  lemma {:induction false} BlocksPush(s: seq<byte>, bs: seq<Block>, b: Block)
    requires ValidBlocks(s, bs) && b.Valid(AllData(s, bs))
    ensures ValidBlocks(s, bs + [b]) && AllData(s, bs + [b]) == b.Data(AllData(s, bs))
    decreases |bs|
  {
    if bs == [] {
      assert bs + [b] == [b] && [b][1..] == [];
      assert AllData(b.Data(s), []) == b.Data(s);
    } else {
      assert (bs + [b])[1..] == bs[1..] + [b];
      BlocksPush(bs[0].Data(s), bs[1..], b);
    }
  }

  lemma BlockShift(b: Block, pos: nat, pos': nat, last: bool)
    requires b.Shaped() && pos % 8 == pos' % 8
    ensures b.ToBitString(pos, last) == b.ToBitString(pos', last)
  {
    hide BodyBits, StoredBits, ToBits, Header.ToBitString, FixedLit, FixedDist, Padding, Block.Shaped;
    PaddingShift(pos, pos');
  }

  lemma PaddingShift(pos: nat, pos': nat)
    requires pos % 8 == pos' % 8
    ensures Padding(pos + 3) == Padding(pos' + 3)
  {
    Shifted(pos);
    Shifted(pos');
  }

  lemma Shifted(pos: nat)
    ensures (pos + 3) % 8 == (pos % 8 + 3) % 8
  {
  }

  /** Only where a block starts within a byte matters. */
  lemma {:induction false} BitsShift(bs: seq<Block>, pos: nat, pos': nat, last: bool)
    requires AllShaped(bs) && pos % 8 == pos' % 8
    ensures AllBits(bs, pos, last) == AllBits(bs, pos', last)
  {
    hide Block.ToBitString, Block.Shaped;
    if bs != [] {
      BlockShift(bs[0], pos, pos', last && |bs| == 1);
      var n := |bs[0].ToBitString(pos, last && |bs| == 1)|;
      BitsShift(bs[1..], pos + n, pos' + n, last);
    }
  }

  /** More blocks at the end. */
  lemma {:induction false} BitsAppend(bs: seq<Block>, cs: seq<Block>, pos: nat, last: bool)
    requires AllShaped(bs) && AllShaped(cs) && cs != []
    ensures AllShaped(bs + cs)
    ensures AllBits(bs + cs, pos, last) == AllBits(bs, pos, false) + AllBits(cs, pos + |AllBits(bs, pos, false)|, last)
    decreases |bs|
  {
    hide Block.ToBitString, Block.Shaped;
    assert AllShaped(bs + cs);
    if bs == [] {
      assert bs + cs == cs && [] + AllBits(cs, pos, last) == AllBits(cs, pos, last);
    } else {
      assert (bs + cs)[1..] == bs[1..] + cs;
      var x := bs[0].ToBitString(pos, false);
      BitsAppend(bs[1..], cs, pos + |x|, last);
      var y := AllBits(bs[1..], pos + |x|, false);
      var z := AllBits(cs, pos + |x| + |y|, last);
      assert x + (y + z) == (x + y) + z;
    }
  }

  /** The mark of the last block and the block type as one field. */
  lemma ThreeBits(last: bool, type': nat)
    requires type' < 3
    ensures var v := (if last then 1 else 0) + 2 * type';
            v < Pow2(3) && ToBits(if last then 1 else 0, 1) + ToBits(type', 2) == ToBits(v, 3)
  {
    Pow2Table();
    var v := (if last then 1 else 0) + 2 * type';
    assert v / 2 == type';
    assert ToBits(v, 3) == [v % 2 == 1] + ToBits(v / 2, 2);
  }

  // ---------- a header always exists ----------

  lemma {:induction false} ZerosUnused(n: nat, m: nat)
    ensures UsedUpTo(CodeLengthRle.Copies(0, n), m) == 0
  {
    var z := CodeLengthRle.Copies(0, n);
    if n == 0 {
      assert z == [];
      UsedNone(m);
    } else {
      UsedUpToStep(z, m);
      assert z[..n - 1] == CodeLengthRle.Copies(0, n - 1);
      ZerosUnused(n - 1, m);
    }
  }

  lemma {:induction false} OneUsed(n: nat, m: nat)
    ensures UsedUpTo([1] + CodeLengthRle.Copies(0, n), m) <= 1
  {
    var z := [1] + CodeLengthRle.Copies(0, n);
    if n == 0 {
      assert z == [1];
      UsedAtMost(z, m);
    } else {
      UsedUpToStep(z, m);
      assert z[..n] == [1] + CodeLengthRle.Copies(0, n - 1);
      OneUsed(n - 1, m);
    }
  }

  lemma AnyHeader() returns (h: Header)
    ensures h.Valid()
  {
    hide Taken, UsedUpTo, CodeLengthRle.Expand;
    var items := CodeLengthRle.Singles(0, 258);
    h := Header(CodeLengthRle.Copies(0, 257), [0], [1] + CodeLengthRle.Copies(0, 18), 19, items);
    CodeLengthRle.ExpandSingles([], 0, 258);
    assert [] + items == items && CodeLengthRle.Copies(0, 258) == h.lit + h.dist;
    assert CodeLengthRle.Expand([]) + CodeLengthRle.Copies(0, 258) == CodeLengthRle.Copies(0, 258) by { NoItems(); }
    ZerosUnused(257, MAX_BITS);
    ZerosUnused(1, MAX_BITS);
    assert [0] == CodeLengthRle.Copies(0, 1);
    OneUsed(18, MAX_BITS);
    AcceptedFits(h.lit);
    AcceptedFits(h.dist);
    AcceptedFits(h.cl);
  }

  lemma NoItems()
    ensures CodeLengthRle.Expand([]) == []
  {
  }
}
