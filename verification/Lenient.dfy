/**
  What tinfl_decompress takes for a DEFLATE stream. It asks for less than the format does: the bits
  up to a stored block may be anything, symbols 286 and 287 stand for empty matches, length 258 may
  also be spelt with symbol 284, in a ring any distance does, and where an incomplete code has no
  word for what comes next, symbol 0 is read from it.
 */
module Lenient {
  import opened Bits
  import opened BitIO
  import opened Canonical
  import opened CodeLengthRle
  import opened Tokens
  import opened DynamicHeader
  import opened FixedCodes
  import opened Blocks
  import Lz77

  // ---------- symbols ----------

  /** The bits w are read as this symbol: they are its code word, or the code is incomplete and they are none. */
  ghost predicate ReadAs(lens: seq<nat>, w: seq<bool>, sym: nat) {
    (Used(lens, sym) && w == Word(lens, sym)) || (sym == 0 && !Complete(lens))
  }

  /** What lies between one end of the input and a later one. */
  function Between(before: seq<bool>, after: seq<bool>): seq<bool>
    requires |after| <= |before|
  {
    before[..|before| - |after|]
  }

  ghost predicate ReadFrom(lens: seq<nat>, before: seq<bool>, after: seq<bool>, sym: nat) {
    EndOf(after, before) && ReadAs(lens, Between(before, after), sym)
  }

  lemma Parts(before: seq<bool>, after: seq<bool>)
    requires EndOf(after, before)
    ensures before == Between(before, after) + after
  {
  }

  // ---------- headers ----------

  /** The items of a header, each with the bits its symbol was read from. */
  function ItemsText(words: seq<seq<bool>>, items: seq<Item>): seq<bool>
    requires |words| == |items|
    decreases |items|
  {
    if items == [] then []
    else
      var n := |items| - 1;
      ItemsText(words[..n], items[..n]) + (words[n] + ToBits(items[n].Extra(), items[n].ExtraBits()))
  }

  ghost predicate ItemsRead(cl: seq<nat>, words: seq<seq<bool>>, items: seq<Item>) {
    |words| == |items| && forall i :: 0 <= i < |items| ==> ReadAs(cl, words[i], items[i].Symbol())
  }

  lemma ItemsTextPush(words: seq<seq<bool>>, items: seq<Item>, w: seq<bool>, item: Item, before: seq<bool>,
                      after: seq<bool>)
    requires |words| == |items| && before == (w + ToBits(item.Extra(), item.ExtraBits())) + after
    ensures ItemsText(words, items) + before == ItemsText(words + [w], items + [item]) + after
  {
    hide ToBits;
    assert (words + [w])[..|words|] == words && (items + [item])[..|items|] == items;
    JoinAssoc(ItemsText(words, items), w + ToBits(item.Extra(), item.ExtraBits()), after);
  }

  /** From before to after an item has been read, which turns the lengths done into done'. */
  ghost predicate ItemRead(cl: seq<nat>, w: seq<bool>, item: Item, done: seq<nat>, done': seq<nat>, before: seq<bool>,
                           after: seq<bool>) {
    && item.Valid() && (item.Repeat? ==> done != []) && done' == done + Run(done, item)
    && ReadAs(cl, w, item.Symbol()) && before == (w + ToBits(item.Extra(), item.ExtraBits())) + after
  }

  /** From before to after items have been read that stand for the lengths done. */
  ghost predicate LengthsRead(cl: seq<nat>, words: seq<seq<bool>>, items: seq<Item>, done: seq<nat>, before: seq<bool>,
                              after: seq<bool>) {
    && ItemsRead(cl, words, items) && WellFormed(items) && Expand(items) == done
    && before == ItemsText(words, items) + after
  }

  lemma NoLengthsRead(cl: seq<nat>, before: seq<bool>)
    ensures LengthsRead(cl, [], [], [], before, before)
  {
    JoinNothing(before);
  }

  lemma LengthsReadNext(cl: seq<nat>, words: seq<seq<bool>>, items: seq<Item>, done: seq<nat>, first: seq<bool>,
                        before: seq<bool>, w: seq<bool>, item: Item, done': seq<nat>, after: seq<bool>)
    requires LengthsRead(cl, words, items, done, first, before) && ItemRead(cl, w, item, done, done', before, after)
    ensures LengthsRead(cl, words + [w], items + [item], done', first, after)
  {
    hide ToBits, Pow2, Run, ReadAs;
    var all := items + [item];
    assert all[..|items|] == items;
    assert WellFormed(all) by {
      if items == [] { assert Expand(items) == []; }
    }
    ItemsTextPush(words, items, w, item, before, after);
  }

  /**
    From before to after the two lists of lengths have been read, under the code cl, of whose
    lengths this many were sent.
   */
  ghost predicate BothRead(cl: seq<nat>, sent: nat, words: seq<seq<bool>>, items: seq<Item>, lengths: seq<nat>,
                           before: seq<bool>, after: seq<bool>) {
    && |cl| == 19 && 4 <= sent <= 19 && Acceptable(cl) && (forall k :: 0 <= k < 19 ==> cl[k] < 8)
    && (forall k: nat :: sent <= k < 19 ==> cl[OrderAt(k)] == 0)
    && ItemsRead(cl, words, items) && WellFormed(items) && Expand(items) == lengths
    && before == (SizeBits(cl, sent) + ItemsText(words, items)) + after
  }

  lemma BothTold(cl: seq<nat>, sent: nat, words: seq<seq<bool>>, items: seq<Item>, lengths: seq<nat>,
                 before: seq<bool>, mid: seq<bool>, after: seq<bool>)
    requires |cl| == 19 && 4 <= sent <= 19 && Acceptable(cl) && (forall k :: 0 <= k < 19 ==> cl[k] < 8)
    requires forall k: nat :: sent <= k < 19 ==> cl[OrderAt(k)] == 0
    requires before == SizeBits(cl, sent) + mid && LengthsRead(cl, words, items, lengths, mid, after)
    ensures BothRead(cl, sent, words, items, lengths, before, after)
  {
    hide SizeBits, ItemsText, OrderAt, Acceptable, WellFormed, Expand, ReadAs;
    JoinAssoc(SizeBits(cl, sent), ItemsText(words, items), after);
  }

  /** A header as the inflater takes it, with the bits the symbols of its items were read from. */
  ghost predicate HeaderRead(h: Header, words: seq<seq<bool>>) {
    && 257 <= |h.lit| <= 288 && 1 <= |h.dist| <= 32 && |h.cl| == 19 && 4 <= h.sent <= 19
    && WellFormed(h.items) && Expand(h.items) == h.lit + h.dist
    && (forall k :: 0 <= k < 19 ==> h.cl[k] < 8)
    && (forall k: nat :: h.sent <= k < 19 ==> h.cl[OrderAt(k)] == 0)
    && Acceptable(h.cl) && Acceptable(h.lit) && Acceptable(h.dist)
    && ItemsRead(h.cl, words, h.items)
  }

  /** Its bits, if it has the form of a header. */
  function HeaderText(h: Header, words: seq<seq<bool>>): seq<bool> {
    if |h.cl| == 19 && 257 <= |h.lit| && 1 <= |h.dist| && 4 <= h.sent <= 19 && |words| == |h.items| then
      ToBits(|h.lit| - 257, 5) + (ToBits(|h.dist| - 1, 5) + (ToBits(h.sent - 4, 4)
          + (SizeBits(h.cl, h.sent) + ItemsText(words, h.items))))
    else []
  }

  /**
    From before to after a header with these lists of lengths has been read; whether they are
    accepted is another matter.
   */
  ghost predicate ListsRead(lit: seq<nat>, dist: seq<nat>, h: Header, words: seq<seq<bool>>, before: seq<bool>,
                            after: seq<bool>) {
    && h.lit == lit && h.dist == dist && before == HeaderText(h, words) + after
    && (Acceptable(lit) && Acceptable(dist) ==> HeaderRead(h, words))
  }

  lemma ListsTold(lit: seq<nat>, dist: seq<nat>, cl: seq<nat>, sent: nat, words: seq<seq<bool>>, items: seq<Item>,
                  before: seq<bool>, mid: seq<bool>, after: seq<bool>)
    returns (h: Header)
    requires 257 <= |lit| <= 288 && 1 <= |dist| <= 32 && 4 <= sent
    requires before == ToBits(|lit| - 257, 5) + (ToBits(|dist| - 1, 5) + (ToBits(sent - 4, 4) + mid))
    requires BothRead(cl, sent, words, items, lit + dist, mid, after)
    ensures ListsRead(lit, dist, h, words, before, after)
  {
    hide SizeBits, ItemsText, OrderAt, Acceptable, WellFormed, Expand, ToBits, ReadAs;
    h := Header(lit, dist, cl, sent, items);
    var a, b, c, d := ToBits(|lit| - 257, 5), ToBits(|dist| - 1, 5), ToBits(sent - 4, 4),
        SizeBits(cl, sent) + ItemsText(words, items);
    JoinAssoc(c, d, after);
    JoinAssoc(b, c + d, after);
    JoinAssoc(a, b + (c + d), after);
  }

  lemma HeaderTold(lit: seq<nat>, dist: seq<nat>, h: Header, words: seq<seq<bool>>, before: seq<bool>, after: seq<bool>)
    requires ListsRead(lit, dist, h, words, before, after) && Acceptable(lit) && Acceptable(dist)
    ensures h.lit == lit && h.dist == dist && HeaderRead(h, words) && before == HeaderText(h, words) + after
  {
    hide Acceptable, HeaderRead, HeaderText;
  }

  // ---------- bodies ----------

  /** A literal, or a match: the bits its symbols were read from, the symbols, and the extra values. */
  datatype Piece =
    | Byte(w: seq<bool>, b: nat)
    | Copy(w: seq<bool>, sym: nat, more: nat, u: seq<bool>, dsym: nat, further: nat)
  {
    ghost predicate Proper(lit: seq<nat>, dist: seq<nat>) {
      match this
      case Byte(w, b) => b < 256 && ReadAs(lit, w, b)
      case Copy(w, sym, more, u, dsym, further) =>
        && 257 <= sym < 288 && ReadAs(lit, w, sym) && more < Pow2(LengthExtra(sym - 257))
        && dsym < 32 && ReadAs(dist, u, dsym) && further < Pow2(DistanceExtra(dsym))
    }

    function Length(): nat
      requires Copy? && 257 <= sym < 288
    {
      LengthBase(sym - 257) + more
    }

    function Distance(): nat
      requires Copy? && dsym < 32
    {
      DistBase(dsym) + further
    }

    /** Its bits, if its symbols are in range. */
    function Text(): seq<bool> {
      match this
      case Byte(w, _) => w
      case Copy(w, sym, more, u, dsym, further) =>
        if 257 <= sym < 288 && dsym < 32 then
          w + (ToBits(more, LengthExtra(sym - 257)) + (u + ToBits(further, DistanceExtra(dsym))))
        else []
    }
  }

  /** The output: how large its buffer is, and whether that is a ring. */
  datatype Room = Room(size: nat, ring: bool)

  /** In a ring a distance counts modulo its size. */
  function Effective(dist: nat, room: Room): int
    requires room.size > 0
  {
    (dist - 1) % room.size + 1
  }

  /** A distance the inflater does not refuse: in a buffer that holds everything it must not go back too far. */
  ghost predicate InReach(s: seq<byte>, dist: nat, room: Room) {
    room.size > 0 && Effective(dist, room) <= |s| && (!room.ring ==> 1 <= dist <= |s| && dist <= room.size)
  }

  ghost predicate Applies(s: seq<byte>, p: Piece, lit: seq<nat>, dist: seq<nat>, room: Room) {
    p.Proper(lit, dist) && (p.Copy? ==> InReach(s, p.Distance(), room))
  }

  ghost function Applied(s: seq<byte>, p: Piece, lit: seq<nat>, dist: seq<nat>, room: Room): seq<byte> {
    if !Applies(s, p, lit, dist, room) then s
    else if p.Byte? then s + [p.b]
    else Lz77.CopyBack(s, p.Length(), Effective(p.Distance(), room))
  }

  /** The data after the pieces, one after another. */
  ghost function DataOf(s: seq<byte>, ps: seq<Piece>, lit: seq<nat>, dist: seq<nat>, room: Room): seq<byte> {
    if ps == [] then s else Applied(DataOf(s, ps[..|ps| - 1], lit, dist, room), ps[|ps| - 1], lit, dist, room)
  }

  ghost predicate AllApply(s: seq<byte>, ps: seq<Piece>, lit: seq<nat>, dist: seq<nat>, room: Room) {
    ps == []
    || (AllApply(s, ps[..|ps| - 1], lit, dist, room)
        && Applies(DataOf(s, ps[..|ps| - 1], lit, dist, room), ps[|ps| - 1], lit, dist, room))
  }

  function TextOf(ps: seq<Piece>): seq<bool> {
    if ps == [] then [] else TextOf(ps[..|ps| - 1]) + ps[|ps| - 1].Text()
  }

  /** Where reading a body began: the data so far, and the unread bits. */
  datatype Origin = Origin(data: seq<byte>, bits: seq<bool>)

  /** Since then these pieces have been read and applied. */
  ghost predicate Told(from: Origin, ps: seq<Piece>, lit: seq<nat>, dist: seq<nat>, room: Room, data: seq<byte>,
                       rest: seq<bool>) {
    AllApply(from.data, ps, lit, dist, room) && data == DataOf(from.data, ps, lit, dist, room)
        && from.bits == TextOf(ps) + rest
  }

  lemma NothingTold(data: seq<byte>, rest: seq<bool>, lit: seq<nat>, dist: seq<nat>, room: Room)
    ensures Told(Origin(data, rest), [], lit, dist, room, data, rest)
  {
    JoinNothing(rest);
  }

  /** One more piece. */
  lemma ToldNext(from: Origin, ps: seq<Piece>, lit: seq<nat>, dist: seq<nat>, room: Room, data: seq<byte>,
                 rest: seq<bool>, p: Piece, rest': seq<bool>)
    requires Told(from, ps, lit, dist, room, data, rest) && Applies(data, p, lit, dist, room)
        && rest == p.Text() + rest'
    ensures Told(from, ps + [p], lit, dist, room, Applied(data, p, lit, dist, room), rest')
  {
    hide Applied, Applies, Piece.Text;
    assert (ps + [p])[..|ps|] == ps;
    JoinAssoc(TextOf(ps), p.Text(), rest');
  }

  /** A literal has been read, and stored. */
  lemma LiteralTold(from: Origin, ps: seq<Piece>, lit: seq<nat>, dist: seq<nat>, room: Room, data: seq<byte>,
                    before: seq<bool>, after: seq<bool>, b: byte)
    returns (ps': seq<Piece>)
    requires Told(from, ps, lit, dist, room, data, before) && ReadFrom(lit, before, after, b)
    ensures Told(from, ps', lit, dist, room, data + [b], after)
  {
    hide Told, ReadAs;
    Parts(before, after);
    var p := Byte(Between(before, after), b);
    ps' := ps + [p];
    ToldNext(from, ps, lit, dist, room, data, before, p, after);
  }

  /** The fields of a match, from before, where its length symbol begins, to after. */
  ghost predicate MatchRead(p: Piece, lit: seq<nat>, dist: seq<nat>, before: seq<bool>, after: seq<bool>) {
    p.Copy? && p.Proper(lit, dist) && before == p.Text() + after
  }

  lemma MatchTold(lit: seq<nat>, dist: seq<nat>, sym: nat, more: nat, dsym: nat, further: nat,
                  before: seq<bool>, r1: seq<bool>, r2: seq<bool>, r3: seq<bool>, after: seq<bool>) returns (p: Piece)
    requires 257 <= sym < 288 && ReadFrom(lit, before, r1, sym) && dsym < 32 && ReadFrom(dist, r2, r3, dsym)
    requires more < Pow2(LengthExtra(sym - 257)) && r1 == ToBits(more, LengthExtra(sym - 257)) + r2
    requires further < Pow2(DistanceExtra(dsym)) && r3 == ToBits(further, DistanceExtra(dsym)) + after
    ensures MatchRead(p, lit, dist, before, after)
    ensures p.Length() == LengthBase(sym - 257) + more && p.Distance() == DistBase(dsym) + further
  {
    hide ReadAs, ToBits, Pow2, LengthExtra, DistanceExtra, LengthBase, DistBase;
    Parts(before, r1);
    Parts(r2, r3);
    var w, x, u, y := Between(before, r1), ToBits(more, LengthExtra(sym - 257)), Between(r2, r3),
        ToBits(further, DistanceExtra(dsym));
    p := Copy(w, sym, more, u, dsym, further);
    assert p.Text() == w + (x + (u + y));
    JoinAssoc(u, y, after);
    JoinAssoc(x, u + y, after);
    JoinAssoc(w, x + (u + y), after);
  }

  /** It has been copied. */
  lemma CopyTold(from: Origin, ps: seq<Piece>, lit: seq<nat>, dist: seq<nat>, room: Room, data: seq<byte>,
                 before: seq<bool>, after: seq<bool>, p: Piece)
    requires Told(from, ps, lit, dist, room, data, before) && MatchRead(p, lit, dist, before, after)
        && InReach(data, p.Distance(), room)
    ensures Told(from, ps + [p], lit, dist, room, Lz77.CopyBack(data, p.Length(), Effective(p.Distance(), room)), after)
  {
    hide Told, Piece.Proper, Piece.Text, InReach, Piece.Length, Piece.Distance, Effective;
    ToldNext(from, ps, lit, dist, room, data, before, p, after);
  }

  /** After a symbol of the first code: a literal has been dealt with; any other has only been read, from mid. */
  ghost predicate Symbolled(from: Origin, ps: seq<Piece>, lit: seq<nat>, dist: seq<nat>, room: Room, data: seq<byte>,
                            rest: seq<bool>, sym: nat, mid: seq<bool>) {
    if sym < 256 then Told(from, ps, lit, dist, room, data, rest)
    else Told(from, ps, lit, dist, room, data, mid) && ReadFrom(lit, mid, rest, sym)
  }

  /** A whole body, up to and including the symbol that ends it. */
  ghost predicate BodyRead(from: Origin, ps: seq<Piece>, end: seq<bool>, lit: seq<nat>, dist: seq<nat>, room: Room,
                           data: seq<byte>, rest: seq<bool>) {
    && AllApply(from.data, ps, lit, dist, room) && data == DataOf(from.data, ps, lit, dist, room)
    && ReadAs(lit, end, 256) && from.bits == (TextOf(ps) + end) + rest
  }

  lemma BodyTold(from: Origin, ps: seq<Piece>, lit: seq<nat>, dist: seq<nat>, room: Room, data: seq<byte>,
                 rest: seq<bool>, mid: seq<bool>)
    returns (end: seq<bool>)
    requires Symbolled(from, ps, lit, dist, room, data, rest, 256, mid)
    ensures BodyRead(from, ps, end, lit, dist, room, data, rest)
  {
    hide AllApply, DataOf, TextOf, ReadAs;
    end := Between(mid, rest);
    Parts(mid, rest);
    JoinAssoc(TextOf(ps), end, rest);
  }

  // ---------- blocks ----------

  datatype Accepted =
    | Raw(pad: seq<bool>, bytes: seq<byte>)
    | FixedBlock(ps: seq<Piece>, end: seq<bool>)
    | DynamicBlock(h: Header, words: seq<seq<bool>>, ps: seq<Piece>, end: seq<bool>)
  {
    ghost function Lit(): seq<nat> {
      if DynamicBlock? then h.lit else FixedLit()
    }

    ghost function Dist(): seq<nat> {
      if DynamicBlock? then h.dist else FixedDist()
    }

    /** Behind the data s the inflater takes it for a block. */
    ghost predicate Sound(s: seq<byte>, room: Room) {
      if Raw? then |bytes| < 0x1_0000
      else (DynamicBlock? ==> HeaderRead(h, words)) && AllApply(s, ps, Lit(), Dist(), room) && ReadAs(Lit(), end, 256)
    }

    ghost function Data(s: seq<byte>, room: Room): seq<byte> {
      if Raw? then s + bytes else DataOf(s, ps, Lit(), Dist(), room)
    }

    function Type(): nat {
      match this
      case Raw(_, _) => 0
      case FixedBlock(_, _) => 1
      case DynamicBlock(_, _, _, _) => 2
    }

    /** The bits behind the block type. */
    function Text(): seq<bool> {
      match this
      case Raw(pad, bytes) => if |bytes| < 0x1_0000 then pad + StoredBits(bytes) else []
      case FixedBlock(ps, end) => TextOf(ps) + end
      case DynamicBlock(h, words, ps, end) => HeaderText(h, words) + (TextOf(ps) + end)
    }
  }

  /** From before to after the block has been inflated behind the data s. */
  ghost predicate BlockRead(b: Accepted, room: Room, s: seq<byte>, data: seq<byte>, before: seq<bool>,
                            after: seq<bool>) {
    && b.Sound(s, room) && data == b.Data(s, room) && before == b.Text() + after
    && (b.Raw? ==> |b.pad| == |before| % 8)
  }

  lemma RawTold(pad: seq<bool>, bytes: seq<byte>, room: Room, s: seq<byte>, before: seq<bool>, mid: seq<bool>,
                rest: seq<bool>, after: seq<bool>)
    requires |pad| == |before| % 8 && before == pad + mid && |bytes| < 0x1_0000
    requires mid == ToBits(|bytes|, 16) + (ToBits(0xFFFF - |bytes|, 16) + rest) && rest == BytesBits(bytes) + after
    ensures BlockRead(Raw(pad, bytes), room, s, s + bytes, before, after)
  {
    hide ToBits, BytesBits;
    var a, b, c := ToBits(|bytes|, 16), ToBits(0xFFFF - |bytes|, 16), BytesBits(bytes);
    assert StoredBits(bytes) == a + b + c;
    JoinAssoc(a + b, c, after);
    JoinAssoc(a, b, c + after);
    JoinAssoc(pad, a + b + c, after);
  }

  lemma FixedTold(ps: seq<Piece>, end: seq<bool>, room: Room, s: seq<byte>, data: seq<byte>, before: seq<bool>,
                  after: seq<bool>)
    requires BodyRead(Origin(s, before), ps, end, FixedLit(), FixedDist(), room, data, after)
    ensures BlockRead(FixedBlock(ps, end), room, s, data, before, after)
  {
    hide FixedLit, FixedDist, AllApply, DataOf, TextOf, ReadAs;
  }

  lemma DynamicTold(h: Header, words: seq<seq<bool>>, ps: seq<Piece>, end: seq<bool>, room: Room, s: seq<byte>,
                    data: seq<byte>, before: seq<bool>, mid: seq<bool>, after: seq<bool>)
    requires HeaderRead(h, words) && before == HeaderText(h, words) + mid
    requires BodyRead(Origin(s, mid), ps, end, h.lit, h.dist, room, data, after)
    ensures BlockRead(DynamicBlock(h, words, ps, end), room, s, data, before, after)
  {
    hide HeaderRead, HeaderText, AllApply, DataOf, TextOf, ReadAs;
    JoinAssoc(HeaderText(h, words), TextOf(ps) + end, after);
  }

  // ---------- streams ----------

  /** The bits of the blocks; the last is marked as the final one, or none is. */
  function StreamText(bs: seq<Accepted>, last: bool): seq<bool> {
    if bs == [] then []
    else
      var n := |bs| - 1;
      StreamText(bs[..n], false) + (ToBits((if last then 1 else 0) + 2 * bs[n].Type(), 3) + bs[n].Text())
  }

  /** Stored blocks start on a byte, for a stream that starts pos bits into one. */
  predicate OnBytes(bs: seq<Accepted>, pos: nat) {
    bs == []
    || (OnBytes(bs[..|bs| - 1], pos)
        && (bs[|bs| - 1].Raw? ==> |bs[|bs| - 1].pad| == Padding(pos + |StreamText(bs[..|bs| - 1], false)| + 3)))
  }

  ghost function StreamData(s: seq<byte>, bs: seq<Accepted>, room: Room): seq<byte> {
    if bs == [] then s else bs[|bs| - 1].Data(StreamData(s, bs[..|bs| - 1], room), room)
  }

  ghost predicate StreamSound(s: seq<byte>, bs: seq<Accepted>, room: Room) {
    bs == [] || (StreamSound(s, bs[..|bs| - 1], room) && bs[|bs| - 1].Sound(StreamData(s, bs[..|bs| - 1], room), room))
  }

  /** From a point where the data and the unread bits were those of from, the blocks have been inflated. */
  ghost predicate Inflated(from: Origin, bs: seq<Accepted>, pos: nat, room: Room, last: bool, data: seq<byte>,
                           rest: seq<bool>) {
    && StreamSound(from.data, bs, room) && data == StreamData(from.data, bs, room)
    && from.bits == StreamText(bs, last) + rest && OnBytes(bs, pos)
  }

  lemma NothingInflated(data: seq<byte>, rest: seq<bool>, pos: nat, room: Room)
    ensures Inflated(Origin(data, rest), [], pos, room, false, data, rest)
  {
    JoinNothing(rest);
  }

  /** One more block. */
  lemma InflatedNext(from: Origin, bs: seq<Accepted>, pos: nat, room: Room, data: seq<byte>, rest: seq<bool>,
                     b: Accepted, last: bool, rest': seq<bool>)
    requires Inflated(from, bs, pos, room, false, data, rest) && b.Sound(data, room)
    requires rest == (ToBits((if last then 1 else 0) + 2 * b.Type(), 3) + b.Text()) + rest'
    requires b.Raw? ==> |b.pad| == Padding(pos + |from.bits| - |rest| + 3)
    ensures Inflated(from, bs + [b], pos, room, last, b.Data(data, room), rest')
  {
    hide Accepted.Text, Accepted.Sound, Accepted.Data, ToBits, Padding;
    assert (bs + [b])[..|bs|] == bs;
    JoinAssoc(StreamText(bs, false), ToBits((if last then 1 else 0) + 2 * b.Type(), 3) + b.Text(), rest');
  }
}
