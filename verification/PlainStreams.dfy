/**
  How much more than the format the inflater takes. A stream in which it has used none of its
  lenience is a list of valid blocks, bit for bit and with the same data.
 */
module PlainStreams {
  import opened Bits
  import opened BitIO
  import opened Canonical
  import opened CodeLengthRle
  import opened Tokens
  import opened CodeBuffer
  import opened TokenWriter
  import opened DynamicHeader
  import opened FixedCodes
  import opened Blocks
  import opened Lenient
  import Lz77

  // ---------- which symbol a length or a distance has ----------

  lemma Doubles(e: nat)
    ensures Pow2(e + 1) == 2 * Pow2(e) && Pow2(0) == 1 && Pow2(1) == 2
  {
    Pow2Values();
  }

  lemma LengthStep(a: nat)
    requires a < 27
    ensures LengthBase(a) + Pow2(LengthExtra(a)) == LengthBase(a + 1)
  {
    hide LengthBase, LengthExtra, Pow2;
    LengthTable(a);
    LengthTable(a + 1);
    Doubles(if a < 8 then 0 else (a - 4) / 4);
    if a >= 8 {
      var q, r := a / 4, a % 4;
      assert (a - 4) / 4 == q - 1;
      assert r == 3 ==> (a + 1) % 4 == 0 && (a + 1 - 4) / 4 == q;
      assert r < 3 ==> (a + 1) % 4 == r + 1 && (a + 1 - 4) / 4 == q - 1;
      Sevenths(r, Pow2(q - 1));
    }
  }

  lemma Sevenths(r: nat, p: nat)
    requires r < 4
    ensures (4 + r) * p + p == if r == 3 then 4 * (2 * p) else (4 + (r + 1)) * p
  {
  }

  /** Each symbol's lengths lie below those of the next; only symbol 284 reaches up to that of symbol 285. */
  lemma {:induction false} LengthsApart(a: nat, b: nat)
    requires a < b <= 28
    ensures LengthBase(a) + Pow2(LengthExtra(a)) <= if b < 28 then LengthBase(b) else 259
    decreases b
  {
    hide LengthBase, LengthExtra, Pow2;
    if b == 28 {
      if a == 27 { LastLengths(); } else { LengthsApart(a, 27); LastLengths(); }
    } else if b == a + 1 {
      LengthStep(a);
    } else {
      LengthsApart(a, b - 1);
      LengthStep(b - 1);
    }
  }

  lemma LastLengths()
    ensures LengthBase(27) == 227 && Pow2(LengthExtra(27)) == 32 && LengthBase(28) == 258 && LengthExtra(28) == 0
  {
    Pow2Table();
    LengthTable(27);
    LengthTable(28);
  }

  lemma LengthRange(sym: nat, more: nat)
    requires 257 <= sym <= 285 && more < Pow2(LengthExtra(sym - 257)) && !(sym == 284 && more == 31)
    ensures MIN_MATCH <= LengthBase(sym - 257) + more <= MAX_MATCH
    ensures sym < 285 ==> LengthBase(sym - 257) + more < MAX_MATCH
  {
    hide LengthBase, LengthExtra, Pow2;
    LastLengths();
    Doubles(0);
    LengthBounds(sym - 257);
    if sym < 284 { LengthsApart(sym - 257, 27); }
  }

  /** A length belongs to one symbol only. */
  lemma OneSymbol(a: nat, x: nat, b: nat, y: nat)
    requires a <= 28 && b <= 28 && x < Pow2(LengthExtra(a)) && y < Pow2(LengthExtra(b))
    requires LengthBase(a) + x == LengthBase(b) + y && (LengthBase(a) + x == MAX_MATCH ==> a == b == 28)
    ensures a == b && x == y
  {
    hide LengthBase, LengthExtra, Pow2;
    LastLengths();
    if a < b { LengthsApart(a, b); }
    if b < a { LengthsApart(b, a); }
  }

  lemma SymbolOfLength(sym: nat, more: nat)
    requires 257 <= sym <= 285 && more < Pow2(LengthExtra(sym - 257)) && !(sym == 284 && more == 31)
    ensures MIN_MATCH <= LengthBase(sym - 257) + more <= MAX_MATCH
    ensures var m := LengthBase(sym - 257) + more - MIN_MATCH;
            LenSym(m) == sym && LenExtra(m) == LengthExtra(sym - 257) && Low(m, LenExtra(m)) == more
  {
    hide LengthBase, LengthExtra, Low, Pow2, LenExtra, LenSym;
    LengthRange(sym, more);
    var m := LengthBase(sym - 257) + more - MIN_MATCH;
    LengthRecovered(m);
    LowBound(m, LenExtra(m));
    LongestSymbol(m);
    OneSymbol(sym - 257, more, LenSym(m) - 257, Low(m, LenExtra(m)));
  }

  lemma LengthBounds(i: nat)
    requires i < 29
    ensures LengthBase(i) >= MIN_MATCH
  {
    Pow2Table();
    LengthTable(i);
  }

  lemma LongestSymbol(m: nat)
    requires m < 256
    ensures LenSym(m) == 284 ==> m < 255
    ensures LenSym(m) == 285 <==> m == 255
  {
  }

  lemma DistStep(a: nat)
    requires a < 29
    ensures DistBase(a) + Pow2(DistanceExtra(a)) == DistBase(a + 1)
  {
    hide DistBase, DistanceExtra, Pow2;
    DistTable(a);
    DistTable(a + 1);
    Doubles(if a < 4 then 0 else (a - 2) / 2);
    if a >= 4 {
      var q, r := a / 2, a % 2;
      assert (a - 2) / 2 == q - 1;
      assert r == 1 ==> (a + 1) % 2 == 0 && (a + 1 - 2) / 2 == q;
      assert r == 0 ==> (a + 1) % 2 == 1 && (a + 1 - 2) / 2 == q - 1;
      Thirds(r, Pow2(q - 1));
    }
  }

  lemma Thirds(r: nat, p: nat)
    requires r < 2
    ensures (2 + r) * p + p == if r == 1 then 2 * (2 * p) else (2 + (r + 1)) * p
  {
  }

  lemma {:induction false} DistsApart(a: nat, b: nat)
    requires a < b <= 29
    ensures DistBase(a) + Pow2(DistanceExtra(a)) <= DistBase(b)
    decreases b
  {
    hide DistBase, DistanceExtra, Pow2;
    DistStep(b - 1);
    if a < b - 1 { DistsApart(a, b - 1); }
  }

  lemma LastDists()
    ensures DistBase(0) == 1 && DistBase(29) == 24577 && Pow2(DistanceExtra(29)) == 8192
  {
    Pow2Table();
    DistTable(0);
    DistTable(29);
  }

  lemma SymbolOfDistance(dsym: nat, further: nat)
    requires dsym <= 29 && further < Pow2(DistanceExtra(dsym))
    ensures 1 <= DistBase(dsym) + further <= DICT_SIZE
    ensures var d := DistBase(dsym) + further - 1;
            DistSym(d) == dsym && DistExtra(d) == DistanceExtra(dsym) && Low(d, DistExtra(d)) == further
  {
    hide DistBase, DistanceExtra, Low, Pow2, DistExtra, DistSym;
    LastDists();
    if dsym < 29 { DistsApart(dsym, 29); }
    if dsym > 0 { DistsApart(0, dsym); }
    var d := DistBase(dsym) + further - 1;
    DistanceRecovered(d);
    LowBound(d, DistExtra(d));
    if dsym < DistSym(d) { DistsApart(dsym, DistSym(d)); }
    if DistSym(d) < dsym { DistsApart(DistSym(d), dsym); }
  }

  // ---------- pieces ----------

  /** A symbol read from its own code word. */
  ghost predicate IsWord(lens: seq<nat>, w: seq<bool>, sym: nat) {
    Used(lens, sym) && w == Word(lens, sym)
  }

  /** A literal or a match as the format has them. */
  ghost predicate PlainPiece(p: Piece, lit: seq<nat>, dist: seq<nat>) {
    match p
    case Byte(w, b) => IsWord(lit, w, b)
    case Copy(w, sym, more, u, dsym, _) =>
        IsWord(lit, w, sym) && IsWord(dist, u, dsym) && sym <= 285
        && !(sym == 284 && more == 31) && dsym <= 29
  }

  lemma PieceToken(p: Piece, lit: seq<nat>, dist: seq<nat>) returns (t: Token)
    requires p.Proper(lit, dist) && PlainPiece(p, lit, dist)
    ensures t.Valid() && Covered(lit, dist, t) && TokenBits(lit, dist, t) == p.Text()
    ensures if p.Byte? then t == Literal(p.b) else t == Match(p.Length(), p.Distance())
  {
    hide Word, LengthBase, LengthExtra, DistBase, DistanceExtra, Low, Pow2, LenSym, LenExtra, DistSym, DistExtra,
         ToBits;
    match p
    case Byte(w, b) => t := Literal(b);
    case Copy(w, sym, more, u, dsym, further) =>
      SymbolOfLength(sym, more);
      SymbolOfDistance(dsym, further);
      t := Match(p.Length(), p.Distance());
      var x, y := ToBits(more, LengthExtra(sym - 257)), ToBits(further, DistanceExtra(dsym));
      JoinAssoc(w + x, u, y);
      JoinAssoc(w, x, u + y);
  }

  lemma PieceApplied(s: seq<byte>, p: Piece, t: Token, lit: seq<nat>, dist: seq<nat>, room: Room)
    requires Applies(s, p, lit, dist, room) && t.Valid() && (room.ring ==> DICT_SIZE <= room.size)
    requires if p.Byte? then t == Literal(p.b) else t == Match(p.Length(), p.Distance())
    ensures Lz77.Reaches(s, t) && Lz77.Apply(s, t) == Applied(s, p, lit, dist, room)
  {
    hide Piece.Length, Piece.Distance;
    if p.Copy? { Near(p.Distance(), room.size); }
  }

  lemma Near(dist: nat, n: nat)
    requires 1 <= dist <= n
    ensures (dist - 1) % n + 1 == dist
  {
  }

  ghost predicate AllPlain(ps: seq<Piece>, lit: seq<nat>, dist: seq<nat>) {
    forall p <- ps :: PlainPiece(p, lit, dist)
  }

  /** Plain pieces are tokens. */
  lemma {:induction false} PlainTokens(s: seq<byte>, ps: seq<Piece>, lit: seq<nat>, dist: seq<nat>, room: Room)
    returns (ts: seq<Token>)
    requires AllApply(s, ps, lit, dist, room) && AllPlain(ps, lit, dist) && (room.ring ==> DICT_SIZE <= room.size)
    ensures AllValid(ts) && Lz77.Feasible(s, ts) && Lz77.Expand(s, ts) == DataOf(s, ps, lit, dist, room)
    ensures TokensBits(lit, dist, ts) == TextOf(ps) && forall i :: 0 <= i < |ts| ==> Covered(lit, dist, ts[i])
    decreases |ps|
  {
    hide Applied, PlainPiece, Piece.Text, Piece.Proper, Covered, TokenBits, Lz77.Reaches, InReach;
    ts := [];
    if ps != [] {
      var n := |ps| - 1;
      assert ps[n] in ps && forall p <- ps[..n] :: p in ps;
      ts := PlainTokens(s, ps[..n], lit, dist, room);
      var t := PieceToken(ps[n], lit, dist);
      PieceApplied(DataOf(s, ps[..n], lit, dist, room), ps[n], t, lit, dist, room);
      Lz77.ExpandPush(s, ts, t);
      TokensBitsPush(lit, dist, ts, t);
      ts := ts + [t];
    }
  }

  // ---------- blocks ----------

  ghost predicate AllWords(cl: seq<nat>, words: seq<seq<bool>>, items: seq<Item>) {
    |words| == |items| && forall i :: 0 <= i < |items| ==> IsWord(cl, words[i], items[i].Symbol())
  }

  lemma {:induction false} PlainItems(cl: seq<nat>, words: seq<seq<bool>>, items: seq<Item>)
    requires AllWords(cl, words, items)
    ensures ItemsText(words, items) == ItemsBits(cl, items)
    decreases |items|
  {
    hide ToBits, Word, SymBits, ItemBits, ItemsBits, Item.Symbol, Item.Extra, Item.ExtraBits;
    if items == [] {
      NoItemBits(cl);
    } else {
      var n := |items| - 1;
      PlainItems(cl, words[..n], items[..n]);
      WordBits(cl, words[n], items[n]);
      ItemsBitsPush(cl, items[..n], items[n]);
      assert items[..n] + [items[n]] == items;
    }
  }

  lemma NoItemBits(cl: seq<nat>)
    ensures ItemsBits(cl, []) == []
  {
  }

  lemma WordBits(cl: seq<nat>, w: seq<bool>, item: Item)
    requires IsWord(cl, w, item.Symbol())
    ensures ItemBits(cl, item) == w + ToBits(item.Extra(), item.ExtraBits())
  {
    hide ToBits, Word;
  }

  lemma PlainHeader(h: Header, words: seq<seq<bool>>)
    requires HeaderRead(h, words) && AllWords(h.cl, words, h.items)
    ensures h.Valid() && h.ToBitString() == HeaderText(h, words)
  {
    hide ToBits, SizeBits, ItemsBits, ItemsText, Acceptable, WellFormed, Expand, OrderAt, Word;
    PlainItems(h.cl, words, h.items);
    var a, b, c, d, e := ToBits(|h.lit| - 257, 5), ToBits(|h.dist| - 1, 5), ToBits(h.sent - 4, 4),
        SizeBits(h.cl, h.sent), ItemsBits(h.cl, h.items);
    JoinAssoc(a + b + c, d, e);
    JoinAssoc(a + b, c, d + e);
    JoinAssoc(a, b, c + (d + e));
  }

  /** A block as the format has it. */
  ghost predicate PlainBlock(b: Accepted) {
    !b.Raw? ==>
      && AllPlain(b.ps, b.Lit(), b.Dist()) && IsWord(b.Lit(), b.end, 256)
      && (b.DynamicBlock? ==> AllWords(b.h.cl, b.words, b.h.items))
  }

  lemma BlockOf(b: Accepted, s: seq<byte>, room: Room, pos: nat) returns (v: Block)
    requires b.Sound(s, room) && PlainBlock(b) && (room.ring ==> DICT_SIZE <= room.size)
        && (b.Raw? ==> |b.pad| == Padding(pos))
    ensures v.Valid(s) && v.Shaped() && v.Data(s) == b.Data(s, room) && v.Type() == b.Type()
        && v.Content(pos) == b.Text()
  {
    hide AllApply, DataOf, TextOf, AllPlain, HeaderRead, HeaderText, Header.Valid, Header.ToBitString, Lz77.Expand,
         Lz77.Feasible, TokensBits, Covered, FixedLit, FixedDist, StoredBits, ToBits, AllWords, Word, Padding;
    match b
    case Raw(pad, bytes) =>
      v := Stored(bytes, pad);
    case FixedBlock(ps, end) =>
      var ts := PlainTokens(s, ps, FixedLit(), FixedDist(), room);
      v := Fixed(ts);
    case DynamicBlock(h, words, ps, end) =>
      PlainHeader(h, words);
      var ts := PlainTokens(s, ps, h.lit, h.dist, room);
      v := Dynamic(h, ts);
  }

  // ---------- streams ----------

  /** The inflater has used none of its lenience. */
  ghost predicate PlainStream(bs: seq<Accepted>) {
    forall b <- bs :: PlainBlock(b)
  }

  /** Then what it has inflated is a list of valid blocks, bit for bit, with the same data. */
  lemma {:induction false} PlainIsValid(s: seq<byte>, bs: seq<Accepted>, room: Room, pos: nat, last: bool)
    returns (vs: seq<Block>)
    requires StreamSound(s, bs, room) && OnBytes(bs, pos) && PlainStream(bs) && (room.ring ==> DICT_SIZE <= room.size)
    ensures ValidBlocks(s, vs) && AllShaped(vs) && |vs| == |bs|
    ensures AllData(s, vs) == StreamData(s, bs, room) && AllBits(vs, pos, last) == StreamText(bs, last)
    decreases |bs|
  {
    hide PlainBlock, Accepted.Sound, Accepted.Data, Accepted.Text, Block.Valid, Block.Shaped, Block.Data,
         Block.ToBitString, AllBits, AllData, ValidBlocks, AllShaped, Block.Content, ToBits, Padding;
    vs := [];
    NoBlocks(s, pos, last);
    if bs != [] {
      var n := |bs| - 1;
      assert bs[n] in bs && forall b <- bs[..n] :: b in bs;
      vs := PlainIsValid(s, bs[..n], room, pos, false);
      var at := pos + |StreamText(bs[..n], false)|;
      var v := BlockOf(bs[n], StreamData(s, bs[..n], room), room, at + 3);
      BlocksPush(s, vs, v);
      BitsPush(vs, v, pos, last);
      vs := vs + [v];
    }
  }

  lemma BitsPush(vs: seq<Block>, v: Block, pos: nat, last: bool)
    requires AllShaped(vs) && v.Shaped()
    ensures AllShaped(vs + [v])
    ensures var front := AllBits(vs, pos, false);
            AllBits(vs + [v], pos, last) == front + (ToBits((if last then 1 else 0) + 2 * v.Type(), 3)
                + v.Content(pos + |front| + 3))
  {
    hide Block.Shaped, Block.Content, AllBits, ToBits;
    OneBlock(v, pos + |AllBits(vs, pos, false)|, last);
    BitsAppend(vs, [v], pos, last);
  }

  lemma NoBlocks(s: seq<byte>, pos: nat, last: bool)
    ensures AllShaped([]) && ValidBlocks(s, []) && AllData(s, []) == s && AllBits([], pos, last) == []
  {
  }

  lemma OneBlock(v: Block, pos: nat, last: bool)
    requires v.Shaped()
    ensures AllShaped([v]) && AllBits([v], pos, last) == ToBits((if last then 1 else 0) + 2 * v.Type(), 3)
        + v.Content(pos + 3)
  {
    hide Block.Shaped, Block.Content, ToBits;
    ThreeBits(last, v.Type());
    assert [v][1..] == [];
    JoinNothing(v.ToBitString(pos, last));
  }
}
