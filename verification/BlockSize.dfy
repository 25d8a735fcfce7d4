/**
  How many bits a block can take. Any contents of the 64 KiB code buffer fit the output buffer,
  with the fixed codes, and also with dynamic ones: those are at most 0.92 bits a symbol worse
  than the best there are, and the best are no worse than the fixed ones.
 */
module BlockSize {
  import opened Bits
  import opened Canonical
  import opened Tokens
  import opened CodeBuffer
  import opened TokenWriter
  import opened HuffmanEncoder
  import opened Optimality
  import opened SymbolLists
  import opened DynamicHeader
  import opened FixedCodes
  import MinRedundancy
  import CodeLengthRle

  // ---------- a block with the fixed codes always fits ----------

  /** Eight times the code bytes, and one for the flag. */
  function Weight(ts: seq<Token>): nat
    requires AllValid(ts)
  {
    if ts == [] then 0 else 8 * |CodeBytes(ts[0])| + 1 + Weight(ts[1..])
  }

  lemma {:induction false} WeightCodes(ts: seq<Token>)
    requires AllValid(ts)
    ensures Weight(ts) == 8 * |CodesOf(ts)| + |ts|
  {
    if ts != [] { WeightCodes(ts[1..]); }
  }

  lemma {:induction false} WeightAppend(ts: seq<Token>, us: seq<Token>)
    requires AllValid(ts) && AllValid(us)
    ensures AllValid(ts + us) && Weight(ts + us) == Weight(ts) + Weight(us)
  {
    if ts == [] {
      assert ts + us == us;
    } else {
      assert (ts + us)[0] == ts[0] && (ts + us)[1..] == ts[1..] + us;
      WeightAppend(ts[1..], us);
    }
  }

  /** The weight of the tokens is no more than their image has bits. */
  lemma {:induction false} WeightImage(ts: seq<Token>)
    requires AllValid(ts)
    ensures Weight(ts) <= 8 * |Image(ts)|
    decreases |ts|
  {
    if |ts| <= 8 {
      WeightCodes(ts);
    } else {
      WeightCodes(ts[..8]);
      WeightImage(ts[8..]);
      WeightAppend(ts[..8], ts[8..]);
      assert ts[..8] + ts[8..] == ts;
    }
  }

  lemma FixedSymbol(s: nat)
    ensures s < 256 ==> |SymBits(FixedLit(), s)| <= 9
    ensures 256 <= s < 288 ==> |SymBits(FixedLit(), s)| <= 8
    ensures s == 256 ==> |SymBits(FixedLit(), s)| == 7
    ensures s < 32 ==> |SymBits(FixedDist(), s)| == 5
  {
    hide FixedLit, FixedDist, Word;
    FixedAt();
  }

  lemma FixedToken(t: Token)
    requires t.Valid()
    ensures 25 * |TokenBits(FixedLit(), FixedDist(), t)| <= 31 * (8 * |CodeBytes(t)| + 1)
  {
    hide FixedLit, FixedDist, SymBits, LenSym, DistSym, LenExtra, DistExtra, ToBits, Low, CodeBytes;
    match t
    case Literal(b) =>
      FixedSymbol(b);
    case Match(len, dist) =>
      FixedMatch(len - MIN_MATCH, dist - 1);
  }

  lemma FixedMatch(m: nat, d: nat)
    requires m < 256 && d < DICT_SIZE
    ensures |SymBits(FixedLit(), LenSym(m))| <= 8 && LenExtra(m) <= 5
    ensures |SymBits(FixedDist(), DistSym(d))| == 5 && DistExtra(d) <= 13
  {
    hide FixedLit, FixedDist, SymBits, LenSym, DistSym, LenExtra, DistExtra, LengthBase, DistBase, Low;
    LengthRecovered(m);
    DistanceRecovered(d);
    FixedSymbol(LenSym(m));
    FixedSymbol(DistSym(d));
  }

  lemma {:induction false} FixedTokens(ts: seq<Token>)
    requires AllValid(ts)
    ensures 25 * |TokensBits(FixedLit(), FixedDist(), ts)| <= 31 * Weight(ts)
  {
    hide FixedLit, FixedDist, TokenBits, CodeBytes;
    if ts != [] {
      FixedToken(ts[0]);
      FixedTokens(ts[1..]);
    }
  }

  /** Any contents of the code buffer fit the output buffer when sent with the fixed codes. */
  lemma FixedFits(ts: seq<Token>)
    requires AllValid(ts) && |Image(ts)| <= CODE_BUF_SIZE
    ensures |BodyBits(FixedLit(), FixedDist(), ts)| <= 650124
  {
    hide FixedLit, FixedDist, SymBits, TokensBits, Image, Weight;
    FixedTokens(ts);
    WeightImage(ts);
    FixedSymbol(256);
  }

  // ---------- the bits of a block, out of the counts ----------

  /** The bits behind the symbols of a token. */
  function ExtraOf(t: Token): nat
    requires t.Valid()
  {
    match t
    case Literal(_) => 0
    case Match(len, dist) => LenExtra(len - MIN_MATCH) + DistExtra(dist - 1)
  }

  function SizeOf(lit: seq<nat>, dist: seq<nat>, t: Token): nat
    requires t.Valid() && |lit| == MAX_SYMBOLS && |dist| == 32
  {
    lit[LitSym(t)] + ExtraOf(t) + if t.Match? then dist[MatchSym(t)] else 0
  }

  /** The sizes of all the tokens, taken from the end as the counts are. */
  function SizeAll(lit: seq<nat>, dist: seq<nat>, ts: seq<Token>): nat
    requires AllValid(ts) && |lit| == MAX_SYMBOLS && |dist| == 32
  {
    if ts == [] then 0 else SizeAll(lit, dist, ts[..|ts| - 1]) + SizeOf(lit, dist, ts[|ts| - 1])
  }

  function ExtraAll(ts: seq<Token>): nat
    requires AllValid(ts)
  {
    if ts == [] then 0 else ExtraAll(ts[..|ts| - 1]) + ExtraOf(ts[|ts| - 1])
  }

  lemma SymbolSize(lens: seq<nat>, s: nat)
    requires s < |lens|
    ensures |SymBits(lens, s)| == lens[s]
  {
    hide Word;
  }

  lemma TokenSize(lit: seq<nat>, dist: seq<nat>, t: Token)
    requires t.Valid() && |lit| == MAX_SYMBOLS && |dist| == 32
    ensures |TokenBits(lit, dist, t)| == SizeOf(lit, dist, t)
  {
    hide SymBits, LenSym, DistSym, LenExtra, DistExtra, ToBits, Low;
    SymbolSize(lit, LitSym(t));
    if t.Match? { SymbolSize(dist, MatchSym(t)); }
  }

  lemma {:induction false} TokensSnoc(lit: seq<nat>, dist: seq<nat>, ts: seq<Token>, t: Token)
    requires AllValid(ts) && t.Valid()
    ensures AllValid(ts + [t]) && |TokensBits(lit, dist, ts + [t])| ==
        |TokensBits(lit, dist, ts)| + |TokenBits(lit, dist, t)|
  {
    hide TokenBits;
    if ts == [] {
      assert ts + [t] == [t] && [t][1..] == [];
    } else {
      assert (ts + [t])[1..] == ts[1..] + [t];
      TokensSnoc(lit, dist, ts[1..], t);
    }
  }

  lemma {:induction false} TokensSize(lit: seq<nat>, dist: seq<nat>, ts: seq<Token>)
    requires AllValid(ts) && |lit| == MAX_SYMBOLS && |dist| == 32
    ensures |TokensBits(lit, dist, ts)| == SizeAll(lit, dist, ts)
  {
    hide TokenBits, SizeOf, TokensBits;
    if ts == [] {
      NoTokens(lit, dist);
    } else {
      var n := |ts| - 1;
      assert ts == ts[..n] + [ts[n]];
      assert ts[n] in ts;
      TokensSize(lit, dist, ts[..n]);
      TokensSnoc(lit, dist, ts[..n], ts[n]);
      TokenSize(lit, dist, ts[n]);
    }
  }

  lemma NoTokens(lit: seq<nat>, dist: seq<nat>)
    ensures TokensBits(lit, dist, []) == []
  {
  }

  function LitCount(ts: seq<Token>): (c: seq<nat>)
    requires AllValid(ts)
    ensures |c| == MAX_SYMBOLS && forall s :: 0 <= s < MAX_SYMBOLS ==> c[s] == LitUses(ts, s)
  {
    seq(MAX_SYMBOLS, s requires 0 <= s => LitUses(ts, s))
  }

  function DistCount(ts: seq<Token>): (c: seq<nat>)
    requires AllValid(ts)
    ensures |c| == 32 && forall s :: 0 <= s < 32 ==> c[s] == DistUses(ts, s)
  {
    seq(32, s requires 0 <= s => DistUses(ts, s))
  }

  lemma OneCount(w: seq<nat>, l: seq<nat>, i: nat)
    requires |w| == |l| && i < |w|
    ensures Cost(w[i := w[i] + 1], l) == Cost(w, l) + l[i]
  {
    hide Cost;
    CutCost(w, l, i);
    CutCost(w[i := w[i] + 1], l, i);
    assert Cut(w[i := w[i] + 1], i) == Cut(w, i);
    assert (w[i] + 1) * l[i] == w[i] * l[i] + l[i];
  }

  lemma {:induction false} NothingCost(w: seq<nat>, l: seq<nat>)
    requires |w| == |l| && forall i :: 0 <= i < |w| ==> w[i] == 0
    ensures Cost(w, l) == 0
  {
    if w != [] { NothingCost(w[1..], l[1..]); }
  }

  lemma CountsPush(ts: seq<Token>)
    requires AllValid(ts) && ts != []
    ensures var us, t := ts[..|ts| - 1], ts[|ts| - 1];
            && LitCount(ts) == LitCount(us)[LitSym(t) := LitCount(us)[LitSym(t)] + 1]
            && DistCount(ts) == if t.Match? then DistCount(us)[MatchSym(t) := DistCount(us)[MatchSym(t)] + 1]
                else DistCount(us)
  {
  }

  /** What the symbols cost by their counts, and the extra bits. */
  lemma {:induction false} CountedSize(lit: seq<nat>, dist: seq<nat>, ts: seq<Token>)
    requires AllValid(ts) && |lit| == MAX_SYMBOLS && |dist| == 32
    ensures SizeAll(lit, dist, ts) == Cost(LitCount(ts), lit) + Cost(DistCount(ts), dist) + ExtraAll(ts)
  {
    if ts == [] {
      NothingCost(LitCount(ts), lit);
      NothingCost(DistCount(ts), dist);
    } else {
      var n := |ts| - 1;
      CountedSize(lit, dist, ts[..n]);
      hide Cost, LitUses, DistUses, ExtraOf;
      CountsPush(ts);
      OneCount(LitCount(ts[..n]), lit, LitSym(ts[n]));
      if ts[n].Match? { OneCount(DistCount(ts[..n]), dist, MatchSym(ts[n])); }
    }
  }

  // ---------- a block with dynamic codes always fits ----------

  lemma {:induction false} CountSnoc(lens: seq<nat>, x: nat, l: nat)
    ensures Count(lens + [x], l) == Count(lens, l) + if x == l then 1 else 0
  {
    assert (lens + [x])[..|lens|] == lens;
  }

  lemma {:induction false} TakenSnoc(lens: seq<nat>, x: nat, m: nat)
    requires x >= 1
    ensures Taken(lens + [x], m) == Taken(lens, m) + if x <= m then Pow2(m - x) else 0
  {
    hide Count;
    if m > 0 {
      TakenSnoc(lens, x, m - 1);
      CountSnoc(lens, x, m);
    }
  }

  /** Without unused symbols, the share of the tree taken by the codes is the Kraft sum. */
  lemma {:induction false} TakenShare(lens: seq<nat>, m: nat)
    requires forall i :: 0 <= i < |lens| ==> 1 <= lens[i] <= m
    ensures Taken(lens, m) == Share(lens, m)
  {
    hide Pow2, Share, Taken;
    if lens == [] {
      NothingTaken(m);
    } else {
      var n := |lens| - 1;
      assert lens == lens[..n] + [lens[n]];
      TakenShare(lens[..n], m);
      TakenSnoc(lens[..n], lens[n], m);
      PushShare(lens[..n], m, lens[n]);
    }
  }

  lemma {:induction false} NothingTaken(m: nat)
    ensures Taken([], m) == 0 && Share([], m) == 0
  {
    if m > 0 { NothingTaken(m - 1); }
  }

  lemma FixedRivals(litCount: seq<nat>, distCount: seq<nat>)
    requires |litCount| == MAX_SYMBOLS && |distCount| == 32
    ensures Rival(litCount, FixedLit(), 15) && Rival(distCount, FixedDist(), 15)
  {
    hide Taken, FixedLit, FixedDist, Pow2, Share;
    FixedAt();
    FixedComplete();
    TakenShare(FixedLit(), 15);
    TakenShare(FixedDist(), 15);
  }

  lemma GrownToken(t: Token)
    requires t.Valid()
    ensures 25 * (50 * SizeOf(FixedLit(), FixedDist(), t) + 51) <= 1601 * (8 * |CodeBytes(t)| + 1)
  {
    hide FixedLit, FixedDist, LenSym, DistSym, LenExtra, DistExtra;
    FixedAt();
    match t
    case Literal(b) =>
    case Match(len, dist) =>
      LengthRecovered(len - MIN_MATCH);
      DistanceRecovered(dist - 1);
  }

  lemma WeightSnoc(ts: seq<Token>)
    requires AllValid(ts) && ts != []
    ensures Weight(ts) == Weight(ts[..|ts| - 1]) + 8 * |CodeBytes(ts[|ts| - 1])| + 1
  {
    hide Weight, CodeBytes;
    var n := |ts| - 1;
    assert ts == ts[..n] + [ts[n]] && ts[n] in ts;
    WeightAppend(ts[..n], [ts[n]]);
    WeightOne(ts[n]);
  }

  lemma WeightOne(t: Token)
    requires t.Valid()
    ensures Weight([t]) == 8 * |CodeBytes(t)| + 1
  {
    assert [t][1..] == [];
  }

  lemma {:induction false} GrownTokens(ts: seq<Token>)
    requires AllValid(ts)
    ensures 25 * (50 * SizeAll(FixedLit(), FixedDist(), ts) + 51 * |ts|) <= 1601 * Weight(ts)
  {
    hide FixedLit, FixedDist, SizeOf, CodeBytes;
    if ts != [] {
      var n := |ts| - 1;
      GrownTokens(ts[..n]);
      GrownToken(ts[n]);
      WeightSnoc(ts);
    }
  }

  /** What codes near the best make of the tokens. */
  lemma DynamicFits(ts: seq<Token>, litCount: seq<nat>, lit: seq<nat>, distCount: seq<nat>, dist: seq<nat>)
    requires AllValid(ts) && |Image(ts)| <= CODE_BUF_SIZE && LitUses(ts, 256) == 0
    requires litCount == LitCount(ts)[256 := 1] && distCount == DistCount(ts)
    requires NearBest(litCount, lit) && NearBest(distCount, dist)
    requires MinRedundancy.Sum(litCount) <= |ts| + 1 && MinRedundancy.Sum(distCount) <= |ts|
    ensures |BodyBits(lit, dist, ts)| <= 671516
  {
    NearSizes(litCount, lit, distCount, dist);
    hide FixedLit, FixedDist, SymBits, TokensBits, Image, Weight, LitUses, DistUses, Cost, MinRedundancy.Sum, NearBest,
         Rival, LitCount, DistCount, SizeAll, ExtraAll;
    FixedRivals(litCount, distCount);
    NearFixed(litCount, lit);
    NearFixedDist(distCount, dist);
    EndCounted(ts, litCount, lit);
    EndCounted(ts, litCount, FixedLit());
    CountedSize(lit, dist, ts);
    CountedSize(FixedLit(), FixedDist(), ts);
    TokensSize(lit, dist, ts);
    SymbolSize(lit, 256);
    FixedEnd();
    GrownTokens(ts);
    WeightImage(ts);
  }

  lemma FixedEnd()
    ensures FixedLit()[256] == 7
  {
    FixedAt();
  }

  lemma NearSizes(litCount: seq<nat>, lit: seq<nat>, distCount: seq<nat>, dist: seq<nat>)
    requires NearBest(litCount, lit) && NearBest(distCount, dist)
    ensures |lit| == |litCount| && |dist| == |distCount|
  {
  }

  lemma NearFixed(count: seq<nat>, lens: seq<nat>)
    requires NearBest(count, lens) && |count| == MAX_SYMBOLS && Rival(count, FixedLit(), 15)
    ensures |lens| == |count| && 25 * Cost(count, lens) <= 25 * Cost(count, FixedLit()) + 23 * MinRedundancy.Sum(count)
  {
    hide Cost, FixedLit, MinRedundancy.Sum, Rival;
  }

  lemma NearFixedDist(count: seq<nat>, lens: seq<nat>)
    requires NearBest(count, lens) && |count| == 32 && Rival(count, FixedDist(), 15)
    ensures |lens| == |count| && 10 * Cost(count, lens) <= 10 * Cost(count, FixedDist()) + MinRedundancy.Sum(count)
  {
    hide Cost, FixedDist, MinRedundancy.Sum, Rival;
  }

  /** The end-of-block symbol is counted once. */
  lemma EndCounted(ts: seq<Token>, litCount: seq<nat>, lit: seq<nat>)
    requires AllValid(ts) && LitUses(ts, 256) == 0 && litCount == LitCount(ts)[256 := 1] && |lit| == MAX_SYMBOLS
    ensures Cost(litCount, lit) == Cost(LitCount(ts), lit) + lit[256]
  {
    hide Cost, LitUses;
    OneCount(LitCount(ts), lit, 256);
  }

  // ---------- the header ----------

  lemma {:induction false} ItemsShort(items: seq<CodeLengthRle.Item>)
    requires CodeLengthRle.WellFormed(items)
    ensures |items| <= |CodeLengthRle.Expand(items)|
  {
    if items != [] { ItemsShort(items[..|items| - 1]); }
  }

  lemma {:induction false} ItemsSize(cl: seq<nat>, items: seq<CodeLengthRle.Item>)
    requires |cl| == 19 && (forall k :: 0 <= k < 19 ==> cl[k] < 8)
    ensures |ItemsBits(cl, items)| <= 14 * |items|
  {
    hide SymBits, ToBits;
    if items != [] {
      ItemsSize(cl, items[1..]);
      if items[0].Symbol() < 19 { SymbolSize(cl, items[0].Symbol()); } else { NoSymbol(cl, items[0].Symbol()); }
    }
  }

  lemma NoSymbol(cl: seq<nat>, s: nat)
    requires s >= |cl|
    ensures SymBits(cl, s) == []
  {
  }

  lemma HeaderFits(h: Header)
    requires h.Valid()
    ensures |h.ToBitString()| <= 4551
  {
    hide ToBits, SizeBits, ItemsBits, CodeLengthRle.Expand, CodeLengthRle.WellFormed, Acceptable, OrderAt;
    SizeBitsLength(h.cl, h.sent);
    ItemsSize(h.cl, h.items);
    ItemsShort(h.items);
  }
}
