/**
  The body of a compressed block: the symbol loop of tinfl_decompress, with its two ways of
  decoding a literal. Whatever the input, every method terminates and leaves the reader and the
  output in order; when the unread bits are those of a list of tokens, the tokens are expanded.
 */
module InflateBody {
  import opened Bits
  import opened BitIO
  import opened Canonical
  import opened Tokens
  import opened CodeBuffer
  import opened TokenWriter
  import opened Lz77
  import opened OutBuf
  import opened DynamicHeader
  import opened NodeCount
  import opened HuffTable
  import opened HuffDecode
  import opened HeaderReader
  import opened Lenient
  import InflateTables

  /**
    The block a body is claimed to be: its codes, its tokens, the data before it, the bits after it,
    the room for data.
   */
  datatype Script = Script(lit: seq<nat>, dist: seq<nat>, ts: seq<Token>, start: seq<byte>, more: seq<bool>, room: nat)
  {
    ghost predicate Valid() {
      AllValid(ts) && Covers(lit, dist, ts) && Feasible(start, ts)
    }

    ghost function Whole(): seq<byte>
      requires Valid()
    {
      Expand(start, ts)
    }

    /** k tokens have been read and expanded. */
    ghost predicate At(k: nat, rest: seq<bool>, history: seq<byte>) {
      && Valid() && k <= |ts| && AllValid(ts[k..]) && Feasible(start, ts[..k])
      && rest == BodyBits(lit, dist, ts[k..]) + more
      && history == Expand(start, ts[..k])
    }

    /** The next symbol of the first code. */
    ghost function NextSym(k: nat): nat
      requires Valid() && k <= |ts|
    {
      if k == |ts| then 256 else LitSym(ts[k])
    }

    /** What follows that symbol. */
    ghost function After(k: nat): seq<bool>
      requires Valid() && k <= |ts|
    {
      if k == |ts| then more else TailBits(dist, ts[k]) + (BodyBits(lit, dist, ts[k + 1..]) + more)
    }

    /** k tokens have been read and expanded, and the next symbol has been read as well. */
    ghost predicate Past(k: nat, sym: nat, rest: seq<bool>, history: seq<byte>) {
      && Valid() && k <= |ts| && Feasible(start, ts[..k])
      && sym == NextSym(k) && rest == After(k) && history == Expand(start, ts[..k])
    }
  }

  /** The bits of a token after its first symbol. */
  ghost function TailBits(dist: seq<nat>, t: Token): seq<bool>
    requires t.Valid()
  {
    match t
    case Literal(_) => []
    case Match(len, d) =>
      ToBits(Low(len - MIN_MATCH, LenExtra(len - MIN_MATCH)), LenExtra(len - MIN_MATCH))
      + SymBits(dist, DistSym(d - 1)) + ToBits(Low(d - 1, DistExtra(d - 1)), DistExtra(d - 1))
  }

  lemma TokenParts(lit: seq<nat>, dist: seq<nat>, t: Token)
    requires t.Valid()
    ensures TokenBits(lit, dist, t) == SymBits(lit, LitSym(t)) + TailBits(dist, t)
  {
    hide SymBits, ToBits, Low, LenExtra, DistExtra, DistSym, LenSym;
    match t
    case Literal(_) =>
    case Match(len, d) =>
      var a, b := SymBits(lit, LitSym(t)), ToBits(Low(len - MIN_MATCH, LenExtra(len - MIN_MATCH)),
          LenExtra(len - MIN_MATCH));
      var c, e := SymBits(dist, DistSym(d - 1)), ToBits(Low(d - 1, DistExtra(d - 1)), DistExtra(d - 1));
      assert a + b + c + e == a + (b + c + e);
  }

  /** Reading on: the next symbol is in front. */
  lemma SymbolAhead(sc: Script, k: nat, rest: seq<bool>, history: seq<byte>)
    requires sc.At(k, rest, history)
    ensures sc.Valid() && k <= |sc.ts|
    ensures Used(sc.lit, sc.NextSym(k)) && rest == SymBits(sc.lit, sc.NextSym(k)) + sc.After(k)
    ensures sc.Past(k, sc.NextSym(k), sc.After(k), history)
  {
    hide SymBits, TokenBits, TailBits, Expand, LitSym;
    if k == |sc.ts| {
      assert sc.ts[k..] == [];
      assert TokensBits(sc.lit, sc.dist, []) + SymBits(sc.lit, 256) == SymBits(sc.lit, 256);
    } else {
      assert Covered(sc.lit, sc.dist, sc.ts[k]);
      var t, us := sc.ts[k], sc.ts[k + 1..];
      assert sc.ts[k..][0] == t && sc.ts[k..][1..] == us;
      TokenParts(sc.lit, sc.dist, t);
      var a, b, c, d, m := SymBits(sc.lit, LitSym(t)), TailBits(sc.dist, t), TokensBits(sc.lit, sc.dist, us),
          SymBits(sc.lit, 256), sc.more;
      assert ((a + b) + c + d) + m == a + (b + ((c + d) + m));
    }
  }

  /** A literal symbol, once its byte is stored, ends a token. */
  lemma LiteralDone(sc: Script, k: nat, sym: nat, rest: seq<bool>, history: seq<byte>)
    requires sc.Past(k, sym, rest, history) && sym < 256
    ensures sc.At(k + 1, rest, history + [sym])
    ensures history + [sym] <= sc.Whole()
  {
    hide SymBits, TokensBits, Covers, LenSym;
    LengthSymbols(sc, k);
    FeasiblePrefix(sc.start, sc.ts, k);
    FeasiblePrefix(sc.start, sc.ts, k + 1);
    assert [] + (BodyBits(sc.lit, sc.dist, sc.ts[k + 1..]) + sc.more) ==
        BodyBits(sc.lit, sc.dist, sc.ts[k + 1..]) + sc.more;
  }

  /** Which symbol stands for what. */
  lemma LengthSymbols(sc: Script, k: nat)
    requires sc.Valid() && k <= |sc.ts|
    ensures sc.NextSym(k) == 256 <==> k == |sc.ts|
    ensures sc.NextSym(k) < 256 <==> k < |sc.ts| && sc.ts[k].Literal?
    ensures k < |sc.ts| && sc.ts[k].Literal? ==> sc.ts[k].lit == sc.NextSym(k)
    ensures k < |sc.ts| && sc.ts[k].Match? ==> 257 <= sc.NextSym(k) <= 285
  {
    hide LenSym;
    if k < |sc.ts| && sc.ts[k].Match? {
      assert sc.ts[k] in sc.ts;
      LengthRecovered(sc.ts[k].len - MIN_MATCH);
    }
  }

  // ---------- literals ----------

  /** The tables decode the codes of the script, and nothing is aliased. */
  ghost predicate Set(o: Output, t0: Table, t1: Table, sc: Script)
    reads t0, t0.lookUp, t0.tree, t1, t1.lookUp, t1.tree
  {
    && Usable(t0, WordsOf(sc.lit)) && |sc.lit| <= 288
    && Usable(t1, WordsOf(sc.dist)) && |sc.dist| <= 32
    && o.out as object !in {t0.lookUp, t0.tree, t1.lookUp, t1.tree}
  }

  /** The bits or the room used up by every step of the loop. */
  ghost function Fuel(r: BitReader, o: Output): nat
    requires r.Valid() && o.Valid()
    reads r, o, o.out
  {
    |r.Rest()| + o.Left()
  }

  /** All the room there was at the start is used or left, and is enough for the whole of the data. */
  ghost predicate Ample(o: Output, sc: Script)
    requires o.Valid()
    reads o, o.out
  {
    sc.Valid() && |sc.Whole()| <= sc.room == |o.history| + o.Left() && (o.wraps ==> DICT_SIZE <= o.out.Length)
  }

  ghost function RoomOf(o: Output): Room {
    Room(o.out.Length, o.wraps)
  }

  /** A literal decoded with TINFL_HUFF_DECODE, and stored. */
  method SlowSymbol(r: BitReader, o: Output, t0: Table, t1: Table, ghost sc: Script, ghost k: nat, ghost on: bool)
    returns (status: Status, counter: nat)
    requires r.Valid() && o.Valid() && Set(o, t0, t1, sc)
    requires on ==> sc.At(k, r.Rest(), o.history) && Ample(o, sc)
    modifies r, o, o.out
    ensures r.Valid() && o.Valid() && counter < 288
    ensures status.Ok? ==> Fuel(r, o) < old(Fuel(r, o))
    ensures on ==> status.Ok? && Ample(o, sc)
    ensures on && counter < 256 ==> sc.At(k + 1, r.Rest(), o.history)
    ensures on && counter >= 256 ==> sc.Past(k, counter, r.Rest(), o.history)
    ensures on && old(r.Snug()) ==> r.Snug()
    ensures status.Ok? ==>
              ReadFrom(sc.lit, old(r.Rest()), r.Rest(), counter)
                  && o.history == old(o.history) + if counter < 256 then [counter] else []
  {
    hide Supplied, ReadFrom, BitReader.Rest, Usable, WordsOf, SymBits, Script.At, Script.Past, Script.After,
         Script.NextSym, Script.Valid, Script.Whole, Output.Left, Window, Summed, Used;
    if on { SymbolAhead(sc, k, r.Rest(), o.history); }
    var ok;
    ok, counter := ReadSymbol(t0, r, sc.lit, if on then sc.NextSym(k) else 0, if on then sc.After(k) else []);
    if !ok {
      return NeedsMoreInput, 0;
    }
    if counter < 256 {
      if on { LiteralDone(sc, k, counter, r.Rest(), o.history); }
      ok := o.MakeRoom();
      if !ok {
        return HasMoreOutput, 0;
      }
      o.Put(counter);
    }
    status := Ok;
  }

  /** One look-up of the fast path: at least 15 bits are buffered, and a code length of zero is an error. */
  method FastSymbol(t: Table, r: BitReader, ghost lens: seq<nat>, ghost s: nat, ghost more: seq<bool>)
    returns (ok: bool, sym: nat)
    requires Usable(t, WordsOf(lens)) && r.Valid() && r.numBits >= 15
    modifies r`bitBuf, r`numBits
    ensures r.Valid() && r.numBits >= old(r.numBits) - 15 && (sym == 0 || sym < |lens|)
    ensures |r.Rest()| <= |old(r.Rest())| && (ok ==> |r.Rest()| < |old(r.Rest())|)
    ensures old(r.Rest()) == SymBits(lens, s) + more && Used(lens, s) ==> ok && sym == s && r.Rest() == more
    ensures old(r.Snug()) ==> r.Snug()
    ensures ok ==> ReadFrom(lens, old(r.Rest()), r.Rest(), sym)
  {
    hide Supplied, Usable, WordsOf, Word, SymBits, ReadFrom, ToBits, BytesBits, Fills, Short, NoCode;
    SymStarts(lens, s, more);
    ghost var words, before := WordsOf(lens), r.Rest();
    var len;
    sym, len := Resolve(t, r.bitBuf, words);
    ok := len != 0;
    UsableShort(t, words);
    forall s': nat | InflateTables.Starts(words, before, s') ensures sym == s' && len == |words[s']| > 0 {
      FastEnough(words, r.bitBuf, r.numBits, BytesBits(r.Unread()), s');
    }
    SomeWord(words, r.bitBuf, r.numBits, BytesBits(r.Unread()));
    if sym > 0 { StartsAhead(words, r.bitBuf, r.numBits, BytesBits(r.Unread()), sym); }
    r.Drop(len);
    WordRead(lens, before, r.Rest(), sym);
  }

  lemma SomeWord(words: InflateTables.Words, v: nat, n: nat, tail: seq<bool>)
    requires n >= 15
    ensures !(Fills(words) && NoCode(words, ToBits(v, n) + tail))
  {
    hide Fills;
    if Fills(words) { FillsEnough(words, v, n, tail); }
  }

  lemma FastEnough(words: InflateTables.Words, v: nat, n: nat, tail: seq<bool>, s: nat)
    requires Short(words) && n >= 15
    ensures InflateTables.Starts(words, ToBits(v, n) + tail, s) ==>
        InflateTables.Starts(words, ToBits(v, 15), s) && |words[s]| > 0
  {
    hide ToBits;
    BitsPrefix(v, 15, n);
  }

  /** The fast path: four bytes at once into the bit buffer, then up to two symbols. */
  method TwoSymbols(r: BitReader, o: Output, t0: Table, t1: Table, ghost sc: Script, ghost k: nat, ghost on: bool,
                    ghost from: Origin, ghost ps: seq<Piece>)
    returns (status: Status, counter: nat, ghost k': nat, ghost ps': seq<Piece>, ghost mid: seq<bool>)
    requires r.Valid() && o.Valid() && Set(o, t0, t1, sc) && |r.input| - r.cur >= 4 && o.out.Length - o.cur >= 2
    requires Told(from, ps, sc.lit, sc.dist, RoomOf(o), o.history, r.Rest())
    requires on ==> sc.At(k, r.Rest(), o.history) && Ample(o, sc)
    modifies r, o, o.out
    ensures r.Valid() && o.Valid() && counter < 288
    ensures status.Ok? ==> Fuel(r, o) < old(Fuel(r, o))
    ensures on ==> status.Ok? && Ample(o, sc)
    ensures on && counter < 256 ==> sc.At(k', r.Rest(), o.history)
    ensures on && counter >= 256 ==> sc.Past(k', counter, r.Rest(), o.history)
    ensures on && old(r.Snug()) ==> r.Snug()
    ensures status.Ok? ==> Symbolled(from, ps', sc.lit, sc.dist, RoomOf(o), o.history, r.Rest(), counter, mid)
  {
    hide Supplied, Told, BodyRead, MatchRead, ReadFrom, BitReader.Rest, Usable, WordsOf, SymBits, Script.At,
         Script.Past, Script.After, Script.NextSym, Script.Valid, Script.Whole, Output.Left, Window, Summed, Used;
    k', ps' := k, ps;
    if r.numBits < 30 {
      r.TakeByte();
      r.TakeByte();
      r.TakeByte();
      r.TakeByte();
    }
    if on { SymbolAhead(sc, k, r.Rest(), o.history); }
    var ok;
    mid := r.Rest();
    ok, counter := FastSymbol(t0, r, sc.lit, if on then sc.NextSym(k) else 0, if on then sc.After(k) else []);
    if !ok {
      return Failed, 0, k', ps, mid;
    }
    if counter >= 256 {
      return Ok, counter, k', ps, mid;
    }
    if on { LiteralDone(sc, k, counter, r.Rest(), o.history); }
    ps' := LiteralTold(from, ps, sc.lit, sc.dist, RoomOf(o), o.history, mid, r.Rest(), counter);
    status, counter, k', ps', mid := SecondSymbol(r, o, t0, t1, counter, sc, k + 1, on, from, ps');
  }

  /** The second look-up of the fast path; the first literal is stored only when it succeeds. */
  method SecondSymbol(r: BitReader, o: Output, t0: Table, t1: Table, first: byte, ghost sc: Script, ghost k: nat,
                      ghost on: bool, ghost from: Origin, ghost ps: seq<Piece>)
    returns (status: Status, counter: nat, ghost k': nat, ghost ps': seq<Piece>, ghost mid: seq<bool>)
    requires r.Valid() && o.Valid() && Set(o, t0, t1, sc) && r.numBits >= 15 && o.out.Length - o.cur >= 2
    requires Told(from, ps, sc.lit, sc.dist, RoomOf(o), o.history + [first], r.Rest())
    requires on ==> sc.At(k, r.Rest(), o.history + [first]) && Ample(o, sc)
    modifies r`bitBuf, r`numBits, o, o.out
    ensures r.Valid() && o.Valid() && counter < 288
    ensures status.Ok? ==> Fuel(r, o) < old(Fuel(r, o))
    ensures on ==> status.Ok? && Ample(o, sc)
    ensures on && counter < 256 ==> sc.At(k', r.Rest(), o.history)
    ensures on && counter >= 256 ==> sc.Past(k', counter, r.Rest(), o.history)
    ensures on && old(r.Snug()) ==> r.Snug()
    ensures status.Ok? ==> Symbolled(from, ps', sc.lit, sc.dist, RoomOf(o), o.history, r.Rest(), counter, mid)
  {
    hide Supplied, Told, BodyRead, MatchRead, ReadFrom, BitReader.Rest, Usable, WordsOf, SymBits, Script.At,
         Script.Past, Script.After, Script.NextSym, Script.Valid, Script.Whole, Output.Left, Window, Summed, Used;
    k', ps' := k, ps;
    ghost var h := o.history + [first];
    if on { SymbolAhead(sc, k, r.Rest(), h); }
    var ok;
    mid := r.Rest();
    ok, counter := FastSymbol(t0, r, sc.lit, if on then sc.NextSym(k) else 0, if on then sc.After(k) else []);
    if !ok {
      return Failed, 0, k', ps, mid;
    }
    status := Ok;
    o.Put(first);
    if counter >= 256 {
      return;
    }
    if on { LiteralDone(sc, k, counter, r.Rest(), h); }
    ps' := LiteralTold(from, ps, sc.lit, sc.dist, RoomOf(o), h, mid, r.Rest(), counter);
    o.Put(counter);
    k' := k + 1;
  }

  /** The inner loop: literals up to the next length symbol or the end of the block. */
  method Literals(r: BitReader, o: Output, t0: Table, t1: Table, ghost sc: Script, ghost k: nat, ghost on: bool,
                  ghost from: Origin, ghost ps: seq<Piece>)
    returns (status: Status, counter: nat, ghost k': nat, ghost ps': seq<Piece>, ghost mid: seq<bool>)
    requires r.Valid() && o.Valid() && Set(o, t0, t1, sc)
    requires Told(from, ps, sc.lit, sc.dist, RoomOf(o), o.history, r.Rest())
    requires on ==> sc.At(k, r.Rest(), o.history) && Ample(o, sc)
    modifies r, o, o.out
    ensures r.Valid() && o.Valid() && Set(o, t0, t1, sc)
    ensures status.Ok? ==> Fuel(r, o) < old(Fuel(r, o)) && 256 <= counter < 288
    ensures on ==> status.Ok? && Ample(o, sc) && sc.Past(k', counter, r.Rest(), o.history)
    ensures on && old(r.Snug()) ==> r.Snug()
    ensures status.Ok? ==> Symbolled(from, ps', sc.lit, sc.dist, RoomOf(o), o.history, r.Rest(), counter, mid)
  {
    hide Supplied, Told, BodyRead, MatchRead, ReadFrom, BitReader.Rest, Usable, WordsOf, Script.At, Script.Past,
         Script.Whole, Script.Valid, Output.Left, Window, Summed, BytesBits, Ample;
    k', ps' := k, ps;
    while true
      invariant r.Valid() && o.Valid() && Set(o, t0, t1, sc) && Fuel(r, o) <= old(Fuel(r, o))
      invariant on ==> sc.At(k', r.Rest(), o.history) && Ample(o, sc) && (old(r.Snug()) ==> r.Snug())
      invariant Told(from, ps', sc.lit, sc.dist, RoomOf(o), o.history, r.Rest())
      decreases Fuel(r, o)
    {
      if |r.input| - r.cur < 4 || o.out.Length - o.cur < 2 {
        mid := r.Rest();
        ghost var h := o.history;
        status, counter := SlowSymbol(r, o, t0, t1, sc, k', on);
        if on && counter < 256 { k' := k' + 1; }
        if status.Ok? { ps' := SlowTold(from, ps', sc, RoomOf(o), h, mid, r.Rest(), counter); }
      } else {
        status, counter, k', ps', mid := TwoSymbols(r, o, t0, t1, sc, k', on, from, ps');
      }
      if !status.Ok? || counter >= 256 {
        return;
      }
    }
  }

  lemma SlowTold(from: Origin, ps: seq<Piece>, sc: Script, room: Room, data: seq<byte>, before: seq<bool>,
                 after: seq<bool>, sym: nat)
    returns (ps': seq<Piece>)
    requires Told(from, ps, sc.lit, sc.dist, room, data, before) && ReadFrom(sc.lit, before, after, sym)
    ensures Symbolled(from, ps', sc.lit, sc.dist, room, data + if sym < 256 then [sym] else [], after, sym, before)
  {
    hide Told, ReadFrom;
    ps' := ps;
    if sym < 256 {
      ps' := LiteralTold(from, ps, sc.lit, sc.dist, room, data, before, after, sym);
    } else {
      JoinNothing(data);
    }
  }

  // ---------- matches ----------

  /** A base value plus a field of extra bits, which is read only when it has a width. */
  method ReadExtra(r: BitReader, base: nat, extra: nat, ghost v: nat, ghost more: seq<bool>) returns (ok: bool, n: nat)
    requires r.Valid() && extra <= 13
    modifies r
    ensures r.Valid() && n >= base && |r.Rest()| <= |old(r.Rest())|
    ensures old(r.Rest()) == ToBits(v, extra) + more && v < Pow2(extra) ==> ok && n == base + v && r.Rest() == more
    ensures ok && old(r.Snug()) ==> r.Snug()
    ensures ok ==> n - base < Pow2(extra) && old(r.Rest()) == ToBits(n - base, extra) + r.Rest()
  {
    hide Supplied, Pow2;
    ok, n := true, base;
    NoField(extra, v, more);
    NoBitsRead(extra, r.Rest());
    if extra > 0 {
      var bits;
      ok, bits := ReadField(r, extra, v, more);
      n := base + bits;
    }
  }

  lemma NoBitsRead(n: nat, rest: seq<bool>)
    ensures n == 0 ==> 0 < Pow2(n) && ToBits(0, n) + rest == rest
  {
    if n == 0 { assert [] + rest == rest; }
  }

  lemma NoField(n: nat, v: nat, more: seq<bool>)
    ensures n == 0 ==> ToBits(v, n) + more == more && (v < Pow2(n) ==> v == 0)
  {
    if n == 0 { assert [] + more == more; }
  }

  /** The bits behind the symbol of a match, one field at a time. */
  ghost predicate MatchFields(sc: Script, k: nat, m: nat, d: nat, sym: nat, rest: seq<bool>) {
    && sc.Valid() && k < |sc.ts|
    && m < 256 && d < DICT_SIZE && sc.ts[k] == Match(m + MIN_MATCH, d + 1)
    && sym == LenSym(m) && Used(sc.dist, DistSym(d))
    && rest == ToBits(Low(m, LenExtra(m)), LenExtra(m)) + DistanceFields(sc, k, d)
  }

  ghost function DistanceFields(sc: Script, k: nat, d: nat): seq<bool>
    requires sc.Valid() && k < |sc.ts| && d < DICT_SIZE
  {
    SymBits(sc.dist, DistSym(d)) + (ToBits(Low(d, DistExtra(d)), DistExtra(d)) + Next(sc, k))
  }

  ghost function Next(sc: Script, k: nat): seq<bool>
    requires sc.Valid() && k < |sc.ts|
  {
    BodyBits(sc.lit, sc.dist, sc.ts[k + 1..]) + sc.more
  }

  lemma MatchAhead(sc: Script, k: nat, sym: nat, rest: seq<bool>, history: seq<byte>) returns (m: nat, d: nat)
    requires sc.Past(k, sym, rest, history) && sym > 256
    ensures MatchFields(sc, k, m, d, sym, rest)
    ensures d + 1 <= |history|
    ensures sc.At(k + 1, Next(sc, k), CopyBack(history, m + MIN_MATCH, d + 1))
    ensures |CopyBack(history, m + MIN_MATCH, d + 1)| <= |sc.Whole()|
  {
    hide SymBits, TokensBits, LenSym, DistSym, Low, ToBits, LenExtra, DistExtra, CopyBack, Script.After, BodyBits,
         Covers, DistanceFields, Expand, Feasible;
    LengthSymbols(sc, k);
    var t := sc.ts[k];
    assert t in sc.ts;
    m, d := t.len - MIN_MATCH, t.dist - 1;
    MatchSplit(sc, k, m, d);
    FeasiblePrefix(sc.start, sc.ts, k);
    FeasiblePrefix(sc.start, sc.ts, k + 1);
  }

  lemma MatchSplit(sc: Script, k: nat, m: nat, d: nat)
    requires sc.Valid() && k < |sc.ts| && m < 256 && d < DICT_SIZE && sc.ts[k] == Match(m + MIN_MATCH, d + 1)
    ensures sc.After(k) == ToBits(Low(m, LenExtra(m)), LenExtra(m)) + DistanceFields(sc, k, d)
    ensures Used(sc.dist, DistSym(d)) && sc.NextSym(k) == LenSym(m)
  {
    hide SymBits, TokensBits, LenSym, DistSym, Low, ToBits, LenExtra, DistExtra, Expand, Feasible, BodyBits;
    assert Covered(sc.lit, sc.dist, sc.ts[k]);
    var a, b, c, e := ToBits(Low(m, LenExtra(m)), LenExtra(m)), SymBits(sc.dist, DistSym(d)),
        ToBits(Low(d, DistExtra(d)), DistExtra(d)), Next(sc, k);
    assert (a + b + c) + e == a + (b + (c + e));
  }

  /** The distance, from its symbol and extra bits. */
  method ReadDistance(r: BitReader, t1: Table, ghost sc: Script, ghost k: nat, ghost d: nat, ghost on: bool)
    returns (status: Status, dist: nat, ghost dsym: nat, ghost mid: seq<bool>)
    requires r.Valid() && Usable(t1, WordsOf(sc.dist)) && |sc.dist| <= 32
    requires on ==>
            sc.Valid() && k < |sc.ts| && d < DICT_SIZE && Used(sc.dist, DistSym(d))
            && r.Rest() == DistanceFields(sc, k, d)
    modifies r
    ensures r.Valid() && |r.Rest()| <= |old(r.Rest())|
    ensures on ==> status.Ok? && dist == d + 1 && r.Rest() == Next(sc, k) && (old(r.Snug()) ==> r.Snug())
    ensures status.Ok? ==>
              && dsym < 32 && ReadFrom(sc.dist, old(r.Rest()), mid, dsym)
              && 0 <= dist - DistBase(dsym) < Pow2(DistanceExtra(dsym))
              && mid == ToBits(dist - DistBase(dsym), DistanceExtra(dsym)) + r.Rest()
  {
    hide Supplied, ReadFrom, BitReader.Rest, Usable, WordsOf, SymBits, DistSym, Low, ToBits, DistExtra, Pow2, DistBase,
         DistanceExtra, Next, Script.Valid, Used;
    if on {
      DistanceRecovered(d);
      LowBound(d, DistExtra(d));
    }
    var ok, sym := ReadSymbol(t1, r, sc.dist, if on then DistSym(d) else 0,
                              if on then ToBits(Low(d, DistExtra(d)), DistExtra(d)) + Next(sc, k) else []);
    dsym, mid := sym, r.Rest();
    if !ok {
      return NeedsMoreInput, 0, dsym, mid;
    }
    ok, dist := ReadExtra(r, DistBase(sym), DistanceExtra(sym), if on then Low(d, DistExtra(d)) else 0, if on then
        Next(sc, k) else []);
    status := if ok then Ok else NeedsMoreInput;
  }

  /** The length of a match whose symbol has been read, and its distance. */
  method ReadFields(r: BitReader, t1: Table, sym: nat, ghost sc: Script, ghost k: nat, ghost m: nat, ghost d: nat,
                    ghost on: bool, ghost mid: seq<bool>)
    returns (status: Status, count: nat, dist: nat, ghost p: Piece)
    requires r.Valid() && Usable(t1, WordsOf(sc.dist)) && |sc.dist| <= 32 && 257 <= sym < 288
        && ReadFrom(sc.lit, mid, r.Rest(), sym)
    requires on ==> MatchFields(sc, k, m, d, sym, r.Rest())
    modifies r
    ensures r.Valid() && |r.Rest()| <= |old(r.Rest())|
    ensures on ==>
            status.Ok? && count == m + MIN_MATCH && dist == d + 1 && r.Rest() == Next(sc, k)
            && (old(r.Snug()) ==> r.Snug())
    ensures status.Ok? ==> MatchRead(p, sc.lit, sc.dist, mid, r.Rest()) && p.Length() == count && p.Distance() == dist
  {
    hide Supplied, Usable, WordsOf, Script.Valid, LenSym, LenExtra, Low, ToBits, Pow2, LengthBase, LengthExtra,
         DistanceFields, Next, Used, DistSym, DistBase, DistanceExtra, ReadFrom, MatchRead, BitReader.Rest;
    ghost var r1 := r.Rest();
    if on {
      LengthRecovered(m);
      LowBound(m, LenExtra(m));
    }
    dist, p := 0, Byte([], 0);
    var ok;
    ok, count := ReadExtra(r, LengthBase(sym - 257), LengthExtra(sym - 257), if on then Low(m, LenExtra(m)) else 0,
                           if on then DistanceFields(sc, k, d) else []);
    if !ok {
      return NeedsMoreInput, count, dist, p;
    }
    ghost var r2 := r.Rest();
    ghost var dsym, r3;
    status, dist, dsym, r3 := ReadDistance(r, t1, sc, k, d, on);
    if status.Ok? {
      p := MatchHere(sc, sym, count, dist, dsym, mid, r1, r2, r3, r.Rest());
    }
  }

  /** A length symbol has been read: the rest of the match, and the copy. */
  method ReadMatch(r: BitReader, o: Output, t0: Table, t1: Table, sym: nat, ghost sc: Script, ghost k: nat,
                   ghost on: bool, ghost from: Origin, ghost ps: seq<Piece>, ghost mid: seq<bool>)
    returns (status: Status, ghost ps': seq<Piece>)
    requires r.Valid() && o.Valid() && Set(o, t0, t1, sc) && 257 <= sym < 288
    requires Symbolled(from, ps, sc.lit, sc.dist, RoomOf(o), o.history, r.Rest(), sym, mid)
    requires on ==> sc.Past(k, sym, r.Rest(), o.history) && Ample(o, sc)
    modifies r, o, o.out
    ensures r.Valid() && o.Valid() && Set(o, t0, t1, sc)
    ensures status.Ok? ==> Fuel(r, o) <= old(Fuel(r, o))
    ensures on ==> status.Ok? && Ample(o, sc) && sc.At(k + 1, r.Rest(), o.history) && (old(r.Snug()) ==> r.Snug())
    ensures status.Ok? ==> Told(from, ps', sc.lit, sc.dist, RoomOf(o), o.history, r.Rest())
  {
    hide Supplied, Usable, WordsOf, Script.At, Script.Past, Script.Valid, Script.Whole, Output.Left, Window, Summed,
         LenSym, LenExtra, Low, ToBits, DistanceFields, Next, Used, CopyBack, DistSym, Told, MatchRead, ReadFrom,
         Piece.Length, Piece.Distance, BitReader.Rest;
    ghost var m: nat, d: nat := 0, 0;
    ghost var h := o.history;
    ps' := ps;
    if on { m, d := MatchAhead(sc, k, sym, r.Rest(), o.history); }
    var count, dist;
    ghost var p;
    status, count, dist, p := ReadFields(r, t1, sym, sc, k, m, d, on, mid);
    if !status.Ok? {
      return;
    }
    if (dist == 0 || dist > o.cur || o.cur == 0) && !o.wraps {
      return Failed, ps;
    }
    SameDistance(dist, o.out.Length);
    var ok := o.CopyMatch((dist - 1) % o.out.Length + 1, count);
    status := if ok then Ok else HasMoreOutput;
    if ok {
      ps' := ps + [p];
      MatchCopied(from, ps, sc, RoomOf(o), h, mid, r.Rest(), p, count, dist);
    }
  }

  lemma MatchHere(sc: Script, sym: nat, count: nat, dist: nat, dsym: nat, before: seq<bool>, r1: seq<bool>,
                  r2: seq<bool>, r3: seq<bool>, after: seq<bool>)
    returns (p: Piece)
    requires 257 <= sym < 288 && ReadFrom(sc.lit, before, r1, sym) && dsym < 32 && ReadFrom(sc.dist, r2, r3, dsym)
    requires 0 <= count - LengthBase(sym - 257) < Pow2(LengthExtra(sym - 257))
    requires r1 == ToBits(count - LengthBase(sym - 257), LengthExtra(sym - 257)) + r2
    requires 0 <= dist - DistBase(dsym) < Pow2(DistanceExtra(dsym))
        && r3 == ToBits(dist - DistBase(dsym), DistanceExtra(dsym)) + after
    ensures MatchRead(p, sc.lit, sc.dist, before, after) && p.Length() == count && p.Distance() == dist
  {
    hide MatchRead, ReadFrom, ToBits, Pow2;
    p := MatchTold(sc.lit, sc.dist, sym, count - LengthBase(sym - 257), dsym, dist - DistBase(dsym), before, r1, r2,
        r3, after);
  }

  lemma MatchCopied(from: Origin, ps: seq<Piece>, sc: Script, room: Room, data: seq<byte>, before: seq<bool>,
                    after: seq<bool>, p: Piece, count: nat, dist: nat)
    requires Told(from, ps, sc.lit, sc.dist, room, data, before) && MatchRead(p, sc.lit, sc.dist, before, after)
    requires p.Length() == count && p.Distance() == dist && 0 < room.size
    requires if room.ring then room.size <= |data| else 1 <= dist <= |data| <= room.size
    ensures 1 <= Effective(dist, room) <= |data|
    ensures Told(from, ps + [p], sc.lit, sc.dist, room, CopyBack(data, count, Effective(dist, room)), after)
  {
    hide Told, MatchRead, CopyBack;
    SameDistance(dist, room.size);
    CopyTold(from, ps, sc.lit, sc.dist, room, data, before, after, p);
  }

  /** In a ring only the distance modulo its size matters. */
  lemma SameDistance(dist: nat, n: nat)
    requires n > 0
    ensures 1 <= (dist - 1) % n + 1 <= n
    ensures 1 <= dist <= n ==> (dist - 1) % n + 1 == dist
  {
    if 1 <= dist <= n { SmallMod(dist - 1, n); }
  }

  /** The unread bits are the body of the block the script describes, and there is room for its data. */
  ghost predicate Promised(r: BitReader, o: Output, sc: Script)
    requires r.Valid() && o.Valid()
    reads r, o, o.out
  {
    sc.Valid() && sc.start == o.history && Ample(o, sc) && r.Rest() == BodyBits(sc.lit, sc.dist, sc.ts) + sc.more
  }

  /**
    The symbol loop of a block, up to and including the end-of-block symbol. If the unread bits
    are the body of a block for some tokens, the codes are the ones the tables were built from,
    and there is room, then the output grows by exactly what the tokens stand for and exactly the
    bits of the body are consumed.
   */
  method InflateSymbols(r: BitReader, o: Output, t0: Table, t1: Table, ghost sc: Script)
    returns (status: Status, ghost ps: seq<Piece>, ghost end: seq<bool>)
    requires r.Valid() && o.Valid() && Set(o, t0, t1, sc)
    modifies r, o, o.out
    ensures r.Valid() && o.Valid() && (status.Ok? ==> Fuel(r, o) <= old(Fuel(r, o)))
    ensures old(Promised(r, o, sc)) ==>
            status.Ok? && o.history == sc.Whole() && r.Rest() == sc.more && Ample(o, sc)
            && (old(r.Snug()) ==> r.Snug())
    ensures status.Ok? ==> BodyRead(Origin(old(o.history), old(r.Rest())), ps, end, sc.lit, sc.dist, RoomOf(o),
        o.history, r.Rest())
  {
    hide Supplied, Told, BodyRead, MatchRead, ReadFrom, BitReader.Rest, Usable, WordsOf, Script.At, Script.Past,
         Script.Whole, Script.Valid, Output.Left, Window, Summed, BytesBits, Ample, Set, TokensBits;
    ghost var on := Promised(r, o, sc);
    ghost var k := 0;
    if on { Begin(sc, r.Rest()); }
    ghost var from, mid := Origin(o.history, r.Rest()), r.Rest();
    ps, end := [], [];
    NothingTold(o.history, r.Rest(), sc.lit, sc.dist, RoomOf(o));
    while true
      invariant r.Valid() && o.Valid() && Set(o, t0, t1, sc) && Fuel(r, o) <= old(Fuel(r, o))
      invariant on ==> sc.At(k, r.Rest(), o.history) && Ample(o, sc) && (old(r.Snug()) ==> r.Snug())
      invariant Told(from, ps, sc.lit, sc.dist, RoomOf(o), o.history, r.Rest())
      decreases Fuel(r, o)
    {
      var counter;
      status, counter, k, ps, mid := Literals(r, o, t0, t1, sc, k, on, from, ps);
      if !status.Ok? {
        return;
      }
      if counter == 256 {
        if on { Finish(sc, k, r.Rest(), o.history); }
        end := BodyTold(from, ps, sc.lit, sc.dist, RoomOf(o), o.history, r.Rest(), mid);
        return;
      }
      status, ps := ReadMatch(r, o, t0, t1, counter, sc, k, on, from, ps, mid);
      if !status.Ok? {
        return;
      }
      k := k + 1;
    }
  }

  lemma Begin(sc: Script, rest: seq<bool>)
    requires sc.Valid() && rest == BodyBits(sc.lit, sc.dist, sc.ts) + sc.more
    ensures sc.At(0, rest, sc.start)
  {
    assert sc.ts[0..] == sc.ts && sc.ts[..0] == [];
  }

  lemma Finish(sc: Script, k: nat, rest: seq<bool>, history: seq<byte>)
    requires sc.Past(k, 256, rest, history)
    ensures rest == sc.more && history == sc.Whole()
  {
    LengthSymbols(sc, k);
    assert sc.ts[..k] == sc.ts;
  }
}
