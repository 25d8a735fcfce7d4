/**
  The parts of a stream, measured against the decoder of the standard: numbers, code words, lengths
  and distances are what it reads, and whatever it reads are they.
 */
module StandardCodes {
  import opened Bits
  import opened Canonical
  import opened Tokens
  import opened DynamicHeader
  import PlainStreams
  import Std = Standard

  // ---------- numbers ----------

  lemma {:induction false} ValPush(bs: seq<bool>, b: bool)
    ensures Val(bs + [b]) == Val(bs) + if b then Pow2(|bs|) else 0
  {
    if bs != [] {
      assert (bs + [b])[1..] == bs[1..] + [b];
      ValPush(bs[1..], b);
    }
  }

  lemma {:induction false} NumberIsVal(bs: seq<bool>)
    ensures Std.Number(bs) == Val(bs)
  {
    if bs != [] {
      var n := |bs| - 1;
      NumberIsVal(bs[..n]);
      ValPush(bs[..n], bs[n]);
      assert bs == bs[..n] + [bs[n]];
    }
  }

  lemma FieldReads(v: nat, n: nat, more: seq<bool>)
    requires v < Pow2(n)
    ensures Std.Field(ToBits(v, n) + more, n) == Std.Read(v, more)
  {
    var bits := ToBits(v, n) + more;
    assert bits[..n] == ToBits(v, n) && bits[n..] == more;
    NumberIsVal(ToBits(v, n));
    ValOfToBits(v, n);
    LowSmall(v, n);
  }

  lemma FieldIs(bits: seq<bool>, n: nat)
    ensures var r := Std.Field(bits, n);
            r.Read? ==> r.value < Pow2(n) && bits == ToBits(r.value, n) + r.rest
  {
    if |bits| >= n {
      NumberIsVal(bits[..n]);
      ToBitsOfVal(bits[..n]);
      ValBound(bits[..n]);
      assert bits == bits[..n] + bits[n..];
    }
  }

  lemma ShrIsDivision(v: nat, k: nat)
    ensures Shr(v, k) == v / Pow2(k)
  {
    ShrLow(v, k);
    LowBound(v, k);
    Quotient(v, Pow2(k), Shr(v, k), Low(v, k));
  }

  lemma Quotient(v: nat, p: nat, q: nat, r: nat)
    requires v == p * q + r && r < p
    ensures v / p == q
  {
    var a := v / p;
    assert v == p * a + v % p;
    if a < q { Apart(p, a, q); }
    if q < a { Apart(p, q, a); }
  }

  lemma {:induction false} Apart(p: nat, a: nat, b: nat)
    requires a < b
    ensures p * a + p <= p * b
  {
    Once(p, b - 1);
    if a < b - 1 { Apart(p, a, b - 1); }
  }

  lemma Once(p: nat, n: nat)
    ensures p * (n + 1) == p * n + p
  {
  }

  lemma {:induction false} BytesBitAt(bytes: seq<byte>, i: nat)
    requires i < 8 * |bytes|
    ensures BytesBits(bytes)[i] == ToBits(bytes[i / 8], 8)[i % 8]
  {
    hide ToBits;
    if i >= 8 {
      BytesBitAt(bytes[1..], i - 8);
      assert (i - 8) / 8 == i / 8 - 1 && (i - 8) % 8 == i % 8;
    }
  }

  /** The bits of bytes are those of the standard. */
  lemma BitsOfBytes(bytes: seq<byte>)
    ensures Std.BitsOf(bytes) == BytesBits(bytes)
  {
    hide ToBits, BytesBits, Pow2, Shr;
    forall i | 0 <= i < 8 * |bytes| ensures Std.BitsOf(bytes)[i] == BytesBits(bytes)[i] {
      BytesBitAt(bytes, i);
      BitAt(bytes[i / 8], 8, i % 8);
      ShrIsDivision(bytes[i / 8], i % 8);
    }
  }

  // ---------- code words ----------

  lemma {:induction false} HowManyIsCount(lens: seq<nat>, l: nat)
    ensures Std.HowMany(lens, l) == Count(lens, l)
  {
    if lens != [] {
      HowManyIsCount(lens[1..], l);
      CountFirst(lens, l);
    }
  }

  lemma {:induction false} CountFirst(lens: seq<nat>, l: nat)
    requires lens != []
    ensures Count(lens, l) == (if lens[0] == l then 1 else 0) + Count(lens[1..], l)
  {
    if |lens| > 1 {
      var n := |lens| - 1;
      CountFirst(lens[..n], l);
      assert lens[..n][1..] == lens[1..][..n - 1];
    }
  }

  /** The symbol that Nth names is the one with so many of its length before it. */
  lemma {:induction false} NthIs(lens: seq<nat>, l: nat, k: nat)
    requires k < Std.HowMany(lens, l)
    ensures var s := Std.Nth(lens, l, k); lens[s] == l && Count(lens[..s], l) == k
  {
    var s := Std.Nth(lens, l, k);
    if lens[0] != l || k > 0 {
      NthIs(lens[1..], l, if lens[0] != l then k else k - 1);
      CountFirst(lens[..s], l);
      assert lens[..s][1..] == lens[1..][..s - 1];
    }
  }

  lemma OnlyNth(lens: seq<nat>, s: nat, t: nat)
    requires s < |lens| && t < |lens| && lens[s] == lens[t] && Count(lens[..s], lens[s]) == Count(lens[..t], lens[s])
    ensures s == t
  {
    if s < t { CountPrefix(lens, s, t, lens[s]); }
    if t < s { CountPrefix(lens, t, s, lens[s]); }
  }

  /** One bit more. */
  lemma SymbolNext(lens: seq<nat>, bits: seq<bool>, l: nat, code: nat)
    requires l < 15 && bits != []
    ensures var c := 2 * code + if bits[0] then 1 else 0;
            Std.Symbol(lens, bits, l, code, 2 * Taken(lens, l))
            == if First(lens, l + 1) <= c < Taken(lens, l + 1) then
                 HowManyIsCount(lens, l + 1);
                 Std.Read(Std.Nth(lens, l + 1, c - First(lens, l + 1)), bits[1..])
               else Std.Symbol(lens, bits[1..], l + 1, c, 2 * Taken(lens, l + 1))
  {
    HowManyIsCount(lens, l + 1);
  }

  lemma NthWord(lens: seq<nat>, l: nat, c: nat)
    requires First(lens, l + 1) <= c < Taken(lens, l + 1)
    ensures c - First(lens, l + 1) < Std.HowMany(lens, l + 1)
    ensures var s := Std.Nth(lens, l + 1, c - First(lens, l + 1));
            Used(lens, s) && Word(lens, s) == Msb(c, l + 1)
  {
    hide Msb;
    HowManyIsCount(lens, l + 1);
    NthIs(lens, l + 1, c - First(lens, l + 1));
  }

  lemma MsbPush(c: nat, l: nat, b: bool, more: seq<bool>)
    ensures Msb(c, l) + ([b] + more) == Msb(2 * c + if b then 1 else 0, l + 1) + more
  {
    assert (2 * c + if b then 1 else 0) / 2 == c;
  }

  /**
    What has been taken is the beginning of code, and the codes of the next length begin at first:
    whatever symbol is read, the bits are its code word.
   */
  lemma {:induction false} SymbolIs(lens: seq<nat>, bits: seq<bool>, l: nat, code: nat)
    ensures var r := Std.Symbol(lens, bits, l, code, 2 * Taken(lens, l));
            r.Read? ==> Used(lens, r.value) && Msb(code, l) + bits == Word(lens, r.value) + r.rest
    decreases |bits|
  {
    if l < 15 && bits != [] {
      hide Taken, First, Std.Symbol, Word, Msb, Std.Nth;
      var c := 2 * code + if bits[0] then 1 else 0;
      SymbolNext(lens, bits, l, code);
      assert bits == [bits[0]] + bits[1..];
      MsbPush(code, l, bits[0], bits[1..]);
      if First(lens, l + 1) <= c < Taken(lens, l + 1) {
        NthWord(lens, l, c);
      } else {
        SymbolIs(lens, bits[1..], l + 1, c);
      }
    }
  }

  lemma DecodeIs(lens: seq<nat>, bits: seq<bool>)
    ensures var r := Std.Decode(lens, bits);
            r.Read? ==> Used(lens, r.value) && bits == SymBits(lens, r.value) + r.rest
  {
    hide Word, Std.Symbol;
    SymbolIs(lens, bits, 0, 0);
    assert Msb(0, 0) + bits == bits;
  }

  lemma MsbNext(c: nat, m: nat, l: nat)
    requires l < m
    ensures Msb(c, m)[l] == (Shr(c, m - l - 1) % 2 == 1)
    ensures Shr(c, m - l - 1) == 2 * Shr(c, m - l) + if Msb(c, m)[l] then 1 else 0
  {
    MsbPrefix(c, l + 1, m);
    assert Msb(c, m)[..l + 1][l] == Msb(Shr(c, m - l - 1), l + 1)[l];
    ShrHalf(c, m - l - 1);
  }

  /** Before the last bit of a code word, its value is beyond all codes that end there. */
  lemma StillOpen(lens: seq<nat>, s: nat, l: nat)
    requires Used(lens, s) && l < lens[s]
    ensures Shr(Code(lens, s), lens[s] - l) >= Taken(lens, l)
  {
    FirstAbove(lens, l, lens[s]);
    ShrMono(First(lens, lens[s]), Code(lens, s), lens[s] - l);
  }

  lemma LastBit(lens: seq<nat>, s: nat)
    requires Used(lens, s)
    ensures First(lens, lens[s]) <= Code(lens, s) < Taken(lens, lens[s])
    ensures var k := Code(lens, s) - First(lens, lens[s]);
            k < Std.HowMany(lens, lens[s]) && Std.Nth(lens, lens[s], k) == s
  {
    CountWhole(lens, s);
    HowManyIsCount(lens, lens[s]);
    var k := Code(lens, s) - First(lens, lens[s]);
    NthIs(lens, lens[s], k);
    OnlyNth(lens, s, Std.Nth(lens, lens[s], k));
  }

  /** From the l-th bit of a code word on: its symbol is read. */
  lemma {:induction false} SymbolReads(lens: seq<nat>, s: nat, more: seq<bool>, l: nat)
    requires Used(lens, s) && l < lens[s] <= 15
    ensures Std.Symbol(lens, Word(lens, s)[l..] + more, l, Shr(Code(lens, s), lens[s] - l), 2 * Taken(lens, l))
         == Std.Read(s, more)
    decreases lens[s] - l
  {
    hide Taken, First, Std.Symbol, Msb, Std.Nth, Code, Shr;
    var m, code := lens[s], Code(lens, s);
    var bits := Word(lens, s)[l..] + more;
    MsbNext(code, m, l);
    assert bits[0] == Word(lens, s)[l] && bits[1..] == Word(lens, s)[l + 1..] + more;
    SymbolNext(lens, bits, l, Shr(code, m - l));
    LastBit(lens, s);
    if l + 1 == m {
      assert Shr(code, 0) == code by { SameShift(code); }
      assert bits[1..] == more;
    } else {
      StillOpen(lens, s, l + 1);
      SymbolReads(lens, s, more, l + 1);
    }
  }

  lemma DecodeReads(lens: seq<nat>, s: nat, more: seq<bool>)
    requires Fits(lens) && Used(lens, s)
    ensures Std.Decode(lens, SymBits(lens, s) + more) == Std.Read(s, more)
  {
    hide Word, Code, Std.Symbol, Pow2, Shr, Count;
    SymbolReads(lens, s, more, 0);
    CodeFits(lens, s);
    ShrBound(Code(lens, s), lens[s], 0);
    assert Pow2(0) == 1 by { NoBitsLeft(); }
    assert Word(lens, s)[0..] == Word(lens, s) && 2 * Taken(lens, 0) == 0;
  }

  lemma NoBitsLeft()
    ensures Pow2(0) == 1
  {
  }

  // ---------- which lengths make a code ----------

  lemma {:induction false} TakenFirst(lens: seq<nat>, l: nat)
    requires lens != []
    ensures Taken(lens, l) == Taken(lens[1..], l) + if 0 < lens[0] <= l then Pow2(l - lens[0]) else 0
  {
    if l > 0 {
      TakenFirst(lens, l - 1);
      CountFirst(lens, l);
    }
  }

  lemma {:induction false} UsedFirst(lens: seq<nat>, l: nat)
    requires lens != []
    ensures UsedUpTo(lens, l) == UsedUpTo(lens[1..], l) + if 0 < lens[0] <= l then 1 else 0
  {
    if l > 0 {
      UsedFirst(lens, l - 1);
      CountFirst(lens, l);
    }
  }

  lemma {:induction false} NothingTaken(l: nat)
    ensures Taken([], l) == 0
  {
    if l > 0 { NothingTaken(l - 1); }
  }

  lemma {:induction false} SharesTaken(lens: seq<nat>)
    ensures Std.Shares(lens) == Taken(lens, 15)
  {
    hide Taken;
    if lens == [] {
      NothingTaken(15);
    } else {
      SharesTaken(lens[1..]);
      TakenFirst(lens, 15);
    }
  }

  lemma {:induction false} InUseUsed(lens: seq<nat>)
    requires Lengths(lens)
    ensures Std.InUse(lens) == UsedUpTo(lens, 15)
  {
    hide UsedUpTo;
    if lens == [] {
      UsedNone(15);
    } else {
      InUseUsed(lens[1..]);
      UsedFirst(lens, 15);
    }
  }

  /** The inflater's check on the sum accepts exactly what makes a code. */
  lemma CodeMade(lens: seq<nat>)
    ensures Std.MakesCode(lens) <==> Acceptable(lens)
  {
    hide Taken, UsedUpTo, Std.Shares, Std.InUse;
    if Lengths(lens) {
      SharesTaken(lens);
      InUseUsed(lens);
      Pow2Values();
      if Complete(lens) || UsedUpTo(lens, MAX_BITS) <= 1 { AcceptedFits(lens); }
    }
  }

  // ---------- lengths and distances ----------

  lemma {:induction false} LengthsAgree(sym: nat)
    requires 257 <= sym <= 285
    ensures Std.LengthBits(sym) == LengthExtra(sym - 257) && Std.LeastLength(sym) == LengthBase(sym - 257)
  {
    LengthTable(sym - 257);
    if 257 < sym < 285 {
      LengthsAgree(sym - 1);
      PlainStreams.LengthStep(sym - 258);
    }
  }

  lemma {:induction false} DistancesAgree(sym: nat)
    requires sym <= 29
    ensures Std.DistanceBits(sym) == DistanceExtra(sym) && Std.LeastDistance(sym) == DistBase(sym)
  {
    DistTable(sym);
    if sym > 0 {
      DistancesAgree(sym - 1);
      PlainStreams.DistStep(sym - 1);
    }
  }

  /** A length as the compressor sends it, as the standard understands it. */
  lemma LengthMeans(m: nat)
    requires m < 256
    ensures 257 <= LenSym(m) <= 285 && Std.LengthBits(LenSym(m)) == LenExtra(m)
    ensures Std.LeastLength(LenSym(m)) + Low(m, LenExtra(m)) == m + 3
    ensures !(LenSym(m) == 284 && Low(m, LenExtra(m)) == 31)
  {
    hide LenSym, LenExtra, Low, LengthBase, LengthExtra, Std.LeastLength, Std.LengthBits;
    LengthRecovered(m);
    LengthsAgree(LenSym(m));
    PlainStreams.LongestSymbol(m);
    PlainStreams.LastLengths();
  }

  lemma DistanceMeans(d: nat)
    requires d < DICT_SIZE
    ensures DistSym(d) <= 29 && Std.DistanceBits(DistSym(d)) == DistExtra(d)
    ensures Std.LeastDistance(DistSym(d)) + Low(d, DistExtra(d)) == d + 1
  {
    hide DistSym, DistExtra, Low, DistBase, DistanceExtra, Std.LeastDistance, Std.DistanceBits;
    DistanceRecovered(d);
    DistancesAgree(DistSym(d));
  }
}
