/**
  Canonical Huffman codes (section 3.2.2 of RFC 1951), defined from a list of code lengths
  alone: length 0 marks an unused symbol. Both ends of DEFLATE number their codes this way.
 */
module Canonical {
  import opened Bits

  const MAX_BITS: nat := 15

  /** How many symbols have length l. */
  function Count(lens: seq<nat>, l: nat): nat {
    if lens == [] then 0
    else Count(lens[..|lens| - 1], l) + if lens[|lens| - 1] == l then 1 else 0
  }

  /** How many bit strings of length l start with a code of length at most l. */
  function Taken(lens: seq<nat>, l: nat): nat {
    if l == 0 then 0 else 2 * Taken(lens, l - 1) + Count(lens, l)
  }

  /** The smallest code of length l. */
  function First(lens: seq<nat>, l: nat): nat
    requires l > 0
  {
    2 * Taken(lens, l - 1)
  }

  /** The canonical code of symbol s, as a number of lens[s] bits. */
  function Code(lens: seq<nat>, s: nat): nat
    requires s < |lens| && lens[s] > 0
  {
    First(lens, lens[s]) + Count(lens[..s], lens[s])
  }

  /** The l low bits of c, most significant first: the order in which a code is sent. */
  function Msb(c: nat, l: nat): (bs: seq<bool>)
    ensures |bs| == l
  {
    if l == 0 then [] else Msb(c / 2, l - 1) + [c % 2 == 1]
  }

  /** The code word of symbol s, as it appears in the stream. */
  function Word(lens: seq<nat>, s: nat): (bs: seq<bool>)
    requires s < |lens| && lens[s] > 0
    ensures |bs| == lens[s]
  {
    Msb(Code(lens, s), lens[s])
  }

  predicate Used(lens: seq<nat>, s: nat) {
    s < |lens| && 0 < lens[s]
  }

  predicate Lengths(lens: seq<nat>) {
    forall i :: 0 <= i < |lens| ==> lens[i] <= MAX_BITS
  }

  /** The lengths fit in a binary tree: their Kraft sum is at most one. */
  predicate Fits(lens: seq<nat>) {
    Lengths(lens) && Taken(lens, MAX_BITS) <= Pow2(MAX_BITS)
  }

  /** The lengths fill a binary tree: their Kraft sum is exactly one. */
  predicate Complete(lens: seq<nat>) {
    Lengths(lens) && Taken(lens, MAX_BITS) == Pow2(MAX_BITS)
  }

  /** The next code word on the bit string is that of symbol s. */
  predicate Starts(lens: seq<nat>, bits: seq<bool>, s: nat) {
    Used(lens, s) && Word(lens, s) <= bits
  }

  // ---------- counting ----------

  lemma {:induction false} CountPrefix(lens: seq<nat>, a: nat, b: nat, l: nat)
    requires a <= b <= |lens|
    ensures Count(lens[..a], l) <= Count(lens[..b], l)
    ensures a < b && lens[a] == l ==> Count(lens[..a], l) < Count(lens[..b], l)
    decreases b
  {
    if a < b {
      assert lens[..b][..b - 1] == lens[..b - 1];
      if a < b - 1 { CountPrefix(lens, a, b - 1, l); }
    }
  }

  lemma CountWhole(lens: seq<nat>, s: nat)
    requires s < |lens|
    ensures Count(lens[..s], lens[s]) < Count(lens, lens[s])
  {
    CountPrefix(lens, s, |lens|, lens[s]);
    assert lens[..|lens|] == lens;
  }

  /** There is a k-th symbol of length l for every k below their number. */
  lemma {:induction false} Nth(lens: seq<nat>, l: nat, k: nat) returns (s: nat)
    requires k < Count(lens, l)
    ensures s < |lens| && lens[s] == l && Count(lens[..s], l) == k
  {
    var n := |lens| - 1;
    if k < Count(lens[..n], l) {
      s := Nth(lens[..n], l, k);
      assert lens[..n][..s] == lens[..s];
    } else {
      s := n;
    }
  }

  lemma {:induction false} TakenMono(lens: seq<nat>, l: nat, m: nat)
    requires l <= m
    ensures Taken(lens, m) >= Taken(lens, l) * Pow2(m - l)
    decreases m
  {
    if l < m {
      TakenMono(lens, l, m - 1);
      Doubled(Taken(lens, l), Pow2(m - 1 - l));
    }
  }

  lemma Doubled(a: nat, b: nat)
    ensures a * (2 * b) == 2 * (a * b)
  {
  }

  lemma TakenFits(lens: seq<nat>, l: nat)
    requires Fits(lens) && l <= MAX_BITS
    ensures Taken(lens, l) <= Pow2(l)
  {
    TakenMono(lens, l, MAX_BITS);
    Pow2Add(l, MAX_BITS - l);
    if Taken(lens, l) > Pow2(l) {
      MulLess(Pow2(l), Taken(lens, l), Pow2(MAX_BITS - l));
    }
  }

  lemma MulLess(a: nat, b: nat, c: nat)
    requires a < b && c > 0
    ensures a * c < b * c
  {
  }

  lemma CodeFits(lens: seq<nat>, s: nat)
    requires Fits(lens) && Used(lens, s)
    ensures Code(lens, s) < Taken(lens, lens[s]) <= Pow2(lens[s])
  {
    CountWhole(lens, s);
    TakenFits(lens, lens[s]);
  }

  // ---------- code words ----------

  lemma {:induction false} MsbPrefix(c: nat, l: nat, m: nat)
    requires l <= m
    ensures Msb(c, m)[..l] == Msb(Shr(c, m - l), l)
    decreases m
  {
    if l < m {
      MsbPrefix(c / 2, l, m - 1);
      assert Msb(c, m)[..l] == Msb(c / 2, m - 1)[..l];
    }
  }

  lemma {:induction false} MsbInjective(c: nat, d: nat, l: nat)
    requires c < Pow2(l) && d < Pow2(l) && Msb(c, l) == Msb(d, l)
    ensures c == d
  {
    if l != 0 {
      var a, b := Msb(c, l), Msb(d, l);
      assert a[l - 1] == (c % 2 == 1) && b[l - 1] == (d % 2 == 1);
      assert a[..l - 1] == Msb(c / 2, l - 1) && b[..l - 1] == Msb(d / 2, l - 1);
      MsbInjective(c / 2, d / 2, l - 1);
    }
  }

  /** The number whose most-significant-first bits are given. */
  function MsbVal(bs: seq<bool>): nat {
    if bs == [] then 0 else 2 * MsbVal(bs[..|bs| - 1]) + if bs[|bs| - 1] then 1 else 0
  }

  lemma {:induction false} MsbOfVal(bs: seq<bool>)
    ensures Msb(MsbVal(bs), |bs|) == bs && MsbVal(bs) < Pow2(|bs|)
  {
    if bs != [] {
      MsbOfVal(bs[..|bs| - 1]);
      assert bs == bs[..|bs| - 1] + [bs[|bs| - 1]];
    }
  }

  lemma {:induction false} ShrMono(a: nat, b: nat, k: nat)
    requires a <= b
    ensures Shr(a, k) <= Shr(b, k)
  {
    if k != 0 { ShrMono(a / 2, b / 2, k - 1); }
  }

  /** Every longer code lies above all codes of length l. */
  lemma {:induction false} FirstAbove(lens: seq<nat>, l: nat, m: nat)
    requires l < m
    ensures Shr(First(lens, m), m - l) >= Taken(lens, l)
    decreases m
  {
    assert Shr(First(lens, m), m - l) == Shr(Taken(lens, m - 1), m - 1 - l);
    if l < m - 1 {
      FirstAbove(lens, l, m - 1);
      ShrMono(First(lens, m - 1), Taken(lens, m - 1), m - 1 - l);
    }
  }

  /** No code word is a prefix of another symbol's. */
  lemma PrefixFree(lens: seq<nat>, s: nat, t: nat)
    requires Fits(lens) && Used(lens, s) && Used(lens, t) && Word(lens, s) <= Word(lens, t)
    ensures s == t
  {
    hide Fits, Taken, Pow2, Shr, Msb;
    var l, m := lens[s], lens[t];
    assert Word(lens, t)[..l] == Word(lens, s);
    SameShift(Code(lens, t));
    CodeFits(lens, s);
    CodeFits(lens, t);
    MsbPrefix(Code(lens, t), l, m);
    ShrBound(Code(lens, t), m - l, l);
    MsbInjective(Code(lens, s), Shr(Code(lens, t), m - l), l);
    if l < m {
      FirstAbove(lens, l, m);
      ShrMono(First(lens, m), Code(lens, t), m - l);
    } else if s < t {
      CountPrefix(lens, s, t, l);
    } else if t < s {
      CountPrefix(lens, t, s, l);
    }
  }

  lemma SameShift(c: nat)
    ensures Shr(c, 0) == c
  {
  }

  /** At most one symbol's code word starts a bit string. */
  lemma StartsUnique(lens: seq<nat>, bits: seq<bool>, s: nat, t: nat)
    requires Fits(lens) && Starts(lens, bits, s) && Starts(lens, bits, t)
    ensures s == t
  {
    if lens[s] <= lens[t] {
      assert Word(lens, s) == Word(lens, t)[..lens[s]];
      PrefixFree(lens, s, t);
    } else {
      assert Word(lens, t) == Word(lens, s)[..lens[t]];
      PrefixFree(lens, t, s);
    }
  }

  /** A prefix of length l whose number is below Taken(l) contains a code word. */
  lemma {:induction false} TakenStarts(lens: seq<nat>, bits: seq<bool>, l: nat) returns (s: nat)
    requires Lengths(lens) && l <= |bits| && MsbVal(bits[..l]) < Taken(lens, l)
    ensures Starts(lens, bits, s) && lens[s] <= l
  {
    assert bits[..l][..l - 1] == bits[..l - 1];
    var c := MsbVal(bits[..l]);
    if MsbVal(bits[..l - 1]) < Taken(lens, l - 1) {
      s := TakenStarts(lens, bits, l - 1);
    } else {
      assert c >= First(lens, l);
      s := Nth(lens, l, c - First(lens, l));
      MsbOfVal(bits[..l]);
      assert Word(lens, s) == bits[..l];
    }
  }

  /** With complete lengths every string of 15 bits starts with exactly one code word. */
  lemma CompleteStarts(lens: seq<nat>, bits: seq<bool>) returns (s: nat)
    requires Complete(lens) && |bits| >= MAX_BITS
    ensures Starts(lens, bits, s)
    ensures forall t :: Starts(lens, bits, t) ==> t == s
  {
    MsbOfVal(bits[..MAX_BITS]);
    s := TakenStarts(lens, bits, MAX_BITS);
    forall t | Starts(lens, bits, t) ensures t == s {
      StartsUnique(lens, bits, s, t);
    }
  }

  // ---------- what the two code-assigning loops share ----------

  /** The number of used symbols of length at most m. */
  function UsedUpTo(lens: seq<nat>, m: nat): nat {
    if m == 0 then 0 else UsedUpTo(lens, m - 1) + Count(lens, m)
  }

  lemma {:induction false} UsedUpToStep(lens: seq<nat>, m: nat)
    requires lens != []
    ensures UsedUpTo(lens, m) == UsedUpTo(lens[..|lens| - 1], m) + if 1 <= lens[|lens| - 1] <= m then 1 else 0
  {
    if m != 0 { UsedUpToStep(lens, m - 1); }
  }

  lemma {:induction false} UsedAtMost(lens: seq<nat>, m: nat)
    ensures UsedUpTo(lens, m) <= |lens|
  {
    if lens == [] {
      UsedNone(m);
    } else {
      UsedUpToStep(lens, m);
      UsedAtMost(lens[..|lens| - 1], m);
    }
  }

  lemma {:induction false} UsedNone(m: nat)
    ensures UsedUpTo([], m) == 0
  {
    if m != 0 { UsedNone(m - 1); }
  }

  /** One code at most always fits. */
  lemma {:induction false} FewFit(lens: seq<nat>, m: nat)
    requires UsedUpTo(lens, m) <= 1
    ensures Taken(lens, m) <= UsedUpTo(lens, m) * Pow2(m) <= Pow2(m)
  {
    if m != 0 {
      hide Count;
      FewFit(lens, m - 1);
      NoneOrOne(UsedUpTo(lens, m - 1), Pow2(m - 1));
    }
    NoneOrOne(UsedUpTo(lens, m), Pow2(m));
  }

  lemma NoneOrOne(n: nat, p: nat)
    requires n <= 1
    ensures n * p == if n == 0 then 0 else p
  {
  }

  /** With two symbols in use a complete code has no free string left; with at most one it fits anyway. */
  lemma AcceptedFits(lens: seq<nat>)
    requires Lengths(lens) && (Complete(lens) || UsedUpTo(lens, MAX_BITS) <= 1)
    ensures Fits(lens)
  {
    if UsedUpTo(lens, MAX_BITS) <= 1 { FewFit(lens, MAX_BITS); }
  }

  /** Reverse the bits of a code by shifting them out of one number into another. */
  method ReverseCode(code: nat, l: nat) returns (rev: nat)
    ensures ToBits(rev, l) == Msb(code, l) && rev < Pow2(l)
  {
    rev := 0;
    var c, i: nat := code, l;
    assert Msb(code, l) == Msb(c, l) + ToBits(0, 0);
    while i > 0
      invariant 0 <= i <= l && rev < Pow2(l - i)
      invariant Msb(code, l) == Msb(c, i) + ToBits(rev, l - i)
    {
      ghost var hi, lo := Msb(c / 2, i - 1), ToBits(rev, l - i);
      assert (hi + [c % 2 == 1]) + lo == hi + ([c % 2 == 1] + lo);
      rev := 2 * rev + c % 2;
      c := c / 2;
      i := i - 1;
    }
  }

  lemma CountSnoc(lens: seq<nat>, k: nat)
    requires k < |lens|
    ensures forall l: nat :: Count(lens[..k + 1], l) == Count(lens[..k], l) + if lens[k] == l then 1 else 0
  {
    assert lens[..k + 1][..k] == lens[..k];
  }

  /** Hand symbol k the next code of its length, bit-reversed. */
  method TakeCode(ghost lens: seq<nat>, ghost k: nat, l: nat, nextCode: array<nat>, ghost max: nat) returns (rev: nat)
    requires k < |lens| && l == lens[k] <= max < nextCode.Length
    requires forall l: nat :: 1 <= l <= max ==> nextCode[l] == First(lens, l) + Count(lens[..k], l)
    modifies nextCode
    ensures forall l: nat :: 1 <= l <= max ==> nextCode[l] == First(lens, l) + Count(lens[..k + 1], l)
    ensures l > 0 ==> rev < Pow2(l) && ToBits(rev, l) == Word(lens, k)
  {
    CountSnoc(lens, k);
    rev := 0;
    if l != 0 {
      rev := ReverseCode(nextCode[l], l);
      nextCode[l] := nextCode[l] + 1;
    }
  }
}
