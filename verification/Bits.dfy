/**
  Bit strings in the order DEFLATE packs them (section 3.1.1 of RFC 1951): the first
  bit of the string is the least significant bit of the number. Shifts, masks and the
  bitwise or of the C code are given as recursive functions on natural numbers.
 */
module Bits {

  type byte = b: int | 0 <= b < 256

  function Pow2(n: nat): (p: nat)
    ensures p >= 1
  {
    if n == 0 then 1 else 2 * Pow2(n - 1)
  }

  /** v << k, without truncation. */
  function Shl(v: nat, k: nat): nat {
    if k == 0 then v else 2 * Shl(v, k - 1)
  }

  /** v >> k. */
  function Shr(v: nat, k: nat): nat {
    if k == 0 then v else Shr(v / 2, k - 1)
  }

  /** v & ((1 << k) - 1), which is also truncation to k bits. */
  function Low(v: nat, k: nat): nat {
    if k == 0 then 0 else v % 2 + 2 * Low(v / 2, k - 1)
  }

  /** Bitwise or. */
  function Or(a: nat, b: nat): nat
    decreases a + b
  {
    if a == 0 then b
    else if b == 0 then a
    else (if a % 2 == 1 || b % 2 == 1 then 1 else 0) + 2 * Or(a / 2, b / 2)
  }

  /** The number a bit string stands for. */
  function Val(bs: seq<bool>): nat {
    if bs == [] then 0 else (if bs[0] then 1 else 0) + 2 * Val(bs[1..])
  }

  /** The n low bits of v. */
  function ToBits(v: nat, n: nat): (bs: seq<bool>)
    ensures |bs| == n
  {
    if n == 0 then [] else [v % 2 == 1] + ToBits(v / 2, n - 1)
  }

  /** The bits of a byte string, byte after byte. */
  function BytesBits(s: seq<byte>): (bs: seq<bool>)
    ensures |bs| == 8 * |s|
  {
    if s == [] then [] else ToBits(s[0], 8) + BytesBits(s[1..])
  }

  // ---------- powers of two ----------

  lemma {:induction false} Pow2Add(m: nat, n: nat)
    ensures Pow2(m + n) == Pow2(m) * Pow2(n)
  {
    if m != 0 {
      Pow2Add(m - 1, n);
      assert Pow2(m + n) == 2 * Pow2(m - 1 + n);
    }
  }

  lemma {:induction false} Pow2Mono(m: nat, n: nat)
    requires m <= n
    ensures Pow2(m) <= Pow2(n)
    decreases n
  {
    if m < n { Pow2Mono(m, n - 1); }
  }

  lemma Pow2Values()
    ensures Pow2(1) == 2 && Pow2(2) == 4 && Pow2(3) == 8 && Pow2(4) == 16 && Pow2(5) == 32 && Pow2(7) == 128
    ensures Pow2(8) == 256 && Pow2(9) == 512 && Pow2(10) == 1024 && Pow2(15) == 0x8000 && Pow2(16) == 0x1_0000
  {
    assert Pow2(3) == 8;
    assert Pow2(5) == 32;
    assert Pow2(8) == 256;
    assert Pow2(10) == 1024;
    assert Pow2(13) == 0x2000;
    assert Pow2(16) == 0x1_0000;
  }

  lemma Pow2Table()
    ensures Pow2(0) == 1 && Pow2(1) == 2 && Pow2(2) == 4 && Pow2(3) == 8 && Pow2(4) == 16 && Pow2(5) == 32
        && Pow2(6) == 64
    ensures Pow2(7) == 128 && Pow2(8) == 256 && Pow2(9) == 512 && Pow2(10) == 1024 && Pow2(11) == 2048
    ensures Pow2(12) == 4096 && Pow2(13) == 8192
  {
    assert Pow2(3) == 8;
    assert Pow2(6) == 64;
    assert Pow2(9) == 512;
    assert Pow2(11) == 2048;
    assert Pow2(13) == 8192;
  }

  lemma {:induction false} ShlIsTimes(v: nat, k: nat)
    ensures Shl(v, k) == v * Pow2(k)
  {
    if k != 0 { ShlIsTimes(v, k - 1); }
  }

  lemma {:induction false} ShlHalf(v: nat, k: nat)
    requires k > 0
    ensures Shl(v, k) % 2 == 0 && Shl(v, k) / 2 == Shl(v, k - 1)
  {
  }

  // ---------- numbers and bit strings ----------

  lemma {:induction false} ValBound(bs: seq<bool>)
    ensures Val(bs) < Pow2(|bs|)
  {
    if bs != [] { ValBound(bs[1..]); }
  }

  lemma {:induction false} ToBitsOfVal(bs: seq<bool>)
    ensures ToBits(Val(bs), |bs|) == bs
  {
    if bs != [] {
      ToBitsOfVal(bs[1..]);
      assert Val(bs) / 2 == Val(bs[1..]);
      assert bs == [bs[0]] + bs[1..];
    }
  }

  lemma {:induction false} ValOfToBits(v: nat, n: nat)
    ensures Val(ToBits(v, n)) == Low(v, n)
  {
    if n != 0 {
      ValOfToBits(v / 2, n - 1);
      assert ToBits(v, n)[1..] == ToBits(v / 2, n - 1);
    }
  }

  lemma {:induction false} LowBound(v: nat, n: nat)
    ensures Low(v, n) < Pow2(n)
  {
    if n != 0 { LowBound(v / 2, n - 1); }
  }

  /** A shift and a mask take a number apart. */
  lemma {:induction false} ShrLow(v: nat, k: nat)
    ensures v == Pow2(k) * Shr(v, k) + Low(v, k)
  {
    if k != 0 {
      ShrLow(v / 2, k - 1);
      var p, q := Pow2(k - 1), Shr(v / 2, k - 1);
      assert 2 * (p * q) == 2 * p * q;
    }
  }

  lemma {:induction false} LowSmall(v: nat, n: nat)
    requires v < Pow2(n)
    ensures Low(v, n) == v
  {
    if n != 0 { LowSmall(v / 2, n - 1); }
  }

  lemma {:induction false} ToBitsOfLow(v: nat, n: nat)
    ensures ToBits(Low(v, n), n) == ToBits(v, n)
  {
    if n != 0 { ToBitsOfLow(v / 2, n - 1); }
  }

  /** Different numbers below 2^n have different n-bit strings. */
  lemma ToBitsInjective(v: nat, w: nat, n: nat)
    requires v < Pow2(n) && w < Pow2(n) && ToBits(v, n) == ToBits(w, n)
    ensures v == w
  {
    ValOfToBits(v, n);
    ValOfToBits(w, n);
    LowSmall(v, n);
    LowSmall(w, n);
  }

  lemma {:induction false} ToBitsSplit(v: nat, m: nat, n: nat)
    ensures ToBits(v, m + n) == ToBits(v, m) + ToBits(Shr(v, m), n)
  {
    if m != 0 {
      ToBitsSplit(v / 2, m - 1, n);
      var lo, hi := ToBits(v / 2, m - 1), ToBits(Shr(v, m), n);
      assert [v % 2 == 1] + (lo + hi) == ([v % 2 == 1] + lo) + hi;
    }
  }

  lemma {:induction false} ShrBound(v: nat, m: nat, n: nat)
    requires v < Pow2(m + n)
    ensures Shr(v, m) < Pow2(n)
  {
    if m != 0 { ShrBound(v / 2, m - 1, n); }
  }

  lemma {:induction false} ShrHalf(v: nat, k: nat)
    ensures Shr(v, k + 1) == Shr(v, k) / 2
  {
    if k != 0 { ShrHalf(v / 2, k - 1); }
  }

  lemma {:induction false} BitAt(v: nat, n: nat, i: nat)
    requires i < n
    ensures ToBits(v, n)[i] == (Shr(v, i) % 2 == 1)
  {
    if i != 0 { BitAt(v / 2, n - 1, i - 1); }
  }

  lemma {:induction false} OrZero(b: nat)
    ensures Or(0, b) == b && Or(b, 0) == b
  {
  }

  lemma {:induction false} OrHalf(a: nat, b: nat)
    ensures Or(a, b) / 2 == Or(a / 2, b / 2)
    ensures Or(a, b) % 2 == if a % 2 == 1 || b % 2 == 1 then 1 else 0
  {
    OrZero(a / 2);
    OrZero(b / 2);
  }

  /** Or-ing b in above the k bits of a appends b's bits to a's. */
  lemma {:induction false} OrAppends(a: nat, k: nat, b: nat, n: nat)
    requires a < Pow2(k)
    ensures ToBits(Or(a, Shl(b, k)), k + n) == ToBits(a, k) + ToBits(b, n)
    ensures b < Pow2(n) ==> Or(a, Shl(b, k)) < Pow2(k + n)
  {
    if k == 0 {
      OrZero(b);
    } else {
      OrAppends(a / 2, k - 1, b, n);
      ShlHalf(b, k);
      OrHalf(a, Shl(b, k));
      var lo, hi := ToBits(a / 2, k - 1), ToBits(b, n);
      assert [a % 2 == 1] + (lo + hi) == ([a % 2 == 1] + lo) + hi;
    }
  }

  // ---------- byte strings ----------

  lemma {:induction false} BytesBitsAppend(s: seq<byte>, t: seq<byte>)
    ensures BytesBits(s + t) == BytesBits(s) + BytesBits(t)
  {
    if s == [] {
      assert s + t == t;
    } else {
      BytesBitsAppend(s[1..], t);
      assert (s + t)[1..] == s[1..] + t;
      var a, b, c := ToBits(s[0], 8), BytesBits(s[1..]), BytesBits(t);
      assert a + (b + c) == (a + b) + c;
    }
  }

  lemma BytesBitsPush(s: seq<byte>, b: byte)
    ensures BytesBits(s + [b]) == BytesBits(s) + ToBits(b, 8)
  {
    BytesBitsAppend(s, [b]);
    assert BytesBits([b]) == ToBits(b, 8) + BytesBits([]);
  }

  lemma JoinAssoc<T>(a: seq<T>, b: seq<T>, c: seq<T>)
    ensures (a + b) + c == a + (b + c)
  {
  }

  lemma JoinNothing<T>(a: seq<T>)
    ensures a + [] == a && [] + a == a
  {
  }
}
