/**
  Adler-32 (section 8.2 of RFC 1950): mz_adler32 puts off the remainder to the end of a block of
  up to 5552 bytes, which is as far as its 32-bit sums can go.
 */
module Adler32 {
  import opened Bits

  const BASE: nat := 65521
  const BLOCK: nat := 5552

  datatype Sums = Sums(s1: nat, s2: nat)

  /** The sums after s, reduced after every byte; the starting sums may be unreduced. */
  function SumAll(start: Sums, s: seq<byte>): (r: Sums)
    ensures r.s1 < BASE && r.s2 < BASE
  {
    if s == [] then Sums(start.s1 % BASE, start.s2 % BASE)
    else
      var p := SumAll(start, s[..|s| - 1]);
      var s1 := (p.s1 + s[|s| - 1]) % BASE;
      Sums(s1, (p.s2 + s1) % BASE)
  }

  function Unpack(adler: nat): Sums {
    Sums(adler % 0x1_0000, adler / 0x1_0000)
  }

  function Pack(s: Sums): nat {
    s.s2 * 0x1_0000 + s.s1
  }

  /** The checksum of s, continuing from an earlier one; no bytes leave it as it is. */
  function Adler(start: nat, s: seq<byte>): nat {
    if s == [] then start else Pack(SumAll(Unpack(start), s))
  }

  /** Sums that are reduced already stay as they are. */
  lemma Reduced(start: Sums, s: seq<byte>)
    ensures SumAll(SumAll(start, s), []) == SumAll(start, s)
  {
  }

  lemma {:induction false} SumAppend(start: Sums, a: seq<byte>, b: seq<byte>)
    ensures SumAll(start, a + b) == SumAll(SumAll(start, a), b)
  {
    if b == [] {
      assert a + b == a;
      Reduced(start, a);
    } else {
      var n := |b| - 1;
      SumAppend(start, a, b[..n]);
      assert (a + b)[..|a + b| - 1] == a + b[..n];
    }
  }

  lemma PackUnpack(s: Sums)
    requires s.s1 < BASE && s.s2 < BASE
    ensures Unpack(Pack(s)) == s && Pack(s) < 0x1_0000_0000
  {
  }

  /** Checksumming in pieces is checksumming the whole, from any starting value. */
  lemma AdlerAppend(start: nat, a: seq<byte>, b: seq<byte>)
    ensures Adler(Adler(start, a), b) == Adler(start, a + b)
  {
    if a == [] {
      assert a + b == b;
    } else if b == [] {
      assert a + b == a;
    } else {
      PackUnpack(SumAll(Unpack(start), a));
      SumAppend(Unpack(start), a, b);
    }
  }

  lemma AdlerBound(start: nat, s: seq<byte>)
    requires start < 0x1_0000_0000
    ensures Adler(start, s) < 0x1_0000_0000
  {
    if s != [] { PackUnpack(SumAll(Unpack(start), s)); }
  }

  // ---------- in closed form ----------

  /** s[0] + s[1] + ... */
  function Plain(s: seq<byte>): nat {
    if s == [] then 0 else s[0] + Plain(s[1..])
  }

  /** |s| * s[0] + (|s| - 1) * s[1] + ... + s[|s| - 1]. */
  function Weighted(s: seq<byte>): nat {
    if s == [] then 0 else |s| * s[0] + Weighted(s[1..])
  }

  lemma {:induction false} PlainPush(s: seq<byte>, b: byte)
    ensures Plain(s + [b]) == Plain(s) + b
  {
    if s != [] {
      assert (s + [b])[1..] == s[1..] + [b];
      PlainPush(s[1..], b);
    }
  }

  lemma {:induction false} WeightedPush(s: seq<byte>, b: byte)
    ensures Weighted(s + [b]) == Weighted(s) + Plain(s) + b
  {
    if s != [] {
      assert (s + [b])[1..] == s[1..] + [b];
      WeightedPush(s[1..], b);
      assert |s + [b]| * s[0] == |s| * s[0] + s[0];
    }
  }

  function Modulo(x: nat): nat { x % 65521 }

  lemma ModuloAdd(x: nat, y: nat)
    ensures Modulo(Modulo(x) + y) == Modulo(x + y)
  {
  }

  lemma SumPush(start: Sums, s: seq<byte>, b: byte)
    ensures var p := SumAll(start, s);
            SumAll(start, s + [b]) == Sums(Modulo(p.s1 + b), Modulo(p.s2 + Modulo(p.s1 + b)))
  {
    assert (s + [b])[..|s|] == s;
  }

  lemma ClosedNext(p1: nat, p2: nat, b: nat)
    ensures Modulo(Modulo(p1) + b) == Modulo(p1 + b)
    ensures Modulo(Modulo(p2) + Modulo(Modulo(p1) + b)) == Modulo(p2 + p1 + b)
  {
    hide Modulo;
    ModuloAdd(p1, b);
    ModuloAdd(p2, Modulo(p1 + b));
    ModuloAdd(p1 + b, p2);
  }

  lemma Distributes(n: nat, x: nat)
    ensures (n + 1) * x == n * x + x
  {
  }

  lemma {:induction false} SumClosed(start: Sums, s: seq<byte>)
    ensures SumAll(start, s).s1 == Modulo(start.s1 + Plain(s))
    ensures SumAll(start, s).s2 == Modulo(start.s2 + |s| * start.s1 + Weighted(s))
    decreases |s|, 0
  {
    if s != [] {
      SumClosedNext(start, s[..|s| - 1], s[|s| - 1]);
      assert s == s[..|s| - 1] + [s[|s| - 1]];
    }
  }

  lemma SumClosedNext(start: Sums, t: seq<byte>, b: byte)
    ensures SumAll(start, t + [b]).s1 == Modulo(start.s1 + Plain(t + [b]))
    ensures SumAll(start, t + [b]).s2 == Modulo(start.s2 + |t + [b]| * start.s1 + Weighted(t + [b]))
    decreases |t|, 1
  {
    hide SumAll, Modulo, Plain, Weighted;
    SumClosed(start, t);
    SumPush(start, t, b);
    PlainPush(t, b);
    WeightedPush(t, b);
    Distributes(|t|, start.s1);
    ClosedNext(start.s1 + Plain(t), start.s2 + |t| * start.s1 + Weighted(t), b);
  }

  /**
    The checksum written out: the low half is the sum of the bytes and the high half the sum in which
    every byte counts as often as there are bytes from it to the end, both modulo 65521.
   */
  lemma AdlerClosed(start: nat, s: seq<byte>)
    requires s != []
    ensures Adler(start, s) % 0x1_0000 == (start % 0x1_0000 + Plain(s)) % 65521
    ensures Adler(start, s) / 0x1_0000 == (start / 0x1_0000 + |s| * (start % 0x1_0000) + Weighted(s)) % 65521
  {
    SumClosed(Unpack(start), s);
  }

  /** The same for a checksum from the start, where the low half begins with one. */
  lemma AdlerFromOne(s: seq<byte>)
    requires s != []
    ensures Adler(1, s) % 0x1_0000 == (1 + Plain(s)) % 65521
    ensures Adler(1, s) / 0x1_0000 == (|s| + Weighted(s)) % 65521
  {
    hide Adler, Plain, Weighted;
    AdlerClosed(1, s);
    StartingValue(|s|);
  }

  lemma StartingValue(n: nat)
    ensures 1 % 0x1_0000 == 1 && 1 / 0x1_0000 == 0 && n * (1 % 0x1_0000) == n
  {
  }

  // ---------- how far the sums can go ----------

  /** 0 + 1 + ... + n. */
  function Triangle(n: nat): nat {
    if n == 0 then 0 else Triangle(n - 1) + n
  }

  lemma {:induction false} TriangleClosed(n: nat)
    ensures 2 * Triangle(n) == n * (n + 1)
  {
    if n > 0 {
      TriangleClosed(n - 1);
      assert (n - 1) * n + 2 * n == n * (n + 1);
    }
  }

  lemma {:induction false} TriangleGrows(i: nat, n: nat)
    requires i <= n
    ensures Triangle(i) <= Triangle(n)
  {
    if i < n { TriangleGrows(i, n - 1); }
  }

  /** The sums i bytes into a block, had they no width: neither reaches 2^32 by the end of the block. */
  ghost predicate Small(s1: nat, s2: nat, i: nat) {
    i <= BLOCK && s1 <= 0xFFFF + 255 * i && s2 <= 0xFFFF + 0xFFFF * i + 255 * Triangle(i)
  }

  lemma SmallFits(s1: nat, s2: nat, i: nat)
    requires Small(s1, s2, i)
    ensures s1 < 0x1_0000_0000 && s2 < 0x1_0000_0000
  {
    TriangleGrows(i, BLOCK);
    TriangleClosed(BLOCK);
    assert Triangle(BLOCK) == 15415128;
  }

  lemma SmallStart(s1: nat, s2: nat)
    ensures s1 <= 0xFFFF && s2 <= 0xFFFF ==> Small(s1, s2, 0)
  {
  }

  lemma SmallNext(s1: nat, s2: nat, i: nat, b: byte)
    requires Small(s1, s2, i) && i < BLOCK
    ensures Small(s1 + b, s2 + (s1 + b), i + 1)
  {
  }

  // ---------- mz_adler32 ----------

  /** The sums stand for the reduced ones. */
  ghost predicate StandsFor(s1: nat, s2: nat, start: Sums, s: seq<byte>) {
    Sums(s1 % BASE, s2 % BASE) == SumAll(start, s)
  }

  lemma ReducedSum(x: nat, y: nat)
    ensures (x + y) % BASE == (x % BASE + y) % BASE
  {
  }

  lemma Deferred(s1: nat, s2: nat, start: Sums, s: seq<byte>, b: byte)
    requires StandsFor(s1, s2, start, s)
    ensures StandsFor(s1 + b, s2 + (s1 + b), start, s + [b])
  {
    assert (s + [b])[..|s|] == s;
    ReducedSum(s1, b);
    ReducedSum(s2, s1 + b);
    ReducedSum(s1 + b, s2 % BASE);
  }

  /** One byte: s1 += b, s2 += s1, in 32 bits. */
  method Add(s1: nat, s2: nat, b: byte, ghost start: Sums, ghost s: seq<byte>, ghost i: nat) returns (t1: nat, t2: nat)
    requires StandsFor(s1, s2, start, s) && Small(s1, s2, i) && i < BLOCK
    ensures StandsFor(t1, t2, start, s + [b]) && Small(t1, t2, i + 1)
  {
    hide StandsFor, Small;
    Deferred(s1, s2, start, s, b);
    SmallNext(s1, s2, i, b);
    SmallFits(s1 + b, s2 + (s1 + b), i + 1);
    t1 := (s1 + b) % 0x1_0000_0000;
    t2 := (s2 + t1) % 0x1_0000_0000;
  }

  /** A block: eight bytes at a time, then one at a time. */
  method Block(s1: nat, s2: nat, buf: seq<byte>, at: nat, blockLen: nat, ghost start: Sums) returns (t1: nat, t2: nat)
    requires at + blockLen <= |buf| && blockLen <= BLOCK
    requires StandsFor(s1, s2, start, buf[..at]) && s1 <= 0xFFFF && s2 <= 0xFFFF
    ensures StandsFor(t1, t2, start, buf[..at + blockLen])
  {
    hide StandsFor, Small;
    t1, t2 := s1, s2;
    var i := 0;
    SmallStart(s1, s2);
    while i + 7 < blockLen
      invariant i <= blockLen && StandsFor(t1, t2, start, buf[..at + i]) && Small(t1, t2, i)
    {
      t1, t2 := AddAt(t1, t2, buf, at, i, start);
      t1, t2 := AddAt(t1, t2, buf, at, i + 1, start);
      t1, t2 := AddAt(t1, t2, buf, at, i + 2, start);
      t1, t2 := AddAt(t1, t2, buf, at, i + 3, start);
      t1, t2 := AddAt(t1, t2, buf, at, i + 4, start);
      t1, t2 := AddAt(t1, t2, buf, at, i + 5, start);
      t1, t2 := AddAt(t1, t2, buf, at, i + 6, start);
      t1, t2 := AddAt(t1, t2, buf, at, i + 7, start);
      i := i + 8;
    }
    while i < blockLen
      invariant i <= blockLen && StandsFor(t1, t2, start, buf[..at + i]) && Small(t1, t2, i)
    {
      t1, t2 := AddAt(t1, t2, buf, at, i, start);
      i := i + 1;
    }
  }

  method AddAt(s1: nat, s2: nat, buf: seq<byte>, at: nat, i: nat, ghost start: Sums) returns (t1: nat, t2: nat)
    requires at + i < |buf| && i < BLOCK && StandsFor(s1, s2, start, buf[..at + i]) && Small(s1, s2, i)
    ensures StandsFor(t1, t2, start, buf[..at + i + 1]) && Small(t1, t2, i + 1)
  {
    assert buf[..at + i + 1] == buf[..at + i] + [buf[at + i]];
    t1, t2 := Add(s1, s2, buf[at + i], start, buf[..at + i], i);
  }

  /**
    mz_adler32, for a buffer that is not null. The first block has whatever is over when the
    length is divided by 5552, which may be nothing at all; the loop still ends.
   */
  method Adler32(adler: nat, buf: seq<byte>) returns (r: nat)
    requires adler < 0x1_0000_0000
    ensures r == Adler(adler, buf)
  {
    hide SumAll;
    var s1: nat, s2: nat := adler % 0x1_0000, adler / 0x1_0000;
    ghost var start := Unpack(adler);
    var left: nat, blockLen: nat, at: nat := |buf|, |buf| % BLOCK, 0;
    NothingSummed(start);
    assert buf[..at] == [];
    while left > 0
      invariant at + left == |buf| && blockLen <= BLOCK && left % BLOCK == blockLen % BLOCK
          && (left > 0 ==> blockLen <= left)
      invariant StandsFor(s1, s2, start, buf[..at]) && s1 <= 0xFFFF && s2 <= 0xFFFF
      invariant at > 0 ==> s1 < BASE && s2 < BASE
      invariant at == 0 ==> left == |buf| && (left > 0 || (s1 == start.s1 && s2 == start.s2))
      decreases left, BLOCK - blockLen
    {
      s1, s2 := Block(s1, s2, buf, at, blockLen, start);
      s1, s2 := s1 % BASE, s2 % BASE;
      left, at := left - blockLen, at + blockLen;
      blockLen := BLOCK;
    }
    assert buf[..at] == buf;
    r := s2 * 0x1_0000 + s1;
  }

  lemma NothingSummed(start: Sums)
    ensures StandsFor(start.s1, start.s2, start, [])
  {
  }
}
