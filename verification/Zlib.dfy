/**
  The two bytes in front of a zlib stream and the four behind it (RFC 1950), as
  tdefl_flush_block writes them and tinfl_decompress reads them.
 */
module Zlib {
  import opened Bits
  import opened BitIO
  import opened Tokens
  import opened HeaderReader
  import opened InflateBlocks

  /** The first byte always says: DEFLATE with a 32 KiB window. */
  const CMF: byte := 0x78

  /** s_tdefl_num_probes. */
  const NUM_PROBES: seq<nat> := [0, 1, 6, 32, 16, 32, 128, 256, 512, 768, 1500]

  /**
    What tinfl_decompress accepts: a multiple of 31, no preset dictionary, method 8, and a window
    the buffer can hold.
   */
  predicate HeaderAccepted(b0: byte, b1: byte, wraps: bool, size: nat) {
    && (b0 * 256 + b1) % 31 == 0 && (b1 / 32) % 2 == 0 && b0 % 16 == 8
    && (wraps ==> Shl(1, 8 + b0 / 16) <= 32768 && Shl(1, 8 + b0 / 16) <= size)
  }

  /** The compression level is found by looking the number of probes up again. */
  method Level(probes: nat) returns (level: nat)
    ensures level == if probes <= 1 then 0 else if probes == 6 || probes == 16 || probes == 32 then 1
                     else if probes == 128 then 2 else 3
  {
    level := 3;
    var i := 0;
    assert |NUM_PROBES| == 11;
    while i < 11
      invariant i <= 11 && forall k :: 0 <= k < i ==> NUM_PROBES[k] != probes
    {
      if NUM_PROBES[i] == probes {
        break;
      }
      i := i + 1;
    }
    assert NUM_PROBES[0] == 0 && NUM_PROBES[1] == 1 && NUM_PROBES[2] == 6 && NUM_PROBES[3] == 32;
    assert NUM_PROBES[4] == 16 && NUM_PROBES[5] == 32 && NUM_PROBES[6] == 128;
    if i < 2 {
      level := 0;
    } else if i < 6 {
      level := 1;
    } else if i == 6 {
      level := 2;
    }
  }

  lemma WindowBits()
    ensures Shl(1, 15) == 32768
  {
    ShlIsTimes(1, 15);
    Pow2Table();
    Pow2Add(13, 2);
  }

  /** Whatever the level, the header is one that is accepted. */
  lemma FlagsAccepted(level: nat, size: nat)
    requires level <= 3
    ensures var header := 0x7800 + 64 * level;
            var flg := (header + (31 - header % 31)) % 256;
            HeaderAccepted(CMF, flg, false, size) && (32768 <= size ==> HeaderAccepted(CMF, flg, true, size))
  {
    WindowBits();
    var header := 0x7800 + 64 * level;
    assert header + (31 - header % 31) == 0x7800 + (64 * level + (31 - header % 31));
  }

  method WriteHeader(w: BitWriter, probes: nat) returns (ghost flg: byte)
    requires w.Valid()
    modifies w, w.out
    ensures w.Valid() && w.stream == old(w.stream) + (ToBits(CMF, 8) + ToBits(flg, 8))
    ensures HeaderAccepted(CMF, flg, false, 0) && forall size: nat :: 32768 <= size ==>
        HeaderAccepted(CMF, flg, true, size)
    ensures flg == if probes <= 1 then 0x01 else if probes == 6 || probes == 16 || probes == 32 then 0x5E
                   else if probes == 128 then 0x9C else 0xDA
  {
    hide ToBits, Pow2, HeaderAccepted;
    Pow2Table();
    var level := Level(probes);
    var header := 0x7800 + 64 * level;
    header := header + (31 - header % 31);
    flg := header % 256;
    FlagsAccepted(level, 0);
    forall size: nat | 32768 <= size ensures HeaderAccepted(CMF, flg, true, size) {
      FlagsAccepted(level, size);
    }
    w.Put(CMF, 8);
    w.Put(header % 256, 8);
  }

  /** Both bytes are read and checked. */
  method ReadHeader(r: BitReader, wraps: bool, size: nat, ghost b0: byte, ghost b1: byte, ghost more: seq<bool>)
    returns (status: Status, ghost c0: byte, ghost c1: byte)
    requires r.Valid() && r.numBits == 0
    modifies r
    ensures r.Valid() && |r.Rest()| <= |old(r.Rest())|
    ensures old(r.Rest()) == ToBits(b0, 8) + (ToBits(b1, 8) + more) ==>
              (status.Ok? <==> HeaderAccepted(b0, b1, wraps, size)) && (status.Ok? ==> r.Rest() == more)
    ensures r.numBits == 0
    ensures status.Ok? ==>
            old(r.Rest()) == ToBits(c0, 8) + (ToBits(c1, 8) + r.Rest())
            && HeaderAccepted(c0, c1, wraps, size)
  {
    hide Supplied, ToBits, Shl;
    ByteAligned(r);
    var ok, z0, z1;
    ok, z0 := ReadByte(r, b0, ToBits(b1, 8) + more);
    c0, c1 := z0, 0;
    if !ok {
      return NeedsMoreInput, c0, c1;
    }
    ok, z1 := ReadByte(r, b1, more);
    c1 := z1;
    if !ok {
      return NeedsMoreInput, c0, c1;
    }
    var bad := (z0 as int * 256 + z1 as int) % 31 != 0 || (z1 / 32) % 2 == 1 || z0 % 16 != 8;
    if wraps {
      bad := bad || Shl(1, 8 + z0 / 16) > 32768 || size < Shl(1, 8 + z0 / 16);
    }
    status := if bad then Failed else Ok;
  }

  /** A 32-bit number, high byte first. */
  function BigEndian(v: nat): (b: seq<byte>)
    requires v < 0x1_0000_0000
    ensures |b| == 4
  {
    [v / 0x100_0000, v / 0x1_0000 % 256, v / 0x100 % 256, v % 256]
  }

  function BigEndianBits(v: nat): (bs: seq<bool>)
    requires v < 0x1_0000_0000
    ensures |bs| == 32
  {
    var b := BigEndian(v);
    ToBits(b[0], 8) + (ToBits(b[1], 8) + (ToBits(b[2], 8) + ToBits(b[3], 8)))
  }

  lemma Parts(v: nat)
    requires v < 0x1_0000_0000
    ensures var b := BigEndian(v); v == ((b[0] as int * 256 + b[1]) * 256 + b[2]) * 256 + b[3]
  {
    Divided(v);
    var a, b := v / 256, v / 256 / 256;
    assert v == a * 256 + v % 256 && a == b * 256 + a % 256 && b == b / 256 * 256 + b % 256;
  }

  /** Shifting a 32-bit number left by a byte drops its first byte. */
  lemma ByteOut(v: nat, b0: byte, b1: byte, b2: byte, b3: byte)
    requires v == ((b0 as int * 256 + b1) * 256 + b2) * 256 + b3
    ensures v / 0x100_0000 % 256 == b0
    ensures v * 256 % 0x1_0000_0000 == ((b1 as int * 256 + b2) * 256 + b3) * 256
  {
    assert v * 256 == b0 * 0x1_0000_0000 + ((b1 as int * 256 + b2) * 256 + b3) * 256;
  }

  /** One more byte at the low end of a 32-bit register. */
  function ByteIn(z: nat, s: byte): (r: nat)
    ensures r < 0x1_0000_0000
  {
    (z * 256 + s) % 0x1_0000_0000
  }

  /** Shifting four bytes in leaves only those four. */
  lemma BytesIn(b0: byte, b1: byte, b2: byte, b3: byte)
    ensures ByteIn(ByteIn(ByteIn(ByteIn(1, b0), b1), b2), b3) == ((b0 as int * 256 + b1) * 256 + b2) * 256 + b3
  {
    hide ByteIn;
    var z0 := 256 + b0 as int;
    var z1 := z0 * 256 + b1;
    var z2 := z1 * 256 + b2;
    Fits(1, b0, z0);
    Fits(z0, b1, z1);
    Fits(z1, b2, z2);
    WrapsOnce(z2, b3, ((b0 as int * 256 + b1) * 256 + b2) * 256 + b3);
  }

  lemma Fits(z: nat, s: byte, sum: nat)
    requires sum == z * 256 + s < 0x1_0000_0000
    ensures ByteIn(z, s) == sum
  {
  }

  lemma WrapsOnce(z: nat, s: byte, w: nat)
    requires z * 256 + s == 0x1_0000_0000 + w && w < 0x1_0000_0000
    ensures ByteIn(z, s) == w
  {
  }

  method WriteChecksum(w: BitWriter, adler: nat)
    requires w.Valid() && adler < 0x1_0000_0000
    modifies w, w.out
    ensures w.Valid() && w.stream == old(w.stream) + BigEndianBits(adler)
  {
    hide ToBits, Pow2, BitWriter.Valid, BigEndian;
    Pow2Table();
    Parts(adler);
    ghost var b := BigEndian(adler);
    var a := adler;
    ByteOut(a, b[0], b[1], b[2], b[3]);
    w.Put(a / 0x100_0000 % 256, 8);
    a := a * 256 % 0x1_0000_0000;
    ByteOut(a, b[1], b[2], b[3], 0);
    w.Put(a / 0x100_0000 % 256, 8);
    a := a * 256 % 0x1_0000_0000;
    ByteOut(a, b[2], b[3], 0, 0);
    w.Put(a / 0x100_0000 % 256, 8);
    a := a * 256 % 0x1_0000_0000;
    ByteOut(a, b[3], 0, 0, 0);
    w.Put(a / 0x100_0000 % 256, 8);
    Joined(old(w.stream), ToBits(b[0], 8), ToBits(b[1], 8), ToBits(b[2], 8), ToBits(b[3], 8));
  }

  lemma Joined(s: seq<bool>, a: seq<bool>, b: seq<bool>, c: seq<bool>, d: seq<bool>)
    ensures s + a + b + c + d == s + (a + (b + (c + d)))
  {
  }

  /** The four bytes behind the last block, after the skip to the byte boundary. */
  method ReadChecksum(r: BitReader, ghost v: nat, ghost more: seq<bool>) returns (status: Status, z: nat)
    requires r.Valid() && |r.Rest()| % 8 == 0 && v < 0x1_0000_0000
    modifies r
    ensures r.Valid() && z < 0x1_0000_0000
    ensures old(r.Rest()) == BigEndianBits(v) + more ==> status.Ok? && z == v && r.Rest() == more
    ensures old(r.numBits) == 0 ==> r.numBits == 0
    ensures status.Ok? ==> old(r.Rest()) == BigEndianBits(z) + r.Rest()
  {
    hide Supplied, ToBits, BigEndian, ByteIn, BitReader.Rest;
    ghost var b := BigEndian(v);
    ghost var m3 := ToBits(b[3], 8) + more;
    ghost var m2 := ToBits(b[2], 8) + m3;
    ghost var m1 := ToBits(b[1], 8) + m2;
    JoinedMore(ToBits(b[0], 8), ToBits(b[1], 8), ToBits(b[2], 8), ToBits(b[3], 8), more);
    Parts(v);
    BytesIn(b[0], b[1], b[2], b[3]);
    status, z := NeedsMoreInput, 1;
    var ok, s0, s1, s2, s3;
    ok, s0 := ReadByte(r, b[0], m1);
    if !ok { return; }
    z := ByteIn(z, s0);
    ok, s1 := ReadByte(r, b[1], m2);
    if !ok { return; }
    z := ByteIn(z, s1);
    ok, s2 := ReadByte(r, b[2], m3);
    if !ok { return; }
    z := ByteIn(z, s2);
    ok, s3 := ReadByte(r, b[3], more);
    if !ok { return; }
    z := ByteIn(z, s3);
    SumRead(s0, s1, s2, s3, z, r.Rest());
    status := Ok;
  }

  /** The number whose bytes these are, high byte first. */
  function FourBytes(b0: byte, b1: byte, b2: byte, b3: byte): (v: nat)
    ensures v < 0x1_0000_0000
  {
    ((b0 as int * 256 + b1) * 256 + b2) * 256 + b3
  }

  lemma RegisterIs(b0: byte, b1: byte, b2: byte, b3: byte)
    ensures ByteIn(ByteIn(ByteIn(ByteIn(1, b0), b1), b2), b3) == FourBytes(b0, b1, b2, b3)
  {
    BytesIn(b0, b1, b2, b3);
  }

  /** The register holds what its four bytes say. */
  lemma SumRead(s0: byte, s1: byte, s2: byte, s3: byte, z: nat, rest: seq<bool>)
    requires z == ByteIn(ByteIn(ByteIn(ByteIn(1, s0), s1), s2), s3)
    ensures BigEndianBits(z) + rest == ToBits(s0, 8) + (ToBits(s1, 8) + (ToBits(s2, 8) + (ToBits(s3, 8) + rest)))
  {
    hide ToBits, ByteIn, BigEndian, FourBytes, BigEndianBits;
    RegisterIs(s0, s1, s2, s3);
    BytesOf(s0, s1, s2, s3);
    BitsOf(z, s0, s1, s2, s3);
    JoinedMore(ToBits(s0, 8), ToBits(s1, 8), ToBits(s2, 8), ToBits(s3, 8), rest);
  }

  lemma BitsOf(z: nat, s0: byte, s1: byte, s2: byte, s3: byte)
    requires z < 0x1_0000_0000 && BigEndian(z) == [s0, s1, s2, s3]
    ensures BigEndianBits(z) == ToBits(s0, 8) + (ToBits(s1, 8) + (ToBits(s2, 8) + ToBits(s3, 8)))
  {
    hide ToBits, BigEndian;
  }

  lemma BytesOf(b0: byte, b1: byte, b2: byte, b3: byte)
    ensures BigEndian(FourBytes(b0, b1, b2, b3)) == [b0, b1, b2, b3]
  {
    var v := ((b0 as int * 256 + b1) * 256 + b2) * 256 + b3;
    LowByte(v, (b0 as int * 256 + b1) * 256 + b2, b3);
    LowByte((b0 as int * 256 + b1) * 256 + b2, b0 as int * 256 + b1, b2);
    LowByte(b0 as int * 256 + b1, b0, b1);
    Divided(v);
  }

  lemma LowByte(v: nat, high: nat, b: byte)
    requires v == high * 256 + b
    ensures v / 256 == high && v % 256 == b
  {
  }

  lemma Divided(v: nat)
    ensures v / 0x1_0000 == v / 256 / 256 && v / 0x100_0000 == v / 256 / 256 / 256
  {
  }

  lemma JoinedMore(a: seq<bool>, b: seq<bool>, c: seq<bool>, d: seq<bool>, more: seq<bool>)
    ensures (a + (b + (c + d))) + more == a + (b + (c + (d + more)))
  {
  }
}
