/**
  CRC-32 as mz_crc32 computes it, four bytes at a time from a table, against the definition by
  the reflected polynomial, one bit at a time (section 8 of RFC 1952).
 */
module Crc32 {
  const POLYNOMIAL: bv32 := 0xEDB88320

  /** One bit of input. */
  function Feed(c: bv32, bit: bool): bv32 {
    if ((c & 1) == 1) != bit then (c >> 1) ^ POLYNOMIAL else c >> 1
  }

  predicate Bit(p: bv8, mask: bv8) { p & mask == mask }

  /** One byte, low bit first. */
  function FeedByte(c: bv32, b: bv8): bv32 {
    var c0 := Feed(c, Bit(b, 1));
    var c1 := Feed(c0, Bit(b, 2));
    var c2 := Feed(c1, Bit(b, 4));
    var c3 := Feed(c2, Bit(b, 8));
    var c4 := Feed(c3, Bit(b, 16));
    var c5 := Feed(c4, Bit(b, 32));
    var c6 := Feed(c5, Bit(b, 64));
    Feed(c6, Bit(b, 128))
  }

  function FeedAll(c: bv32, s: seq<bv8>): bv32 {
    if s == [] then c else FeedByte(FeedAll(c, s[..|s| - 1]), s[|s| - 1])
  }

  /** The CRC of s, continuing from an earlier CRC, by definition. */
  function Crc(start: bv32, s: seq<bv8>): bv32 {
    Not(FeedAll(Not(start), s))
  }

  // s_crc_table, sixteen entries to a row
  const ROW_0: seq<bv32> := [
    0x00000000, 0x77073096, 0xEE0E612C, 0x990951BA, 0x076DC419, 0x706AF48F, 0xE963A535, 0x9E6495A3,
    0x0EDB8832, 0x79DCB8A4, 0xE0D5E91E, 0x97D2D988, 0x09B64C2B, 0x7EB17CBD, 0xE7B82D07, 0x90BF1D91]
  const ROW_1: seq<bv32> := [
    0x1DB71064, 0x6AB020F2, 0xF3B97148, 0x84BE41DE, 0x1ADAD47D, 0x6DDDE4EB, 0xF4D4B551, 0x83D385C7,
    0x136C9856, 0x646BA8C0, 0xFD62F97A, 0x8A65C9EC, 0x14015C4F, 0x63066CD9, 0xFA0F3D63, 0x8D080DF5]
  const ROW_2: seq<bv32> := [
    0x3B6E20C8, 0x4C69105E, 0xD56041E4, 0xA2677172, 0x3C03E4D1, 0x4B04D447, 0xD20D85FD, 0xA50AB56B,
    0x35B5A8FA, 0x42B2986C, 0xDBBBC9D6, 0xACBCF940, 0x32D86CE3, 0x45DF5C75, 0xDCD60DCF, 0xABD13D59]
  const ROW_3: seq<bv32> := [
    0x26D930AC, 0x51DE003A, 0xC8D75180, 0xBFD06116, 0x21B4F4B5, 0x56B3C423, 0xCFBA9599, 0xB8BDA50F,
    0x2802B89E, 0x5F058808, 0xC60CD9B2, 0xB10BE924, 0x2F6F7C87, 0x58684C11, 0xC1611DAB, 0xB6662D3D]
  const ROW_4: seq<bv32> := [
    0x76DC4190, 0x01DB7106, 0x98D220BC, 0xEFD5102A, 0x71B18589, 0x06B6B51F, 0x9FBFE4A5, 0xE8B8D433,
    0x7807C9A2, 0x0F00F934, 0x9609A88E, 0xE10E9818, 0x7F6A0DBB, 0x086D3D2D, 0x91646C97, 0xE6635C01]
  const ROW_5: seq<bv32> := [
    0x6B6B51F4, 0x1C6C6162, 0x856530D8, 0xF262004E, 0x6C0695ED, 0x1B01A57B, 0x8208F4C1, 0xF50FC457,
    0x65B0D9C6, 0x12B7E950, 0x8BBEB8EA, 0xFCB9887C, 0x62DD1DDF, 0x15DA2D49, 0x8CD37CF3, 0xFBD44C65]
  const ROW_6: seq<bv32> := [
    0x4DB26158, 0x3AB551CE, 0xA3BC0074, 0xD4BB30E2, 0x4ADFA541, 0x3DD895D7, 0xA4D1C46D, 0xD3D6F4FB,
    0x4369E96A, 0x346ED9FC, 0xAD678846, 0xDA60B8D0, 0x44042D73, 0x33031DE5, 0xAA0A4C5F, 0xDD0D7CC9]
  const ROW_7: seq<bv32> := [
    0x5005713C, 0x270241AA, 0xBE0B1010, 0xC90C2086, 0x5768B525, 0x206F85B3, 0xB966D409, 0xCE61E49F,
    0x5EDEF90E, 0x29D9C998, 0xB0D09822, 0xC7D7A8B4, 0x59B33D17, 0x2EB40D81, 0xB7BD5C3B, 0xC0BA6CAD]
  const ROW_8: seq<bv32> := [
    0xEDB88320, 0x9ABFB3B6, 0x03B6E20C, 0x74B1D29A, 0xEAD54739, 0x9DD277AF, 0x04DB2615, 0x73DC1683,
    0xE3630B12, 0x94643B84, 0x0D6D6A3E, 0x7A6A5AA8, 0xE40ECF0B, 0x9309FF9D, 0x0A00AE27, 0x7D079EB1]
  const ROW_9: seq<bv32> := [
    0xF00F9344, 0x8708A3D2, 0x1E01F268, 0x6906C2FE, 0xF762575D, 0x806567CB, 0x196C3671, 0x6E6B06E7,
    0xFED41B76, 0x89D32BE0, 0x10DA7A5A, 0x67DD4ACC, 0xF9B9DF6F, 0x8EBEEFF9, 0x17B7BE43, 0x60B08ED5]
  const ROW_A: seq<bv32> := [
    0xD6D6A3E8, 0xA1D1937E, 0x38D8C2C4, 0x4FDFF252, 0xD1BB67F1, 0xA6BC5767, 0x3FB506DD, 0x48B2364B,
    0xD80D2BDA, 0xAF0A1B4C, 0x36034AF6, 0x41047A60, 0xDF60EFC3, 0xA867DF55, 0x316E8EEF, 0x4669BE79]
  const ROW_B: seq<bv32> := [
    0xCB61B38C, 0xBC66831A, 0x256FD2A0, 0x5268E236, 0xCC0C7795, 0xBB0B4703, 0x220216B9, 0x5505262F,
    0xC5BA3BBE, 0xB2BD0B28, 0x2BB45A92, 0x5CB36A04, 0xC2D7FFA7, 0xB5D0CF31, 0x2CD99E8B, 0x5BDEAE1D]
  const ROW_C: seq<bv32> := [
    0x9B64C2B0, 0xEC63F226, 0x756AA39C, 0x026D930A, 0x9C0906A9, 0xEB0E363F, 0x72076785, 0x05005713,
    0x95BF4A82, 0xE2B87A14, 0x7BB12BAE, 0x0CB61B38, 0x92D28E9B, 0xE5D5BE0D, 0x7CDCEFB7, 0x0BDBDF21]
  const ROW_D: seq<bv32> := [
    0x86D3D2D4, 0xF1D4E242, 0x68DDB3F8, 0x1FDA836E, 0x81BE16CD, 0xF6B9265B, 0x6FB077E1, 0x18B74777,
    0x88085AE6, 0xFF0F6A70, 0x66063BCA, 0x11010B5C, 0x8F659EFF, 0xF862AE69, 0x616BFFD3, 0x166CCF45]
  const ROW_E: seq<bv32> := [
    0xA00AE278, 0xD70DD2EE, 0x4E048354, 0x3903B3C2, 0xA7672661, 0xD06016F7, 0x4969474D, 0x3E6E77DB,
    0xAED16A4A, 0xD9D65ADC, 0x40DF0B66, 0x37D83BF0, 0xA9BCAE53, 0xDEBB9EC5, 0x47B2CF7F, 0x30B5FFE9]
  const ROW_F: seq<bv32> := [
    0xBDBDF21C, 0xCABAC28A, 0x53B39330, 0x24B4A3A6, 0xBAD03605, 0xCDD70693, 0x54DE5729, 0x23D967BF,
    0xB3667A2E, 0xC4614AB8, 0x5D681B02, 0x2A6F2B94, 0xB40BBE37, 0xC30C8EA1, 0x5A05DF1B, 0x2D02EF8D]

  /** An entry of s_crc_table. */
  function Entry(i: bv8): bv32 {
    var k := (i & 15) as int;
    match i >> 4
    case 0 => ROW_0[k]
    case 1 => ROW_1[k]
    case 2 => ROW_2[k]
    case 3 => ROW_3[k]
    case 4 => ROW_4[k]
    case 5 => ROW_5[k]
    case 6 => ROW_6[k]
    case 7 => ROW_7[k]
    case 8 => ROW_8[k]
    case 9 => ROW_9[k]
    case 10 => ROW_A[k]
    case 11 => ROW_B[k]
    case 12 => ROW_C[k]
    case 13 => ROW_D[k]
    case 14 => ROW_E[k]
    case _ => ROW_F[k]
  }

  // ---------- one look-up per byte ----------

  // Bit operations by name, so that proofs about feeding need not look inside them.

  function Xor(a: bv32, b: bv32): bv32 { a ^ b }

  function Half(a: bv32): bv32 { a >> 1 }

  predicate Odd(a: bv32) { a & 1 == 1 }

  function Not(a: bv32): bv32 { !a }

  function DropByte(a: bv32): bv32 { a >> 8 }

  lemma XorAssoc(p: bv32, q: bv32, r: bv32)
    ensures Xor(p, Xor(q, r)) == Xor(Xor(p, q), r)
  {
  }

  lemma XorComm(p: bv32, q: bv32)
    ensures Xor(p, q) == Xor(q, p)
  {
  }

  lemma XorSelf(p: bv32)
    ensures Xor(p, p) == 0 && Xor(p, 0) == p
  {
  }

  lemma XorFacts(p: bv32, q: bv32, r: bv32)
    ensures Xor(Xor(p, r), Xor(q, r)) == Xor(p, q)
    ensures Xor(Xor(p, r), q) == Xor(Xor(p, q), r) && Xor(p, Xor(q, r)) == Xor(Xor(p, q), r)
  {
    hide Xor;
    XorAssoc(p, q, r);
    XorAssoc(p, r, q);
    XorComm(r, q);
    XorAssoc(Xor(p, q), r, r);
    XorAssoc(Xor(p, r), q, r);
    XorSelf(r);
    XorSelf(Xor(p, q));
  }

  lemma HalfXor(x: bv32, y: bv32)
    ensures Half(Xor(x, y)) == Xor(Half(x), Half(y))
  {
  }

  lemma OddXor(x: bv32, y: bv32)
    ensures Odd(Xor(x, y)) == (Odd(x) != Odd(y))
  {
  }

  lemma FeedNamed(c: bv32, bit: bool)
    ensures Feed(c, bit) == if Odd(c) != bit then Xor(Half(c), POLYNOMIAL) else Half(c)
  {
  }

  lemma FeedLinear(x: bv32, y: bv32, a: bool, b: bool)
    ensures Feed(Xor(x, y), a != b) == Xor(Feed(x, a), Feed(y, b))
  {
    hide Xor, Half, Odd, Feed;
    FeedNamed(x, a);
    FeedNamed(y, b);
    FeedNamed(Xor(x, y), a != b);
    HalfXor(x, y);
    OddXor(x, y);
    XorFacts(Half(x), Half(y), POLYNOMIAL);
  }

  function Xor8(p: bv8, q: bv8): bv8 { p ^ q }

  lemma BitOfXor(p: bv8, q: bv8, mask: bv8)
    requires mask in {1, 2, 4, 8, 16, 32, 64, 128}
    ensures Bit(Xor8(p, q), mask) == (Bit(p, mask) != Bit(q, mask))
  {
  }

  lemma FeedBit(x: bv32, y: bv32, p: bv8, q: bv8, mask: bv8)
    requires mask in {1, 2, 4, 8, 16, 32, 64, 128}
    ensures Feed(Xor(x, y), Bit(Xor8(p, q), mask)) == Xor(Feed(x, Bit(p, mask)), Feed(y, Bit(q, mask)))
  {
    hide Xor, Feed, Bit, Xor8;
    BitOfXor(p, q, mask);
    FeedLinear(x, y, Bit(p, mask), Bit(q, mask));
  }

  /** Feeding is linear: what two registers become together is the sum of what they become alone. */
  lemma FeedByteLinear(x: bv32, y: bv32, p: bv8, q: bv8)
    ensures FeedByte(Xor(x, y), Xor8(p, q)) == Xor(FeedByte(x, p), FeedByte(y, q))
  {
    hide Feed, Xor, Xor8, Bit;
    FeedBit(x, y, p, q, 1);
    var x0, y0 := Feed(x, Bit(p, 1)), Feed(y, Bit(q, 1));
    FeedBit(x0, y0, p, q, 2);
    var x1, y1 := Feed(x0, Bit(p, 2)), Feed(y0, Bit(q, 2));
    FeedBit(x1, y1, p, q, 4);
    var x2, y2 := Feed(x1, Bit(p, 4)), Feed(y1, Bit(q, 4));
    FeedBit(x2, y2, p, q, 8);
    var x3, y3 := Feed(x2, Bit(p, 8)), Feed(y2, Bit(q, 8));
    FeedBit(x3, y3, p, q, 16);
    var x4, y4 := Feed(x3, Bit(p, 16)), Feed(y3, Bit(q, 16));
    FeedBit(x4, y4, p, q, 32);
    var x5, y5 := Feed(x4, Bit(p, 32)), Feed(y4, Bit(q, 32));
    FeedBit(x5, y5, p, q, 64);
    FeedBit(Feed(x5, Bit(p, 64)), Feed(y5, Bit(q, 64)), p, q, 128);
  }

  // ---------- the table ----------

  lemma FirstRow(k: bv8)
    requires k < 16
    ensures ROW_0[k as int] == FeedByte(0, k)
  {
  }

  lemma FirstColumn(r: bv8)
    requires r < 16
    ensures Entry(r << 4) == FeedByte(0, r << 4)
  {
  }

  // Every other entry is the first one of its row and one of the first row together.

  lemma Row1(k: nat)
    requires k < 16
    ensures ROW_1[k] == Xor(ROW_1[0], ROW_0[k])
  {
  }

  lemma Row2(k: nat)
    requires k < 16
    ensures ROW_2[k] == Xor(ROW_2[0], ROW_0[k])
  {
  }

  lemma Row3(k: nat)
    requires k < 16
    ensures ROW_3[k] == Xor(ROW_3[0], ROW_0[k])
  {
  }

  lemma Row4(k: nat)
    requires k < 16
    ensures ROW_4[k] == Xor(ROW_4[0], ROW_0[k])
  {
  }

  lemma Row5(k: nat)
    requires k < 16
    ensures ROW_5[k] == Xor(ROW_5[0], ROW_0[k])
  {
  }

  lemma Row6(k: nat)
    requires k < 16
    ensures ROW_6[k] == Xor(ROW_6[0], ROW_0[k])
  {
  }

  lemma Row7(k: nat)
    requires k < 16
    ensures ROW_7[k] == Xor(ROW_7[0], ROW_0[k])
  {
  }

  lemma Row8(k: nat)
    requires k < 16
    ensures ROW_8[k] == Xor(ROW_8[0], ROW_0[k])
  {
  }

  lemma Row9(k: nat)
    requires k < 16
    ensures ROW_9[k] == Xor(ROW_9[0], ROW_0[k])
  {
  }

  lemma RowA(k: nat)
    requires k < 16
    ensures ROW_A[k] == Xor(ROW_A[0], ROW_0[k])
  {
  }

  lemma RowB(k: nat)
    requires k < 16
    ensures ROW_B[k] == Xor(ROW_B[0], ROW_0[k])
  {
  }

  lemma RowC(k: nat)
    requires k < 16
    ensures ROW_C[k] == Xor(ROW_C[0], ROW_0[k])
  {
  }

  lemma RowD(k: nat)
    requires k < 16
    ensures ROW_D[k] == Xor(ROW_D[0], ROW_0[k])
  {
  }

  lemma RowE(k: nat)
    requires k < 16
    ensures ROW_E[k] == Xor(ROW_E[0], ROW_0[k])
  {
  }

  lemma RowF(k: nat)
    requires k < 16
    ensures ROW_F[k] == Xor(ROW_F[0], ROW_0[k])
  {
  }

  lemma RowStart(i: bv8)
    ensures (i >> 4 << 4) >> 4 == i >> 4 && (i >> 4 << 4) & 15 == 0
  {
  }

  lemma XorNothing(p: bv32)
    ensures Xor(0, p) == p
  {
  }

  lemma InRow(i: bv8)
    ensures Entry(i) == Xor(Entry(i >> 4 << 4), ROW_0[(i & 15) as int])
  {
    hide Xor;
    RowStart(i);
    XorNothing(ROW_0[(i & 15) as int]);
    var k := (i & 15) as int;
    match i >> 4
    case 0 =>
    case 1 => Row1(k);
    case 2 => Row2(k);
    case 3 => Row3(k);
    case 4 => Row4(k);
    case 5 => Row5(k);
    case 6 => Row6(k);
    case 7 => Row7(k);
    case 8 => Row8(k);
    case 9 => Row9(k);
    case 10 => RowA(k);
    case 11 => RowB(k);
    case 12 => RowC(k);
    case 13 => RowD(k);
    case 14 => RowE(k);
    case _ => RowF(k);
  }

  lemma Nibbles(i: bv8)
    ensures Xor8(i >> 4 << 4, i & 15) == i && Xor(0, 0) == 0
  {
  }

  /** The table is right, because feeding is linear. */
  lemma Entries(i: bv8)
    ensures Entry(i) == FeedByte(0, i)
  {
    hide FeedByte, Entry, Xor, Xor8;
    InRow(i);
    FirstRow(i & 15);
    FirstColumn(i >> 4);
    Nibbles(i);
    FeedByteLinear(0, 0, i >> 4 << 4, i & 15);
  }

  /** With its low byte clear, a register only shifts. */
  lemma HighShifts(x: bv32)
    requires x & 0xFF == 0
    ensures FeedByte(x, 0) == x >> 8
  {
  }

  /** A byte fed to a register holding just that byte cancels it. */
  lemma LowCancels(b: bv8)
    ensures FeedByte(b as bv32, b) == 0
  {
  }

  /** The index of the look-up. */
  function Index(c: bv32, b: bv8): bv8 {
    ((c ^ (b as bv32)) & 0xFF) as bv8
  }

  function HighPart(c: bv32): bv32 { c & 0xFFFFFF00 }

  function LowPart(c: bv32): bv8 { (c & 0xFF) as bv8 }

  lemma HighFeeds(c: bv32)
    ensures FeedByte(HighPart(c), 0) == DropByte(c)
  {
    hide FeedByte;
    HighShifts(c & 0xFFFFFF00);
  }

  lemma SplitRegister(c: bv32)
    ensures c == Xor(HighPart(c), LowPart(c) as bv32)
  {
  }

  lemma SplitByte(c: bv32, b: bv8)
    ensures b == Xor8(LowPart(c), Index(c, b))
  {
  }

  lemma Xor8Zero(p: bv8)
    ensures Xor8(0, p) == p
  {
  }

  /** Feeding a byte is one look-up. */
  lemma LookedUp(c: bv32, b: bv8)
    ensures FeedByte(c, b) == Xor(DropByte(c), Entry(Index(c, b)))
  {
    hide FeedByte, Entry, Index, Xor, Xor8, HighPart, LowPart, DropByte;
    var lo, hi := LowPart(c), HighPart(c);
    var low := lo as bv32;
    SplitRegister(c);
    SplitByte(c, b);
    XorSelf(c);
    FeedByteLinear(c, 0, lo, Index(c, b));
    FeedByteLinear(hi, low, 0, lo);
    Xor8Zero(lo);
    HighFeeds(c);
    LowCancels(lo);
    XorSelf(DropByte(c));
    Entries(Index(c, b));
  }

  // ---------- mz_crc32 ----------

  lemma FeedOne(c: bv32, s: seq<bv8>, i: nat)
    requires i < |s|
    ensures FeedAll(c, s[..i + 1]) == FeedByte(FeedAll(c, s[..i]), s[i])
  {
    assert s[..i + 1][..i] == s[..i];
  }

  /** One step of the loops, from the state after i bytes. */
  method Step(crc: bv32, s: seq<bv8>, i: nat, ghost c: bv32) returns (crc': bv32)
    requires i < |s| && crc == FeedAll(c, s[..i])
    ensures crc' == FeedAll(c, s[..i + 1])
  {
    hide FeedByte, Entry, FeedAll;
    FeedOne(c, s, i);
    LookedUp(crc, s[i]);
    crc' := Xor(DropByte(crc), Entry(Index(crc, s[i])));
  }

  /** mz_crc32 is the CRC by definition, for every starting value. */
  method Crc32(crc: bv32, s: seq<bv8>) returns (r: bv32)
    ensures r == Crc(crc, s)
  {
    hide FeedByte;
    var crc32 := crc ^ 0xFFFFFFFF;
    var i: nat, left: nat := 0, |s|;
    while left >= 4
      invariant i + left == |s| && crc32 == FeedAll(Not(crc), s[..i])
    {
      crc32 := Step(crc32, s, i, Not(crc));
      crc32 := Step(crc32, s, i + 1, Not(crc));
      crc32 := Step(crc32, s, i + 2, Not(crc));
      crc32 := Step(crc32, s, i + 3, Not(crc));
      i, left := i + 4, left - 4;
    }
    while left > 0
      invariant i + left == |s| && crc32 == FeedAll(Not(crc), s[..i])
    {
      crc32 := Step(crc32, s, i, Not(crc));
      i, left := i + 1, left - 1;
    }
    assert s[..i] == s;
    r := Not(crc32);
  }

  lemma {:induction false} FeedAppend(c: bv32, a: seq<bv8>, b: seq<bv8>)
    ensures FeedAll(c, a + b) == FeedAll(FeedAll(c, a), b)
  {
    if b == [] {
      assert a + b == a;
    } else {
      var n := |b| - 1;
      FeedAppend(c, a, b[..n]);
      assert (a + b)[..|a + b| - 1] == a + b[..n];
    }
  }

  lemma NotTwice(x: bv32)
    ensures Not(Not(x)) == x
  {
  }

  /** The CRC of b continued from the CRC of a is the CRC of a followed by b. */
  lemma CrcAppend(start: bv32, a: seq<bv8>, b: seq<bv8>)
    ensures Crc(Crc(start, a), b) == Crc(start, a + b)
  {
    FeedAppend(Not(start), a, b);
    hide Not;
    NotTwice(FeedAll(Not(start), a));
  }

  // ---------- the residue ----------

  /** The four bytes of a CRC, low byte first, as they are stored. */
  function LowFirst(c: bv32): (s: seq<bv8>)
    ensures |s| == 4
  {
    [(c & 0xFF) as bv8, ((c >> 8) & 0xFF) as bv8, ((c >> 16) & 0xFF) as bv8, (c >> 24) as bv8]
  }

  /** With the complement of a register fed to it, every look-up is at an index that does not depend on it. */
  lemma ComplementIndexes(x: bv32)
    ensures Index(x, (!x & 0xFF) as bv8) == 0xFF
    ensures Index(Xor(x >> 8, 0x2D02EF8D), ((!x >> 8) & 0xFF) as bv8) == 0x72
    ensures Index(Xor(x >> 16, 0xBE2612FF), ((!x >> 16) & 0xFF) as bv8) == 0x00
    ensures Index(Xor(x >> 24, 0x00BE2612), (!x >> 24) as bv8) == 0xED
  {
  }

  lemma DropXor(p: bv32, q: bv32, r: bv32)
    ensures Xor(DropByte(Xor(p, q)), r) == Xor(DropByte(p), Xor(DropByte(q), r))
  {
    hide Xor, DropByte;
    DropOfXor(p, q);
    XorAssoc(DropByte(p), DropByte(q), r);
  }

  lemma DropOfXor(p: bv32, q: bv32)
    ensures DropByte(Xor(p, q)) == Xor(DropByte(p), DropByte(q))
  {
  }

  lemma DropMore(x: bv32)
    ensures DropByte(x) == x >> 8 && DropByte(x >> 8) == x >> 16 && DropByte(x >> 16) == x >> 24
    ensures DropByte(x >> 24) == 0
  {
  }

  lemma ComplementConstants()
    ensures Xor(DropByte(0x2D02EF8D), 0xBE0B1010) == 0xBE2612FF && Xor(DropByte(0xBE2612FF), 0) == 0x00BE2612
    ensures Xor(DropByte(0x00BE2612), 0xDEBB9EC5) == 0xDEBB20E3
  {
  }

  lemma FirstEntries()
    ensures Entry(0) == 0 && Entry(0x72) == 0xBE0B1010
  {
    assert 0x72 as bv8 >> 4 == 7 && (0x72 as bv8 & 15) as int == 2;
  }

  lemma LastEntries()
    ensures Entry(0xFF) == 0x2D02EF8D && Entry(0xED) == 0xDEBB9EC5
  {
    assert 0xFF as bv8 >> 4 == 15 && (0xFF as bv8 & 15) as int == 15;
    assert 0xED as bv8 >> 4 == 14 && (0xED as bv8 & 15) as int == 13;
  }

  lemma FeedComplement(x: bv32)
    ensures FeedAll(x, LowFirst(Not(x))) == 0xDEBB20E3
  {
    hide FeedByte, Entry, Index, Xor, DropByte;
    var s := LowFirst(Not(x));
    ComplementIndexes(x);
    ComplementConstants();
    DropMore(x);
    DropXor(x >> 8, 0x2D02EF8D, 0xBE0B1010);
    DropXor(x >> 16, 0xBE2612FF, 0);
    DropXor(x >> 24, 0x00BE2612, 0xDEBB9EC5);
    XorNothing(0xDEBB20E3);
    FirstEntries();
    LastEntries();
    LookedUp(x, s[0]);
    LookedUp(Xor(x >> 8, 0x2D02EF8D), s[1]);
    LookedUp(Xor(x >> 16, 0xBE2612FF), s[2]);
    LookedUp(Xor(x >> 24, 0x00BE2612), s[3]);
    FeedOne(x, s, 0);
    FeedOne(x, s, 1);
    FeedOne(x, s, 2);
    FeedOne(x, s, 3);
    assert s[..0] == [] && s[..4] == s;
  }

  /**
    The residue: whatever is checksummed, the CRC of it with its own CRC behind it, low byte first,
    is one constant.
   */
  lemma Residue(s: seq<bv8>)
    ensures var c := Crc(0, s);
            Crc(0, s + [(c & 0xFF) as bv8, ((c >> 8) & 0xFF) as bv8, ((c >> 16) & 0xFF) as bv8, (c >> 24) as bv8])
            == 0x2144DF1C
  {
    hide FeedByte, FeedAll, Not;
    var x := FeedAll(Not(0), s);
    FeedAppend(Not(0), s, LowFirst(Not(x)));
    FeedComplement(x);
    NotResidue();
  }

  lemma NotResidue()
    ensures Not(0xDEBB20E3) == 0x2144DF1C
  {
  }
}
