/**
  DEFLATE and zlib streams as RFC 1951 and RFC 1950 describe them, once more and on their own: a
  decoder without tables or loops, which shares nothing with the compressor or the inflater but
  the type of bytes, the powers of two and two plain sums. It is what both are measured against.
 */
module Standard {
  import opened Bits
  import Adler32

  /** What has been read from some bits, and the bits behind it. */
  datatype Read<T> = Bad | Read(value: T, rest: seq<bool>)

  // ---------- section 3.1.1: bits and numbers ----------

  /** The bits of some bytes, the least significant bit of each first. */
  function BitsOf(bytes: seq<byte>): (bs: seq<bool>)
    ensures |bs| == 8 * |bytes|
  {
    seq(8 * |bytes|, i requires 0 <= i < 8 * |bytes| => bytes[i / 8] / Pow2(i % 8) % 2 == 1)
  }

  /** A number, low bit first. */
  function Number(bs: seq<bool>): nat {
    if bs == [] then 0
    else
      var n := |bs| - 1;
      Number(bs[..n]) + if bs[n] then Pow2(n) else 0
  }

  function Field(bits: seq<bool>, n: nat): (r: Read<nat>)
    ensures r.Read? ==> |r.rest| + n == |bits|
  {
    if |bits| < n then Bad else Read(Number(bits[..n]), bits[n..])
  }

  // ---------- section 3.2.2: Huffman codes ----------

  /** How many codes have length l. */
  function HowMany(lens: seq<nat>, l: nat): nat {
    if lens == [] then 0 else (if lens[0] == l then 1 else 0) + HowMany(lens[1..], l)
  }

  /** The k-th symbol with a code of length l. */
  function Nth(lens: seq<nat>, l: nat, k: nat): (s: nat)
    requires k < HowMany(lens, l)
    ensures s < |lens|
  {
    if lens[0] != l then 1 + Nth(lens[1..], l, k) else if k == 0 then 0 else 1 + Nth(lens[1..], l, k - 1)
  }

  /**
    A symbol, of whose code l bits have been read, with the value code: the codes of length l + 1 are
    consecutive numbers from first on, in the order of their symbols, and longer ones come later.
   */
  function Symbol(lens: seq<nat>, bits: seq<bool>, l: nat, code: nat, first: nat): (r: Read<nat>)
    ensures r.Read? ==> r.value < |lens| && |r.rest| < |bits|
    decreases |bits|
  {
    if l >= 15 || bits == [] then Bad
    else
      var c := 2 * code + if bits[0] then 1 else 0;
      var n := HowMany(lens, l + 1);
      if first <= c < first + n then Read(Nth(lens, l + 1, c - first), bits[1..])
      else Symbol(lens, bits[1..], l + 1, c, 2 * (first + n))
  }

  function Decode(lens: seq<nat>, bits: seq<bool>): (r: Read<nat>)
    ensures r.Read? ==> r.value < |lens| && |r.rest| < |bits|
  {
    Symbol(lens, bits, 0, 0, 0)
  }

  /** What a code takes of all strings of 15 bits. */
  function Shares(lens: seq<nat>): nat {
    if lens == [] then 0 else (if 0 < lens[0] <= 15 then Pow2(15 - lens[0]) else 0) + Shares(lens[1..])
  }

  function InUse(lens: seq<nat>): nat {
    if lens == [] then 0 else (if lens[0] > 0 then 1 else 0) + InUse(lens[1..])
  }

  /** Lengths that make a code: they leave no string without a symbol, or there is at most one symbol. */
  predicate MakesCode(lens: seq<nat>) {
    (forall i :: 0 <= i < |lens| ==> lens[i] <= 15) && (Shares(lens) == 32768 || InUse(lens) <= 1)
  }

  // ---------- section 3.2.5: lengths and distances ----------

  function LengthBits(sym: nat): nat {
    if 265 <= sym < 285 then (sym - 261) / 4 else 0
  }

  /** The least length with this symbol; but for the last one, ranges follow one another. */
  function LeastLength(sym: nat): nat
    requires 257 <= sym <= 285
  {
    if sym == 257 then 3 else if sym == 285 then 258 else LeastLength(sym - 1) + Pow2(LengthBits(sym - 1))
  }

  function DistanceBits(sym: nat): nat {
    if sym < 4 then 0 else sym / 2 - 1
  }

  function LeastDistance(sym: nat): nat {
    if sym == 0 then 1 else LeastDistance(sym - 1) + Pow2(DistanceBits(sym - 1))
  }

  /** The string of that length from that far back; when it reaches its own start, it goes on from there. */
  function Copy(s: seq<byte>, len: nat, dist: nat): (r: seq<byte>)
    requires 1 <= dist <= |s|
    ensures s <= r
  {
    s + seq(len, k requires 0 <= k => s[|s| - dist + k % dist])
  }

  /**
    The body of a block, behind the data s. Symbols 286, 287 and distances 30, 31 never occur, and 284
    is for lengths up to 257.
   */
  function Body(lit: seq<nat>, dist: seq<nat>, bits: seq<bool>, s: seq<byte>): (r: Read<seq<byte>>)
    ensures r.Read? ==> |r.rest| < |bits| && s <= r.value
    decreases |bits|
  {
    match Decode(lit, bits)
    case Bad => Bad
    case Read(sym, r0) =>
      if sym < 256 then Body(lit, dist, r0, s + [sym])
      else if sym == 256 then Read(s, r0)
      else if sym > 285 then Bad
      else Match(lit, dist, sym, r0, s)
  }

  /** The rest of a match, and of the body. */
  function Match(lit: seq<nat>, dist: seq<nat>, sym: nat, bits: seq<bool>, s: seq<byte>): (r: Read<seq<byte>>)
    requires 257 <= sym <= 285
    ensures r.Read? ==> |r.rest| < |bits| && s <= r.value
    decreases |bits|
  {
    match Field(bits, LengthBits(sym))
    case Bad => Bad
    case Read(more, r1) =>
      match Decode(dist, r1)
      case Bad => Bad
      case Read(dsym, r2) =>
        if (sym == 284 && more == 31) || dsym > 29 then Bad
        else
          match Field(r2, DistanceBits(dsym))
          case Bad => Bad
          case Read(further, r3) =>
            var d := LeastDistance(dsym) + further;
            if d == 0 || d > |s| then Bad else Body(lit, dist, r3, Copy(s, LeastLength(sym) + more, d))
  }

  // ---------- section 3.2.6: fixed codes ----------

  function FixedLengths(): seq<nat> {
    seq(288, i => if i < 144 then 8 else if i < 256 then 9 else if i < 280 then 7 else 8)
  }

  function FixedDistances(): seq<nat> {
    seq(32, _ => 5)
  }

  // ---------- section 3.2.7: dynamic codes ----------

  /** Whose length comes k-th: 16, 17, 18, 0, 8, 7, 9, 6, 10, 5, 11, 4, 12, 3, 13, 2, 14, 1, 15. */
  function Sent(k: nat): (s: nat)
    requires k < 19
    ensures s < 19
  {
    if k < 3 then 16 + k else if k == 3 then 0 else if k % 2 == 0 then 6 + k / 2 else (19 - k) / 2
  }

  /** The lengths from the k-th on, up to the n-th. */
  function Sizes(bits: seq<bool>, k: nat, n: nat, cl: seq<nat>): (r: Read<seq<nat>>)
    requires n <= 19 && |cl| == 19
    ensures r.Read? ==> |r.rest| <= |bits| && |r.value| == 19
    decreases n - k
  {
    if k >= n then Read(cl, bits)
    else
      match Field(bits, 3)
      case Bad => Bad
      case Read(len, rest) => Sizes(rest, k + 1, n, cl[Sent(k) := len])
  }

  /** The code lengths of both codes: total numbers, of which some have been read. */
  function Lengths(cl: seq<nat>, bits: seq<bool>, done: seq<nat>, total: nat): (r: Read<seq<nat>>)
    ensures r.Read? ==> |r.rest| <= |bits| && |r.value| == total
    decreases |bits|
  {
    if |done| == total then Read(done, bits)
    else if |done| > total then Bad
    else
      match Decode(cl, bits)
      case Bad => Bad
      case Read(sym, rest) =>
        if sym < 16 then Lengths(cl, rest, done + [sym], total)
        else if sym == 16 then
          if done == [] then Bad
          else
            match Field(rest, 2)
            case Bad => Bad
            case Read(n, r) => Lengths(cl, r, done + seq(3 + n, _ => done[|done| - 1]), total)
        else if sym == 17 then
          match Field(rest, 3)
          case Bad => Bad
          case Read(n, r) => Lengths(cl, r, done + seq(3 + n, _ => 0), total)
        else if sym == 18 then
          match Field(rest, 7)
          case Bad => Bad
          case Read(n, r) => Lengths(cl, r, done + seq(11 + n, _ => 0), total)
        else Bad
  }

  /** A block with codes of its own. */
  function Dynamic(bits: seq<bool>, s: seq<byte>): (r: Read<seq<byte>>)
    ensures r.Read? ==> |r.rest| < |bits| && s <= r.value
  {
    match Field(bits, 5)
    case Bad => Bad
    case Read(hlit, r1) =>
      match Field(r1, 5)
      case Bad => Bad
      case Read(hdist, r2) =>
        match Field(r2, 4)
        case Bad => Bad
        case Read(hclen, r3) =>
          if hclen + 4 > 19 then Bad else WithCodes(r3, hlit + 257, hdist + 1, hclen + 4, s)
  }

  /** The codes, and the body written in them. */
  function WithCodes(bits: seq<bool>, lits: nat, dists: nat, sent: nat, s: seq<byte>): (r: Read<seq<byte>>)
    requires sent <= 19
    ensures r.Read? ==> |r.rest| < |bits| && s <= r.value
  {
    match Sizes(bits, 0, sent, seq(19, _ => 0))
    case Bad => Bad
    case Read(cl, r1) =>
      if !MakesCode(cl) then Bad
      else
        match Lengths(cl, r1, [], lits + dists)
        case Bad => Bad
        case Read(lens, r2) =>
          if !MakesCode(lens[..lits]) || !MakesCode(lens[lits..]) then Bad
          else Body(lens[..lits], lens[lits..], r2, s)
  }

  // ---------- section 3.2.4: stored blocks ----------

  function Bytes(bits: seq<bool>, n: nat): (r: Read<seq<byte>>)
    ensures r.Read? ==> |r.rest| + 8 * n == |bits| && |r.value| == n
    decreases n
  {
    if n == 0 then Read([], bits)
    else
      match Field(bits, 8)
      case Bad => Bad
      case Read(b, rest) =>
        NumberBound(bits[..8]);
        match Bytes(rest, n - 1)
        case Bad => Bad
        case Read(bs, r) => Read([b] + bs, r)
  }

  lemma {:induction false} NumberBound(bs: seq<bool>)
    ensures Number(bs) < Pow2(|bs|) && Pow2(8) == 256
  {
    Pow2Values();
    if bs != [] { NumberBound(bs[..|bs| - 1]); }
  }

  /** The bits up to the byte boundary are ignored; the bits end where a byte ends. */
  function ToByte(bits: seq<bool>): seq<bool> {
    bits[|bits| % 8..]
  }

  function Stored(bits: seq<bool>, s: seq<byte>): (r: Read<seq<byte>>)
    ensures r.Read? ==> |r.rest| < |bits| && s <= r.value
  {
    match Field(ToByte(bits), 16)
    case Bad => Bad
    case Read(len, r1) =>
      match Field(r1, 16)
      case Bad => Bad
      case Read(nlen, r2) =>
        if len + nlen != 65535 then Bad
        else
          match Bytes(r2, len)
          case Bad => Bad
          case Read(bytes, r3) => Read(s + bytes, r3)
  }

  // ---------- section 3.2.3: blocks ----------

  function Block(type': nat, bits: seq<bool>, s: seq<byte>): (r: Read<seq<byte>>)
    ensures r.Read? ==> |r.rest| < |bits| && s <= r.value
  {
    if type' == 0 then Stored(bits, s)
    else if type' == 1 then Body(FixedLengths(), FixedDistances(), bits, s)
    else if type' == 2 then Dynamic(bits, s)
    else Bad
  }

  /** Blocks up to one that says it is the last. */
  function Inflate(bits: seq<bool>, s: seq<byte>): (r: Read<seq<byte>>)
    ensures r.Read? ==> |r.rest| < |bits| && s <= r.value
    decreases |bits|
  {
    match Field(bits, 1)
    case Bad => Bad
    case Read(final, r1) =>
      match Field(r1, 2)
      case Bad => Bad
      case Read(type', r2) =>
        match Block(type', r2, s)
        case Bad => Bad
        case Read(data, r3) => if final == 1 then Read(data, r3) else Inflate(r3, data)
  }

  // ---------- RFC 1950 ----------

  /** A header: a multiple of 31, method 8 with a window of at most 32 KiB, and no preset dictionary. */
  predicate Header(cmf: nat, flg: nat) {
    (256 * cmf + flg) % 31 == 0 && cmf % 16 == 8 && cmf / 16 <= 7 && flg / 32 % 2 == 0
  }

  /** The checksum of section 8.2, written out. */
  function Checksum(data: seq<byte>): nat {
    (|data| + Adler32.Weighted(data)) % 65521 * 65536 + (1 + Adler32.Plain(data)) % 65521
  }

  /** The checksum that comes next, most significant byte first. */
  function Sum(bits: seq<bool>): (r: Read<nat>)
    ensures r.Read? ==> |r.rest| + 32 == |bits|
  {
    match Bytes(bits, 4)
    case Bad => Bad
    case Read(b, rest) =>
      Read(b[0] as nat * 0x100_0000 + b[1] as nat * 0x1_0000 + b[2] as nat * 0x100 + b[3] as nat, rest)
  }

  /** A whole stream, behind the data s: bare, or with header and checksum. */
  function Stream(zlib: bool, bits: seq<bool>, s: seq<byte>): (r: Read<seq<byte>>)
    ensures r.Read? ==> s <= r.value
  {
    if !zlib then
      match Inflate(bits, s)
      case Bad => Bad
      case Read(data, rest) => Read(data, ToByte(rest))
    else
      match Bytes(bits, 2)
      case Bad => Bad
      case Read(head, r1) =>
        if !Header(head[0], head[1]) then Bad
        else
          match Inflate(r1, s)
          case Bad => Bad
          case Read(data, r2) =>
            match Sum(ToByte(r2))
            case Bad => Bad
            case Read(sum, r3) => if sum == Checksum(data[|s|..]) then Read(data, r3) else Bad
  }
}
