/**
  The buffer of LZ codes of a tdefl_compressor: a flag byte for every eight codes, filled one
  bit at a time from the top, then the codes (tdefl_record_literal and tdefl_record_match).
  What the buffer holds is stated against Image, the format read back by tdefl_compress_lz_codes.
 */
module CodeBuffer {
  import opened Bits
  import opened Tokens
  import opened HuffmanEncoder
  import MinRedundancy

  const CODE_BUF_SIZE: nat := 0x1_0000       // TDEFL_LZ_CODE_BUF_SIZE

  // ---------- the format ----------

  /** A literal takes one byte; a match its length less three, then its distance less one, low byte first. */
  function CodeBytes(t: Token): (s: seq<byte>)
    requires t.Valid()
    ensures |s| == if t.Match? then 3 else 1
  {
    match t
    case Literal(b) => [b]
    case Match(len, dist) => [len - MIN_MATCH, (dist - 1) % 256, (dist - 1) / 256]
  }

  ghost predicate AllValid(ts: seq<Token>) {
    forall t <- ts :: t.Valid()
  }

  function CodesOf(ts: seq<Token>): (s: seq<byte>)
    requires AllValid(ts)
    ensures |s| >= |ts|
  {
    if ts == [] then [] else CodeBytes(ts[0]) + CodesOf(ts[1..])
  }

  function Kinds(ts: seq<Token>): (bs: seq<bool>)
    ensures |bs| == |ts|
  {
    if ts == [] then [] else [ts[0].Match?] + Kinds(ts[1..])
  }

  /** The flag byte of a group of up to eight codes. */
  function FlagByte(ts: seq<Token>): byte
    requires |ts| <= 8
  {
    ValBound(Kinds(ts));
    Pow2Mono(|ts|, 8);
    Pow2Values();
    Val(Kinds(ts))
  }

  function Image(ts: seq<Token>): seq<byte>
    requires AllValid(ts)
  {
    if ts == [] then []
    else if |ts| <= 8 then [FlagByte(ts)] + CodesOf(ts)
    else [FlagByte(ts[..8])] + CodesOf(ts[..8]) + Image(ts[8..])
  }

  lemma {:induction false} CodesPush(ts: seq<Token>, t: Token)
    requires AllValid(ts + [t])
    ensures AllValid(ts) && t.Valid()
    ensures CodesOf(ts + [t]) == CodesOf(ts) + CodeBytes(t)
  {
    assert t in ts + [t];
    assert forall u <- ts :: u in ts + [t];
    if ts == [] {
      assert ts + [t] == [t] && CodesOf([]) == [];
    } else {
      assert (ts + [t])[1..] == ts[1..] + [t];
      CodesPush(ts[1..], t);
      assert CodeBytes(ts[0]) + (CodesOf(ts[1..]) + CodeBytes(t)) == CodeBytes(ts[0]) + CodesOf(ts[1..]) + CodeBytes(t);
    }
  }

  lemma {:induction false} KindsPush(ts: seq<Token>, t: Token)
    ensures Kinds(ts + [t]) == Kinds(ts) + [t.Match?]
  {
    if ts == [] {
      assert ts + [t] == [t];
    } else {
      assert (ts + [t])[1..] == ts[1..] + [t];
      KindsPush(ts[1..], t);
    }
  }

  /** Whole groups of eight come one after another. */
  lemma {:induction false} ImageAppend(ts: seq<Token>, us: seq<Token>)
    requires AllValid(ts) && AllValid(us) && |ts| % 8 == 0
    ensures AllValid(ts + us) && Image(ts + us) == Image(ts) + Image(us)
    decreases |ts|
  {
    hide FlagByte, CodesOf, Image, Token.Valid;
    NoImage();
    if ts == [] {
      JoinNothing(us);
      JoinNothing(Image(us));
    } else {
      var all := ts + us;
      assert all[..8] == ts[..8] && all[8..] == ts[8..] + us;
      ImageAppend(ts[8..], us);
      GroupFirst(ts);
      GroupFirst(all);
      JoinAssoc([FlagByte(ts[..8])] + CodesOf(ts[..8]), Image(ts[8..]), Image(us));
    }
  }

  lemma NoImage()
    ensures Image([]) == []
  {
  }

  lemma GroupFirst(ts: seq<Token>)
    requires AllValid(ts) && |ts| >= 8
    ensures Image(ts) == [FlagByte(ts[..8])] + CodesOf(ts[..8]) + Image(ts[8..])
  {
    if |ts| == 8 {
      assert ts[..8] == ts && ts[8..] == [];
      assert [FlagByte(ts)] + CodesOf(ts) + [] == [FlagByte(ts)] + CodesOf(ts);
    }
  }

  /** Eight codes take at least nine bytes. */
  lemma {:induction false} ImageSize(ts: seq<Token>)
    requires AllValid(ts)
    ensures 8 * |Image(ts)| >= 9 * |ts|
    decreases |ts|
  {
    if |ts| > 8 { ImageSize(ts[8..]); }
  }

  // ---------- what a list of codes counts ----------

  /** The literal or length symbol of a token. */
  function LitSym(t: Token): (s: nat)
    requires t.Valid()
    ensures s != 256 && s < 286
  {
    match t
    case Literal(b) => b
    case Match(len, _) =>
      LengthRecovered(len - MIN_MATCH);
      LenSym(len - MIN_MATCH)
  }

  function MatchSym(t: Token): (s: nat)
    requires t.Valid() && t.Match?
    ensures s < 30
  {
    DistanceRecovered(t.dist - 1);
    DistSym(t.dist - 1)
  }

  /** How often symbol s of the first table is used. */
  function LitUses(ts: seq<Token>, s: nat): nat
    requires AllValid(ts)
  {
    if ts == [] then 0
    else LitUses(ts[..|ts| - 1], s) + if LitSym(ts[|ts| - 1]) == s then 1 else 0
  }

  /** How often distance symbol s is used. */
  function DistUses(ts: seq<Token>, s: nat): nat
    requires AllValid(ts)
  {
    if ts == [] then 0
    else DistUses(ts[..|ts| - 1], s) + if ts[|ts| - 1].Match? && MatchSym(ts[|ts| - 1]) == s then 1 else 0
  }

  /** The number of bytes a token stands for. */
  function Length(t: Token): nat {
    if t.Match? then t.len else 1
  }

  function TotalLength(ts: seq<Token>): nat {
    if ts == [] then 0 else TotalLength(ts[..|ts| - 1]) + Length(ts[|ts| - 1])
  }

  lemma Appended(ts: seq<Token>, t: Token)
    requires AllValid(ts) && t.Valid()
    ensures AllValid(ts + [t]) && TotalLength(ts + [t]) == TotalLength(ts) + Length(t)
    ensures forall s: nat :: LitUses(ts + [t], s) == LitUses(ts, s) + if LitSym(t) == s then 1 else 0
    ensures forall s: nat :: DistUses(ts + [t], s) == DistUses(ts, s) + if t.Match? && MatchSym(t) == s then 1 else 0
  {
    assert (ts + [t])[..|ts|] == ts;
  }

  lemma {:induction false} UsedOnce(ts: seq<Token>, i: nat)
    requires AllValid(ts) && i < |ts|
    ensures LitUses(ts, LitSym(ts[i])) > 0
    ensures ts[i].Match? ==> DistUses(ts, MatchSym(ts[i])) > 0
  {
    if i < |ts| - 1 { UsedOnce(ts[..|ts| - 1], i); }
  }

  lemma {:induction false} SumBump(s: seq<nat>, k: nat)
    requires k < |s|
    ensures MinRedundancy.Sum(s[k := s[k] + 1]) == MinRedundancy.Sum(s) + 1
  {
    if k == 0 {
      assert s[0 := s[0] + 1][1..] == s[1..];
    } else {
      SumBump(s[1..], k - 1);
      assert s[k := s[k] + 1][1..] == s[1..][k - 1 := s[k] + 1];
    }
  }

  lemma {:induction false} SumCovers(s: seq<nat>, k: nat)
    requires k < |s|
    ensures s[k] <= MinRedundancy.Sum(s)
  {
    if k > 0 { SumCovers(s[1..], k - 1); }
  }

  // ---------- flag bits ----------

  /** Shifting a flag byte right and setting its top bit, or not. */
  function PushFlag(f: byte, b: bool): (r: nat) {
    if b then Or(Shr(f, 1), 0x80) else Shr(f, 1)
  }

  lemma FlagShifts(f: byte, b: bool)
    ensures PushFlag(f, b) < 256 && ToBits(PushFlag(f, b), 8) == ToBits(f, 8)[1..] + [b]
  {
    var v := if b then 1 else 0;
    var h := Shr(f, 1);
    assert Shr(f / 2, 0) == f / 2;
    Shl7();
    OrZero(h);
    OrAppends(h, 7, v, 1);
    assert ToBits(v, 1) == [b];
    assert ToBits(f, 8)[1..] == ToBits(h, 7);
  }

  lemma Shl7()
    ensures Shl(1, 7) == 128 && Shl(0, 7) == 0 && Pow2(7) == 128 && Pow2(8) == 256 && Pow2(1) == 2
  {
    Pow2Values();
    ShlIsTimes(1, 7);
    ShlIsTimes(0, 7);
  }

  /** The flag byte of a group is complete once the unused low bits are shifted out. */
  lemma FlagDone(f: byte, ts: seq<Token>)
    requires |ts| <= 8 && ToBits(f, 8)[8 - |ts|..] == Kinds(ts)
    ensures Shr(f, 8 - |ts|) == FlagByte(ts)
  {
    Pow2Values();
    var k := |ts|;
    ToBitsSplit(f, 8 - k, k);
    ShrBound(f, 8 - k, k);
    ValOfToBits(Shr(f, 8 - k), k);
    LowSmall(Shr(f, 8 - k), k);
  }

  // ---------- the buffer ----------

  class LzCodes {
    const buf: array<byte>           // m_lz_code_buf
    const lit: CodeTable             // table 0, whose counts are kept here
    const dist: CodeTable            // table 1
    var codeEnd: nat                 // m_pLZ_code_buf, as an index
    var flagsAt: nat                 // m_pLZ_flags, as an index
    var flagsLeft: nat               // m_num_flags_left
    var totalBytes: nat              // m_total_lz_bytes
    ghost var full: seq<Token>       // the tokens of complete groups
    ghost var part: seq<Token>       // those of the group being filled

    /** The state tdefl_init sets up: no codes, and all counts zero. */
    constructor (lit: CodeTable, dist: CodeTable)
      requires lit.Valid() && dist.Valid() && lit.count != dist.count
      requires forall k :: 0 <= k < MAX_SYMBOLS ==> lit.count[k] == 0 && dist.count[k] == 0
      ensures Valid() && Tokens() == [] && fresh(buf) && this.lit == lit && this.dist == dist && codeEnd == 1
    {
      this.lit, this.dist := lit, dist;
      buf := new byte[CODE_BUF_SIZE](_ => 0);
      codeEnd, flagsAt, flagsLeft, totalBytes := 1, 0, 8, 0;
      full, part := [], [];
      new;
      NoCodes();
      SumZero(lit.count[..]);
      SumZero(dist.count[..]);
    }

    ghost function Tokens(): seq<Token>
      reads this
    {
      full + part
    }

    ghost function Own(): set<object> { {this as object, buf, lit.count, dist.count} }

    ghost predicate Apart() {
      && buf.Length == CODE_BUF_SIZE && lit.Valid() && dist.Valid()
      && lit.count != dist.count && buf as object != lit.count && buf as object != dist.count
    }

    /** The bytes hold the tokens; the flags of the open group sit at the top of its flag byte. */
    ghost predicate Filled()
      reads this, buf
    {
      && AllValid(full) && AllValid(part)
      && buf.Length == CODE_BUF_SIZE
      && |full| % 8 == 0 && |part| < 8 && flagsLeft == 8 - |part|
      && flagsAt < codeEnd <= CODE_BUF_SIZE
      && buf[..flagsAt] == Image(full)
      && buf[flagsAt + 1..codeEnd] == CodesOf(part)
      && ToBits(buf[flagsAt], 8)[flagsLeft..] == Kinds(part)
    }

    /** Every count is exact, and together they are the number of tokens. */
    ghost predicate Counted(ts: seq<Token>)
      requires AllValid(ts) && Apart()
      reads lit.count, dist.count
    {
      && (forall s: nat :: s < MAX_SYMBOLS ==> lit.count[s] == LitUses(ts, s))
      && (forall s: nat :: s < MAX_SYMBOLS ==> dist.count[s] == DistUses(ts, s))
      && MinRedundancy.Sum(lit.count[..]) == |ts|
      && MinRedundancy.Sum(dist.count[..]) <= |ts|
    }

    ghost predicate Valid()
      reads this, buf, lit.count, dist.count
    {
      && Apart() && Filled()
      && AllValid(Tokens()) && Counted(Tokens()) && totalBytes == TotalLength(Tokens())
    }

    /** However it was filled, the buffer has no room for so many codes that a 16-bit count or sum could wrap. */
    lemma FewTokens()
      requires Apart() && Filled()
      ensures |Tokens()| <= 58254
    {
      ImageSize(full);
      assert |buf[..flagsAt]| == flagsAt;
    }

    /** The code of t has been stored, its flag not yet. */
    ghost predicate Pending(t: Token)
      reads this, buf
    {
      && AllValid(full) && AllValid(part + [t])
      && buf.Length == CODE_BUF_SIZE
      && |full| % 8 == 0 && |part| < 8 && flagsLeft == 8 - |part|
      && flagsAt < codeEnd < CODE_BUF_SIZE
      && buf[..flagsAt] == Image(full)
      && buf[flagsAt + 1..codeEnd] == CodesOf(part + [t])
      && ToBits(buf[flagsAt], 8)[flagsLeft..] == Kinds(part)
    }

    lemma Stored(was: seq<byte>, at: nat, t: Token)
      requires AllValid(full) && AllValid(part) && t.Valid() && |was| == buf.Length == CODE_BUF_SIZE
      requires |full| % 8 == 0 && |part| < 8 && flagsLeft == 8 - |part|
      requires flagsAt < at && at + |CodeBytes(t)| == codeEnd < CODE_BUF_SIZE
      requires was[..flagsAt] == Image(full) && was[flagsAt + 1..at] == CodesOf(part)
      requires ToBits(was[flagsAt], 8)[flagsLeft..] == Kinds(part)
      requires buf[..at] == was[..at] && buf[at..codeEnd] == CodeBytes(t)
      ensures Pending(t)
    {
      hide CodeBytes, CodesOf, Image, Kinds, ToBits;
      assert AllValid(part + [t]);
      CodesPush(part, t);
      assert buf[..flagsAt] == buf[..at][..flagsAt] == was[..flagsAt];
      assert buf[flagsAt] == buf[..at][flagsAt] == was[flagsAt];
      assert buf[flagsAt + 1..at] == buf[..at][flagsAt + 1..] == was[..at][flagsAt + 1..] == was[flagsAt + 1..at];
      assert buf[flagsAt + 1..codeEnd] == buf[flagsAt + 1..at] + buf[at..codeEnd];
    }

    /** The flag of a code just stored goes in at the top; after the eighth, the next byte becomes the flag byte. */
    method Flag(isMatch: bool, ghost t: Token)
      requires Apart() && Pending(t) && isMatch == t.Match?
      modifies this`codeEnd, this`flagsAt, this`flagsLeft, this`full, this`part, buf
      ensures Filled() && Tokens() == old(Tokens()) + [t]
      ensures codeEnd == old(codeEnd) + if old(flagsLeft) == 1 then 1 else 0
      ensures flagsLeft == if old(flagsLeft) == 1 then 8 else old(flagsLeft) - 1
    {
      hide Image, CodesOf, Kinds, ToBits, Or, Shr;
      FlagShifts(buf[flagsAt], isMatch);
      KindsPush(part, t);
      ghost var was := buf[..];
      buf[flagsAt] := if isMatch then Or(Shr(buf[flagsAt], 1), 0x80) else Shr(buf[flagsAt], 1);
      assert buf[..flagsAt] == was[..flagsAt];
      assert buf[flagsAt + 1..codeEnd] == was[flagsAt + 1..codeEnd];
      part := part + [t];
      assert Tokens() == old(Tokens()) + [t];
      flagsLeft := flagsLeft - 1;
      if flagsLeft == 0 {
        CloseGroup();
      }
    }

    /** A group of eight is complete. */
    method CloseGroup()
      requires Apart() && AllValid(full) && AllValid(part) && |full| % 8 == 0 && |part| == 8
      requires flagsAt < codeEnd < CODE_BUF_SIZE && buf[..flagsAt] == Image(full)
      requires buf[flagsAt + 1..codeEnd] == CodesOf(part) && ToBits(buf[flagsAt], 8) == Kinds(part)
      modifies this`codeEnd, this`flagsAt, this`flagsLeft, this`full, this`part
      ensures Filled() && Tokens() == old(Tokens()) && codeEnd == old(codeEnd) + 1 && flagsLeft == 8
    {
      hide CodesOf, Kinds, ToBits, Shr;
      FlagWhole(buf[flagsAt], part);
      ImageAppend(full, part);
      assert buf[..codeEnd] == buf[..flagsAt] + [buf[flagsAt]] + buf[flagsAt + 1..codeEnd];
      assert Image(part) == [FlagByte(part)] + CodesOf(part);
      full, part := full + part, [];
      flagsLeft := 8;
      flagsAt := codeEnd;
      codeEnd := codeEnd + 1;
      assert buf[flagsAt + 1..codeEnd] == [];
      NoCodes();
    }

    /** Counting a literal. */
    method CountLiteral(b: byte, ghost ts: seq<Token>)
      requires Apart() && AllValid(ts) && Counted(ts) && |ts| < 0xFFFF
      modifies lit.count
      ensures AllValid(ts + [Literal(b)]) && Counted(ts + [Literal(b)])
    {
      hide LitUses, DistUses, MinRedundancy.Sum, TotalLength;
      Appended(ts, Literal(b));
      Whole(lit);
      Bump(lit, b);
    }

    /** Counting a match, its length and its distance both less their smallest values. */
    method CountMatch(m: nat, d: nat, ghost ts: seq<Token>)
      requires Apart() && AllValid(ts) && Counted(ts) && |ts| < 0xFFFF
      requires m <= MAX_MATCH - MIN_MATCH && d < DICT_SIZE
      modifies lit.count, dist.count
      ensures AllValid(ts + [Match(m + MIN_MATCH, d + 1)]) && Counted(ts + [Match(m + MIN_MATCH, d + 1)])
    {
      hide LitUses, DistUses, MinRedundancy.Sum, TotalLength, DistSym, LenSym;
      ghost var t := Match(m + MIN_MATCH, d + 1);
      Appended(ts, t);
      assert MatchSym(t) == DistSym(d) && LitSym(t) == LenSym(m);
      Whole(lit);
      Whole(dist);
      Bump(dist, DistSym(d));
      Bump(lit, LenSym(m));
    }

    /** tdefl_record_literal. */
    method RecordLiteral(b: byte)
      requires Valid() && codeEnd + 2 <= CODE_BUF_SIZE
      modifies this, buf, lit.count
      ensures Valid() && Tokens() == old(Tokens()) + [Literal(b)]
      ensures codeEnd == old(codeEnd) + 1 + if old(flagsLeft) == 1 then 1 else 0
      ensures flagsLeft == if old(flagsLeft) == 1 then 8 else old(flagsLeft) - 1
    {
      hide Image, CodesOf, Kinds, ToBits, LitUses, DistUses, TotalLength, MinRedundancy.Sum, Pending;
      FewTokens();
      ghost var t, was, ts := Literal(b), buf[..], Tokens();
      Appended(ts, t);
      totalBytes := totalBytes + 1;
      buf[codeEnd] := b;
      codeEnd := codeEnd + 1;
      assert buf[..codeEnd - 1] == was[..codeEnd - 1];
      Stored(was, codeEnd - 1, t);
      Flag(false, t);
      CountLiteral(b, ts);
    }

    /** tdefl_record_match. */
    method RecordMatch(len: nat, dist: nat)
      requires Valid() && codeEnd + 4 <= CODE_BUF_SIZE && Match(len, dist).Valid()
      modifies this, buf, lit.count, this.dist.count
      ensures Valid() && Tokens() == old(Tokens()) + [Match(len, dist)]
      ensures codeEnd == old(codeEnd) + 3 + if old(flagsLeft) == 1 then 1 else 0
      ensures flagsLeft == if old(flagsLeft) == 1 then 8 else old(flagsLeft) - 1
    {
      hide Image, CodesOf, Kinds, ToBits, LitUses, DistUses, TotalLength, MinRedundancy.Sum, Pending;
      FewTokens();
      ghost var t, was, ts := Match(len, dist), buf[..], Tokens();
      Appended(ts, t);
      totalBytes := totalBytes + len;
      var d := dist - 1;
      buf[codeEnd] := len - MIN_MATCH;
      buf[codeEnd + 1] := d % 256;
      buf[codeEnd + 2] := d / 256;
      codeEnd := codeEnd + 3;
      assert buf[..codeEnd - 3] == was[..codeEnd - 3];
      assert buf[codeEnd - 3..codeEnd] == CodeBytes(t);
      Stored(was, codeEnd - 3, t);
      Flag(true, t);
      CountMatch(len - MIN_MATCH, d, ts);
    }

    /**
      The start of tdefl_flush_block: the last flag byte is moved down, or given back when no
      code follows it. What is left is exactly the image of the tokens.
     */
    method Close() returns (end: nat)
      requires Valid()
      modifies this`codeEnd, buf
      ensures end == codeEnd <= CODE_BUF_SIZE && buf[..end] == Image(Tokens())
      ensures Tokens() == old(Tokens()) && AllValid(Tokens()) && Counted(Tokens())
          && totalBytes == TotalLength(Tokens())
    {
      hide CodesOf, Kinds, ToBits, LitUses, DistUses, TotalLength, MinRedundancy.Sum, Shr, FlagByte;
      FlagDone(buf[flagsAt], part);
      ghost var was := buf[..];
      buf[flagsAt] := Shr(buf[flagsAt], flagsLeft);
      assert buf[..flagsAt] == was[..flagsAt] && buf[flagsAt + 1..codeEnd] == was[flagsAt + 1..codeEnd];
      ImageAppend(full, part);
      NoCodes();
      if flagsLeft == 8 {
        assert part == [] && codeEnd == flagsAt + 1 by { PartSize(); }
        codeEnd := codeEnd - 1;
      } else {
        assert buf[..codeEnd] == buf[..flagsAt] + [buf[flagsAt]] + buf[flagsAt + 1..codeEnd];
      }
      end := codeEnd;
    }

    /** Back to an empty buffer for the next block; the flag byte keeps its old contents. */
    method Reset()
      requires Apart()
      modifies this, lit.count, dist.count
      ensures Valid() && Tokens() == [] && codeEnd == 1 && flagsLeft == 8
    {
      for i := 0 to MAX_SYMBOLS
        invariant forall k :: 0 <= k < i ==> lit.count[k] == 0 && dist.count[k] == 0
      {
        lit.count[i] := 0;
        dist.count[i] := 0;
      }
      codeEnd, flagsAt, flagsLeft, totalBytes := 1, 0, 8, 0;
      full, part := [], [];
      NoCodes();
      SumZero(lit.count[..]);
      SumZero(dist.count[..]);
    }

    lemma PartSize()
      requires AllValid(part) && buf.Length == CODE_BUF_SIZE && flagsAt < codeEnd <= CODE_BUF_SIZE
      requires buf[flagsAt + 1..codeEnd] == CodesOf(part)
      ensures part == [] ==> codeEnd == flagsAt + 1
    {
    }
  }

  lemma Whole(t: CodeTable)
    requires t.Valid()
    ensures t.count[..] == t.count[..MAX_SYMBOLS]
  {
  }

  lemma NoCodes()
    ensures CodesOf([]) == [] && Kinds([]) == []
  {
  }

  lemma FlagWhole(f: byte, ts: seq<Token>)
    requires |ts| == 8 && ToBits(f, 8) == Kinds(ts)
    ensures f == FlagByte(ts)
  {
    assert ToBits(f, 8)[0..] == ToBits(f, 8);
    FlagDone(f, ts);
  }

  lemma {:induction false} SumZero(s: seq<nat>)
    requires forall k :: 0 <= k < |s| ==> s[k] == 0
    ensures MinRedundancy.Sum(s) == 0
  {
    if s != [] { SumZero(s[1..]); }
  }

  /** A 16-bit count goes up by one. */
  method Bump(t: CodeTable, s: nat)
    requires t.Valid() && s < MAX_SYMBOLS && MinRedundancy.Sum(t.count[..]) < 0xFFFF
    modifies t.count
    ensures t.count[s] == old(t.count[s]) + 1 && forall k :: 0 <= k < MAX_SYMBOLS && k != s ==>
        t.count[k] == old(t.count[k])
    ensures MinRedundancy.Sum(t.count[..]) == old(MinRedundancy.Sum(t.count[..])) + 1
  {
    ghost var was := t.count[..];
    SumBump(was, s);
    SumCovers(was, s);
    t.count[s] := (t.count[s] + 1) % 0x1_0000;
    assert t.count[..] == was[s := was[s] + 1];
  }
}
