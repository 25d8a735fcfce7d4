/**
  Bodies of blocks, measured against the decoder of the standard: it reads from the bits of any
  tokens the data they stand for, and whatever it reads are the bits of tokens.
 */
module StandardBodies {
  import opened Bits
  import opened Canonical
  import opened Tokens
  import opened CodeBuffer
  import opened DynamicHeader
  import opened TokenWriter
  import opened Lz77
  import opened StandardCodes
  import PlainStreams
  import Std = Standard

  /** The copy of the standard is that of the inflater. */
  lemma CopyAgrees(s: seq<byte>, len: nat, dist: nat)
    requires 1 <= dist <= |s|
    ensures Std.Copy(s, len, dist) == CopyBack(s, len, dist)
  {
    var r := Std.Copy(s, len, dist);
    forall k | |s| <= k < |r| ensures r[k] == r[k - dist] {
      var i := k - |s|;
      if i >= dist { SameRemainder(i, dist); } else { SmallRemainder(i, dist); }
    }
    CopyBackOnly(s, len, dist, r);
  }

  lemma SameRemainder(i: nat, d: nat)
    requires 1 <= d <= i
    ensures (i - d) % d == i % d
  {
    var q, r := i / d, i % d;
    assert i == d * q + r;
    Once(d, q - 1);
    Quotient(i - d, d, q - 1, r);
    assert i - d == d * ((i - d) / d) + (i - d) % d;
  }

  lemma SmallRemainder(i: nat, d: nat)
    requires i < d
    ensures i % d == i
  {
  }

  /** The first token, and the others behind it. */
  lemma FirstOf(s: seq<byte>, ts: seq<Token>)
    requires ts != [] && Feasible(s, ts)
    ensures Reaches(s, ts[0]) && Feasible(Apply(s, ts[0]), ts[1..])
    ensures Expand(s, ts) == Expand(Apply(s, ts[0]), ts[1..])
  {
    FeasiblePrefix(s, ts, 1);
    FeasiblePrefix(s, ts, 0);
    assert ts[..0] == [] && ts[..1] == [ts[0]];
    OneToken(s, ts[0]);
    FeasibleTail(s, ts);
    ExpandAppend(s, [ts[0]], ts[1..]);
    assert [ts[0]] + ts[1..] == ts;
  }

  lemma OneToken(s: seq<byte>, t: Token)
    requires Reaches(s, t)
    ensures Feasible(s, [t]) && Expand(s, [t]) == Apply(s, t)
  {
    assert [t][..0] == [];
    assert Feasible(s, []) && Expand(s, []) == s;
  }

  lemma {:induction false} FeasibleTail(s: seq<byte>, ts: seq<Token>)
    requires ts != [] && Feasible(s, ts)
    ensures Reaches(s, ts[0]) && Feasible(Apply(s, ts[0]), ts[1..])
    decreases |ts|
  {
    var n := |ts| - 1;
    if n == 0 {
      assert ts[..0] == [] && ts[1..] == [];
    } else {
      FeasibleTail(s, ts[..n]);
      assert ts[..n][1..] == ts[1..][..n - 1];
      OneToken(s, ts[0]);
      ExpandAppend(s, [ts[0]], ts[..n][1..]);
      assert [ts[0]] + ts[..n][1..] == ts[..n];
    }
  }

  /** More in front. */
  lemma FrontToken(s: seq<byte>, t: Token, ts: seq<Token>)
    requires Reaches(s, t) && Feasible(Apply(s, t), ts)
    ensures Feasible(s, [t] + ts) && Expand(s, [t] + ts) == Expand(Apply(s, t), ts)
  {
    OneToken(s, t);
    ExpandAppend(s, [t], ts);
  }

  // ---------- what is written is read ----------

  lemma LiteralBits(lit: seq<nat>, dist: seq<nat>, ts: seq<Token>, more: seq<bool>)
    requires AllValid(ts) && ts != [] && ts[0].Literal?
    ensures AllValid(ts[1..])
    ensures BodyBits(lit, dist, ts) + more == SymBits(lit, ts[0].lit) + (BodyBits(lit, dist, ts[1..]) + more)
  {
    hide SymBits;
    assert forall t <- ts[1..] :: t in ts;
    var a, b, c := SymBits(lit, ts[0].lit), TokensBits(lit, dist, ts[1..]), SymBits(lit, 256);
    JoinAssoc(a, b, c);
    JoinAssoc(a, b + c, more);
  }

  lemma MatchBits(lit: seq<nat>, dist: seq<nat>, ts: seq<Token>, more: seq<bool>)
    requires AllValid(ts) && ts != [] && ts[0].Match?
    ensures AllValid(ts[1..]) && ts[0].Valid()
    ensures var m, d := ts[0].len - 3, ts[0].dist - 1;
            BodyBits(lit, dist, ts) + more
            == SymBits(lit, LenSym(m)) + (ToBits(Low(m, LenExtra(m)), LenExtra(m))
                + (SymBits(dist, DistSym(d)) + (ToBits(Low(d, DistExtra(d)), DistExtra(d))
                    + (BodyBits(lit, dist, ts[1..]) + more))))
  {
    hide SymBits, ToBits, Low, LenSym, LenExtra, DistSym, DistExtra;
    assert ts[0] in ts && forall t <- ts[1..] :: t in ts;
    var m, d := ts[0].len - 3, ts[0].dist - 1;
    var a, b, c := SymBits(lit, LenSym(m)), ToBits(Low(m, LenExtra(m)), LenExtra(m)), SymBits(dist, DistSym(d));
    var e, f, g := ToBits(Low(d, DistExtra(d)), DistExtra(d)), TokensBits(lit, dist, ts[1..]), SymBits(lit, 256);
    JoinAssoc(a + b + c + e, f, g);
    JoinAssoc(a + b + c + e, f + g, more);
    JoinAssoc(a + b + c, e, (f + g) + more);
    JoinAssoc(a + b, c, e + ((f + g) + more));
    JoinAssoc(a, b, c + (e + ((f + g) + more)));
  }

  /** The fields of a match are read, and the match is copied. */
  lemma MatchReads(lit: seq<nat>, dist: seq<nat>, len: nat, dst: nat, s: seq<byte>, more: seq<bool>)
    requires Match(len, dst).Valid() && dst <= |s| && Fits(dist) && Used(dist, DistSym(dst - 1))
    ensures var m, d := len - 3, dst - 1;
            257 <= LenSym(m) <= 285
            && Std.Match(lit, dist, LenSym(m), ToBits(Low(m, LenExtra(m)), LenExtra(m))
                   + (SymBits(dist, DistSym(d)) + (ToBits(Low(d, DistExtra(d)), DistExtra(d)) + more)), s)
               == Std.Body(lit, dist, more, CopyBack(s, len, dst))
  {
    hide SymBits, ToBits, Low, LenSym, LenExtra, DistSym, DistExtra, CopyBack, Std.Copy, Std.Body, Std.Decode,
         Std.Field, Std.LeastLength, Std.LeastDistance, Std.LengthBits, Std.DistanceBits, Pow2, Fits;
    var m, d := len - 3, dst - 1;
    LengthMeans(m);
    DistanceMeans(d);
    LowBound(m, LenExtra(m));
    LowBound(d, DistExtra(d));
    var r3 := ToBits(Low(d, DistExtra(d)), DistExtra(d)) + more;
    FieldReads(Low(m, LenExtra(m)), LenExtra(m), SymBits(dist, DistSym(d)) + r3);
    DecodeReads(dist, DistSym(d), r3);
    FieldReads(Low(d, DistExtra(d)), DistExtra(d), more);
    CopyAgrees(s, len, dst);
  }

  /** The standard reads from the bits of tokens what they stand for. */
  lemma {:induction false} BodyReads(lit: seq<nat>, dist: seq<nat>, ts: seq<Token>, s: seq<byte>, more: seq<bool>)
    requires AllValid(ts) && Covers(lit, dist, ts) && Feasible(s, ts) && Fits(lit) && Fits(dist)
    ensures Std.Body(lit, dist, BodyBits(lit, dist, ts) + more, s) == Std.Read(Expand(s, ts), more)
    decreases |ts|
  {
    hide SymBits, TokensBits, Std.Decode, Std.Match, Fits, Used, LitSym, MatchSym;
    if ts == [] {
      NoTokens(lit, dist, s);
      DecodeReads(lit, 256, more);
    } else {
      var t, us := ts[0], ts[1..];
      FirstOf(s, ts);
      CoversRest(lit, dist, ts);
      var tail := BodyBits(lit, dist, us) + more;
      BodyReads(lit, dist, us, Apply(s, t), more);
      match t
      case Literal(b) =>
        LiteralBits(lit, dist, ts, more);
        DecodeReads(lit, b, tail);
      case Match(len, dst) =>
        MatchBits(lit, dist, ts, more);
        MatchReads(lit, dist, len, dst, s, tail);
        var m, d := len - 3, dst - 1;
        DecodeReads(lit, LenSym(m), ToBits(Low(m, LenExtra(m)), LenExtra(m))
            + (SymBits(dist, DistSym(d)) + (ToBits(Low(d, DistExtra(d)), DistExtra(d)) + tail)));
    }
  }

  lemma NoTokens(lit: seq<nat>, dist: seq<nat>, s: seq<byte>)
    ensures BodyBits(lit, dist, []) == SymBits(lit, 256) && Feasible(s, []) && Expand(s, []) == s
  {
    hide SymBits;
    JoinNothing(SymBits(lit, 256));
  }

  lemma CoversRest(lit: seq<nat>, dist: seq<nat>, ts: seq<Token>)
    requires AllValid(ts) && Covers(lit, dist, ts) && ts != []
    ensures AllValid(ts[1..]) && Covers(lit, dist, ts[1..]) && ts[0].Valid()
    ensures ts[0].Literal? ==> Used(lit, ts[0].lit)
    ensures ts[0].Match? ==> Used(lit, LenSym(ts[0].len - 3)) && Used(dist, DistSym(ts[0].dist - 1))
  {
    hide Used, LenSym, DistSym;
    assert ts[0] in ts && forall t <- ts[1..] :: t in ts;
    assert Covered(lit, dist, ts[0]);
    forall i | 0 <= i < |ts[1..]| ensures Covered(lit, dist, ts[1..][i]) {
      assert ts[1..][i] == ts[i + 1];
    }
  }

  // ---------- what is read was written ----------

  /** Length and distance fields that are read are those of a match. */
  lemma FieldsMean(sym: nat, more: nat, dsym: nat, further: nat)
    requires 257 <= sym <= 285 && more < Pow2(Std.LengthBits(sym)) && !(sym == 284 && more == 31)
    requires dsym <= 29 && further < Pow2(Std.DistanceBits(dsym))
    ensures var t := Match(Std.LeastLength(sym) + more, Std.LeastDistance(dsym) + further);
            && t.Valid()
            && LenSym(t.len - 3) == sym && DistSym(t.dist - 1) == dsym
            && LenExtra(t.len - 3) == Std.LengthBits(sym) && Low(t.len - 3, LenExtra(t.len - 3)) == more
            && DistExtra(t.dist - 1) == Std.DistanceBits(dsym) && Low(t.dist - 1, DistExtra(t.dist - 1)) == further
  {
    hide LenSym, LenExtra, DistSym, DistExtra, Low, LengthBase, LengthExtra, DistBase, DistanceExtra, Pow2;
    LengthsAgree(sym);
    DistancesAgree(dsym);
    PlainStreams.SymbolOfLength(sym, more);
    PlainStreams.SymbolOfDistance(dsym, further);
  }

  /** Whatever the standard reads as a body are the bits of tokens, and its data is what they stand for. */
  lemma {:induction false} BodyIs(lit: seq<nat>, dist: seq<nat>, bits: seq<bool>, s: seq<byte>)
    returns (ts: seq<Token>)
    requires Std.Body(lit, dist, bits, s).Read?
    ensures AllValid(ts) && Covers(lit, dist, ts) && Feasible(s, ts)
    ensures var r := Std.Body(lit, dist, bits, s);
            Expand(s, ts) == r.value && bits == BodyBits(lit, dist, ts) + r.rest
    decreases |bits|
  {
    hide SymBits, TokensBits, Std.Decode, Std.Match, Used, LitSym, MatchSym;
    DecodeIs(lit, bits);
    var sym, r0 := Std.Decode(lit, bits).value, Std.Decode(lit, bits).rest;
    if sym < 256 {
      ts := BodyIs(lit, dist, r0, s + [sym]);
      PutLiteral(lit, dist, sym, ts, s, r0, Std.Body(lit, dist, r0, s + [sym]).rest);
      ts := [Literal(sym)] + ts;
    } else if sym == 256 {
      ts := [];
      NoTokens(lit, dist, s);
    } else {
      ts := MatchIs(lit, dist, sym, r0, s);
      assert bits == SymBits(lit, sym) + r0;
    }
  }

  /** The same for what begins behind the symbol of a match. */
  lemma {:induction false} MatchIs(lit: seq<nat>, dist: seq<nat>, sym: nat, bits: seq<bool>, s: seq<byte>)
    returns (ts: seq<Token>)
    requires 257 <= sym <= 285 && Std.Match(lit, dist, sym, bits, s).Read? && Used(lit, sym)
    ensures AllValid(ts) && Covers(lit, dist, ts) && Feasible(s, ts)
    ensures var r := Std.Match(lit, dist, sym, bits, s);
            Expand(s, ts) == r.value && SymBits(lit, sym) + bits == BodyBits(lit, dist, ts) + r.rest
    decreases |bits|
  {
    hide SymBits, TokensBits, Std.Decode, Std.Field, Std.Copy, CopyBack, Used, LitSym, MatchSym, Pow2, ToBits, Low,
         LenSym, DistSym, LenExtra, DistExtra, Std.LeastLength, Std.LeastDistance, Std.LengthBits, Std.DistanceBits,
         Token.Valid, Covers, AllValid;
    FieldIs(bits, Std.LengthBits(sym));
    var more, r1 := Std.Field(bits, Std.LengthBits(sym)).value, Std.Field(bits, Std.LengthBits(sym)).rest;
    DecodeIs(dist, r1);
    var dsym, r2 := Std.Decode(dist, r1).value, Std.Decode(dist, r1).rest;
    FieldIs(r2, Std.DistanceBits(dsym));
    var further, r3 := Std.Field(r2, Std.DistanceBits(dsym)).value, Std.Field(r2, Std.DistanceBits(dsym)).rest;
    FieldsMean(sym, more, dsym, further);
    var t := Match(Std.LeastLength(sym) + more, Std.LeastDistance(dsym) + further);
    CopyAgrees(s, t.len, t.dist);
    var us := BodyIs(lit, dist, r3, CopyBack(s, t.len, t.dist));
    PutMatch(lit, dist, t, us, s, r3, Std.Body(lit, dist, r3, CopyBack(s, t.len, t.dist)).rest);
    ts := [t] + us;
  }

  lemma PutLiteral(lit: seq<nat>, dist: seq<nat>, b: byte, us: seq<Token>, s: seq<byte>, bits: seq<bool>,
                   rest: seq<bool>)
    requires AllValid(us) && Covers(lit, dist, us) && Feasible(s + [b], us) && Used(lit, b)
    requires bits == BodyBits(lit, dist, us) + rest
    ensures var ts := [Literal(b)] + us;
            && AllValid(ts) && Covers(lit, dist, ts) && Feasible(s, ts) && Expand(s, ts) == Expand(s + [b], us)
            && SymBits(lit, b) + bits == BodyBits(lit, dist, ts) + rest
  {
    hide SymBits, TokensBits, Used;
    var ts := [Literal(b)] + us;
    FrontToken(s, Literal(b), us);
    Prepended(lit, dist, Literal(b), us);
    assert ts[1..] == us;
    LiteralBits(lit, dist, ts, rest);
  }

  lemma PutMatch(lit: seq<nat>, dist: seq<nat>, t: Token, us: seq<Token>, s: seq<byte>, bits: seq<bool>,
                 rest: seq<bool>)
    requires t.Match? && t.Valid() && t.dist <= |s| && Used(lit, LenSym(t.len - 3)) && Used(dist, DistSym(t.dist - 1))
    requires AllValid(us) && Covers(lit, dist, us) && Feasible(CopyBack(s, t.len, t.dist), us)
    requires bits == BodyBits(lit, dist, us) + rest
    ensures var ts, m, d := [t] + us, t.len - 3, t.dist - 1;
            && AllValid(ts) && Covers(lit, dist, ts) && Feasible(s, ts)
            && Expand(s, ts) == Expand(CopyBack(s, t.len, t.dist), us)
            && SymBits(lit, LenSym(m)) + (ToBits(Low(m, LenExtra(m)), LenExtra(m))
                + (SymBits(dist, DistSym(d)) + (ToBits(Low(d, DistExtra(d)), DistExtra(d)) + bits)))
               == BodyBits(lit, dist, ts) + rest
  {
    hide SymBits, BodyBits, Covers, Expand, Feasible, Used, LenSym, DistSym, LenExtra, DistExtra, Low, ToBits, CopyBack;
    var ts := [t] + us;
    MatchCovered(lit, dist, t);
    FrontToken(s, t, us);
    Prepended(lit, dist, t, us);
    assert ts[0] == t && ts[1..] == us;
    MatchBits(lit, dist, ts, rest);
  }

  lemma MatchCovered(lit: seq<nat>, dist: seq<nat>, t: Token)
    requires t.Match? && t.Valid() && Used(lit, LenSym(t.len - 3)) && Used(dist, DistSym(t.dist - 1))
    ensures Covered(lit, dist, t)
  {
  }

  lemma Prepended(lit: seq<nat>, dist: seq<nat>, t: Token, us: seq<Token>)
    requires t.Valid() && AllValid(us) && Covers(lit, dist, us) && Covered(lit, dist, t)
    ensures AllValid([t] + us) && Covers(lit, dist, [t] + us)
  {
    hide Covered;
    var ts := [t] + us;
    forall i | 0 <= i < |ts| ensures Covered(lit, dist, ts[i]) {
      assert ts[i] == if i == 0 then t else us[i - 1];
    }
  }
}
