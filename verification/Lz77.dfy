/** What a list of LZ77 tokens stands for (section 3.2.5 of RFC 1951). */
module Lz77 {
  import opened Bits
  import opened Tokens

  /** Append n bytes, each the byte dist places back; they may be among those just appended. */
  function CopyBack(s: seq<byte>, n: nat, dist: nat): (r: seq<byte>)
    requires 1 <= dist <= |s|
    ensures |r| == |s| + n && s <= r
    decreases n
  {
    if n == 0 then s else CopyBack(s + [s[|s| - dist]], n - 1, dist)
  }

  ghost predicate Reaches(s: seq<byte>, t: Token) {
    t.Valid() && (t.Match? ==> t.dist <= |s|)
  }

  function Apply(s: seq<byte>, t: Token): (r: seq<byte>)
    requires Reaches(s, t)
    ensures s <= r
  {
    match t
    case Literal(b) => s + [b]
    case Match(len, dist) => CopyBack(s, len, dist)
  }

  /** No match reaches back before the start of the data. */
  ghost predicate Feasible(s: seq<byte>, ts: seq<Token>)
    decreases |ts|, 0
  {
    ts == [] || (Feasible(s, ts[..|ts| - 1]) && Reaches(Expand(s, ts[..|ts| - 1]), ts[|ts| - 1]))
  }

  /** The data after s has been extended by the tokens in order. */
  ghost function Expand(s: seq<byte>, ts: seq<Token>): (r: seq<byte>)
    requires Feasible(s, ts)
    ensures s <= r
    decreases |ts|, 1
  {
    if ts == [] then s else Apply(Expand(s, ts[..|ts| - 1]), ts[|ts| - 1])
  }

  lemma {:induction false} CopyBackLast(s: seq<byte>, n: nat, dist: nat)
    requires 1 <= dist <= |s| && n > 0
    ensures var r := CopyBack(s, n - 1, dist); CopyBack(s, n, dist) == r + [r[|r| - dist]]
    decreases n
  {
    if n > 1 {
      CopyBackLast(s + [s[|s| - dist]], n - 1, dist);
    }
  }

  /** Every copied byte equals the one dist places before it. */
  lemma {:induction false} CopyBackAt(s: seq<byte>, n: nat, dist: nat, k: nat)
    requires 1 <= dist <= |s| && |s| <= k < |s| + n
    ensures CopyBack(s, n, dist)[k] == CopyBack(s, n, dist)[k - dist]
    decreases n
  {
    CopyBackLast(s, n, dist);
    if k < |s| + n - 1 { CopyBackAt(s, n - 1, dist, k); }
  }

  /** And that describes the copy completely. */
  lemma {:induction false} CopyBackOnly(s: seq<byte>, n: nat, dist: nat, r: seq<byte>)
    requires 1 <= dist <= |s| && |r| == |s| + n && s <= r
    requires forall k :: |s| <= k < |r| ==> r[k] == r[k - dist]
    ensures r == CopyBack(s, n, dist)
    decreases n
  {
    if n > 0 {
      CopyBackOnly(s + [s[|s| - dist]], n - 1, dist, r);
    }
  }

  /** One more token. */
  lemma ExpandPush(s: seq<byte>, ts: seq<Token>, t: Token)
    requires Feasible(s, ts) && Reaches(Expand(s, ts), t)
    ensures Feasible(s, ts + [t]) && Expand(s, ts + [t]) == Apply(Expand(s, ts), t)
  {
    assert (ts + [t])[..|ts|] == ts;
  }

  lemma {:induction false} ExpandAppend(s: seq<byte>, ts: seq<Token>, us: seq<Token>)
    requires Feasible(s, ts) && Feasible(Expand(s, ts), us)
    ensures Feasible(s, ts + us) && Expand(s, ts + us) == Expand(Expand(s, ts), us)
    decreases |us|
  {
    if us == [] {
      assert ts + us == ts;
    } else {
      var n := |us| - 1;
      ExpandAppend(s, ts, us[..n]);
      ExpandPush(s, ts + us[..n], us[n]);
      assert ts + us == (ts + us[..n]) + [us[n]];
    }
  }

  /** A prefix of a list that can be expanded can be expanded. */
  lemma {:induction false} FeasiblePrefix(s: seq<byte>, ts: seq<Token>, k: nat)
    requires Feasible(s, ts) && k <= |ts|
    ensures Feasible(s, ts[..k]) && Expand(s, ts[..k]) <= Expand(s, ts)
    ensures k < |ts| ==> Reaches(Expand(s, ts[..k]), ts[k])
    ensures k < |ts| ==> Feasible(s, ts[..k + 1]) && Expand(s, ts[..k + 1]) == Apply(Expand(s, ts[..k]), ts[k])
    decreases |ts|
  {
    var n := |ts| - 1;
    if k == |ts| {
      assert ts[..k] == ts;
    } else if k == n {
      assert ts[..k + 1] == ts;
    } else {
      FeasiblePrefix(s, ts[..n], k);
      assert ts[..n][..k] == ts[..k] && ts[..n][..k + 1] == ts[..k + 1];
    }
  }

  lemma {:induction false} CopyBackBehind(g: seq<byte>, s: seq<byte>, n: nat, dist: nat)
    requires 1 <= dist <= |s|
    ensures CopyBack(g + s, n, dist) == g + CopyBack(s, n, dist)
    decreases n
  {
    if n > 0 {
      assert (g + s) + [(g + s)[|g + s| - dist]] == g + (s + [s[|s| - dist]]);
      CopyBackBehind(g, s + [s[|s| - dist]], n - 1, dist);
    }
  }

  /** What lies further back than the tokens reach does not matter. */
  lemma {:induction false} ExpandBehind(g: seq<byte>, s: seq<byte>, ts: seq<Token>)
    requires Feasible(s, ts)
    ensures Feasible(g + s, ts) && Expand(g + s, ts) == g + Expand(s, ts)
    decreases |ts|
  {
    if ts != [] {
      var n := |ts| - 1;
      ExpandBehind(g, s, ts[..n]);
      var e := Expand(s, ts[..n]);
      match ts[n]
      case Literal(b) => assert (g + e) + [b] == g + (e + [b]);
      case Match(len, dist) => CopyBackBehind(g, e, len, dist);
    }
  }
}
