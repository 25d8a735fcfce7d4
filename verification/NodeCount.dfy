/**
  How many tree nodes a set of code lengths can need. Open strings of length d are those no
  code of length at most d starts; the nodes of a complete code are exactly its open strings,
  and there is one fewer of them than there are symbols.
 */
module NodeCount {
  import opened Bits
  import opened Canonical
  import opened InflateTables

  /** The canonical code words of a list of lengths. */
  function WordsOf(lens: seq<nat>): (ws: Words)
    ensures |ws| == |lens|
    ensures forall s: nat :: s < |lens| ==> ws[s] == if lens[s] > 0 then Word(lens, s) else []
  {
    seq(|lens|, i requires 0 <= i < |lens| => if lens[i] > 0 then Word(lens, i) else [])
  }

  lemma WordsPrefixFree(lens: seq<nat>)
    requires Fits(lens)
    ensures InflateTables.PrefixFree(WordsOf(lens))
    ensures forall bits: seq<bool>, s: nat :: InflateTables.Starts(WordsOf(lens), bits, s) <==>
        Canonical.Starts(lens, bits, s)
  {
    var ws := WordsOf(lens);
    forall s: nat, t: nat | InflateTables.Used(ws, s) && InflateTables.Used(ws, t) && ws[s] <= ws[t] ensures s == t {
      Canonical.PrefixFree(lens, s, t);
    }
  }

  /** The number of open strings shorter than m. */
  function Open(lens: seq<nat>, m: nat): int {
    if m == 0 then 0 else Open(lens, m - 1) + Pow2(m - 1) - Taken(lens, m - 1)
  }

  /** Every open string has two children; each child is open or a code. */
  lemma {:induction false} OpenCount(lens: seq<nat>, m: nat)
    ensures Open(lens, m) == Pow2(m) - Taken(lens, m) - 1 + UsedUpTo(lens, m)
  {
    if m != 0 { OpenCount(lens, m - 1); }
  }

  // ---------- counting sets of strings ----------

  /** Strings of one length whose numbers lie in [a, b) are at most b - a. */
  lemma {:induction false} LayerSize(qs: set<seq<bool>>, d: nat, a: nat, b: nat)
    requires a <= b && forall p <- qs :: |p| == d && a <= MsbVal(p) < b
    ensures |qs| <= b - a
    decreases b
  {
    if a < b {
      if p :| p in qs && MsbVal(p) == b - 1 {
        forall q <- qs - {p} ensures MsbVal(q) != b - 1 {
          MsbOfVal(p);
          MsbOfVal(q);
        }
        LayerSize(qs - {p}, d, a, b - 1);
      } else {
        LayerSize(qs, d, a, b - 1);
      }
    } else if p :| p in qs {
      assert false;
    }
  }

  ghost predicate OpenString(lens: seq<nat>, p: seq<bool>) {
    Taken(lens, |p|) <= MsbVal(p)
  }

  /** A set of open strings shorter than m has at most Open(m) members. */
  lemma {:induction false} OpenSize(lens: seq<nat>, qs: set<seq<bool>>, m: nat)
    requires Fits(lens) && m <= MAX_BITS + 1
    requires forall p <- qs :: |p| < m && OpenString(lens, p)
    ensures |qs| <= Open(lens, m)
  {
    hide OpenString, Taken, Pow2, Fits;
    if m == 0 {
      if p :| p in qs { assert false; }
    } else {
      var top, below := ByLength(qs, m - 1);
      TopLayer(lens, top, m - 1);
      OpenSize(lens, below, m - 1);
    }
  }

  /** The longest strings of a set, and the others. */
  lemma ByLength(qs: set<seq<bool>>, d: nat) returns (top: set<seq<bool>>, below: set<seq<bool>>)
    requires forall p <- qs :: |p| <= d
    ensures top <= qs && below <= qs && |qs| == |top| + |below|
    ensures (forall p <- top :: |p| == d) && forall p <- below :: |p| < d
  {
    top := set p | p in qs && |p| == d;
    below := qs - top;
    assert qs == top + below;
  }

  lemma TopLayer(lens: seq<nat>, top: set<seq<bool>>, d: nat)
    requires Fits(lens) && d <= MAX_BITS && forall p <- top :: |p| == d && OpenString(lens, p)
    ensures |top| <= Pow2(d) - Taken(lens, d)
  {
    hide Taken, Pow2, Fits, MsbVal;
    TakenFits(lens, d);
    forall p <- top ensures MsbVal(p) < Pow2(d) { MsbOfVal(p); }
    LayerSize(top, d, Taken(lens, d), Pow2(d));
  }

  // ---------- nodes ----------

  /** A proper prefix of a code word is an open string. */
  lemma InsideOpen(lens: seq<nat>, p: seq<bool>, s: nat)
    requires Fits(lens) && Inside(WordsOf(lens), p, s)
    ensures |p| < MAX_BITS && OpenString(lens, p)
  {
    WordsPrefixFree(lens);
    if MsbVal(p) < Taken(lens, |p|) {
      assert p[..|p|] == p;
      var t := TakenStarts(lens, p, |p|);
      Canonical.PrefixFree(lens, t, s);
      assert false;
    }
  }

  /** The nodes of a complete code number one less than its symbols at most. */
  lemma NodesComplete(lens: seq<nat>, upto: nat, nodes: map<seq<bool>, nat>)
    requires Complete(lens) && NodesOk(WordsOf(lens), upto, nodes)
    ensures |nodes| < |lens|
  {
    forall p <- nodes.Keys ensures |p| < MAX_BITS && OpenString(lens, p) {
      var s: nat :| s < upto && Inside(WordsOf(lens), p, s);
      InsideOpen(lens, p, s);
    }
    OpenSize(lens, nodes.Keys, MAX_BITS);
    OpenCount(lens, MAX_BITS);
    UsedAtMost(lens, MAX_BITS);
  }

  /** The prefixes of one string with lengths in [a, b) are at most b - a. */
  lemma {:induction false} ChainSize(qs: set<seq<bool>>, w: seq<bool>, a: nat, b: nat)
    requires a <= b && forall q <- qs :: q <= w && a <= |q| < b
    ensures |qs| <= b - a
    decreases b
  {
    if q :| q in qs {
      var rest := set p | p in qs && |p| < b - 1;
      if p :| p in qs && |p| == b - 1 {
        forall r | r in qs && |r| == b - 1 ensures r == p {
          assert r == w[..b - 1] == p;
        }
        assert qs == rest + {p};
      } else {
        assert qs == rest;
      }
      ChainSize(rest, w, a, b - 1);
    }
  }

  /** A lone symbol needs at most five nodes. */
  lemma NodesLone(lens: seq<nat>, upto: nat, nodes: map<seq<bool>, nat>)
    requires Lengths(lens) && UsedUpTo(lens, MAX_BITS) <= 1 && NodesOk(WordsOf(lens), upto, nodes)
    ensures |nodes| <= 5
  {
    if p :| p in nodes {
      var s: nat :| s < upto && Inside(WordsOf(lens), p, s);
      var w := WordsOf(lens)[s];
      forall q <- nodes.Keys ensures q <= w && FAST_BITS <= |q| < |w| {
        var t: nat :| t < upto && Inside(WordsOf(lens), q, t);
        LoneUsed(lens, MAX_BITS, s, t);
      }
      ChainSize(nodes.Keys, w, FAST_BITS, |w|);
    }
  }

  lemma {:induction false} LoneUsed(lens: seq<nat>, m: nat, s: nat, t: nat)
    requires s < |lens| && t < |lens| && 0 < lens[s] <= m && 0 < lens[t] <= m && UsedUpTo(lens, m) <= 1
    ensures s == t
    decreases |lens|
  {
    var n := |lens| - 1;
    UsedUpToStep(lens, m);
    if s < n && t < n {
      LoneUsed(lens[..n], m, s, t);
    } else if s < n {
      SomeUsed(lens[..n], m, s);
    } else if t < n {
      SomeUsed(lens[..n], m, t);
    }
  }

  lemma {:induction false} SomeUsed(lens: seq<nat>, m: nat, s: nat)
    requires s < |lens| && 0 < lens[s] <= m
    ensures UsedUpTo(lens, m) >= 1
    decreases |lens|
  {
    UsedUpToStep(lens, m);
    if s < |lens| - 1 { SomeUsed(lens[..|lens| - 1], m, s); }
  }
}
