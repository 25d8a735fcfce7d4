/**
  Decoding one symbol: TINFL_HUFF_DECODE, with TINFL_HUFF_BITBUF_FILL for the end of the
  input. The contracts speak only of code words and of the bits not yet consumed.
 */
module HuffDecode {
  import opened Bits
  import opened BitIO
  import C = Canonical
  import opened InflateTables
  import opened NodeCount
  import opened HuffTable

  /** Some code word properly extends w. */
  ghost predicate Undecided(words: Words, w: seq<bool>) {
    exists s: nat :: Inside(words, w, s)
  }

  ghost predicate Short(words: Words) {
    |words| <= 288 && forall s: nat :: Used(words, s) ==> |words[s]| <= 15
  }

  // ---------- what a cell tells ----------

  /** A look-up entry: negative leads to a node, positive is a symbol, zero is no code at all. */
  lemma LookEntry(words: Words, nodes: map<seq<bool>, nat>, p: seq<bool>, v: int)
    requires PrefixFree(words) && Short(words) && NodesOk(words, |words|, nodes)
    requires |p| == FAST_BITS && LookCell(words, |words|, nodes, p, v)
    ensures v < 0 ==> p in nodes && v == Ref(nodes[p]) && Undecided(words, p)
    ensures v > 0 ==> v % 512 < |words| && Starts(words, p, v % 512) && v / 512 == |words[v % 512]|
    ensures v >= 0 ==> forall s: nat :: Starts(words, p, s) ==> v == Pack(words, s)
    ensures v >= 0 ==> p !in nodes
  {
    if p in nodes {
      assert exists s: nat :: s < |words| && Inside(words, p, s);
    } else if s: nat :| s < |words| && Starts(words, p, s) {
      assert v == Pack(words, s);
    }
  }

  lemma TreeEntry(words: Words, nodes: map<seq<bool>, nat>, p: seq<bool>, v: int)
    requires NodesOk(words, |words|, nodes) && TreeCell(words, |words|, nodes, p, v)
    ensures v < 0 ==> p in nodes && v == Ref(nodes[p])
    ensures v >= 0 ==> p !in nodes && forall s: nat :: Used(words, s) && words[s] == p ==> v == s
    ensures v == 0 || v < |words|
    ensures v > 0 ==> Used(words, v) && words[v] == p
  {
    if p !in nodes {
      if s: nat :| s < |words| && Used(words, s) && words[s] == p {
        assert v == s;
      }
    }
  }

  lemma NodeInside(words: Words, nodes: map<seq<bool>, nat>, p: seq<bool>)
    requires NodesOk(words, |words|, nodes) && p in nodes && Short(words)
    ensures Undecided(words, p) && FAST_BITS <= |p| < 15
  {
    var s: nat :| s < |words| && Inside(words, p, s);
  }

  /** Shorter prefixes of an undecided string are undecided. */
  lemma UndecidedPrefix(words: Words, w: seq<bool>, x: seq<bool>)
    requires x <= w && (Undecided(words, w) || exists s: nat :: Starts(words, w, s) && |x| < |words[s]|)
    ensures Undecided(words, x)
  {
    if Undecided(words, w) {
      var s: nat :| Inside(words, w, s);
      assert Inside(words, x, s);
    } else {
      var s: nat :| Starts(words, w, s) && |x| < |words[s]|;
      assert Inside(words, x, s);
    }
  }

  lemma BitsPrefix(v: nat, m: nat, n: nat)
    requires m <= n
    ensures ToBits(v, m) <= ToBits(v, n)
  {
    ToBitsSplit(v, m, n - m);
  }

  lemma NextPath(v: nat, d: nat)
    ensures ToBits(v, d + 1) == ToBits(v, d) + [Shr(v, d) % 2 == 1]
  {
    BitsPrefix(v, d, d + 1);
    BitAt(v, d + 1, d);
  }

  /** Bit n of the number is the slot chosen below a node reached after n bits. */
  function TreeIndex(temp: int, v: nat, n: nat): int {
    -temp - 1 + Shr(v, n) % 2
  }

  lemma WordDecided(words: Words, s: nat)
    requires PrefixFree(words) && Used(words, s)
    ensures !Undecided(words, words[s])
  {
  }

  lemma CellOf(words: Words, nodes: map<seq<bool>, nat>, tree: seq<int>, p: seq<bool>, b: bool)
    requires NodesOk(words, |words|, nodes) && TreeOk(words, |words|, nodes, tree) && p in nodes
    ensures Slot(nodes[p], b) < |tree| && TreeCell(words, |words|, nodes, p + [b], tree[Slot(nodes[p], b)])
  {
  }

  // ---------- walking the tree ----------

  /** The walk is at depth d below the path of v: either at a node, or at the cell that ends it. */
  ghost predicate Reached(words: Words, nodes: map<seq<bool>, nat>, v: nat, d: nat, temp: int) {
    && FAST_BITS <= d <= 15
    && (forall n: nat :: n < d ==> Undecided(words, ToBits(v, n)))
    && (if temp < 0 then ToBits(v, d) in nodes && temp == Ref(nodes[ToBits(v, d)])
        else ToBits(v, d) !in nodes && (temp == 0 || temp < |words|))
    && (temp >= 0 ==> forall s: nat :: Used(words, s) && words[s] == ToBits(v, d) ==> temp == s)
    && (temp > 0 ==> Used(words, temp) && words[temp] == ToBits(v, d))
  }

  lemma WalkStep(words: Words, nodes: map<seq<bool>, nat>, tree: seq<int>, v: nat, d: nat, temp: int)
    requires NodesOk(words, |words|, nodes) && TreeOk(words, |words|, nodes, tree) && Short(words)
    requires Reached(words, nodes, v, d, temp) && temp < 0
    ensures 0 <= TreeIndex(temp, v, d) < |tree| && d < 15
    ensures Reached(words, nodes, v, d + 1, tree[TreeIndex(temp, v, d)])
  {
    hide NodesOk, TreeOk, Short;
    var p, b := ToBits(v, d), Shr(v, d) % 2 == 1;
    NextPath(v, d);
    NodeInside(words, nodes, p);
    CellOf(words, nodes, tree, p, b);
    assert TreeIndex(temp, v, d) == Slot(nodes[p], b);
    TreeEntry(words, nodes, p + [b], tree[Slot(nodes[p], b)]);
  }

  lemma WalkStart(words: Words, nodes: map<seq<bool>, nat>, v: nat, temp: int)
    requires NodesOk(words, |words|, nodes) && Short(words) && temp < 0
    requires ToBits(v, FAST_BITS) in nodes && temp == Ref(nodes[ToBits(v, FAST_BITS)])
    ensures Reached(words, nodes, v, FAST_BITS, temp)
  {
    NodeInside(words, nodes, ToBits(v, FAST_BITS));
    forall n: nat | n < FAST_BITS ensures Undecided(words, ToBits(v, n)) {
      BitsPrefix(v, n, FAST_BITS);
      UndecidedPrefix(words, ToBits(v, FAST_BITS), ToBits(v, n));
    }
  }

  /** A walk that has ended names the code word it followed, if there is one. */
  lemma WalkEnd(words: Words, nodes: map<seq<bool>, nat>, v: nat, d: nat, temp: int, s: nat, m: nat)
    requires PrefixFree(words) && NodesOk(words, |words|, nodes) && PathsIn(words, |words|, nodes)
    requires Reached(words, nodes, v, d, temp) && temp >= 0
    requires Starts(words, ToBits(v, m), s) && d <= m
    ensures temp == s && d == |words[s]|
  {
    BitsPrefix(v, d, m);
    BitsPrefix(v, |words[s]|, m);
    assert words[s] == ToBits(v, |words[s]|);
    WordDecided(words, s);
    assert |words[s]| > d ==> Inside(words, ToBits(v, d), s);
  }

  lemma LowIndex(v: nat)
    ensures Low(v, FAST_BITS) == Index(ToBits(v, FAST_BITS)) && Low(v, FAST_BITS) < FAST_SIZE
  {
    ValOfToBits(v, FAST_BITS);
    LowBound(v, FAST_BITS);
    Pow2Values();
  }

  /** The look-up entry that the low bits of v select. */
  lemma Root(words: Words, nodes: map<seq<bool>, nat>, look: seq<int>, v: nat)
    requires PrefixFree(words) && Short(words) && NodesOk(words, |words|, nodes) && LookOk(words, |words|, nodes, look)
    ensures Low(v, FAST_BITS) < |look|
    ensures var temp := look[Low(v, FAST_BITS)];
            && (temp < 0 ==> Reached(words, nodes, v, FAST_BITS, temp))
            && (temp >= 0 ==> Settled(words, nodes, ToBits(v, FAST_BITS), temp))
  {
    LowIndex(v);
    var p := ToBits(v, FAST_BITS);
    var temp := look[Low(v, FAST_BITS)];
    assert LookCell(words, |words|, nodes, p, look[Index(p)]);
    LookEntry(words, nodes, p, temp);
    if temp < 0 { WalkStart(words, nodes, v, temp); }
  }

  /** No code word starts the bit string. */
  ghost predicate NoCode(words: Words, bits: seq<bool>) {
    forall s: nat :: !Starts(words, bits, s)
  }

  lemma PackParts(words: Words, s: nat)
    requires Short(words) && Used(words, s)
    ensures Pack(words, s) % 512 == s && Pack(words, s) / 512 == |words[s]|
  {
  }

  /** The look-up entry v for the path p is no node but a symbol or nothing. */
  ghost predicate Settled(words: Words, nodes: map<seq<bool>, nat>, p: seq<bool>, v: int) {
    && v >= 0 && p !in nodes
    && (v > 0 ==> v % 512 < |words| && Starts(words, p, v % 512) && v / 512 == |words[v % 512]|)
    && (forall s: nat :: Starts(words, p, s) ==> v == Pack(words, s))
  }

  lemma RootEnd(words: Words, nodes: map<seq<bool>, nat>, v: nat, temp: int)
    requires Short(words) && Settled(words, nodes, ToBits(v, FAST_BITS), temp)
    ensures temp / 512 <= FAST_BITS
    ensures forall n: nat :: n < temp / 512 ==> Undecided(words, ToBits(v, n))
  {
    forall n: nat | n < temp / 512 ensures Undecided(words, ToBits(v, n)) {
      BitsPrefix(v, n, FAST_BITS);
      UndecidedPrefix(words, ToBits(v, FAST_BITS), ToBits(v, n));
    }
  }

  /** It names the symbol whose code word starts a string of any length that v continues. */
  lemma RootNames(words: Words, nodes: map<seq<bool>, nat>, v: nat, temp: int, m: nat, s: nat)
    requires PathsIn(words, |words|, nodes) && Short(words) && Settled(words, nodes, ToBits(v, FAST_BITS), temp)
    requires Starts(words, ToBits(v, m), s)
    ensures temp % 512 == s && temp / 512 == |words[s]|
  {
    if m <= FAST_BITS {
      BitsPrefix(v, m, FAST_BITS);
    } else {
      BitsPrefix(v, FAST_BITS, m);
      assert |words[s]| > FAST_BITS ==> Inside(words, ToBits(v, FAST_BITS), s);
    }
    assert Starts(words, ToBits(v, FAST_BITS), s);
    PackParts(words, s);
  }

  ghost predicate Usable(t: Table, words: Words)
    reads t, t.lookUp, t.tree
  {
    t.Ready(words) && Short(words)
  }

  /**
    Decode the symbol at the low end of the bit buffer: the look-up, then the tree. The length
    never exceeds what is needed: every shorter string leaves the symbol open.
   */
  method Resolve(t: Table, v: nat, ghost words: Words) returns (sym: nat, len: nat)
    requires Usable(t, words)
    ensures len <= 15
    ensures forall n: nat :: n < len ==> Undecided(words, ToBits(v, n))
    ensures forall s: nat :: Starts(words, ToBits(v, 15), s) ==> sym == s && len == |words[s]|
    ensures sym == 0 || (sym < |words| && len > 0 && Starts(words, ToBits(v, 15), sym))
  {
    hide PrefixFree, NodesOk, PathsIn, LookOk, TreeOk, Short, Undecided;
    Root(words, t.nodes, t.lookUp[..], v);
    var temp := t.lookUp[Low(v, FAST_BITS)];
    if temp >= 0 {
      RootEnd(words, t.nodes, v, temp);
      len, sym := temp / 512, temp % 512;
      forall s: nat | Starts(words, ToBits(v, 15), s) ensures sym == s && len == |words[s]| {
        RootNames(words, t.nodes, v, temp, 15, s);
      }
      BitsPrefix(v, FAST_BITS, 15);
    } else {
      len := FAST_BITS;
      while temp < 0
        invariant Reached(words, t.nodes, v, len, temp)
        decreases 16 - len, temp < 0
      {
        WalkStep(words, t.nodes, t.tree[..], v, len, temp);
        temp := t.tree[TreeIndex(temp, v, len)];
        len := len + 1;
      }
      sym := temp;
      BitsPrefix(v, len, 15);
      forall s: nat | Starts(words, ToBits(v, 15), s) ensures sym == s && len == |words[s]| {
        WalkEnd(words, t.nodes, v, len, temp, s, 15);
      }
    }
  }

  lemma StartsDecided(words: Words, w: seq<bool>, s: nat)
    requires PrefixFree(words) && Starts(words, w, s)
    ensures !Undecided(words, w)
  {
  }

  /** With n bits at hand the attempt succeeds when they hold a code word, and only when no word needs more. */
  ghost predicate Attempt(words: Words, w: seq<bool>, found: bool) {
    && (found ==> !Undecided(words, w))
    && (forall s: nat :: Starts(words, w, s) ==> found)
  }

  lemma AttemptRoot(words: Words, nodes: map<seq<bool>, nat>, v: nat, n: nat, temp: int)
    requires PrefixFree(words) && PathsIn(words, |words|, nodes) && Short(words)
    requires Settled(words, nodes, ToBits(v, FAST_BITS), temp)
    ensures Attempt(words, ToBits(v, n), temp / 512 != 0 && n >= temp / 512)
  {
    forall s: nat | Starts(words, ToBits(v, n), s) ensures temp / 512 == |words[s]| <= n {
      RootNames(words, nodes, v, temp, n, s);
    }
    if temp / 512 != 0 && n >= temp / 512 {
      var s := temp % 512;
      BitsPrefix(v, |words[s]|, FAST_BITS);
      BitsPrefix(v, |words[s]|, n);
      assert words[s] == ToBits(v, |words[s]|);
      StartsDecided(words, ToBits(v, n), s);
    }
  }

  lemma AttemptNode(words: Words, nodes: map<seq<bool>, nat>, v: nat, n: nat, d: nat, temp: int)
    requires PrefixFree(words) && NodesOk(words, |words|, nodes) && PathsIn(words, |words|, nodes) && Short(words)
    requires Reached(words, nodes, v, d, temp)
    requires if temp < 0 then n <= d else d <= n
    ensures Attempt(words, ToBits(v, n), temp >= 0)
  {
    var w, q := ToBits(v, n), ToBits(v, d);
    if temp < 0 {
      BitsPrefix(v, n, d);
      NodeInside(words, nodes, q);
      UndecidedPrefix(words, q, w);
      forall s: nat | Starts(words, w, s) ensures false { StartsDecided(words, w, s); }
    } else {
      BitsPrefix(v, d, n);
      if Undecided(words, w) {
        var s: nat :| Inside(words, w, s);
        assert Inside(words, q, s);
        assert false;
      }
    }
  }

  /** One round of TINFL_HUFF_BITBUF_FILL: try to decode with the n bits there are. */
  method Peek(t: Table, v: nat, n: nat, ghost words: Words) returns (found: bool)
    requires Usable(t, words)
    ensures Attempt(words, ToBits(v, n), found)
  {
    hide PrefixFree, NodesOk, PathsIn, LookOk, TreeOk, Short, Undecided;
    Root(words, t.nodes, t.lookUp[..], v);
    var temp := t.lookUp[Low(v, FAST_BITS)];
    if temp >= 0 {
      var codeLen := temp / 512;
      found := codeLen != 0 && n >= codeLen;
      AttemptRoot(words, t.nodes, v, n, temp);
    } else if n > FAST_BITS {
      var codeLen := FAST_BITS;
      while temp < 0 && n >= codeLen + 1
        invariant Reached(words, t.nodes, v, codeLen, temp) && codeLen <= n
        decreases n - codeLen
      {
        WalkStep(words, t.nodes, t.tree[..], v, codeLen, temp);
        temp := t.tree[TreeIndex(temp, v, codeLen)];
        codeLen := codeLen + 1;
      }
      found := temp >= 0;
      AttemptNode(words, t.nodes, v, n, codeLen, temp);
    } else {
      found := false;
      AttemptNode(words, t.nodes, v, n, FAST_BITS, temp);
    }
  }

  /** Enough bits are buffered to settle the next symbol. */
  ghost predicate Enough(words: Words, v: nat, n: nat) {
    n >= 15 || !Undecided(words, ToBits(v, n))
  }

  lemma EnoughStarts(words: Words, v: nat, n: nat, tail: seq<bool>, s: nat)
    requires Short(words) && Enough(words, v, n) && Starts(words, ToBits(v, n) + tail, s)
    ensures Starts(words, ToBits(v, 15), s)
  {
    var w := ToBits(v, n);
    if n >= 15 {
      BitsPrefix(v, 15, n);
    } else {
      BitsPrefix(v, n, 15);
      assert |words[s]| > n ==> Inside(words, w, s);
    }
  }

  /** What is held of earlier input buffers, but for less than a byte, is not yet a code word. */
  ghost predicate HeldNeeded(r: BitReader, words: Words)
    requires r.Valid()
    reads r
  {
    r.Snug() || (8 * r.cur <= r.numBits && NoCode(words, r.Rest()[..r.numBits - 8 * r.cur]))
  }

  lemma HeldFirst(r: BitReader)
    requires r.Valid()
    ensures r.Rest()[..r.numBits] == ToBits(r.bitBuf, r.numBits)
  {
    hide ToBits, BytesBits;
  }

  /** TINFL_HUFF_BITBUF_FILL: take bytes one at a time, and no more than needed. */
  method Fill(t: Table, r: BitReader, ghost words: Words) returns (ok: bool)
    requires Usable(t, words) && r.Valid() && r.numBits < 15
    modifies r
    ensures r.Valid() && r.Rest() == old(r.Rest())
    ensures ok ==> Enough(words, r.bitBuf, r.numBits)
    ensures !ok ==> r.Unread() == [] && r.numBits < 15 && NoCode(words, r.Rest())
    ensures r.numBits == old(r.numBits) || (8 <= r.numBits && NoCode(words, r.Rest()[..r.numBits - 8]))
    ensures old(r.Snug()) ==> HeldNeeded(r, words)
  {
    hide PrefixFree, NodesOk, PathsIn, LookOk, TreeOk, Short, Undecided, ToBits, BytesBits, Pow2, Supplied;
    while r.numBits < 15
      invariant r.Valid() && r.Rest() == old(r.Rest())
      invariant r.numBits == old(r.numBits) || (8 <= r.numBits && NoCode(words, r.Rest()[..r.numBits - 8]))
      invariant old(r.Snug()) ==> HeldNeeded(r, words)
    {
      var found := Peek(t, r.bitBuf, r.numBits, words);
      if found {
        return true;
      }
      assert r.Rest()[..r.numBits] == ToBits(r.bitBuf, r.numBits);
      ok := r.Await();
      if !ok {
        return;
      }
      HeldFirst(r);
      r.TakeByte();
    }
    return true;
  }

  /** Bits for the next symbol: two bytes at once while the input has them, otherwise what Fill takes. */
  method Gather(t: Table, r: BitReader, ghost words: Words) returns (ok: bool)
    requires Usable(t, words) && r.Valid()
    modifies r
    ensures r.Valid() && r.Rest() == old(r.Rest())
    ensures ok ==> Enough(words, r.bitBuf, r.numBits)
    ensures !ok ==> r.Unread() == [] && NoCode(words, r.Rest())
    ensures old(r.Snug()) ==> HeldNeeded(r, words)
  {
    hide Usable, Undecided, ToBits, BytesBits, Pow2, Supplied, NoCode;
    ok := true;
    if r.numBits < 15 {
      if |r.input| - r.cur < 2 {
        ok := Fill(t, r, words);
      } else {
        r.TakeByte();
        r.TakeByte();
      }
    }
  }

  /** Every string of 15 bits starts with a code word. */
  ghost predicate Fills(words: Words) {
    forall bits: seq<bool> :: |bits| >= 15 ==> exists s: nat :: Starts(words, bits, s)
  }

  /**
    TINFL_HUFF_DECODE. Whenever the unread bits start with a code word its symbol is returned and
    exactly its bits are consumed; with a complete code, a false result (the return for more
    input) happens only when they do not, and consumes nothing.
   */
  method Decode(t: Table, r: BitReader, ghost words: Words) returns (ok: bool, sym: nat)
    requires Usable(t, words) && r.Valid()
    modifies r
    ensures r.Valid()
    ensures forall s: nat :: Starts(words, old(r.Rest()), s) ==>
              ok && sym == s && r.Rest() == old(r.Rest())[|words[s]|..] && (old(r.Snug()) ==> r.Snug())
    ensures Fills(words) && NoCode(words, old(r.Rest())) ==> !ok
    ensures !ok ==> r.Unread() == [] && r.Rest() == old(r.Rest())
    ensures sym == 0 || sym < |words|
    ensures EndOf(r.Rest(), old(r.Rest())) && (sym > 0 ==>
            ok && |r.Rest()| < |old(r.Rest())|
            && Starts(words, old(r.Rest()), sym))
  {
    hide Usable, Undecided, Supplied, HeldNeeded, Enough, ToBits, BytesBits, Pow2;
    sym := 0;
    ok := Gather(t, r, words);
    if !ok {
      return;
    }
    var len;
    sym, len := Resolve(t, r.bitBuf, words);
    UsableShort(t, words);
    Within(words, r.bitBuf, r.numBits, len);
    forall s: nat | Starts(words, r.Rest(), s)
      ensures sym == s && len == |words[s]| && (old(r.Snug()) ==> r.numBits < 8 * r.cur + 8 + len)
    {
      EnoughStarts(words, r.bitBuf, r.numBits, BytesBits(r.Unread()), s);
      if old(r.Snug()) { WordReaches(r, words, s); }
    }
    if Fills(words) { FillsEnough(words, r.bitBuf, r.numBits, BytesBits(r.Unread())); }
    if sym > 0 { StartsAhead(words, r.bitBuf, r.numBits, BytesBits(r.Unread()), sym); }
    r.Drop(len);
  }

  lemma UsableShort(t: Table, words: Words)
    requires Usable(t, words)
    ensures Short(words)
  {
  }

  lemma StartsAhead(words: Words, v: nat, n: nat, tail: seq<bool>, s: nat)
    requires Starts(words, ToBits(v, 15), s) && |words[s]| <= n
    ensures Starts(words, ToBits(v, n) + tail, s)
  {
    if n <= 15 { BitsPrefix(v, n, 15); } else { BitsPrefix(v, 15, n); }
  }

  /** No more bits are used than are held. */
  lemma Within(words: Words, v: nat, n: nat, len: nat)
    requires Enough(words, v, n) && len <= 15 && forall m: nat :: m < len ==> Undecided(words, ToBits(v, m))
    ensures len <= n
  {
    if n < 15 {
      assert !Undecided(words, ToBits(v, n));
    }
  }

  /** The next code word takes all that is held of earlier input buffers, but for less than a byte. */
  lemma WordReaches(r: BitReader, words: Words, s: nat)
    requires r.Valid() && HeldNeeded(r, words) && Starts(words, r.Rest(), s)
    ensures r.numBits < 8 * r.cur + 8 + |words[s]|
  {
    hide ToBits, BytesBits;
    if !r.Snug() {
      assert !Starts(words, r.Rest()[..r.numBits - 8 * r.cur], s);
    }
  }

  /** With a complete code, having enough bits means having a code word. */
  lemma FillsEnough(words: Words, v: nat, n: nat, tail: seq<bool>)
    requires Fills(words) && Enough(words, v, n)
    ensures exists s: nat :: Starts(words, ToBits(v, n) + tail, s)
  {
    var w := ToBits(v, n);
    if n < 15 {
      var padded := w + seq(15, _ => false);
      var s: nat :| Starts(words, padded, s);
      if |words[s]| > n {
        assert padded[..n] == w;
        assert Inside(words, w, s);
        assert false;
      }
      assert words[s] <= w;
      assert Starts(words, w + tail, s);
    } else {
      assert |w + tail| >= 15;
    }
  }

  /** A complete list of lengths makes a usable, filling set of code words. */
  lemma CompleteFills(lens: seq<nat>)
    requires C.Complete(lens)
    ensures Fills(WordsOf(lens))
  {
    WordsPrefixFree(lens);
    forall bits: seq<bool> | |bits| >= 15 ensures exists s: nat :: Starts(WordsOf(lens), bits, s) {
      var s := C.CompleteStarts(lens, bits);
      assert Starts(WordsOf(lens), bits, s);
    }
  }
}
