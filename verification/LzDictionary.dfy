/**
  The dictionary of a tdefl_compressor: a 32 KiB ring whose first bytes are mirrored behind its
  end, hash chains over it, and the search for matches in it. The chains may lead anywhere; the
  search compares the bytes themselves.
 */
module LzDictionary {
  import opened Bits
  import opened Tokens
  import OutBuf

  type u16 = x: int | 0 <= x < 0x1_0000

  const MIRROR: nat := 257                   // TDEFL_MAX_MATCH_LEN - 1
  const HASH_SHIFT: nat := 5                 // TDEFL_LZ_HASH_SHIFT
  const HASH_BITS: nat := 15                 // TDEFL_LZ_HASH_BITS

  /** Bitwise exclusive or. */
  function Xor(a: nat, b: nat): nat
    decreases a + b
  {
    if a == 0 then b
    else if b == 0 then a
    else (a + b) % 2 + 2 * Xor(a / 2, b / 2)
  }

  function Rehash(h: nat, c: byte): (r: nat)
    ensures r < 0x8000
  {
    LowBound(Xor(Shl(h, HASH_SHIFT), c), HASH_BITS);
    HashSize();
    Low(Xor(Shl(h, HASH_SHIFT), c), HASH_BITS)
  }

  lemma HashSize()
    ensures Pow2(15) == 0x8000
  {
    Pow2Table();
    Pow2Add(13, 2);
  }

  // ---------- the ring ----------

  /** The ring holds x for position q, and so does the mirror if q is near its start. */
  ghost predicate Cell(d: seq<byte>, q: nat, x: byte)
    requires |d| == DICT_SIZE + MIRROR
  {
    d[q % DICT_SIZE] == x && (q % DICT_SIZE < MIRROR ==> d[DICT_SIZE + q % DICT_SIZE] == x)
  }

  /** The bytes from position lo on are in the ring. */
  ghost predicate Holds(d: seq<byte>, source: seq<byte>, lo: nat)
    requires |d| == DICT_SIZE + MIRROR
  {
    forall q: nat :: lo <= q < |source| ==> Cell(d, q, source[q])
  }

  /** The oldest position still in the ring once n bytes have gone in. */
  function Oldest(pos: nat, dictSize: nat, n: nat): nat
    requires dictSize <= pos
  {
    if n > DICT_SIZE && n - DICT_SIZE > pos - dictSize then n - DICT_SIZE else pos - dictSize
  }

  /** Counting on from the place of q, over the end into the mirror. */
  lemma CellAhead(d: seq<byte>, q: nat, k: nat, x: byte)
    requires |d| == DICT_SIZE + MIRROR && k <= MIRROR && Cell(d, q + k, x)
    ensures q % DICT_SIZE + k < |d| && d[q % DICT_SIZE + k] == x
  {
    OutBuf.ModUnique(q, DICT_SIZE, q / DICT_SIZE, q % DICT_SIZE);
    var r := q % DICT_SIZE + k;
    if r < DICT_SIZE {
      OutBuf.ModUnique(q + k, DICT_SIZE, q / DICT_SIZE, r);
    } else {
      OutBuf.ModUnique(q + k, DICT_SIZE, q / DICT_SIZE + 1, r - DICT_SIZE);
    }
  }

  /** Storing a byte, and its mirror, at the next position. */
  function Stored(d: seq<byte>, at: nat, x: byte): seq<byte>
    requires |d| == DICT_SIZE + MIRROR && at < DICT_SIZE
  {
    if at < MIRROR then d[at := x][DICT_SIZE + at := x] else d[at := x]
  }

  lemma HoldsNext(d: seq<byte>, source: seq<byte>, lo: nat, lo': nat, at: nat, x: byte)
    requires |d| == DICT_SIZE + MIRROR && Holds(d, source, lo) && at == |source| % DICT_SIZE
    requires lo <= lo' && |source| < lo' + DICT_SIZE
    ensures Holds(Stored(d, at, x), source + [x], lo')
  {
    forall q: nat | lo' <= q < |source + [x]| ensures Cell(Stored(d, at, x), q, (source + [x])[q]) {
      if q < |source| {
        assert Cell(d, q, source[q]);
        OutBuf.Apart(q, |source|, DICT_SIZE);
      }
    }
  }

  lemma IndexMod(pos: nat)
    ensures pos % 0x1_0000_0000 % DICT_SIZE == pos % DICT_SIZE
  {
    var a := pos / 0x1_0000_0000;
    assert pos == DICT_SIZE * (0x2_0000 * a) + pos % 0x1_0000_0000;
    OutBuf.SameMod(pos, pos % 0x1_0000_0000, DICT_SIZE) by {
      OutBuf.ModUnique(pos - pos % 0x1_0000_0000, DICT_SIZE, 0x2_0000 * a, 0);
    }
  }

  /** The first len bytes at position pos are those dist places earlier. */
  ghost predicate Repeats(source: seq<byte>, pos: nat, dist: nat, len: nat) {
    && 1 <= dist <= pos && pos + len <= |source|
    && forall q: nat :: pos <= q < pos + len ==> source[q] == source[q - dist]
  }

  // ---------- chains ----------

  /** How far back the link at a place leads, in 16 bits. */
  function Link(next: seq<u16>, at: nat, place: nat): nat
    requires place < |next|
  {
    (at - next[place]) % 0x1_0000
  }

  /** The chain goes on from a place: there is a link, to somewhere within reach. */
  predicate Alive(next: seq<u16>, at: nat, reach: nat, place: nat)
    requires place < |next|
  {
    next[place] != 0 && 0 < Link(next, at, place) <= reach
  }

  /** The distances that the first n links of the chain from a place on lead to. */
  ghost function Chain(next: seq<u16>, at: nat, reach: nat, place: nat, n: nat): seq<nat>
    requires |next| == DICT_SIZE && place < DICT_SIZE
    decreases n
  {
    if n == 0 || !Alive(next, at, reach, place) then []
    else [Link(next, at, place)] + Chain(next, at, reach, next[place] % DICT_SIZE, n - 1)
  }

  /** From a place the first k links lead to another. */
  ghost predicate Leads(next: seq<u16>, at: nat, reach: nat, from: nat, k: nat, place: nat)
    requires |next| == DICT_SIZE && from < DICT_SIZE
    decreases k
  {
    if k == 0 then place == from
    else Alive(next, at, reach, from) && Leads(next, at, reach, next[from] % DICT_SIZE, k - 1, place)
  }

  lemma {:induction false} ChainNext(next: seq<u16>, at: nat, reach: nat, from: nat, k: nat, place: nat)
    requires |next| == DICT_SIZE && from < DICT_SIZE && place < DICT_SIZE && Leads(next, at, reach, from, k, place)
    ensures Alive(next, at, reach, place) ==>
              && Leads(next, at, reach, from, k + 1, next[place] % DICT_SIZE)
              && Chain(next, at, reach, from, k + 1) == Chain(next, at, reach, from, k) + [Link(next, at, place)]
    ensures !Alive(next, at, reach, place) ==>
              forall n: nat :: n >= k ==> Chain(next, at, reach, from, n) == Chain(next, at, reach, from, k)
    decreases k
  {
    hide Alive, Link;
    if k == 0 {
      assert Chain(next, at, reach, from, 0) == [];
    } else {
      var then' := next[from] % DICT_SIZE;
      ChainNext(next, at, reach, then', k - 1, place);
      if !Alive(next, at, reach, place) {
        forall n: nat | n >= k ensures Chain(next, at, reach, from, n) == Chain(next, at, reach, from, k) {
          assert Chain(next, at, reach, then', n - 1) == Chain(next, at, reach, then', k - 1);
        }
      }
    }
  }

  lemma {:induction false} ChainPrefix(next: seq<u16>, at: nat, reach: nat, from: nat, n: nat, m: nat)
    requires |next| == DICT_SIZE && from < DICT_SIZE && n <= m
    ensures Chain(next, at, reach, from, n) <= Chain(next, at, reach, from, m)
    decreases n
  {
    hide Link;
    if n > 0 && Alive(next, at, reach, from) {
      ChainPrefix(next, at, reach, next[from] % DICT_SIZE, n - 1, m - 1);
    }
  }

  class Dictionary {
    const dict: array<byte>          // m_dict
    const next: array<u16>           // m_next
    const hash: array<u16>           // m_hash
    var lookaheadPos: nat            // m_lookahead_pos, 32 bits wide
    var lookaheadSize: nat           // m_lookahead_size
    var dictSize: nat                // m_dict_size
    ghost var source: seq<byte>      // every byte put in so far
    ghost var pos: nat               // m_lookahead_pos, had it no width

    ghost predicate Shaped() {
      dict.Length == DICT_SIZE + MIRROR && next.Length == DICT_SIZE && hash.Length == 0x8000 && next != hash
    }

    ghost predicate Valid()
      reads this, dict
    {
      && Shaped()
      && lookaheadPos == pos % 0x1_0000_0000
      && lookaheadSize <= MAX_MATCH && dictSize <= pos && dictSize <= DICT_SIZE
      && |source| == pos + lookaheadSize
      && Holds(dict[..], source, Oldest(pos, dictSize, |source|))
    }

    /** As tdefl_init leaves it, whatever the arrays contain. */
    constructor ()
      ensures Valid() && source == [] && pos == 0 && dictSize == 0 && lookaheadSize == 0
      ensures fresh(dict) && fresh(next) && fresh(hash)
    {
      dict := new byte[DICT_SIZE + MIRROR](_ => 0);
      next := new u16[DICT_SIZE](_ => 0);
      hash := new u16[0x8000](_ => 0);
      lookaheadPos, lookaheadSize, dictSize := 0, 0, 0;
      source, pos := [], 0;
    }

    /** Store a byte, near the start of the ring also behind its end. */
    method StoreByte(at: nat, x: byte)
      requires Shaped() && at < DICT_SIZE
      modifies dict
      ensures dict[..] == Stored(old(dict[..]), at, x)
    {
      dict[at] := x;
      if at < MIRROR {
        dict[DICT_SIZE + at] := x;
      }
    }

    /** Enter a position into the chain of its hash. */
    method Enter(insPos: nat, h: nat)
      requires Shaped() && h < 0x8000
      modifies next, hash
    {
      next[insPos % DICT_SIZE] := hash[h];
      hash[h] := insPos % 0x1_0000;
    }

    /** Where the next byte goes. */
    lemma StorePlace()
      requires lookaheadPos == pos % 0x1_0000_0000 && |source| == pos + lookaheadSize
      ensures (lookaheadPos + lookaheadSize) % 0x1_0000_0000 % DICT_SIZE == |source| % DICT_SIZE
    {
      IndexMod(|source|);
      OutBuf.ModUnique(|source|, 0x1_0000_0000, |source| / 0x1_0000_0000, |source| % 0x1_0000_0000);
    }

    lemma OneMoreTaken(source0: seq<byte>, src: seq<byte>, from: nat, i: nat)
      requires from + i < |src|
      ensures source0 + src[from..from + i + 1] == source0 + src[from..from + i] + [src[from + i]]
    {
    }

    /** Taking in bytes when the hash of the last two is known: the first form of the loop. */
    method FillFast(src: seq<byte>, from: nat) returns (n: nat)
      requires Valid() && from <= |src| && lookaheadSize + dictSize >= 2
      modifies this`lookaheadSize, this`source, dict, next, hash
      ensures Taken(src, from, n, old(source), old(lookaheadSize))
    {
      hide Holds, Oldest, Stored;
      var left := |src| - from;
      var dstPos := (lookaheadPos + lookaheadSize) % 0x1_0000_0000 % DICT_SIZE;
      var insPos, h := StartHash();
      n := if left < MAX_MATCH - lookaheadSize then left else MAX_MATCH - lookaheadSize;
      StorePlace();
      lookaheadSize := lookaheadSize + n;
      var i := 0;
      while i < n
        invariant i <= n && lookaheadSize == old(lookaheadSize) + n && dstPos == |source| % DICT_SIZE
        invariant source == old(source) + src[from..from + i]
        invariant Holds(dict[..], source, Oldest(pos, dictSize, |source|))
      {
        dstPos, insPos, h := PutByte(dstPos, insPos, h, src[from + i]);
        OneMoreTaken(old(source), src, from, i);
        i := i + 1;
      }
    }

    /** The hash of the two bytes before the next one, and the position of the first of them. */
    method StartHash() returns (insPos: nat, h: nat)
      requires Shaped()
    {
      insPos := (lookaheadPos + lookaheadSize - 2) % 0x1_0000_0000;
      h := Xor(Shl(dict[insPos % DICT_SIZE], HASH_SHIFT), dict[(insPos + 1) % DICT_SIZE]);
    }

    /** One turn of the loop: the byte, its mirror, the hash chain, and all three counters. */
    method PutByte(at: nat, insPos: nat, h: nat, c: byte) returns (at': nat, insPos': nat, h': nat)
      requires Shaped() && at == |source| % DICT_SIZE && dictSize <= pos <= |source| && dictSize <= DICT_SIZE
      requires |source| < pos + MAX_MATCH
      requires Holds(dict[..], source, Oldest(pos, dictSize, |source|))
      modifies this`source, dict, next, hash
      ensures source == old(source) + [c] && Holds(dict[..], source, Oldest(pos, dictSize, |source|))
      ensures at' == |source| % DICT_SIZE
    {
      hide Holds, Oldest, Rehash;
      StoreNext(at, c);
      h' := Rehash(h, c);
      Enter(insPos, h');
      NextPlace(|source| - 1);
      at' := (at + 1) % DICT_SIZE;
      insPos' := (insPos + 1) % 0x1_0000_0000;
    }

    lemma NextPlace(q: nat)
      ensures (q + 1) % DICT_SIZE == (q % DICT_SIZE + 1) % DICT_SIZE
    {
    }

    /** The next byte of the source goes into the ring. */
    method StoreNext(at: nat, c: byte)
      requires Shaped() && at == |source| % DICT_SIZE && dictSize <= pos <= |source| && dictSize <= DICT_SIZE
      requires |source| < pos + MAX_MATCH
      requires Holds(dict[..], source, Oldest(pos, dictSize, |source|))
      modifies this`source, dict
      ensures source == old(source) + [c] && Holds(dict[..], source, Oldest(pos, dictSize, |source|))
    {
      hide Holds;
      HoldsNext(dict[..], source, Oldest(pos, dictSize, |source|), Oldest(pos, dictSize, |source| + 1), at, c);
      StoreByte(at, c);
      source := source + [c];
    }

    /** n bytes of src have been taken in. */
    ghost predicate Taken(src: seq<byte>, from: nat, n: nat, source0: seq<byte>, lookahead0: nat)
      reads this, dict
    {
      && Valid() && from + n <= |src| && source == source0 + src[from..from + n]
      && lookaheadSize == lookahead0 + n
      && (from + n == |src| || lookaheadSize == MAX_MATCH)
    }

    /** Taking in bytes one at a time, while there are too few for a hash: the second form. */
    method FillSlowly(src: seq<byte>, from: nat) returns (n: nat)
      requires Valid() && from <= |src|
      modifies this`lookaheadSize, this`source, dict, next, hash
      ensures Taken(src, from, n, old(source), old(lookaheadSize))
    {
      hide Holds, Oldest, Stored;
      n := 0;
      while from + n < |src| && lookaheadSize < MAX_MATCH
        invariant Valid() && from + n <= |src| && lookaheadSize == old(lookaheadSize) + n
        invariant source == old(source) + src[from..from + n]
        decreases |src| - n
      {
        var c := src[from + n];
        var dstPos := (lookaheadPos + lookaheadSize) % 0x1_0000_0000 % DICT_SIZE;
        StorePlace();
        StoreNext(dstPos, c);
        lookaheadSize := lookaheadSize + 1;
        assert src[from..from + n + 1] == src[from..from + n] + [c];
        n := n + 1;
        if lookaheadSize + dictSize >= MIN_MATCH {
          EnterLast(c);
        }
      }
    }

    /** Enter the last three bytes. */
    method EnterLast(c: byte)
      requires Shaped() && lookaheadSize > 0
      modifies next, hash
    {
      var insPos := (lookaheadPos + (lookaheadSize - 1) - 2) % 0x1_0000_0000;
      var two := Xor(Shl(dict[insPos % DICT_SIZE], 2 * HASH_SHIFT), Shl(dict[(insPos + 1) % DICT_SIZE], HASH_SHIFT));
      LowBound(Xor(two, c), HASH_BITS);
      HashSize();
      Enter(insPos, Low(Xor(two, c), HASH_BITS));
    }

    /** Update the dictionary; the lookahead is filled as far as the input goes. */
    method Fill(src: seq<byte>, from: nat) returns (n: nat)
      requires Valid() && from <= |src|
      modifies this`lookaheadSize, this`source, this`dictSize, dict, next, hash
      ensures Taken(src, from, n, old(source), old(lookaheadSize)) && dictSize <= DICT_SIZE - lookaheadSize
    {
      hide Holds;
      if lookaheadSize + dictSize >= MIN_MATCH - 1 {
        n := FillFast(src, from);
      } else {
        n := FillSlowly(src, from);
      }
      dictSize := if DICT_SIZE - lookaheadSize < dictSize then DICT_SIZE - lookaheadSize else dictSize;
    }

    /** Move the lookahead forward. */
    method Advance(n: nat)
      requires Valid() && n <= lookaheadSize
      modifies this`lookaheadPos, this`lookaheadSize, this`dictSize, this`pos
      ensures Valid() && source == old(source) && pos == old(pos) + n && lookaheadSize == old(lookaheadSize) - n
      ensures dictSize == if old(dictSize) + n < DICT_SIZE then old(dictSize) + n else DICT_SIZE
    {
      HoldsLater(dict[..], source, Oldest(pos, dictSize, |source|),
          Oldest(pos + n, if dictSize + n < DICT_SIZE then dictSize + n else DICT_SIZE, |source|));
      PosNext(pos, n);
      lookaheadPos := (lookaheadPos + n) % 0x1_0000_0000;
      pos := pos + n;
      lookaheadSize := lookaheadSize - n;
      dictSize := if dictSize + n < DICT_SIZE then dictSize + n else DICT_SIZE;
    }

    /** A full flush forgets the dictionary. */
    method Forget()
      requires Valid()
      modifies this`dictSize, next, hash
      ensures Valid() && dictSize == 0
    {
      hide Holds;
      HoldsLater(dict[..], source, Oldest(pos, dictSize, |source|), Oldest(pos, 0, |source|));
      dictSize := 0;
      for i := 0 to hash.Length
        invariant Valid() && dictSize == 0
      {
        hash[i] := 0;
      }
      for i := 0 to next.Length
        invariant Valid() && dictSize == 0
      {
        next[i] := 0;
      }
    }

    /** The byte k places into the lookahead, read without wrapping. */
    method Ahead(k: nat) returns (x: byte)
      requires Valid() && dictSize <= DICT_SIZE - lookaheadSize && k < lookaheadSize
      ensures x == source[pos + k]
    {
      IndexMod(pos);
      assert Cell(dict[..], pos + k, source[pos + k]);
      CellAhead(dict[..], pos, k, source[pos + k]);
      x := dict[lookaheadPos % DICT_SIZE + k];
    }

    /** The byte k places on from dist places back, read without wrapping from the place start. */
    method Behind(start: nat, dist: nat, k: nat) returns (x: byte)
      requires Valid() && dictSize <= DICT_SIZE - lookaheadSize && k < lookaheadSize && dist <= dictSize
      requires start == (pos - dist) % DICT_SIZE
      ensures x == source[pos - dist + k]
    {
      assert Cell(dict[..], pos - dist + k, source[pos - dist + k]);
      CellAhead(dict[..], pos - dist, k, source[pos - dist + k]);
      x := dict[start + k];
    }

    /** The bytes of the lookahead at the length to beat, and one before. */
    ghost predicate Ends(matchLen: nat, c0: byte, c1: byte)
      reads this
    {
      && 1 <= matchLen < lookaheadSize && pos + lookaheadSize <= |source|
      && c0 == source[pos + matchLen] && c1 == source[pos + matchLen - 1]
    }

    lemma EndBytes(matchLen: nat)
      requires Valid() && dictSize <= DICT_SIZE - lookaheadSize && 1 <= matchLen < lookaheadSize
      ensures var cur := lookaheadPos % DICT_SIZE;
              Ends(matchLen, dict[cur + matchLen], dict[cur + matchLen - 1])
    {
      IndexMod(pos);
      assert Cell(dict[..], pos + matchLen, source[pos + matchLen]);
      CellAhead(dict[..], pos, matchLen, source[pos + matchLen]);
      assert Cell(dict[..], pos + matchLen - 1, source[pos + matchLen - 1]);
      CellAhead(dict[..], pos, matchLen - 1, source[pos + matchLen - 1]);
    }

    /** Bytes that differ where the length to beat ends: no longer match here. */
    lemma NotLonger(place: nat, dist: nat, matchLen: nat, c0: byte, c1: byte)
      requires Valid() && dictSize <= DICT_SIZE - lookaheadSize && Ends(matchLen, c0, c1)
      requires dist <= dictSize && place == (pos - dist) % DICT_SIZE
      requires dict[place + matchLen] != c0 || dict[place + matchLen - 1] != c1
      ensures dist > 0 && !Repeats(source, pos, dist, matchLen + 1)
    {
      var q := pos - dist + matchLen;
      assert Cell(dict[..], q, source[q]);
      CellAhead(dict[..], pos - dist, matchLen, source[q]);
      assert Cell(dict[..], q - 1, source[q - 1]);
      CellAhead(dict[..], pos - dist, matchLen - 1, source[q - 1]);
    }

    /**
      One TDEFL_PROBE: follow the chain one step. The search is over at the end of the chain and
      at the first position out of reach; otherwise the place stands for a known distance, and
      found tells whether two of its bytes make a comparison worthwhile: when not, there is no longer
      match at that distance.
     */
    method Probe(probePos: nat, matchLen: nat, c0: byte, c1: byte)
      returns (over: bool, place: nat, dist: nat, found: bool)
      requires Valid() && dictSize <= DICT_SIZE - lookaheadSize && probePos < DICT_SIZE && Ends(matchLen, c0, c1)
      ensures place < DICT_SIZE
      ensures over <==> next[probePos] == 0 || Link(next[..], lookaheadPos, probePos) > dictSize
      ensures !over ==> dist == Link(next[..], lookaheadPos, probePos) && place == next[probePos] % DICT_SIZE
      ensures !over ==> dist <= dictSize && place == (pos - dist) % DICT_SIZE
      ensures !over && !found ==> dist > 0 && !Repeats(source, pos, dist, matchLen + 1)
    {
      hide Holds, Oldest, Repeats;
      over, place, found := true, probePos, false;
      var nextProbe := next[probePos];
      dist := (lookaheadPos - nextProbe) % 0x1_0000;
      if nextProbe == 0 || dist > dictSize {
        return;
      }
      ChainPlace(pos, nextProbe, dist);
      over := false;
      place := nextProbe % DICT_SIZE;
      found := dict[place + matchLen] == c0 && dict[place + matchLen - 1] == c1;
      if !found { NotLonger(place, dist, matchLen, c0, c1); }
    }

    /** How many bytes at the place agree with the lookahead. */
    method Compare(place: nat, dist: nat) returns (len: nat)
      requires Valid() && dictSize <= DICT_SIZE - lookaheadSize && 1 <= dist <= dictSize
          && place == (pos - dist) % DICT_SIZE
      ensures len <= lookaheadSize && Repeats(source, pos, dist, len)
      ensures len < lookaheadSize ==> source[pos + len] != source[pos - dist + len]
    {
      hide Holds, Oldest;
      len := 0;
      while len < lookaheadSize
        invariant len <= lookaheadSize && Repeats(source, pos, dist, len)
      {
        var x := Ahead(len);
        var y := Behind(place, dist, len);
        if x != y {
          break;
        }
        len := len + 1;
      }
    }

    /** A match worth having: longer than what there is already, and within reach. */
    ghost predicate Better(dist: nat, len: nat, least: nat)
      reads this
    {
      least < len <= lookaheadSize && dist <= dictSize && Repeats(source, pos, dist, len)
    }

    /** The first n links of the chain from here on have been looked at: none gives a match longer than len. */
    ghost predicate Searched(n: nat, len: nat)
      requires next.Length == DICT_SIZE
      reads this, next
    {
      len < lookaheadSize ==>
        forall d <- Chain(next[..], lookaheadPos, dictSize, lookaheadPos % DICT_SIZE, n) ::
          !Repeats(source, pos, d, len + 1)
    }

    /** After k links the place is reached, no match beyond len has been seen, and enough probes are left. */
    ghost predicate Underway(k: nat, place: nat, len: nat, left: nat, total: nat)
      requires next.Length == DICT_SIZE
      reads this, next
    {
      && place < DICT_SIZE && total <= k + left && Searched(k, len)
      && Leads(next[..], lookaheadPos, dictSize, lookaheadPos % DICT_SIZE, k, place)
    }

    /** Once the chain has ended there, everything on it has been looked at. */
    lemma ChainOver(k: nat, place: nat, len: nat, left: nat, total: nat)
      requires Shaped() && Underway(k, place, len, left, total)
      requires !Alive(next[..], lookaheadPos, dictSize, place) || left <= 1
      ensures total > 0 ==> Searched(total - 1, len)
    {
      hide Repeats, Chain, Leads, Alive;
      var from := lookaheadPos % DICT_SIZE;
      ChainNext(next[..], lookaheadPos, dictSize, from, k, place);
      if total > 0 {
        if total - 1 <= k {
          ChainPrefix(next[..], lookaheadPos, dictSize, from, total - 1, k);
          SearchedLess(total - 1, k, len);
        } else {
          assert Chain(next[..], lookaheadPos, dictSize, from, total - 1)
              == Chain(next[..], lookaheadPos, dictSize, from, k);
        }
      }
    }

    lemma SearchedLess(n: nat, k: nat, len: nat)
      requires Shaped() && Searched(k, len)
      requires Chain(next[..], lookaheadPos, dictSize, lookaheadPos % DICT_SIZE, n)
            <= Chain(next[..], lookaheadPos, dictSize, lookaheadPos % DICT_SIZE, k)
      ensures Searched(n, len)
    {
      hide Chain, Repeats;
      var from := lookaheadPos % DICT_SIZE;
      var some := Chain(next[..], lookaheadPos, dictSize, from, n);
      var all := Chain(next[..], lookaheadPos, dictSize, from, k);
      forall d | d in some ensures d in all {
        var i :| 0 <= i < |some| && some[i] == d;
        assert all[i] == d;
      }
    }

    /** One link more that gives nothing longer. */
    lemma LinkSeen(k: nat, place: nat, len: nat, left: nat, total: nat, place': nat, d: nat, len': nat)
      requires Shaped() && Underway(k, place, len, left, total) && len <= len'
      requires Alive(next[..], lookaheadPos, dictSize, place)
      requires d == Link(next[..], lookaheadPos, place) && place' == next[place] % DICT_SIZE
      requires len' < lookaheadSize ==> !Repeats(source, pos, d, len' + 1)
      ensures Underway(k + 1, place', len', left, total) && total <= k + left
    {
      hide Chain, Leads, Alive;
      var from := lookaheadPos % DICT_SIZE;
      ChainNext(next[..], lookaheadPos, dictSize, from, k, place);
      if len' < lookaheadSize {
        var links := Chain(next[..], lookaheadPos, dictSize, from, k + 1);
        forall e | e in links ensures !Repeats(source, pos, e, len' + 1) {
          if e != d { assert e in Chain(next[..], lookaheadPos, dictSize, from, k); }
        }
      }
    }

    /**
      tdefl_find_match. Whatever the chains contain, the search ends, and what it finds really is a
      match longer than the one it was to beat. And as many links of the chain have been looked at as
      there are probes less one, if it has so many: none of them gives a longer match.
     */
    method FindMatch(maxProbes: nat, maxProbesLong: nat, least: nat) returns (dist: nat, len: nat)
      requires Valid() && dictSize <= DICT_SIZE - lookaheadSize && 1 <= least <= MIRROR && maxProbes > 0
          && maxProbesLong > 0
      ensures (dist == 0 && len == least) || (dist > 0 && Better(dist, len, least))
      ensures Searched((if least >= 32 then maxProbesLong else maxProbes) - 1, len)
    {
      hide Holds, Oldest, Repeats, Chain, Leads, Underway, Searched, Ends, Link, Alive, Better;
      dist, len := 0, least;
      var cur := lookaheadPos % DICT_SIZE;
      var left: nat, probePos: nat := if len >= 32 then maxProbesLong else maxProbes, cur;
      ghost var total, k := left, 0;
      var c0, c1 := dict[cur + len], dict[cur + len - 1];
      if lookaheadSize <= len {
        NothingLonger(total - 1, len);
        return;
      }
      EndBytes(len);
      JustStarted(len, total);
      while true
        invariant left > 0 && probePos < DICT_SIZE && cur == lookaheadPos % DICT_SIZE
        invariant least <= len < lookaheadSize
        invariant (dist == 0 && len == least) || (dist > 0 && Better(dist, len, least))
        invariant Ends(len, c0, c1) && Underway(k, probePos, len, left, total)
        decreases left
      {
        var over, d;
        ghost var before;
        over, probePos, d, left, k, before := NextCandidate(probePos, len, c0, c1, left, k, total);
        if over || d == 0 {
          return;
        }
        var n := Compare(probePos, d);
        LongestHere(d, n, len);
        ghost var best := if n > len then n else len;
        LinkSeen(k, before, len, left + 1, total, probePos, d, best);
        k := k + 1;
        Counted(k, probePos, best, left, total);
        if n > len {
          dist, len := d, n;
          FoundBetter(d, n, least);
          if n == lookaheadSize {
            NothingLonger(total - 1, len);
            return;
          }
          EndBytes(len);
          c0, c1 := dict[cur + len], dict[cur + len - 1];
        }
      }
    }

    lemma FoundBetter(d: nat, n: nat, least: nat)
      requires least < n <= lookaheadSize && d <= dictSize && Repeats(source, pos, d, n)
      ensures Better(d, n, least)
    {
    }

    lemma NothingLonger(n: nat, len: nat)
      requires Shaped() && len >= lookaheadSize
      ensures Searched(n, len)
    {
    }

    lemma JustStarted(len: nat, total: nat)
      requires Shaped()
      ensures Underway(0, lookaheadPos % DICT_SIZE, len, total, total)
    {
    }

    lemma LongestHere(d: nat, n: nat, len: nat)
      requires Valid() && n <= lookaheadSize && 1 <= d <= dictSize && Repeats(source, pos, d, n)
      requires n < lookaheadSize ==> source[pos + n] != source[pos - d + n]
      ensures var m := if n > len then n else len; m < lookaheadSize ==> !Repeats(source, pos, d, m + 1)
    {
      hide Holds, Oldest;
    }

    /** The inner loop: up to three probes for each one counted, until one looks promising. */
    method NextCandidate(from: nat, matchLen: nat, c0: byte, c1: byte, probes: nat, ghost k: nat, ghost total: nat)
      returns (over: bool, place: nat, dist: nat, left: nat, ghost k': nat, ghost before: nat)
      requires Valid() && dictSize <= DICT_SIZE - lookaheadSize && from < DICT_SIZE && Ends(matchLen, c0, c1)
          && probes > 0
      requires Underway(k, from, matchLen, probes, total)
      ensures place < DICT_SIZE
      ensures over || dist == 0 ==> total > 0 ==> Searched(total - 1, matchLen)
      ensures !over ==> 0 < left < probes && dist <= dictSize && place == (pos - dist) % DICT_SIZE
      ensures !over && dist > 0 ==>
                && Underway(k', before, matchLen, left + 1, total) && Alive(next[..], lookaheadPos, dictSize, before)
                && dist == Link(next[..], lookaheadPos, before) && place == next[before] % DICT_SIZE
    {
      hide Holds, Oldest, Repeats, Chain, Leads, Underway, Searched, Ends, Link;
      place, left, dist, k', before := from, probes, 0, k, from;
      while true
        invariant 0 < left <= probes && place < DICT_SIZE && Underway(k', place, matchLen, left, total)
        decreases left
      {
        left := left - 1;
        if left == 0 {
          ChainOver(k', place, matchLen, 1, total);
          over := true;
          return;
        }
        var found;
        over, found, place, dist, k', before := ProbeNext(place, matchLen, c0, c1, k', left + 1, total);
        if over || found { return; }
        Counted(k', place, matchLen, left, total);
        over, found, place, dist, k', before := ProbeNext(place, matchLen, c0, c1, k', left, total);
        if found { Uncounted(k', before, matchLen, left, total); }
        if over || found { return; }
        over, found, place, dist, k', before := ProbeNext(place, matchLen, c0, c1, k', left, total);
        if found { Uncounted(k', before, matchLen, left, total); }
        if over || found { return; }
      }
    }

    lemma Counted(k: nat, place: nat, len: nat, left: nat, total: nat)
      requires Shaped() && Underway(k, place, len, left + 1, total) && total <= k + left
      ensures Underway(k, place, len, left, total)
    {
      hide Searched, Leads;
    }

    lemma Uncounted(k: nat, place: nat, len: nat, left: nat, total: nat)
      requires Shaped()
      ensures Underway(k, place, len, left, total) ==> Underway(k, place, len, left + 1, total)
    {
      hide Searched, Leads;
    }

    /** One probe, and what it adds to the links seen. */
    method ProbeNext(from: nat, matchLen: nat, c0: byte, c1: byte, ghost k: nat, ghost left: nat, ghost total: nat)
      returns (over: bool, found: bool, place: nat, dist: nat, ghost k': nat, ghost before: nat)
      requires Valid() && dictSize <= DICT_SIZE - lookaheadSize && from < DICT_SIZE && Ends(matchLen, c0, c1)
      requires Underway(k, from, matchLen, left, total)
      ensures place < DICT_SIZE && (!over ==> dist <= dictSize && place == (pos - dist) % DICT_SIZE)
      ensures over || (found && dist == 0) ==> total > 0 ==> Searched(total - 1, matchLen)
      ensures !over && !found ==> Underway(k', place, matchLen, left, total) && total < k' + left
      ensures !over && found && dist > 0 ==>
                && Underway(k', before, matchLen, left, total) && Alive(next[..], lookaheadPos, dictSize, before)
                && dist == Link(next[..], lookaheadPos, before) && place == next[before] % DICT_SIZE
    {
      hide Holds, Oldest, Repeats, Chain, Leads, Searched, Ends;
      k', before := k, from;
      over, place, dist, found := Probe(from, matchLen, c0, c1);
      if over || dist == 0 {
        ChainOver(k, from, matchLen, left, total);
      } else if !found {
        LinkSeen(k, from, matchLen, left, total, place, dist, matchLen);
        k' := k + 1;
      }
    }

    /** The run of the previous byte at the front of the lookahead, as far as it goes. */
    method FindRun() returns (len: nat)
      requires Valid() && 0 < dictSize <= DICT_SIZE - lookaheadSize
      ensures len <= lookaheadSize && (len > 0 ==> Repeats(source, pos, 1, len))
      ensures len < lookaheadSize ==> !Repeats(source, pos, 1, len + 1)
    {
      hide Holds, Oldest;
      var c := Previous();
      len := 0;
      while len < lookaheadSize
        invariant len <= lookaheadSize && forall q: nat :: pos - 1 <= q < pos + len ==> source[q] == c
      {
        var x := Ahead(len);
        if x != c {
          assert source[pos + len] != source[pos + len - 1];
          break;
        }
        len := len + 1;
      }
    }

    /** The byte before the lookahead. */
    method Previous() returns (c: byte)
      requires Valid() && 0 < dictSize <= DICT_SIZE - lookaheadSize
      ensures c == source[pos - 1]
    {
      PreviousPlace(pos);
      assert Cell(dict[..], pos - 1, source[pos - 1]);
      c := dict[(lookaheadPos % DICT_SIZE - 1) % DICT_SIZE];
    }
  }

  lemma PreviousPlace(pos: nat)
    requires pos > 0
    ensures (pos % 0x1_0000_0000 % DICT_SIZE - 1) % DICT_SIZE == (pos - 1) % DICT_SIZE
  {
    IndexMod(pos);
  }

  /** The position at the end of a chain link, from its 16 bits. */
  lemma ChainPlace(pos: nat, nextProbe: nat, dist: nat)
    requires dist == (pos % 0x1_0000_0000 - nextProbe) % 0x1_0000
    ensures nextProbe % DICT_SIZE == (pos - dist) % DICT_SIZE
  {
    var a, b := pos / 0x1_0000_0000, (pos % 0x1_0000_0000 - nextProbe) / 0x1_0000;
    var k := -(0x2_0000 * a + 2 * b);
    assert nextProbe - (pos - dist) == DICT_SIZE * k;
    OutBuf.ModUnique(nextProbe - (pos - dist), DICT_SIZE, k, 0);
    OutBuf.SameMod(nextProbe, pos - dist, DICT_SIZE);
  }

  lemma HoldsLater(d: seq<byte>, source: seq<byte>, lo: nat, lo': nat)
    requires |d| == DICT_SIZE + MIRROR && Holds(d, source, lo) && lo <= lo'
    ensures Holds(d, source, lo')
  {
  }

  lemma PosNext(pos: nat, n: nat)
    ensures (pos + n) % 0x1_0000_0000 == (pos % 0x1_0000_0000 + n) % 0x1_0000_0000
  {
  }
}
