/**
  The output side of tinfl_decompress: bytes go into a buffer that either holds everything or
  is a ring the caller empties whenever it is full, and matches are copied out of it.
 */
module OutBuf {
  import opened Bits
  import opened Lz77
  import Adler32

  /** The ring b holds the last |b| bytes of h, each at its position modulo the ring's size. */
  ghost predicate Window(h: seq<byte>, b: seq<byte>) {
    forall i: nat :: i < |h| && |h| <= i + |b| ==> h[i] == b[i % |b|]
  }

  lemma WindowPush(h: seq<byte>, b: seq<byte>, x: byte, at: nat)
    requires Window(h, b) && at < |b| && at == |h| % |b|
    ensures Window(h + [x], b[at := x])
  {
    var n := |b|;
    forall i: nat | i < |h| + 1 && |h| + 1 <= i + n
      ensures (h + [x])[i] == b[at := x][i % n]
    {
      if i < |h| {
        Apart(i, |h|, n);
      }
    }
  }

  /** Positions less than n apart are different places of a ring of size n. */
  lemma Apart(i: nat, j: nat, n: nat)
    requires n > 0 && i < j < i + n
    ensures i % n != j % n
  {
    MulMinus(n, j / n, i / n);
    MulFar(n, j / n - i / n);
  }

  /** Where a byte dist places back is found, counting from any position equal to |h| modulo the ring's size. */
  lemma WindowBack(h: seq<byte>, b: seq<byte>, dist: nat, from: int)
    requires Window(h, b) && 1 <= dist <= |b| && dist <= |h| && (from - |h|) % |b| == 0
    ensures h[|h| - dist] == b[(from - dist) % |b|]
  {
    SameMod(from - dist, |h| - dist, |b|);
    assert |h| <= |h| - dist + |b|;
  }

  lemma SameMod(x: int, y: int, n: nat)
    requires n > 0 && (x - y) % n == 0
    ensures x % n == y % n
  {
    var k := (x - y) / n;
    assert x == y + n * k;
    assert x == n * (y / n + k) + y % n;
    ModUnique(x, n, y / n + k, y % n);
  }

  lemma ModUnique(x: int, n: nat, q: int, r: nat)
    requires n > 0 && x == n * q + r && r < n
    ensures x % n == r && x / n == q
  {
    var q' := x / n;
    MulMinus(n, q', q);
    MulFar(n, q' - q);
  }

  lemma MulMinus(n: nat, a: int, b: int)
    ensures n * (a - b) == n * a - n * b
  {
  }

  lemma MulFar(n: int, k: int)
    requires n > 0
    ensures k >= 1 ==> n * k >= n
    ensures k <= -1 ==> n * k <= -n
  {
    if k >= 1 { assert n * (k - 1) >= 0; }
    if k <= -1 { assert n * (k + 1) <= 0; }
  }

  lemma SmallMod(x: nat, n: nat)
    requires x < n
    ensures x % n == x
  {
  }

  lemma Wrapped(h: nat, n: nat)
    requires n > 0 && (n - h) % n == 0
    ensures (0 - h) % n == 0
  {
    var q := (n - h) / n;
    assert 0 - h == n * q - n == n * (q - 1) by { MulMinus(n, q, 1); }
    ModUnique(0 - h, n, q - 1, 0);
  }

  lemma NextMod(x: int, h: int, n: nat)
    requires n > 0 && (x - h) % n == 0
    ensures (x + 1 - (h + 1)) % n == 0
  {
  }

  /** Of what is written from start on, all but the last cur bytes are in the checksum, if one is kept. */
  ghost predicate Summed(check: nat, sums: bool, h: seq<byte>, start: nat, cur: nat) {
    start + cur <= |h| && check < 0x1_0000_0000 && (sums ==> check == Adler32.Adler(1, h[start..|h| - cur]))
  }

  lemma SummedPut(check: nat, sums: bool, h: seq<byte>, start: nat, cur: nat, b: byte)
    requires Summed(check, sums, h, start, cur)
    ensures Summed(check, sums, h + [b], start, cur + 1)
  {
    hide Adler32.Adler;
    assert (h + [b])[start..|h| - cur] == h[start..|h| - cur];
  }

  /** One more round. */
  lemma SummedRound(check: nat, sums: bool, h: seq<byte>, start: nat, cur: nat) returns (sum: nat)
    requires Summed(check, sums, h, start, cur)
    ensures sum == Adler32.Adler(check, h[|h| - cur..]) < 0x1_0000_0000
    ensures sums ==> sum == Adler32.Adler(1, h[start..])
    ensures Summed(if sums then sum else check, sums, h, start, 0)
  {
    hide Adler32.Adler;
    sum := Adler32.Adler(check, h[|h| - cur..]);
    Adler32.AdlerBound(check, h[|h| - cur..]);
    Adler32.AdlerAppend(1, h[start..|h| - cur], h[|h| - cur..]);
    assert h[start..|h| - cur] + h[|h| - cur..] == h[start..] == h[start..|h| - 0];
  }

  /**
    The output buffer. history is everything written so far; a ring starts with whatever it
    held before, so that every distance up to its size has a meaning. The ring's size is a
    power of two in the source, where masking an offset is taking it modulo the size.
   */
  class Output {
    const out: array<byte>           // from pOut_buf_start to pOut_buf_end
    const wraps: bool                // not TINFL_FLAG_USING_NON_WRAPPING_OUTPUT_BUF
    var cur: nat                     // pOut_buf_cur, as an index
    var rounds: nat                  // how often the caller will come back after emptying a full ring
    const sums: bool                 // TINFL_FLAG_PARSE_ZLIB_HEADER or TINFL_FLAG_COMPUTE_ADLER32
    var check: nat                   // m_check_adler32
    ghost var history: seq<byte>
    ghost const start: nat           // where in history the output begins

    ghost predicate Valid()
      reads this, out
    {
      && cur <= out.Length && 0 < out.Length
      && Window(history, out[..]) && Summed(check, sums, history, start, cur)
      && (if wraps then out.Length <= |history| && (cur - |history|) % out.Length == 0
          else cur == |history| && rounds == 0)
    }

    /** How many more bytes can be written. */
    ghost function Left(): nat
      requires cur <= out.Length
      reads this
    {
      rounds * out.Length + (out.Length - cur)
    }

    constructor Ring(ring: array<byte>, rounds: nat, sums: bool)
      requires 0 < ring.Length
      ensures Valid() && wraps && out == ring && cur == 0 && history == ring[..] && Left() == (rounds + 1) * ring.Length
      ensures this.sums == sums && start == |history|
    {
      out, wraps, cur := ring, true, 0;
      this.sums, check, start := sums, 1, ring.Length;
      this.rounds := rounds;
      history := ring[..];
      new;
      forall i: nat | i < |history| ensures history[i] == out[..][i % |out[..]|] {
        SmallMod(i, |out[..]|);
      }
      assert (0 - |history|) % out.Length == 0 by { ModUnique(0 - |history|, out.Length, -1, 0); }
    }

    constructor Whole(size: nat, sums: bool)
      requires 0 < size
      ensures Valid() && !wraps && fresh(out) && out.Length == size && history == [] && Left() == size
      ensures this.sums == sums && start == 0
    {
      this.sums, check, start := sums, 1, 0;
      out := new byte[size](_ => 0);
      wraps, cur, rounds, history := false, 0, 0, [];
    }

    /** Up to the current offset the buffer holds the end of what has been written. */
    lemma RoundHeld()
      requires Valid()
      ensures cur <= |history| && out[..cur] == history[|history| - cur..]
    {
      hide Summed;
      var n := |history|;
      forall k: nat | k < cur ensures out[k] == history[n - cur + k] {
        assert (n - cur + k) % out.Length == k by {
          if wraps {
            SameMod(k, n - cur + k, out.Length);
          }
          SmallMod(k, out.Length);
        }
      }
    }

    /** The checksum at the end of a call: that of the rounds before, continued over this one. */
    method Total() returns (sum: nat)
      requires Valid()
      ensures Summed(sum, sums, history, start, 0)
      ensures sums ==> sum == Adler32.Adler(1, history[start..])
    {
      hide Window, Adler32.Adler, Summed;
      RoundHeld();
      ghost var s := SummedRound(check, sums, history, start, cur);
      sum := check;
      if sums {
        sum := CheckedSum();
      }
    }

    method CheckedSum() returns (sum: nat)
      requires Valid()
      ensures sum == Adler32.Adler(check, out[..cur])
    {
      hide Window, Adler32.Adler;
      sum := Adler32.Adler32(check, out[..cur]);
    }

    /**
      The waiting loop in front of every store. A full ring is handed to the caller, who may
      come back with it empty; a full buffer that does not wrap ends the run. On the way out
      the round is added to the checksum.
     */
    method MakeRoom() returns (ok: bool)
      requires Valid()
      modifies this`cur, this`rounds, this`check
      ensures Valid() && Left() == old(Left()) && (ok <==> Left() > 0)
      ensures ok ==> cur < out.Length
      ensures !ok ==> cur == old(cur)
    {
      hide Window, Summed;
      if cur >= out.Length {
        if rounds == 0 {
          return false;
        }
        Wrapped(|history|, out.Length);
        assert rounds * out.Length == (rounds - 1) * out.Length + out.Length by { MulMinus(out.Length, rounds, 1); }
        check := Total();
        cur, rounds := 0, rounds - 1;
      }
      ok := true;
    }

    method Put(b: byte)
      requires Valid() && cur < out.Length
      modifies this, out
      ensures Valid() && history == old(history) + [b] && cur == old(cur) + 1 && Left() == old(Left()) - 1
    {
      hide Summed;
      SummedPut(check, sums, history, start, cur, b);
      ghost var was := out[..];
      assert cur == |history| % out.Length by {
        if wraps { SameMod(cur, |history|, out.Length); }
        SmallMod(cur, out.Length);
      }
      WindowPush(history, was, b, cur);
      out[cur] := b;
      assert out[..] == was[cur := b];
      cur := cur + 1;
      history := history + [b];
    }

    /** from is the offset the next byte would be written at, were the ring never to wrap. */
    ghost predicate Aligned(from: nat)
      requires 0 < out.Length
      reads this
    {
      if wraps then (from - |history|) % out.Length == 0 else from == |history|
    }

    /** The byte dist places back, counting from the offset from. */
    method Back(from: nat, dist: nat) returns (b: byte)
      requires Valid() && 1 <= dist <= out.Length && dist <= |history| && Aligned(from)
      ensures b == history[|history| - dist]
    {
      WindowBack(history, out[..], dist, from);
      if !wraps { SmallMod(from - dist, out.Length); }
      b := out[if wraps then (from - dist) % out.Length else from - dist];
    }

    /** One byte of a match, after waiting for room. */
    method CopyOne(from: nat, dist: nat) returns (ok: bool)
      requires Valid() && 1 <= dist <= out.Length && dist <= |history| && Aligned(from)
      modifies this, out
      ensures Valid() && (ok <==> old(Left()) > 0)
      ensures ok ==>
              history == old(history) + [old(history)[|old(history)| - dist]] && Aligned(from + 1)
              && Left() == old(Left()) - 1
      ensures !ok ==> history == old(history)
    {
      ok := MakeRoom();
      if ok {
        NextMod(from, |history|, out.Length);
        var b := Back(from, dist);
        Put(b);
      }
    }

    /**
      Copying byte by byte, with the source offset taken modulo the ring's size and a stop
      whenever the buffer is full (state 53).
     */
    method CopySlowly(start: nat, dist: nat, count: nat) returns (ok: bool)
      requires Valid() && 1 <= dist <= out.Length && (wraps || dist <= cur) && start == cur
      modifies this, out
      ensures Valid() && (ok <==> old(Left()) >= count)
      ensures ok ==> history == CopyBack(old(history), count, dist) && Left() == old(Left()) - count
      ensures !ok ==> history == CopyBack(old(history), old(Left()), dist)
    {
      hide CopyBack, Window, Aligned, Left, Summed;
      ghost var h, k := history, 0;
      CopyNone(h, dist);
      AlignedHere();
      var from, counter := start, count;
      while counter > 0
        invariant Valid() && Aligned(from) && k + counter == count && Left() + k == old(Left())
        invariant |history| == |h| + k && history == CopyBack(h, k, dist)
      {
        counter := counter - 1;
        CopyBackLast(h, k + 1, dist);
        ok := CopyOne(from, dist);
        if !ok {
          return;
        }
        from, k := from + 1, k + 1;
      }
      ok := true;
    }

    lemma AlignedHere()
      requires Valid()
      ensures Aligned(cur)
    {
    }

    /** Copying three bytes at a time, where neither end of the copy can run off the buffer. */
    method CopyFast(src: nat, dist: nat, count: nat)
      requires Valid() && 1 <= dist <= out.Length && (wraps || dist <= cur)
      requires src == if wraps then (cur - dist) % out.Length else cur - dist
      requires cur + count <= out.Length && src + count <= out.Length
      modifies this, out
      ensures Valid() && history == CopyBack(old(history), count, dist) && Left() == old(Left()) - count
    {
      hide CopyBack, Window, Summed;
      ghost var h, k := history, 0;
      CopyNone(h, dist);
      var s, counter := src, count;
      while counter > 2
        invariant Valid() && k + counter == count && cur == old(cur) + k && s == src + k && Left() + k == old(Left())
        invariant history == CopyBack(h, k, dist)
      {
        CopyByte(s, h, k, dist, src);
        CopyByte(s + 1, h, k + 1, dist, src);
        CopyByte(s + 2, h, k + 2, dist, src);
        s, counter, k := s + 3, counter - 3, k + 3;
      }
      if counter > 0 {
        CopyByte(s, h, k, dist, src);
        if counter > 1 {
          CopyByte(s + 1, h, k + 1, dist, src);
        }
      }
    }

    /** One of the unrolled stores. */
    method CopyByte(s: nat, ghost h: seq<byte>, ghost k: nat, ghost dist: nat, ghost src: nat)
      requires Valid() && 1 <= dist <= out.Length && cur < out.Length && s < out.Length && dist <= |h|
      requires history == CopyBack(h, k, dist) && k <= cur && s == src + k
      requires src == if wraps then (cur - k - dist) % out.Length else cur - k - dist
      modifies this, out
      ensures Valid() && history == CopyBack(h, k + 1, dist) && cur == old(cur) + 1 && Left() == old(Left()) - 1
    {
      hide CopyBack, Summed;
      CopyBackLast(h, k + 1, dist);
      if wraps { Shifted(cur - k - dist, k, out.Length); }
      WindowBack(history, out[..], dist, cur);
      SmallMod(s, out.Length);
      Put(out[s]);
    }

    /** The match copy of tinfl_decompress. */
    method CopyMatch(dist: nat, count: nat) returns (ok: bool)
      requires Valid() && 1 <= dist <= out.Length && (wraps || dist <= cur)
      modifies this, out
      ensures Valid() && (ok <==> old(Left()) >= count)
      ensures ok ==> history == CopyBack(old(history), count, dist) && Left() == old(Left()) - count
      ensures !ok ==> history == CopyBack(old(history), old(Left()), dist)
    {
      var src := if wraps then (cur - dist) % out.Length else cur - dist;
      if (if cur < src then src else cur) + count > out.Length {
        ok := CopySlowly(cur, dist, count);
      } else {
        CopyFast(src, dist, count);
        ok := true;
      }
    }
  }

  lemma CopyNone(h: seq<byte>, dist: nat)
    requires 1 <= dist <= |h|
    ensures CopyBack(h, 0, dist) == h
  {
  }

  lemma Shifted(x: int, k: nat, n: nat)
    requires n > 0 && x % n + k < n
    ensures (x + k) % n == x % n + k
  {
    ModUnique(x + k, n, x / n, x % n + k);
  }
}
