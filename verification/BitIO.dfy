/**
  The compressor's bit writer (TDEFL_PUT_BITS) and the inflater's bit reader
  (TINFL_NEED_BITS, TINFL_GET_BITS, TINFL_SKIP_BITS).
 */
module BitIO {
  import opened Bits

  lemma {:induction false} ShlBound(b: nat, l: nat, k: nat)
    requires b < Pow2(l)
    ensures Shl(b, k) < Pow2(l + k)
  {
    if k != 0 { ShlBound(b, l, k - 1); }
  }

  /** Below 2^n, truncation to a wider word changes nothing. */
  lemma LowWide(v: nat, n: nat, width: nat)
    requires v < Pow2(n) && n <= width
    ensures Low(v, width) == v
  {
    Pow2Mono(n, width);
    LowSmall(v, width);
  }

  /** The k bits of v end the bit string s; the first eight of them are v's low byte. */
  lemma LowByte(v: nat, s: seq<bool>, k: nat)
    requires v < Pow2(k) && 8 <= k <= |s| && ToBits(v, k) == s[|s| - k..]
    ensures Low(v, 8) < 256 && Shr(v, 8) < Pow2(k - 8)
    ensures s[..|s| - k] + ToBits(Low(v, 8), 8) == s[..|s| - k + 8]
    ensures ToBits(Shr(v, 8), k - 8) == s[|s| - k + 8..]
  {
    Pow2Values();
    hide ToBits, Pow2, Low, Shr;
    LowBound(v, 8);
    ToBitsSplit(v, 8, k - 8);
    ToBitsOfLow(v, 8);
    ShrBound(v, 8, k - 8);
    FrontTail(s, |s| - k, ToBits(Low(v, 8), 8), ToBits(Shr(v, 8), k - 8));
  }

  lemma FrontTail(s: seq<bool>, n: nat, a: seq<bool>, b: seq<bool>)
    requires n <= |s| && s[n..] == a + b
    ensures s[..n] + a == s[..n + |a|] && b == s[n + |a|..]
  {
    assert s == s[..n] + (a + b);
  }

  /** The output half of a tdefl_compressor. stream is every bit put so far, in order. */
  class BitWriter {
    const out: array<byte>       // m_output_buf
    const end: nat               // m_pOutput_buf_end, as an index
    var pos: nat                 // m_pOutput_buf, as an index
    var bitBuffer: nat           // m_bit_buffer, 32 bits wide
    var bitsIn: nat              // m_bits_in
    ghost var stream: seq<bool>

    /** stream is the bytes written out, then (only once out is full) dropped bytes, then the buffered bits. */
    ghost predicate Tied()
      reads this, out
    {
      && pos <= end <= out.Length
      && bitBuffer < Pow2(bitsIn)
      && bitsIn <= |stream|
      && (|stream| - bitsIn) % 8 == 0
      && 8 * pos <= |stream| - bitsIn
      && (pos < end ==> 8 * pos == |stream| - bitsIn)
      && BytesBits(out[..pos]) == stream[..8 * pos]
      && ToBits(bitBuffer, bitsIn) == stream[|stream| - bitsIn..]
    }

    ghost predicate Valid()
      reads this, out
    {
      Tied() && bitsIn < 8
    }

    constructor (capacity: nat)
      ensures Valid() && stream == [] && end == capacity && pos == 0 && bitsIn == 0 && fresh(out)
    {
      out := new byte[capacity](_ => 0);
      end := capacity;
      pos, bitBuffer, bitsIn := 0, 0, 0;
      stream := [];
    }

    method Store(b: byte)
      requires pos < end <= out.Length
      modifies this`pos, out
      ensures pos == old(pos) + 1 && out[..pos] == old(out[..pos]) + [b]
    {
      out[pos] := b;
      pos := pos + 1;
    }

    /** Move the low byte of the bit buffer to the output, or drop it when the buffer is full. */
    method EmitByte()
      requires Tied() && bitsIn >= 8
      modifies this`pos, this`bitBuffer, this`bitsIn, out
      ensures Tied() && bitsIn == old(bitsIn) - 8
    {
      hide ToBits, BytesBits, Pow2, Low, Shr;
      LowByte(bitBuffer, stream, bitsIn);
      if pos < end {
        BytesBitsPush(out[..pos], Low(bitBuffer, 8));
        Store(Low(bitBuffer, 8));
      }
      bitBuffer := Shr(bitBuffer, 8);
      bitsIn := bitsIn - 8;
    }

    /** Append a field above the bits already buffered; the 32-bit buffer holds them all. */
    method Merge(b: nat, l: nat)
      requires Valid() && l <= 16 && b < Pow2(l)
      modifies this`bitBuffer, this`bitsIn, this`stream
      ensures Tied() && bitsIn == old(bitsIn) + l && stream == old(stream) + ToBits(b, l)
    {
      hide ToBits, BytesBits, Pow2, Or, Shl, Low;
      ShlBound(b, l, bitsIn);
      LowWide(Shl(b, bitsIn), l + bitsIn, 32);
      OrAppends(bitBuffer, bitsIn, b, l);
      ghost var was, k := stream, bitsIn;
      bitBuffer := Or(bitBuffer, Low(Shl(b, bitsIn), 32));
      bitsIn := bitsIn + l;
      stream := was + ToBits(b, l);
      assert stream[|stream| - bitsIn..] == was[|was| - k..] + ToBits(b, l);
      assert stream[..8 * pos] == was[..8 * pos];
    }

    /** TDEFL_PUT_BITS. */
    method Put(b: nat, l: nat)
      requires Valid() && l <= 16 && b < Pow2(l)
      modifies this, out
      ensures Valid() && stream == old(stream) + ToBits(b, l)
    {
      Merge(b, l);
      while bitsIn >= 8
        invariant Tied() && stream == old(stream) + ToBits(b, l)
      {
        EmitByte();
      }
    }

    /** Fill the last byte with zero bits, as at the end of a raw header or of the stream. */
    method PadToByte()
      requires Valid()
      modifies this, out
      ensures Valid() && bitsIn == 0 && |stream| % 8 == 0
      ensures stream == old(stream) + ToBits(0, (8 - |old(stream)| % 8) % 8)
      ensures |stream| <= 8 * end ==> BytesBits(out[..pos]) == stream
    {
      hide ToBits, BytesBits, Pow2, Tied;
      Aligned();
      PadWidth(|stream|, bitsIn);
      if bitsIn != 0 {
        ZeroFits(8 - bitsIn);
        Put(0, 8 - bitsIn);
      } else {
        NoPadding();
        JoinNothing(stream);
      }
      Aligned();
      NoneHeld(|stream|, bitsIn);
      if |stream| <= 8 * end { AllWritten(); }
    }

    lemma Aligned()
      requires Valid()
      ensures bitsIn <= |stream| && (|stream| - bitsIn) % 8 == 0
    {
    }

    lemma AllWritten()
      requires Valid() && bitsIn == 0 && |stream| <= 8 * end
      ensures pos <= out.Length && BytesBits(out[..pos]) == stream
    {
      assert stream[..|stream|] == stream;
    }

    lemma PadWidth(n: nat, k: nat)
      requires k < 8 && k <= n && (n - k) % 8 == 0
      ensures (8 - n % 8) % 8 == if k == 0 then 0 else 8 - k
      ensures (n + (8 - n % 8) % 8) % 8 == 0
    {
    }

    lemma NoneHeld(n: nat, k: nat)
      requires k < 8 && k <= n && (n - k) % 8 == 0 && n % 8 == 0
      ensures k == 0
    {
    }

    lemma NoPadding()
      ensures ToBits(0, 0) == []
    {
    }

    lemma ZeroFits(k: nat)
      ensures 0 < Pow2(k)
    {
    }

    /** No byte has been dropped. */
    ghost predicate Intact()
      reads this
    {
      |stream| == 8 * pos + bitsIn
    }

    lemma RoomLeft()
      requires Valid()
      ensures pos < end ==> Intact()
      ensures |stream| < 8 * end ==> pos < end
      ensures bitsIn < 8
    {
    }

    method Save() returns (m: Mark)
      requires Valid() && Intact()
      ensures m.Of(stream) && m.pos == pos
    {
      m := Mark(pos, bitBuffer, bitsIn);
    }

    /** Forget everything after a mark. */
    method Rewind(m: Mark, ghost st: seq<bool>)
      requires Valid() && m.Of(st) && st <= stream && m.pos <= end
      modifies this`pos, this`bitBuffer, this`bitsIn, this`stream
      ensures Valid() && Intact() && stream == st && pos == m.pos
    {
      hide ToBits, BytesBits, Pow2;
      assert m.pos <= pos;
      BytesBitsPrefix(out[..pos], m.pos);
      assert out[..pos][..m.pos] == out[..m.pos];
      TakeTake(stream, st, 8 * pos, 8 * m.pos);
      assert st[|st| - m.bitsIn..] == st[8 * m.pos..];
      pos, bitBuffer, bitsIn := m.pos, m.bitBuffer, m.bitsIn;
      stream := st;
    }

    /** Hand out the bytes written so far and start over at the beginning of the buffer; the buffered bits stay. */
    method Take() returns (bytes: seq<byte>)
      requires Valid() && Intact()
      modifies this`pos, this`stream
      ensures Valid() && Intact() && pos == 0 && |bytes| == old(pos)
      ensures BytesBits(bytes) + stream == old(stream)
    {
      hide ToBits, BytesBits;
      bytes := out[..pos];
      stream := stream[8 * pos..];
      pos := 0;
      NoBits();
      assert out[..0] == [] && stream[..0] == [];
    }
  }

  lemma TakeTake(s: seq<bool>, t: seq<bool>, n: nat, m: nat)
    requires m <= n <= |s| && m <= |t| && t <= s
    ensures s[..n][..m] == t[..m]
  {
  }

  lemma NoBits()
    ensures BytesBits([]) == []
  {
  }

  /** What tdefl_flush_block saves before trying a block. */
  datatype Mark = Mark(pos: nat, bitBuffer: nat, bitsIn: nat)
  {
    /** It was taken where the stream was st, with nothing dropped. */
    ghost predicate Of(st: seq<bool>) {
      && bitsIn < 8 && bitBuffer < Pow2(bitsIn)
      && |st| == 8 * pos + bitsIn && ToBits(bitBuffer, bitsIn) == st[8 * pos..]
    }
  }

  lemma {:induction false} BytesBitsPrefix(s: seq<byte>, n: nat)
    requires n <= |s|
    ensures BytesBits(s[..n]) == BytesBits(s)[..8 * n]
  {
    BytesBitsAppend(s[..n], s[n..]);
    assert s[..n] + s[n..] == s;
  }

  // ---------- input in pieces ----------

  /** The bytes of a list of buffers. */
  function Concat(buffers: seq<seq<byte>>): seq<byte> {
    if buffers == [] then [] else buffers[0] + Concat(buffers[1..])
  }

  /** a is how b ends. */
  ghost predicate EndOf<T>(a: seq<T>, b: seq<T>) {
    |a| <= |b| && b[|b| - |a|..] == a
  }

  /** The current buffer and the later ones are how everything supplied ends. */
  ghost predicate Supplied(input: seq<byte>, later: seq<seq<byte>>, all: seq<byte>) {
    EndOf(input + Concat(later), all)
  }

  lemma EndOfEnd<T>(a: seq<T>, b: seq<T>, c: seq<T>)
    requires EndOf(b, c) && EndOf(a, b)
    ensures EndOf(a, c)
  {
    assert c[|c| - |a|..] == c[|c| - |b|..][|b| - |a|..];
  }

  /** The next byte, in front of the bits of those behind it. */
  lemma NextByte(v: nat, n: nat, c: byte, s: seq<byte>)
    requires v < Pow2(n) && n + 8 <= 64
    ensures var w := Or(v, Low(Shl(c, n), 64));
            w < Pow2(n + 8) && ToBits(w, n + 8) + BytesBits(s) == ToBits(v, n) + BytesBits([c] + s)
  {
    hide ToBits, Or, Shl, Low, Pow2, BytesBits;
    ByteFits(c);
    ShlBound(c, 8, n);
    LowWide(Shl(c, n), 8 + n, 64);
    OrAppends(v, n, c, 8);
    BytesBitsAppend([c], s);
    OneByte(c);
    JoinAssoc(ToBits(v, n), ToBits(c, 8), BytesBits(s));
  }

  lemma ByteFits(c: byte)
    ensures c < Pow2(8)
  {
    Pow2Values();
  }

  lemma OneByte(c: byte)
    ensures BytesBits([c]) == ToBits(c, 8)
  {
    hide ToBits;
    assert [c][1..] == [];
  }

  /**
    The input half of a tinfl_decompressor: an input buffer, those the caller will still come
    with, and a 64-bit bit buffer.
   */
  class BitReader {
    var input: seq<byte>
    var later: seq<seq<byte>>    // the input buffers of the calls to come
    var cur: nat                 // pIn_buf_cur, as an index
    var bitBuf: nat              // m_bit_buf
    var numBits: nat             // m_num_bits
    ghost const all: seq<byte>   // everything the caller supplies

    ghost predicate Valid()
      reads this
    {
      cur <= |input| && numBits <= 64 && bitBuf < Pow2(numBits) && Supplied(input, later, all)
    }

    /** The bytes not yet taken. */
    ghost function Unread(): seq<byte>
      requires cur <= |input|
      reads this
    {
      input[cur..] + Concat(later)
    }

    /** Every bit not yet consumed: those buffered, then those of the unread bytes. */
    ghost function Rest(): seq<bool>
      requires Valid()
      reads this
    {
      ToBits(bitBuf, numBits) + BytesBits(Unread())
    }

    /** Of earlier input buffers less than a byte is held. */
    ghost predicate Snug()
      reads this
    {
      numBits < 8 * cur + 8
    }

    constructor (input: seq<byte>, later: seq<seq<byte>>)
      ensures Valid() && all == input + Concat(later) && numBits == 0 && Rest() == BytesBits(all) && Snug()
    {
      this.input, this.later, all := input, later, input + Concat(later);
      cur, bitBuf, numBits := 0, 0, 0;
      new;
      assert all[0..] == all && input[0..] == input;
      assert ToBits(0, 0) + BytesBits(all) == BytesBits(all);
    }

    /** The next call's input buffer, once the previous one is used up. */
    method Refill()
      requires Valid() && cur == |input| && later != []
      modifies this`input, this`cur, this`later
      ensures Valid() && Unread() == old(Unread()) && cur == 0 && later == old(later[1..])
    {
      hide Pow2;
      ghost var end := Concat(later);
      assert input[cur..] + end == end && (input + end)[|input|..] == end;
      EndOfEnd(end, input + end, all);
      input, cur, later := later[0], 0, later[1..];
      assert input[0..] == input;
    }

    /**
      The waiting loop of TINFL_GET_BYTE: a used-up input makes the coroutine return to its
      caller, who comes back with the next buffer, as long as there is one. Nothing else changes
      while it waits.
     */
    method Await() returns (ok: bool)
      requires Valid()
      modifies this`input, this`cur, this`later
      ensures Valid() && Unread() == old(Unread()) && Rest() == old(Rest())
      ensures
        if ok then cur < |input| && (cur == 0 || cur == old(cur))
        else Unread() == [] && Rest() == ToBits(bitBuf, numBits)
      ensures old(cur < |input|) ==> ok && cur == old(cur) && input == old(input) && later == old(later)
    {
      hide Pow2, ToBits, BytesBits, Supplied;
      while cur >= |input|
        invariant Valid() && Unread() == old(Unread()) && (cur == 0 || cur == old(cur))
        invariant old(cur < |input|) ==> cur == old(cur) && input == old(input) && later == old(later)
        decreases |later|
      {
        if later == [] {
          assert input[cur..] == [] && Concat(later) == [];
          NoBits();
          JoinNothing(ToBits(bitBuf, numBits));
          return false;
        }
        Refill();
      }
      ok := true;
    }

    /** Take one input byte into the bit buffer. */
    method TakeByte()
      requires Valid() && cur < |input| && numBits + 8 <= 64
      modifies this`cur, this`bitBuf, this`numBits
      ensures Valid() && Rest() == old(Rest())
      ensures cur == old(cur) + 1 && numBits == old(numBits) + 8
    {
      hide ToBits, BytesBits, Or, Shl, Low, Pow2, Supplied;
      var c: nat := input[cur];
      ghost var s := input[cur + 1..] + Concat(later);
      NextByte(bitBuf, numBits, c, s);
      assert input[cur..] + Concat(later) == [input[cur]] + s;
      bitBuf := Or(bitBuf, Low(Shl(c, numBits), 64));
      numBits := numBits + 8;
      cur := cur + 1;
    }

    /**
      TINFL_NEED_BITS, entered when fewer than n bits are buffered. A false result means that
      the input ends before the n bits do; nothing is lost then.
     */
    method NeedBits(n: nat) returns (ok: bool)
      requires Valid() && n <= 16
      modifies this
      ensures Valid() && Rest() == old(Rest())
      ensures ok <==> n <= |old(Rest())|
      ensures ok ==> n <= numBits && (old(Snug()) ==> numBits < 8 * cur + 8 + n)
      ensures !ok ==> Unread() == []
      ensures numBits == old(numBits) || numBits < n + 8
    {
      hide Pow2, ToBits, BytesBits, Supplied;
      while numBits < n
        invariant Valid() && Rest() == old(Rest())
        invariant numBits == old(numBits) || numBits < n + 8
        invariant old(Snug()) ==> numBits < 8 * cur + 8 + n
      {
        ok := Await();
        if !ok {
          return;
        }
        TakeByte();
      }
      return true;
    }

    /** Drop n buffered bits. */
    method Drop(n: nat)
      requires Valid() && n <= numBits
      modifies this`bitBuf, this`numBits
      ensures Valid() && Rest() == old(Rest())[n..] && numBits == old(numBits) - n
    {
      hide ToBits, BytesBits, Pow2, Shr, Supplied;
      ToBitsSplit(bitBuf, n, numBits - n);
      ShrBound(bitBuf, n, numBits - n);
      bitBuf := Shr(bitBuf, n);
      numBits := numBits - n;
    }

    /** TINFL_GET_BITS. */
    method GetBits(n: nat) returns (ok: bool, b: nat)
      requires Valid() && n <= 16
      modifies this
      ensures Valid()
      ensures ok <==> n <= |old(Rest())|
      ensures ok ==> b < Pow2(n) && ToBits(b, n) == old(Rest())[..n] && Rest() == old(Rest())[n..]
      ensures ok && old(Snug()) ==> Snug()
      ensures !ok ==> Unread() == [] && Rest() == old(Rest())
    {
      hide ToBits, BytesBits, Pow2, Low, Supplied;
      b := 0;
      ok := NeedBits(n);
      if ok {
        b := Low(bitBuf, n);
        LowBound(bitBuf, n);
        ToBitsOfLow(bitBuf, n);
        ToBitsSplit(bitBuf, n, numBits - n);
        Drop(n);
      }
    }

    /** TINFL_SKIP_BITS. */
    method SkipBits(n: nat) returns (ok: bool)
      requires Valid() && n <= 16
      modifies this
      ensures Valid()
      ensures ok <==> n <= |old(Rest())|
      ensures Rest() == if ok then old(Rest())[n..] else old(Rest())
      ensures ok && old(Snug()) ==> Snug()
      ensures !ok ==> Unread() == []
    {
      hide ToBits, BytesBits, Pow2, Supplied;
      ok := NeedBits(n);
      if ok { Drop(n); }
    }

    /** What is unread is the end of what this buffer and the later ones hold, or ends with all of that. */
    ghost predicate Kept()
      requires Valid()
      reads this
    {
      SameEnd(Rest(), BytesBits(input + Concat(later)))
    }

    /**
      Whole bytes that were only looked at go back to the input buffer, as far as they came from
      it. None stays behind unless it came from an earlier one.
     */
    method PutBack()
      requires Valid()
      modifies this`cur, this`bitBuf, this`numBits
      ensures Valid() && numBits % 8 == old(numBits) % 8
      ensures old(Kept()) ==> Rest() == old(Rest())
      ensures old(Snug()) ==> numBits < 8
    {
      hide ToBits, BytesBits, Low, Pow2, SameEnd, Supplied, Concat;
      ghost var on, rest, whole := Kept(), Rest(), input + Concat(later);
      var bits: nat, back: nat := numBits, cur;
      BackTo(whole, back);
      while back > 0 && bits >= 8
        invariant back <= cur && bits + 8 * cur == numBits + 8 * back
        invariant on ==> ToBits(bitBuf, bits) + BytesBits(whole[back..]) == rest
        modifies {}
      {
        if on { ByteBack(bitBuf, bits, whole, back, rest); }
        back, bits := back - 1, bits - 8;
      }
      LowBound(bitBuf, bits);
      ToBitsOfLow(bitBuf, bits);
      BackTo(whole, back);
      SameBits(numBits, bits, cur - back);
      cur, numBits, bitBuf := back, bits, Low(bitBuf, bits);
    }

    /** What the caller still has: the rest of this buffer, and the later ones. */
    method LeftOver() returns (left: seq<seq<byte>>)
      requires Valid()
      ensures Concat(left) == Unread()
    {
      left := [input[cur..]] + later;
      assert left[1..] == later;
    }

    lemma BackTo(whole: seq<byte>, back: nat)
      requires back <= |input| && whole == input + Concat(later)
      ensures whole[back..] == input[back..] + Concat(later)
    {
    }
  }

  lemma SameBits(n: nat, m: nat, bytes: nat)
    requires n == m + 8 * bytes
    ensures n % 8 == m % 8
  {
  }

  /** The end of the longer string is the shorter one. */
  ghost predicate SameEnd(a: seq<bool>, b: seq<bool>) {
    EndOf(a, b) || EndOf(b, a)
  }

  lemma KeptAtEnd(r: BitReader)
    requires r.Valid() && EndOf(r.Rest(), BytesBits(r.all))
    ensures r.Kept()
  {
    hide ToBits, BytesBits;
    var s, n := r.input + Concat(r.later), |r.all|;
    assert r.all == r.all[..n - |s|] + s;
    BytesBitsAppend(r.all[..n - |s|], s);
    EndsMeet(r.Rest(), BytesBits(s), BytesBits(r.all));
  }

  /** Of two ends of a string the shorter is the end of the longer. */
  lemma EndsMeet(a: seq<bool>, b: seq<bool>, c: seq<bool>)
    requires EndOf(a, c) && EndOf(b, c)
    ensures SameEnd(a, b)
  {
    if |a| <= |b| {
      assert b[|b| - |a|..] == c[|c| - |b|..][|b| - |a|..] == c[|c| - |a|..];
    } else {
      assert a[|a| - |b|..] == c[|c| - |a|..][|a| - |b|..] == c[|c| - |b|..];
    }
  }

  /** Different bytes have different bits. */
  lemma {:induction false} BytesBitsInjective(s: seq<byte>, t: seq<byte>)
    requires BytesBits(s) == BytesBits(t)
    ensures s == t
  {
    hide ToBits, Pow2;
    if s != [] && t != [] {
      var a, b := BytesBits(s), BytesBits(t);
      assert a[..8] == ToBits(s[0], 8) && b[..8] == ToBits(t[0], 8);
      assert a[8..] == BytesBits(s[1..]) && b[8..] == BytesBits(t[1..]);
      Pow2Table();
      ToBitsInjective(s[0], t[0], 8);
      BytesBitsInjective(s[1..], t[1..]);
      assert s == [s[0]] + s[1..] && t == [t[0]] + t[1..];
    } else {
      assert |BytesBits(s)| == 8 * |s| && |BytesBits(t)| == 8 * |t|;
    }
  }

  /** A byte string cut into pieces of the given sizes, as far as it goes, and the rest. */
  function Cut(s: seq<byte>, sizes: seq<nat>): (pieces: seq<seq<byte>>)
    ensures Concat(pieces) == s && pieces != []
  {
    if sizes == [] then [s]
    else
      var n := if sizes[0] < |s| then sizes[0] else |s|;
      var pieces := [s[..n]] + Cut(s[n..], sizes[1..]);
      assert pieces[1..] == Cut(s[n..], sizes[1..]);
      pieces
  }

  /** The last eight bits held are the byte before the unread ones. */
  lemma ByteBack(v: nat, n: nat, s: seq<byte>, c: nat, rest: seq<bool>)
    requires 8 <= n && 0 < c <= |s|
    requires ToBits(v, n) + BytesBits(s[c..]) == rest && SameEnd(rest, BytesBits(s))
    ensures ToBits(v, n - 8) + BytesBits(s[c - 1..]) == rest
  {
    hide ToBits, BytesBits;
    var all, end := BytesBits(s), BytesBits(s[c - 1..]);
    assert s == s[..c - 1] + s[c - 1..];
    BytesBitsAppend(s[..c - 1], s[c - 1..]);
    ToBitsSplit(v, n - 8, 8);
    var front := ToBits(v, n - 8);
    assert rest[..n - 8] == front;
    assert |rest| == |front| + |end|;
    assert all[|all| - |end|..] == end;
    assert rest[n - 8..] == end;
    assert rest == rest[..n - 8] + rest[n - 8..];
  }

  // ---------- what is put is what is got ----------

  /** The stream written for a list of (value, width) pairs. */
  function PutAll(items: seq<(nat, nat)>): seq<bool> {
    if items == [] then [] else ToBits(items[0].0, items[0].1) + PutAll(items[1..])
  }

  /** Reading fields of the given widths off a bit string; None when it is too short. */
  datatype Fields = TooShort | Fields(values: seq<nat>, rest: seq<bool>)

  function GetAll(bits: seq<bool>, widths: seq<nat>): Fields {
    if widths == [] then Fields([], bits)
    else if |bits| < widths[0] then TooShort
    else
      match GetAll(bits[widths[0]..], widths[1..])
      case TooShort => TooShort
      case Fields(vs, rest) => Fields([Val(bits[..widths[0]])] + vs, rest)
  }

  function Values(items: seq<(nat, nat)>): seq<nat> {
    if items == [] then [] else [items[0].0] + Values(items[1..])
  }

  function Widths(items: seq<(nat, nat)>): seq<nat> {
    if items == [] then [] else [items[0].1] + Widths(items[1..])
  }

  /** Fields put in order are read back as the same values, whatever follows them. */
  lemma {:induction false} PutThenGet(items: seq<(nat, nat)>, tail: seq<bool>)
    requires forall it <- items :: it.0 < Pow2(it.1)
    ensures GetAll(PutAll(items) + tail, Widths(items)) == Fields(Values(items), tail)
  {
    hide ToBits, Val, Pow2;
    if items == [] {
      JoinNothing(tail);
    } else {
      var (v, w) := items[0];
      assert items[0] in items && forall it <- items[1..] :: it in items;
      PutThenGet(items[1..], tail);
      var front, behind := ToBits(v, w), PutAll(items[1..]) + tail;
      JoinAssoc(front, PutAll(items[1..]), tail);
      assert (front + behind)[..w] == front && (front + behind)[w..] == behind;
      ValOfToBits(v, w);
      LowSmall(v, w);
    }
  }
}
