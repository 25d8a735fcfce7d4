/**
  The block loop of tinfl_decompress. Whatever the input it terminates; on the bits of a list of
  blocks of which the last is marked final it produces exactly the data of those blocks.
 */
module InflateBlocks {
  import opened Bits
  import opened BitIO
  import opened Canonical
  import opened Tokens
  import opened CodeBuffer
  import opened TokenWriter
  import opened Lz77
  import opened OutBuf
  import opened DynamicHeader
  import opened NodeCount
  import opened HuffTable
  import opened HuffDecode
  import opened HeaderReader
  import opened InflateBody
  import opened Lenient
  import opened FixedCodes
  import opened Blocks
  import CodeLengthRle

  // ---------- stored blocks ----------

  lemma ByteAligned(r: BitReader)
    requires r.Valid()
    ensures r.numBits % 8 == |r.Rest()| % 8
    ensures r.numBits == 0 ==> r.Rest() == BytesBits(r.Unread())
  {
    hide Supplied, ToBits, BytesBits;
    if r.numBits == 0 { assert [] + BytesBits(r.Unread()) == BytesBits(r.Unread()); }
  }

  lemma BytesFirst(s: seq<byte>)
    requires s != []
    ensures BytesBits(s)[..8] == ToBits(s[0], 8) && BytesBits(s)[8..] == BytesBits(s[1..])
  {
  }

  lemma SameByte(s: seq<byte>, v: byte, more: seq<bool>)
    requires s != [] && BytesBits(s) == ToBits(v, 8) + more
    ensures s[0] == v && BytesBits(s[1..]) == more
  {
    hide BytesBits, ToBits;
    BytesFirst(s);
    assert (ToBits(v, 8) + more)[..8] == ToBits(v, 8) && (ToBits(v, 8) + more)[8..] == more;
    Pow2Table();
    ToBitsInjective(s[0], v, 8);
  }

  /** One byte straight from the input. */
  method TakeRaw(r: BitReader, ghost v: byte, ghost more: seq<bool>) returns (b: byte)
    requires r.Valid() && r.numBits == 0 && r.cur < |r.input|
    modifies r`cur
    ensures r.Valid() && |r.Rest()| + 8 == |old(r.Rest())| && r.cur == old(r.cur) + 1
    ensures old(r.Rest()) == ToBits(v, 8) + more ==> b == v && r.Rest() == more
    ensures old(r.Rest()) == ToBits(b, 8) + r.Rest()
  {
    hide Supplied, ToBits;
    ByteAligned(r);
    b := r.input[r.cur];
    ghost var s := r.Unread();
    BytesFirst(s);
    assert BytesBits(s) == BytesBits(s)[..8] + BytesBits(s)[8..];
    assert s[1..] == r.input[r.cur + 1..] + Concat(r.later);
    if r.Rest() == ToBits(v, 8) + more { SameByte(s, v, more); }
    r.cur := r.cur + 1;
    ByteAligned(r);
  }

  /** One byte of a stored block's header: from the bit buffer while that holds any bits. */
  method ReadByte(r: BitReader, ghost v: byte, ghost more: seq<bool>) returns (ok: bool, b: byte)
    requires r.Valid() && |r.Rest()| % 8 == 0
    modifies r
    ensures r.Valid() && |r.Rest()| <= |old(r.Rest())| && |r.Rest()| % 8 == 0
    ensures old(r.Rest()) == ToBits(v, 8) + more ==> ok && b == v && r.Rest() == more
    ensures (ok && old(r.Snug()) ==> r.Snug()) && (old(r.numBits) == 0 ==> r.numBits == 0)
    ensures ok ==> old(r.Rest()) == ToBits(b, 8) + r.Rest()
  {
    hide Supplied, ToBits, Pow2, BytesBits, BitReader.Rest;
    Pow2Table();
    ByteAligned(r);
    b := 0;
    if r.numBits > 0 {
      var n;
      ghost var was := r.Rest();
      ok, n := r.GetBits(8);
      if ok {
        b := n;
        assert was == was[..8] + was[8..];
        if was == ToBits(v, 8) + more { GotField(n, v, 8, was, more); }
      }
    } else {
      ok := r.Await();
      if ok {
        b := TakeRaw(r, v, more);
      } else {
        NoBits();
      }
    }
  }

  lemma SixteenBits(v: nat)
    requires v < 0x1_0000
    ensures ToBits(v, 16) == ToBits(v % 256, 8) + ToBits(v / 256, 8)
  {
    hide Shr, Low, ToBits, Pow2;
    ToBitsSplit(v, 8, 8);
    ToBitsOfLow(v, 8);
    Pow2Table();
    Masked(v, 8, 256);
  }

  /** LEN and NLEN are next, and then more. */
  ghost predicate LengthAhead(rest: seq<bool>, len: nat, nlen: nat, more: seq<bool>) {
    && len < 0x1_0000 && nlen < 0x1_0000
    && rest == ToBits(len % 256, 8) + (ToBits(len / 256, 8) + (ToBits(nlen % 256, 8) + (ToBits(nlen / 256, 8) + more)))
  }

  lemma StoredParts(bytes: seq<byte>, more: seq<bool>)
    requires |bytes| < 0x1_0000
    ensures LengthAhead(StoredBits(bytes) + more, |bytes|, 0xFFFF - |bytes|, BytesBits(bytes) + more)
  {
    hide ToBits, BytesBits;
    SixteenBits(|bytes|);
    SixteenBits(0xFFFF - |bytes|);
    var a, b, c := ToBits(|bytes| % 256, 8), ToBits(|bytes| / 256, 8), ToBits((0xFFFF - |bytes|) % 256, 8);
    var d, e := ToBits((0xFFFF - |bytes|) / 256, 8), BytesBits(bytes);
    assert ((a + b) + (c + d) + e) + more == a + (b + (c + (d + (e + more))));
  }

  /** LEN and NLEN: refused exactly when they are not each other's complement. */
  method ReadStoredLength(r: BitReader, ghost len: nat, ghost nlen: nat, ghost more: seq<bool>)
    returns (status: Status, count: nat)
    requires r.Valid() && |r.Rest()| % 8 == 0
    modifies r
    ensures r.Valid() && |r.Rest()| % 8 == 0 && |r.Rest()| <= |old(r.Rest())| && count < 0x1_0000
    ensures LengthAhead(old(r.Rest()), len, nlen, more) ==>
              && (if nlen == 0xFFFF - len then status.Ok? && count == len else status.Failed?)
              && r.Rest() == more
    ensures status.Ok? && old(r.Snug()) ==> r.Snug()
    ensures status.Ok? ==> old(r.Rest()) == ToBits(count, 16) + (ToBits(0xFFFF - count, 16) + r.Rest())
  {
    hide Supplied, ToBits, BytesBits, BitReader.Rest;
    ghost var on := LengthAhead(r.Rest(), len, nlen, more);
    ghost var l, m := if on then len else 0, if on then nlen else 0;
    ghost var r3 := ToBits(m / 256, 8) + more;
    ghost var r2 := ToBits(m % 256, 8) + r3;
    count := 0;
    var ok, b0, b1, b2, b3;
    ok, b0 := ReadByte(r, l % 256, ToBits(l / 256, 8) + r2);
    if !ok { return NeedsMoreInput, 0; }
    ok, b1 := ReadByte(r, l / 256, r2);
    if !ok { return NeedsMoreInput, 0; }
    ok, b2 := ReadByte(r, m % 256, r3);
    if !ok { return NeedsMoreInput, 0; }
    ok, b3 := ReadByte(r, m / 256, more);
    if !ok { return NeedsMoreInput, 0; }
    var n: nat, k: nat := b0 as nat + 256 * b1 as nat, b2 as nat + 256 * b3 as nat;
    if n != 0xFFFF - k {
      return Failed, 0;
    }
    LengthTold(b0, b1, b2, b3, n, r.Rest());
    return Ok, n;
  }

  lemma LengthTold(b0: byte, b1: byte, b2: byte, b3: byte, n: nat, rest: seq<bool>)
    requires n == b0 as nat + 256 * b1 as nat && 0xFFFF - n == b2 as nat + 256 * b3 as nat
    ensures ToBits(b0, 8) + (ToBits(b1, 8) + (ToBits(b2, 8) + (ToBits(b3, 8) + rest))) ==
        ToBits(n, 16) + (ToBits(0xFFFF - n, 16) + rest)
  {
    hide ToBits;
    SixteenBits(n);
    SixteenBits(0xFFFF - n);
    JoinAssoc(ToBits(b2, 8), ToBits(b3, 8), rest);
    JoinAssoc(ToBits(b0, 8), ToBits(b1, 8), ToBits(0xFFFF - n, 16) + rest);
  }

  /** From before to after these bytes have been read, and added to the data s. */
  ghost predicate Moved(bytes: seq<byte>, s: seq<byte>, data: seq<byte>, before: seq<bool>, after: seq<bool>) {
    data == s + bytes && before == BytesBits(bytes) + after
  }

  lemma NoneMoved(s: seq<byte>, before: seq<bool>)
    ensures Moved([], s, s, before, before)
  {
    JoinNothing(s);
    JoinNothing(before);
    NoBits();
  }

  lemma MovedMore(a: seq<byte>, b: seq<byte>, s: seq<byte>, mid: seq<byte>, data: seq<byte>, before: seq<bool>,
                  rest: seq<bool>, after: seq<bool>)
    requires Moved(a, s, mid, before, rest) && Moved(b, mid, data, rest, after)
    ensures Moved(a + b, s, data, before, after)
  {
    hide BytesBits;
    BytesBitsAppend(a, b);
    JoinAssoc(s, a, b);
    JoinAssoc(BytesBits(a), BytesBits(b), after);
  }

  lemma OneMoved(b: byte, s: seq<byte>, before: seq<bool>, after: seq<bool>)
    requires before == ToBits(b, 8) + after
    ensures Moved([b], s, s + [b], before, after)
  {
    OneByte(b);
  }

  /** k bytes of a stored block have been copied. */
  ghost predicate Copied(k: nat, rest: seq<bool>, history: seq<byte>, bytes: seq<byte>, start: seq<byte>,
                         more: seq<bool>) {
    k <= |bytes| && rest == BytesBits(bytes[k..]) + more && history == start + bytes[..k]
  }

  lemma CopiedNext(k: nat, rest: seq<bool>, history: seq<byte>, bytes: seq<byte>, start: seq<byte>, more: seq<bool>)
    requires Copied(k, rest, history, bytes, start, more) && k < |bytes|
    ensures rest == ToBits(bytes[k], 8) + (BytesBits(bytes[k + 1..]) + more)
    ensures Copied(k + 1, BytesBits(bytes[k + 1..]) + more, history + [bytes[k]], bytes, start, more)
  {
    hide ToBits;
    assert bytes[k..][1..] == bytes[k + 1..];
    var a, b := ToBits(bytes[k], 8), BytesBits(bytes[k + 1..]);
    assert (a + b) + more == a + (b + more);
    assert bytes[..k + 1] == bytes[..k] + [bytes[k]];
    assert start + (bytes[..k] + [bytes[k]]) == start + bytes[..k] + [bytes[k]];
  }

  /** What a stored block is claimed to hold, with room for it. */
  ghost predicate Copying(r: BitReader, o: Output, k: nat, bytes: seq<byte>, start: seq<byte>, more: seq<bool>)
    requires r.Valid() && o.Valid()
    reads r, o, o.out
  {
    Copied(k, r.Rest(), o.history, bytes, start, more) && |start| + |bytes| <= |o.history| + o.Left()
  }

  method CopyBuffered(r: BitReader, o: Output, ghost k: nat, ghost bytes: seq<byte>, ghost start: seq<byte>,
                      ghost more: seq<bool>, ghost on: bool)
    returns (status: Status, ghost moved: seq<byte>)
    requires r.Valid() && o.Valid() && |r.Rest()| % 8 == 0 && r.numBits > 0
    requires on ==> Copying(r, o, k, bytes, start, more) && k < |bytes|
    modifies r, o, o.out
    ensures r.Valid() && o.Valid() && |r.Rest()| % 8 == 0 && |r.Rest()| <= |old(r.Rest())| && o.Left() <= old(o.Left())
    ensures on ==>
            status.Ok? && Copying(r, o, k + 1, bytes, start, more)
            && o.Left() + |o.history| == old(o.Left() + |o.history|)
    ensures status.Ok? && old(r.Snug()) ==> r.Snug()
    ensures status.Ok? ==> |moved| == 1 && Moved(moved, old(o.history), o.history, old(r.Rest()), r.Rest())
  {
    hide Supplied, ToBits, BytesBits, Copied, Window, Summed, Output.Left, Pow2, BitReader.Rest, Moved;
    Pow2Table();
    if on {
      CopiedNext(k, r.Rest(), o.history, bytes, start, more);
      RoomLeft(k, r.Rest(), o.history, bytes, start, more);
    }
    var ok, b := ReadByte(r, if on then bytes[k] else 0, if on then BytesBits(bytes[k + 1..]) + more else []);
    moved := [b];
    if !ok {
      return NeedsMoreInput, moved;
    }
    OneMoved(b, o.history, old(r.Rest()), r.Rest());
    ok := o.MakeRoom();
    if !ok {
      return HasMoreOutput, moved;
    }
    o.Put(b);
    status := Ok;
  }

  lemma RoomLeft(k: nat, rest: seq<bool>, history: seq<byte>, bytes: seq<byte>, start: seq<byte>, more: seq<bool>)
    requires Copied(k, rest, history, bytes, start, more)
    ensures k <= |bytes| && |history| == |start| + k
  {
  }

  /** As many bytes as the output has room for and the input holds, up to counter. */
  method CopyRun(r: BitReader, o: Output, counter: nat, ghost k: nat, ghost bytes: seq<byte>, ghost start: seq<byte>,
                 ghost more: seq<bool>, ghost on: bool)
    returns (status: Status, n: nat, ghost moved: seq<byte>)
    requires r.Valid() && o.Valid() && r.numBits == 0 && counter > 0
    requires on ==> Copying(r, o, k, bytes, start, more) && k + counter == |bytes|
    modifies r`cur, r`input, r`later, o, o.out
    ensures r.Valid() && o.Valid() && |r.Rest()| <= |old(r.Rest())| && o.Left() <= old(o.Left())
    ensures status.Ok? ==> 1 <= n <= counter
    ensures status.Ok? ==> |moved| == n && Moved(moved, old(o.history), o.history, old(r.Rest()), r.Rest())
    ensures on ==>
            status.Ok? && Copying(r, o, k + n, bytes, start, more)
            && o.Left() + |o.history| == old(o.Left() + |o.history|)
  {
    hide Moved, Supplied, ToBits, BytesBits, Copied, Window, Summed, Output.Left, BitReader.Rest;
    n, moved := 0, [];
    NoneMoved(o.history, r.Rest());
    ByteAligned(r);
    if on {
      CopiedNext(k, r.Rest(), o.history, bytes, start, more);
      RoomLeft(k, r.Rest(), o.history, bytes, start, more);
    }
    var ok := o.MakeRoom();
    if !ok {
      return HasMoreOutput, 0, [];
    }
    ok := r.Await();
    if !ok {
      return NeedsMoreInput, 0, [];
    }
    var room, avail := o.out.Length - o.cur, |r.input| - r.cur;
    var size := if room < avail then room else avail;
    if counter < size { size := counter; }
    while n < size
      invariant n <= size && r.Valid() && o.Valid() && r.numBits == 0 && |r.Rest()| <= |old(r.Rest())|
          && o.Left() <= old(o.Left())
      invariant o.cur + (size - n) <= o.out.Length && r.cur + (size - n) <= |r.input|
      invariant on ==> Copying(r, o, k + n, bytes, start, more) && o.Left() + |o.history| == old(o.Left() + |o.history|)
      invariant |moved| == n && Moved(moved, old(o.history), o.history, old(r.Rest()), r.Rest())
    {
      if on { CopiedNext(k + n, r.Rest(), o.history, bytes, start, more); }
      ghost var h, rest := o.history, r.Rest();
      var b := TakeRaw(r, if on then bytes[k + n] else 0, if on then BytesBits(bytes[k + n + 1..]) + more else []);
      OneMoved(b, h, rest, r.Rest());
      o.Put(b);
      MovedMore(moved, [b], old(o.history), h, o.history, old(r.Rest()), rest, r.Rest());
      n, moved := n + 1, moved + [b];
    }
    status := Ok;
  }

  /**
    The bytes still in the bit buffer, then the rest straight from the input, as much at a time as
    both buffers allow.
   */
  method CopyStored(r: BitReader, o: Output, count: nat, ghost bytes: seq<byte>, ghost start: seq<byte>,
                    ghost more: seq<bool>)
    returns (status: Status, ghost moved: seq<byte>)
    requires r.Valid() && o.Valid() && |r.Rest()| % 8 == 0
    modifies r, o, o.out
    ensures r.Valid() && o.Valid() && |r.Rest()| <= |old(r.Rest())| && o.Left() <= old(o.Left())
    ensures status.Ok? ==> |moved| == count && Moved(moved, old(o.history), o.history, old(r.Rest()), r.Rest())
    ensures old(Copying(r, o, 0, bytes, start, more)) && count == |bytes| ==>
              status.Ok? && o.history == start + bytes && r.Rest() == more
                  && o.Left() + |o.history| == old(o.Left() + |o.history|)
              && (old(r.Snug()) ==> r.Snug())
  {
    hide Moved, Supplied, ToBits, BytesBits, Copied, Window, Summed, Output.Left;
    ghost var on, k := Copying(r, o, 0, bytes, start, more) && count == |bytes|, 0;
    var counter := count;
    moved := [];
    NoneMoved(o.history, r.Rest());
    ByteAligned(r);
    while counter > 0 && r.numBits > 0
      invariant r.Valid() && o.Valid() && |r.Rest()| <= |old(r.Rest())| && |r.Rest()| % 8 == 0
          && o.Left() <= old(o.Left())
      invariant k + counter == count
      invariant on ==> Copying(r, o, k, bytes, start, more) && o.Left() + |o.history| == old(o.Left() + |o.history|)
      invariant old(r.Snug()) ==> r.Snug()
      invariant |moved| == k && Moved(moved, old(o.history), o.history, old(r.Rest()), r.Rest())
    {
      ghost var one, h, rest := [], o.history, r.Rest();
      status, one := CopyBuffered(r, o, k, bytes, start, more, on);
      if !status.Ok? {
        return;
      }
      MovedMore(moved, one, old(o.history), h, o.history, old(r.Rest()), rest, r.Rest());
      moved := moved + one;
      counter, k := counter - 1, k + 1;
    }
    while counter > 0
      invariant r.Valid() && o.Valid() && |r.Rest()| <= |old(r.Rest())| && (counter > 0 ==> r.numBits == 0)
          && o.Left() <= old(o.Left())
      invariant k + counter == count
      invariant on ==> Copying(r, o, k, bytes, start, more) && o.Left() + |o.history| == old(o.Left() + |o.history|)
      invariant old(r.Snug()) ==> r.Snug()
      invariant |moved| == k && Moved(moved, old(o.history), o.history, old(r.Rest()), r.Rest())
    {
      var n;
      ghost var some, h, rest := [], o.history, r.Rest();
      status, n, some := CopyRun(r, o, counter, k, bytes, start, more, on);
      if !status.Ok? {
        return;
      }
      MovedMore(moved, some, old(o.history), h, o.history, old(r.Rest()), rest, r.Rest());
      moved := moved + some;
      counter, k := counter - n, k + n;
    }
    if on { AllCopied(r.Rest(), o.history, bytes, start, more); }
    status := Ok;
  }

  lemma AllCopied(rest: seq<bool>, history: seq<byte>, bytes: seq<byte>, start: seq<byte>, more: seq<bool>)
    requires Copied(|bytes|, rest, history, bytes, start, more)
    ensures rest == more && history == start + bytes
  {
    assert bytes[|bytes|..] == [] && bytes[..|bytes|] == bytes;
    assert BytesBits([]) + more == more;
  }

  // ---------- blocks ----------

  /** A block of the list is next, and there is room for everything. */
  ghost predicate Expected(r: BitReader, o: Output, bs: seq<Block>, pos: nat, more: seq<bool>)
    requires r.Valid() && o.Valid()
    reads r, o, o.out
  {
    && ValidBlocks(o.history, bs) && AllShaped(bs) && bs != []
    && r.Rest() == AllBits(bs, pos, true) + more
    && (pos + |r.Rest()|) % 8 == 0
    && |AllData(o.history, bs)| <= |o.history| + o.Left() && (o.wraps ==> DICT_SIZE <= o.out.Length)
  }

  /** A stored block: skip to the byte boundary, then the length and the bytes. */
  method InflateStored(r: BitReader, o: Output, ghost bytes: seq<byte>, ghost fill: seq<bool>, ghost pos: nat,
                       ghost more: seq<bool>)
    returns (status: Status, ghost read: Accepted)
    requires r.Valid() && o.Valid()
    modifies r, o, o.out
    ensures r.Valid() && o.Valid() && |r.Rest()| <= |old(r.Rest())| && o.Left() <= old(o.Left())
    ensures status.Ok? ==> read.Raw? && BlockRead(read, RoomOf(o), old(o.history), o.history, old(r.Rest()), r.Rest())
    ensures old(StoredPromised(r, o, bytes, fill, pos, more)) ==>
              status.Ok? && o.history == old(o.history) + bytes && r.Rest() == more
                  && o.Left() + |o.history| == old(o.Left() + |o.history|)
              && (old(r.Snug()) ==> r.Snug())
  {
    hide BlockRead, Moved, Supplied, ToBits, BytesBits, StoredBits, StoredPromised, LengthAhead, Copied, Window,
         Summed, Output.Left, Padding, BitReader.Rest;
    ghost var on := StoredPromised(r, o, bytes, fill, pos, more);
    ghost var start := o.history;
    ByteAligned(r);
    if on { StoredAhead(r, o, bytes, fill, pos, more); }
    ghost var len: nat := if on then |bytes| else 0;
    read := Raw([], []);
    var ok := r.SkipBits(r.numBits % 8);
    if !ok {
      return NeedsMoreInput, read;
    }
    ghost var pad, r1 := old(r.Rest())[..|old(r.Rest())| % 8], r.Rest();
    assert old(r.Rest()) == pad + r1;
    var count;
    status, count := ReadStoredLength(r, len, 0xFFFF - len, BytesBits(bytes) + more);
    if !status.Ok? {
      return;
    }
    if on { NoneCopied(bytes, start, more); }
    ghost var moved, r2 := [], r.Rest();
    status, moved := CopyStored(r, o, count, bytes, start, more);
    if status.Ok? {
      read := Raw(pad, moved);
      StoredTold(pad, moved, RoomOf(o), start, o.history, old(r.Rest()), r1, r2, r.Rest());
    }
  }

  /** Behind the byte boundary come the lengths and the bytes, for which there is room. */
  lemma StoredAhead(r: BitReader, o: Output, bytes: seq<byte>, fill: seq<bool>, pos: nat, more: seq<bool>)
    requires r.Valid() && o.Valid() && StoredPromised(r, o, bytes, fill, pos, more)
    ensures |bytes| < 0x1_0000 && |bytes| <= o.Left() && |r.Rest()| % 8 <= |r.Rest()|
    ensures LengthAhead(r.Rest()[|r.Rest()| % 8..], |bytes|, 0xFFFF - |bytes|, BytesBits(bytes) + more)
  {
    hide Supplied, ToBits, BytesBits, StoredBits, Filled, LengthAhead, Window, Summed, Output.Left, Padding,
         BitReader.Rest;
    SamePadding(pos, |r.Rest()|);
    BehindPadding(fill, pos, StoredBits(bytes) + more);
    StoredParts(bytes, more);
  }

  lemma StoredTold(pad: seq<bool>, moved: seq<byte>, room: Room, s: seq<byte>, data: seq<byte>, before: seq<bool>,
                   r1: seq<bool>, r2: seq<bool>, after: seq<bool>)
    requires |pad| == |before| % 8 && before == pad + r1 && |moved| < 0x1_0000
    requires r1 == ToBits(|moved|, 16) + (ToBits(0xFFFF - |moved|, 16) + r2) && Moved(moved, s, data, r2, after)
    ensures BlockRead(Raw(pad, moved), room, s, data, before, after)
  {
    hide BlockRead, ToBits;
    RawTold(pad, moved, room, s, before, r1, r2, after);
  }

  ghost predicate StoredPromised(r: BitReader, o: Output, bytes: seq<byte>, fill: seq<bool>, pos: nat,
                                 more: seq<bool>)
    requires r.Valid() && o.Valid()
    reads r, o, o.out
  {
    && |bytes| < 0x1_0000
    && r.Rest() == Filled(fill, Padding(pos)) + (StoredBits(bytes) + more)
    && (pos + |r.Rest()|) % 8 == 0
    && |bytes| <= o.Left()
  }

  lemma BehindPadding(fill: seq<bool>, pos: nat, x: seq<bool>)
    ensures (Filled(fill, Padding(pos)) + x)[Padding(pos)..] == x
  {
    hide ToBits;
  }

  lemma SamePadding(pos: nat, n: nat)
    requires (pos + n) % 8 == 0
    ensures Padding(pos) == n % 8
  {
  }

  lemma NoneCopied(bytes: seq<byte>, start: seq<byte>, more: seq<bool>)
    ensures Copied(0, BytesBits(bytes) + more, start, bytes, start, more)
  {
    assert bytes[0..] == bytes && start + bytes[..0] == start;
  }

  /** The tables of the fixed codes. */
  method BuildFixed(t0: Table, t1: Table, t2: Table)
    requires Roomy(t0, t1, t2)
    modifies t0, t1, t0.Own(), t1.Own()
    ensures BuiltFor(t0, FixedLit()) && BuiltFor(t1, FixedDist())
  {
    hide FixedLit, FixedDist, Acceptable, Usable, WordsOf, BuiltFor, Complete, Lengths;
    FixedComplete();
    FixedSmall();
    var sizes0 := new nat[288](_ => 0);
    var sizes1 := new nat[32](_ => 5);
    FillFixed(sizes0);
    assert sizes0[..] == FixedLit() && sizes1[..] == FixedDist() by {
      assert sizes0[..] == sizes0[..288];
      FixedAt();
    }
    var ok := BuildFor(t1, sizes1[..]);
    ok := BuildFor(t0, sizes0[..]);
  }

  lemma FixedSmall()
    ensures Lengths(FixedLit()) && Lengths(FixedDist())
  {
    FixedAt();
  }

  /** The content of a block b is next, and there is room for everything. */
  ghost predicate BlockPromised(r: BitReader, o: Output, type': nat, b: Block, pos: nat, more: seq<bool>)
    requires r.Valid() && o.Valid()
    reads r, o, o.out
  {
    && b.Valid(o.history) && b.Shaped() && type' == b.Type()
    && r.Rest() == b.Content(pos) + more
    && (pos + |r.Rest()|) % 8 == 0
    && |b.Data(o.history)| <= |o.history| + o.Left() && (o.wraps ==> DICT_SIZE <= o.out.Length)
  }

  /** The output is none of the table arrays. */
  ghost predicate Unaliased(o: Output, t0: Table, t1: Table, t2: Table) {
    o.out as object !in t0.Own() + t1.Own() + t2.Own()
  }

  /** A dynamic block: its header, which sets up both tables, then its body. */
  method InflateDynamic(r: BitReader, o: Output, t0: Table, t1: Table, t2: Table, ghost b: Block, ghost pos: nat,
                        ghost more: seq<bool>)
    returns (status: Status, ghost read: Accepted)
    requires r.Valid() && o.Valid() && Roomy(t0, t1, t2) && Unaliased(o, t0, t1, t2)
    modifies r, o, o.out, t0, t1, t2, t0.Own(), t1.Own(), t2.Own()
    ensures r.Valid() && o.Valid() && Roomy(t0, t1, t2) && Unaliased(o, t0, t1, t2)
    ensures status.Ok? ==> Fuel(r, o) <= old(Fuel(r, o))
    ensures status.Ok? ==> read.Type() == 2 && BlockRead(read, RoomOf(o), old(o.history), o.history, old(r.Rest()),
        r.Rest())
    ensures old(BlockPromised(r, o, 2, b, pos, more)) ==>
              status.Ok? && o.history == b.Data(old(o.history)) && r.Rest() == more
                  && o.Left() + |o.history| == old(o.Left() + |o.history|)
              && (old(r.Snug()) ==> r.Snug())
  {
    hide BlockRead, BodyRead, HeaderRead, HeaderText, Supplied, Usable, WordsOf, Window, Summed, Output.Left,
         BitReader.Rest, BodyBits, Header.ToBitString, CodeLengthRle.Expand, CodeLengthRle.WellFormed, Used, Expand,
         Feasible, Covers, Acceptable;
    ghost var on := BlockPromised(r, o, 2, b, pos, more);
    ghost var h := AnyHeader();
    ghost var ts: seq<Token>, start := [], o.history;
    ghost var body: seq<bool> := more;
    if on {
      h, ts := b.h, b.ts;
      body := BodyBits(h.lit, h.dist, ts) + more;
      JoinAssoc(h.ToBitString(), BodyBits(h.lit, h.dist, ts), more);
    }
    read := Raw([], []);
    ghost var before := r.Rest();
    var lit, dist;
    ghost var head, words;
    status, lit, dist, head, words := ReadHeader(r, t0, t1, t2, h, body);
    if !status.Ok? {
      return;
    }
    ghost var ps, end, mid := [], [], r.Rest();
    status, ps, end := InflateSymbols(r, o, t0, t1, Script(lit, dist, ts, start, more, |start| + o.Left()));
    if status.Ok? {
      read := DynamicBlock(head, words, ps, end);
      DynamicTold(head, words, ps, end, RoomOf(o), start, o.history, before, mid, r.Rest());
    }
  }

  /** A block with the fixed codes. */
  method InflateFixed(r: BitReader, o: Output, t0: Table, t1: Table, t2: Table, ghost b: Block, ghost pos: nat,
                      ghost more: seq<bool>)
    returns (status: Status, ghost read: Accepted)
    requires r.Valid() && o.Valid() && Roomy(t0, t1, t2) && Unaliased(o, t0, t1, t2)
    modifies r, o, o.out, t0, t1, t2, t0.Own(), t1.Own(), t2.Own()
    ensures r.Valid() && o.Valid() && Roomy(t0, t1, t2) && Unaliased(o, t0, t1, t2)
    ensures status.Ok? ==> Fuel(r, o) <= old(Fuel(r, o))
    ensures status.Ok? ==> read.Type() == 1 && BlockRead(read, RoomOf(o), old(o.history), o.history, old(r.Rest()),
        r.Rest())
    ensures old(BlockPromised(r, o, 1, b, pos, more)) ==>
              status.Ok? && o.history == b.Data(old(o.history)) && r.Rest() == more
                  && o.Left() + |o.history| == old(o.Left() + |o.history|)
              && (old(r.Snug()) ==> r.Snug())
  {
    hide BlockRead, BodyRead, Supplied, Usable, WordsOf, Window, Summed, Output.Left, TokensBits, Expand, Feasible,
         Covers, Acceptable, FixedLit, FixedDist;
    ghost var on := BlockPromised(r, o, 1, b, pos, more);
    ghost var ts: seq<Token>, start := [], o.history;
    if on {
      ts := b.ts;
      FixedCovers(ts);
    }
    BuildFixed(t0, t1, t2);
    ghost var ps, end, before := [], [], r.Rest();
    status, ps, end := InflateSymbols(r, o, t0, t1, Script(FixedLit(), FixedDist(), ts, start, more,
        |start| + o.Left()));
    read := FixedBlock(ps, end);
    if status.Ok? { FixedTold(ps, end, RoomOf(o), start, o.history, before, r.Rest()); }
  }

  /** One block, after its three header bits. */
  method InflateBlock(r: BitReader, o: Output, t0: Table, t1: Table, t2: Table, type': nat, ghost b: Block,
                      ghost pos: nat, ghost more: seq<bool>)
    returns (status: Status, ghost read: Accepted)
    requires r.Valid() && o.Valid() && Roomy(t0, t1, t2) && Unaliased(o, t0, t1, t2)
    modifies r, o, o.out, t0, t1, t2, t0.Own(), t1.Own(), t2.Own()
    ensures r.Valid() && o.Valid() && Roomy(t0, t1, t2) && Unaliased(o, t0, t1, t2)
    ensures status.Ok? ==> Fuel(r, o) <= old(Fuel(r, o))
    ensures type' == 3 ==> status.Failed?
    ensures status.Ok? ==> read.Type() == type' && BlockRead(read, RoomOf(o), old(o.history), o.history, old(r.Rest()),
        r.Rest())
    ensures old(BlockPromised(r, o, type', b, pos, more)) ==>
              status.Ok? && o.history == b.Data(old(o.history)) && r.Rest() == more
                  && o.Left() + |o.history| == old(o.Left() + |o.history|)
              && (old(r.Snug()) ==> r.Snug())
  {
    hide BlockRead, StoredPromised, Supplied, Window, Summed, Output.Left, BodyBits, StoredBits, Header.Valid, Expand,
         Feasible, Covers, ToBits, BytesBits, BitReader.Rest;
    if type' == 0 {
      ghost var bytes, fill := if b.Stored? then b.bytes else [], if b.Stored? then b.fill else [];
      if BlockPromised(r, o, 0, b, pos, more) { StoredHere(r, o, b, pos, more); }
      status, read := InflateStored(r, o, bytes, fill, pos, more);
    } else if type' == 3 {
      status, read := Failed, Raw([], []);
    } else if type' == 1 {
      status, read := InflateFixed(r, o, t0, t1, t2, b, pos, more);
    } else if type' == 2 {
      status, read := InflateDynamic(r, o, t0, t1, t2, b, pos, more);
    } else {
      status, read := Failed, Raw([], []);
    }
  }

  lemma StoredHere(r: BitReader, o: Output, b: Block, pos: nat, more: seq<bool>)
    requires r.Valid() && o.Valid() && BlockPromised(r, o, 0, b, pos, more)
    ensures b.Stored? && StoredPromised(r, o, b.bytes, b.fill, pos, more) && b.Data(o.history) == o.history + b.bytes
  {
    hide Supplied, Window, Summed, Output.Left, StoredBits, ToBits, Filled, BitReader.Rest;
    JoinAssoc(Filled(b.fill, Padding(pos)), StoredBits(b.bytes), more);
  }

  /** The first block of the list: its header bits as one field, its content, and the rest of the list. */
  lemma FirstBlock(h: seq<byte>, bs: seq<Block>, pos: nat, more: seq<bool>)
    requires ValidBlocks(h, bs) && AllShaped(bs) && bs != []
    ensures bs[0].Valid(h) && bs[0].Shaped() && AllShaped(bs[1..]) && ValidBlocks(bs[0].Data(h), bs[1..])
    ensures AllData(h, bs) == AllData(bs[0].Data(h), bs[1..])
    ensures var v := (if |bs| == 1 then 1 else 0) + 2 * bs[0].Type();
            v < Pow2(3) && AllBits(bs, pos, true) + more
              == ToBits(v, 3) + (bs[0].Content(pos + 3) + (AllBits(bs[1..], pos + 3 + |bs[0].Content(pos + 3)|, true)
                  + more))
  {
    hide Block.Content, ToBits, Block.Data, Block.Valid, Block.Shaped, Pow2;
    var b := bs[0];
    assert b in bs && forall c <- bs[1..] :: c in bs;
    ThreeBits(|bs| == 1, b.Type());
    var x, y, z, w := ToBits(if |bs| == 1 then 1 else 0, 1), ToBits(b.Type(), 2), b.Content(pos + 3),
        AllBits(bs[1..], pos + 3 + |b.Content(pos + 3)|, true);
    assert b.ToBitString(pos, |bs| == 1) == x + y + z;
    assert ((x + y + z) + w) + more == (x + y) + (z + (w + more));
  }

  lemma NoMoreBlocks(h: seq<byte>, pos: nat, more: seq<bool>)
    ensures ValidBlocks(h, []) && AllData(h, []) == h
    ensures forall p: nat :: AllBits([], p, true) + more == more
  {
    assert [] + more == more;
  }

  /** One block with its three header bits. */
  method NextBlock(r: BitReader, o: Output, t0: Table, t1: Table, t2: Table, ghost bs: seq<Block>, ghost pos: nat,
                   ghost more: seq<bool>, ghost on: bool)
    returns (status: Status, final: bool, ghost pos': nat, ghost read: Accepted)
    requires r.Valid() && o.Valid() && Roomy(t0, t1, t2) && Unaliased(o, t0, t1, t2)
    requires on ==> Expected(r, o, bs, pos, more)
    modifies r, o, o.out, t0, t1, t2, t0.Own(), t1.Own(), t2.Own()
    ensures r.Valid() && o.Valid() && Roomy(t0, t1, t2) && Unaliased(o, t0, t1, t2)
    ensures status.Ok? ==> Fuel(r, o) < old(Fuel(r, o))
    ensures on ==>
            status.Ok? && bs[0].Valid(old(o.history)) && o.history == bs[0].Data(old(o.history))
            && final == (|bs| == 1)
    ensures on ==> if final then r.Rest() == more else Expected(r, o, bs[1..], pos', more)
    ensures status.Ok? ==> MarkedRead(read, final, RoomOf(o), old(o.history), o.history, old(r.Rest()), r.Rest())
    ensures on && old(r.Snug()) ==> r.Snug()
  {
    hide BlockRead, MarkedRead, Supplied, Window, Summed, Output.Left, BytesBits, ToBits, Pow2, BitReader.Rest, AllBits,
         AllData, ValidBlocks, Block.Content, Block.Data, Block.Valid, Block.Shaped;
    final := false;
    ghost var b, v := Stored([], []), 0;
    ghost var next, after := more, more;
    pos' := pos;
    if on {
      FirstBlock(o.history, bs, pos, more);
      b := bs[0];
      v := (if |bs| == 1 then 1 else 0) + 2 * b.Type();
      pos' := pos + 3 + |b.Content(pos + 3)|;
      next := AllBits(bs[1..], pos', true) + more;
      after := b.Content(pos + 3) + next;
      DataGrows(b.Data(o.history), bs[1..]);
      assert r.Rest() == ToBits(v, 3) + after;
    }
    var ok, head := ReadField(r, 3, v, after);
    assert on ==> ok && head == v && r.Rest() == after;
    if !ok {
      return NeedsMoreInput, false, pos', Raw([], []);
    }
    ghost var h, mid := o.history, r.Rest();
    status, read := InflateBlock(r, o, t0, t1, t2, head / 2, b, pos + 3, next);
    final := head % 2 == 1;
    if status.Ok? { MarkedTold(read, head, RoomOf(o), h, o.history, old(r.Rest()), mid, r.Rest()); }
    if on {
      NoMoreBlocks(o.history, pos', more);
      assert status.Ok? && final == (|bs| == 1) && r.Rest() == next;
      if |bs| == 1 {
        assert bs[1..] == [];
      } else {
        assert Expected(r, o, bs[1..], pos', more);
      }
    }
  }

  /** From before to after the block has been inflated, with the three bits in front of it. */
  ghost predicate MarkedRead(b: Accepted, last: bool, room: Room, s: seq<byte>, data: seq<byte>, before: seq<bool>,
                             after: seq<bool>) {
    && b.Sound(s, room) && data == b.Data(s, room)
    && before == (ToBits((if last then 1 else 0) + 2 * b.Type(), 3) + b.Text()) + after
    && (b.Raw? ==> |b.pad| == (|before| - 3) % 8)
  }

  lemma MarkedTold(b: Accepted, head: nat, room: Room, s: seq<byte>, data: seq<byte>, before: seq<bool>,
                   mid: seq<bool>, after: seq<bool>)
    requires before == ToBits(head, 3) + mid && BlockRead(b, room, s, data, mid, after) && b.Type() == head / 2
    ensures MarkedRead(b, head % 2 == 1, room, s, data, before, after)
  {
    hide ToBits, Accepted.Sound, Accepted.Data, Accepted.Text;
    assert head == (if head % 2 == 1 then 1 else 0) + 2 * b.Type();
    JoinAssoc(ToBits(head, 3), b.Text(), after);
  }

  lemma DataGrows(h: seq<byte>, bs: seq<Block>)
    requires ValidBlocks(h, bs)
    ensures |h| <= |AllData(h, bs)|
  {
  }

  lemma BlockInflated(from: Origin, bs: seq<Accepted>, pos: nat, room: Room, s: seq<byte>, rest: seq<bool>,
                      b: Accepted, last: bool, data: seq<byte>, rest': seq<bool>)
    requires Inflated(from, bs, pos, room, false, s, rest) && (pos + |from.bits|) % 8 == 0
    requires MarkedRead(b, last, room, s, data, rest, rest')
    ensures Inflated(from, bs + [b], pos, room, last, data, rest')
  {
    hide Accepted.Sound, Accepted.Data, Accepted.Text, StreamSound, StreamData, OnBytes, ToBits;
    assert |from.bits| >= |rest| >= 3;
    SamePadding(pos + |from.bits| - |rest| + 3, |rest| - 3);
    InflatedNext(from, bs, pos, room, s, rest, b, last, rest');
  }

  /**
    The blocks of a stream up to the one marked final. On the bits of a list of blocks the output
    grows by exactly their data, and exactly their bits are consumed.
   */
  method InflateAll(r: BitReader, o: Output, t0: Table, t1: Table, t2: Table, ghost blocks: seq<Block>,
                    ghost start: nat, ghost more: seq<bool>)
    returns (status: Status, ghost read: seq<Accepted>)
    requires r.Valid() && o.Valid() && Roomy(t0, t1, t2) && Unaliased(o, t0, t1, t2)
    modifies r, o, o.out, t0, t1, t2, t0.Own(), t1.Own(), t2.Own()
    ensures r.Valid() && o.Valid()
    ensures status.Ok? && old(start + |r.Rest()|) % 8 == 0 ==>
              read != [] && Inflated(Origin(old(o.history), old(r.Rest())), read, start, RoomOf(o), true, o.history,
                  r.Rest())
    ensures old(Expected(r, o, blocks, start, more)) ==>
              status.Ok? && o.history == AllData(old(o.history), blocks) && r.Rest() == more
                  && (old(r.Snug()) ==> r.Snug())
  {
    hide MarkedRead, Inflated, Supplied, Window, Summed, Output.Left, BytesBits, AllBits, Block.Data, Block.Valid,
         Block.Shaped;
    ghost var on, bs := Expected(r, o, blocks, start, more), blocks;
    ghost var pos: nat := start;
    ghost var data := if on then AllData(o.history, blocks) else [];
    ghost var from, whole := Origin(o.history, r.Rest()), (start + |r.Rest()|) % 8 == 0;
    read := [];
    NothingInflated(o.history, r.Rest(), start, RoomOf(o));
    var final := false;
    status := Ok;
    while !final
      invariant r.Valid() && o.Valid() && Roomy(t0, t1, t2) && Unaliased(o, t0, t1, t2)
      invariant on && !final ==> Expected(r, o, bs, pos, more) && AllData(o.history, bs) == data
      invariant on && final ==> status.Ok? && o.history == data && r.Rest() == more
      invariant on && old(r.Snug()) ==> r.Snug()
      invariant (final ==> read != []) && (whole ==> Inflated(from, read, start, RoomOf(o), final, o.history, r.Rest()))
      decreases !final, Fuel(r, o)
    {
      ghost var h, rest, b := o.history, r.Rest(), Raw([], []);
      status, final, pos, b := NextBlock(r, o, t0, t1, t2, bs, pos, more, on);
      if !status.Ok? {
        return;
      }
      if whole { BlockInflated(from, read, start, RoomOf(o), h, rest, b, final, o.history, r.Rest()); }
      read := read + [b];
      bs := if bs == [] then [] else bs[1..];
    }
  }
}
