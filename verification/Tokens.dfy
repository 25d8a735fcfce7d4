/**
  LZ77 tokens and the symbols and extra bits they are sent as (section 3.2.5 of RFC 1951).
  The compressor's tables map a length or distance to a symbol; the inflater's map it back.
  The long tables of the compressor are given as the ranges they consist of.
 */
module Tokens {
  import opened Bits
  import opened DynamicHeader

  const MIN_MATCH: nat := 3          // TDEFL_MIN_MATCH_LEN
  const MAX_MATCH: nat := 258        // TDEFL_MAX_MATCH_LEN
  const DICT_SIZE: nat := 32768      // TDEFL_LZ_DICT_SIZE

  datatype Token =
    | Literal(lit: byte)
    | Match(len: nat, dist: nat)
  {
    predicate Valid() {
      Match? ==> MIN_MATCH <= len <= MAX_MATCH && 1 <= dist <= DICT_SIZE
    }
  }

  // ---------- the compressor's tables ----------

  /** s_tdefl_len_sym. */
  function LenSym(m: nat): nat
    requires m < 256
  {
    if m < 8 then 257 + m
    else if m < 16 then 265 + (m - 8) / 2
    else if m < 32 then 269 + (m - 16) / 4
    else if m < 64 then 273 + (m - 32) / 8
    else if m < 128 then 277 + (m - 64) / 16
    else if m < 255 then 281 + (m - 128) / 32
    else 285
  }

  /** s_tdefl_len_extra. */
  function LenExtra(m: nat): nat
    requires m < 256
  {
    if m < 8 then 0
    else if m < 16 then 1
    else if m < 32 then 2
    else if m < 64 then 3
    else if m < 128 then 4
    else if m < 255 then 5
    else 0
  }

  /** s_tdefl_small_dist_sym. */
  function SmallDistSym(d: nat): nat
    requires d < 512
  {
    if d < 4 then d
    else if d < 8 then 4 + (d - 4) / 2
    else if d < 16 then 6 + (d - 8) / 4
    else if d < 32 then 8 + (d - 16) / 8
    else if d < 64 then 10 + (d - 32) / 16
    else if d < 128 then 12 + (d - 64) / 32
    else if d < 256 then 14 + (d - 128) / 64
    else 16 + (d - 256) / 128
  }

  /** s_tdefl_small_dist_extra. */
  function SmallDistExtra(d: nat): nat
    requires d < 512
  {
    if d < 4 then 0
    else if d < 8 then 1
    else if d < 16 then 2
    else if d < 32 then 3
    else if d < 64 then 4
    else if d < 128 then 5
    else if d < 256 then 6
    else 7
  }

  /** s_tdefl_large_dist_sym, indexed by the distance's high byte. */
  function LargeDistSym(i: nat): nat
    requires i < 128
  {
    if i < 2 then 0
    else if i < 4 then 16 + i
    else if i < 8 then 20 + (i - 4) / 2
    else if i < 16 then 22 + (i - 8) / 4
    else if i < 32 then 24 + (i - 16) / 8
    else if i < 64 then 26 + (i - 32) / 16
    else 28 + (i - 64) / 32
  }

  /** s_tdefl_large_dist_extra. */
  function LargeDistExtra(i: nat): nat
    requires i < 128
  {
    if i < 2 then 0
    else if i < 4 then 8
    else if i < 8 then 9
    else if i < 16 then 10
    else if i < 32 then 11
    else if i < 64 then 12
    else 13
  }

  /** The distance symbol of a distance less one: one table below 512, the other from there on. */
  function DistSym(d: nat): nat
    requires d < DICT_SIZE
  {
    if d < 512 then SmallDistSym(d) else LargeDistSym(d / 256)
  }

  function DistExtra(d: nat): nat
    requires d < DICT_SIZE
  {
    if d < 512 then SmallDistExtra(d) else LargeDistExtra(d / 256)
  }

  // ---------- the inflater's tables ----------

  /** s_length_base. */
  const LENGTH_BASE: seq<nat> := [3, 4, 5, 6, 7, 8, 9, 10, 11, 13, 15, 17, 19, 23, 27, 31, 35, 43, 51, 59, 67, 83, 99,
      115, 131, 163, 195, 227, 258, 0, 0]
  /** s_length_extra. */
  const LENGTH_EXTRA: seq<nat> := [0, 0, 0, 0, 0, 0, 0, 0, 1, 1, 1, 1, 2, 2, 2, 2, 3, 3, 3, 3, 4, 4, 4, 4, 5, 5, 5, 5,
      0, 0, 0]
  /** s_dist_base. */
  const DIST_BASE: seq<nat> := [1, 2, 3, 4, 5, 7, 9, 13, 17, 25, 33, 49, 65, 97, 129, 193, 257, 385, 513, 769, 1025,
      1537, 2049, 3073, 4097, 6145, 8193, 12289, 16385, 24577, 0, 0]
  /** s_dist_extra; C fills the last two with zeros. */
  const DIST_EXTRA: seq<nat> := [0, 0, 0, 0, 1, 1, 2, 2, 3, 3, 4, 4, 5, 5, 6, 6, 7, 7, 8, 8, 9, 9, 10, 10, 11, 11, 12,
      12, 13, 13, 0, 0]

  function LengthBase(i: nat): (b: nat)
    requires i < 31
  {
    assert |LENGTH_BASE| == 31;
    LENGTH_BASE[i]
  }

  function LengthExtra(i: nat): (e: nat)
    requires i < 31
    ensures e <= 5
  {
    assert |LENGTH_EXTRA| == 31;
    assert forall k :: 0 <= k < 31 ==> LENGTH_EXTRA[k] <= 5;
    LENGTH_EXTRA[i]
  }

  function DistBase(i: nat): (b: nat)
    requires i < 32
  {
    assert |DIST_BASE| == 32;
    DIST_BASE[i]
  }

  function DistanceExtra(i: nat): (e: nat)
    requires i < 32
    ensures e <= 13
  {
    assert |DIST_EXTRA| == 32;
    assert forall k :: 0 <= k < 32 ==> DIST_EXTRA[k] <= 13;
    DIST_EXTRA[i]
  }

  // ---------- they undo each other ----------

  /** The base values as far as lengths go, two at a time. */
  lemma LengthTable(i: nat)
    requires i < 29
    ensures LengthExtra(i) == if i < 8 || i == 28 then 0 else (i - 4) / 4
    ensures LengthBase(i) == if i < 8 then 3 + i else if i == 28 then 258 else 3 + (4 + i % 4) * Pow2((i - 4) / 4)
  {
    Pow2Table();
    assert forall k :: 0 <= k < 29 ==> LENGTH_EXTRA[k] == if k < 8 || k == 28 then 0 else (k - 4) / 4;
    if i < 8 { assert forall k :: 0 <= k < 8 ==> LENGTH_BASE[k] == 3 + k; }
    else if i < 16 { LengthTable1(i); }
    else { LengthTable2(i); }
  }

  lemma LengthTable1(i: nat)
    requires 8 <= i < 16
    ensures LengthBase(i) == 3 + (4 + i % 4) * Pow2((i - 4) / 4)
  {
    Pow2Table();
  }

  lemma LengthTable2(i: nat)
    requires 16 <= i < 29
    ensures LengthBase(i) == if i == 28 then 258 else 3 + (4 + i % 4) * Pow2((i - 4) / 4)
  {
    Pow2Table();
  }

  lemma DistTable(i: nat)
    requires i < 30
    ensures DistanceExtra(i) == if i < 4 then 0 else (i - 2) / 2
    ensures DistBase(i) == if i < 4 then 1 + i else 1 + (2 + i % 2) * Pow2((i - 2) / 2)
  {
    Pow2Table();
    assert forall k :: 0 <= k < 30 ==> DIST_EXTRA[k] == if k < 4 then 0 else (k - 2) / 2;
    if i < 16 { DistTable1(i); } else { DistTable2(i); }
  }

  lemma DistTable1(i: nat)
    requires i < 16
    ensures DistBase(i) == if i < 4 then 1 + i else 1 + (2 + i % 2) * Pow2((i - 2) / 2)
  {
    Pow2Table();
  }

  lemma DistTable2(i: nat)
    requires 16 <= i < 30
    ensures DistBase(i) == 1 + (2 + i % 2) * Pow2((i - 2) / 2)
  {
    Pow2Table();
  }

  /** A mask of e bits and what is left above it, with the power of two as a plain number. */
  lemma Masked(v: nat, e: nat, p: nat)
    requires p == Pow2(e)
    ensures v == p * Shr(v, e) + Low(v, e) && Low(v, e) < p
  {
    ShrLow(v, e);
    LowBound(v, e);
  }

  /** From the ninth length on, symbols come in fours with the same extra bits. */
  lemma LengthGroup(m: nat)
    requires 8 <= m < 255
    ensures 1 <= LenExtra(m) <= 5
    ensures LenSym(m) == 257 + 4 * LenExtra(m) + Shr(m, LenExtra(m)) && 4 <= Shr(m, LenExtra(m)) < 8
  {
    hide Low, Shr, Pow2;
    Pow2Table();
    if m < 16 { Masked(m, 1, 2); }
    else if m < 32 { Masked(m, 2, 4); }
    else if m < 64 { Masked(m, 3, 8); }
    else if m < 128 { Masked(m, 4, 16); }
    else { Masked(m, 5, 32); }
  }

  /** From the fifth distance on, symbols come in pairs. */
  lemma NearGroup(d: nat)
    requires 4 <= d < 512
    ensures 1 <= DistExtra(d) <= 7
    ensures DistSym(d) == 2 * DistExtra(d) + Shr(d, DistExtra(d)) && 2 <= Shr(d, DistExtra(d)) < 4
  {
    hide Low, Shr, Pow2;
    Pow2Table();
    if d < 8 { Masked(d, 1, 2); }
    else if d < 16 { Masked(d, 2, 4); }
    else if d < 32 { Masked(d, 3, 8); }
    else if d < 64 { Masked(d, 4, 16); }
    else if d < 128 { Masked(d, 5, 32); }
    else if d < 256 { Masked(d, 6, 64); }
    else { Masked(d, 7, 128); }
  }

  lemma FarGroup(d: nat)
    requires 512 <= d < DICT_SIZE
    ensures 8 <= DistExtra(d) <= 13
    ensures DistSym(d) == 2 * DistExtra(d) + Shr(d, DistExtra(d)) && 2 <= Shr(d, DistExtra(d)) < 4
  {
    hide Low, Shr, Pow2;
    Pow2Table();
    if d < 1024 { Masked(d, 8, 256); }
    else if d < 2048 { Masked(d, 9, 512); }
    else if d < 4096 { Masked(d, 10, 1024); }
    else if d < 8192 { Masked(d, 11, 2048); }
    else if d < 16384 { Masked(d, 12, 4096); }
    else { Masked(d, 13, 8192); }
  }

  /** Every length less three is recovered from its symbol and extra bits. */
  lemma LengthRecovered(m: nat)
    requires m < 256
    ensures 257 <= LenSym(m) <= 285
    ensures LengthExtra(LenSym(m) - 257) == LenExtra(m) <= 5
    ensures LengthBase(LenSym(m) - 257) + Low(m, LenExtra(m)) == m + MIN_MATCH
  {
    hide LengthBase, LengthExtra, Shr, Pow2;
    if m < 8 || m == 255 {
      LengthTable(LenSym(m) - 257);
    } else {
      LengthGroup(m);
      LengthGrouped(m);
    }
  }

  lemma LengthGrouped(m: nat)
    requires 8 <= m < 255 && 1 <= LenExtra(m) <= 5
    requires LenSym(m) == 257 + 4 * LenExtra(m) + Shr(m, LenExtra(m)) && 4 <= Shr(m, LenExtra(m)) < 8
    ensures 257 <= LenSym(m) <= 284
    ensures LengthExtra(LenSym(m) - 257) == LenExtra(m)
    ensures LengthBase(LenSym(m) - 257) + Low(m, LenExtra(m)) == m + MIN_MATCH
  {
    hide LenSym, LenExtra, LengthBase, LengthExtra, Low, Shr, Pow2;
    var e, q := LenExtra(m), Shr(m, LenExtra(m));
    LengthTable(4 * e + q);
    Masked(m, e, Pow2(e));
    assert (4 * e + q - 4) / 4 == e && (4 * e + q) % 4 == q - 4;
  }

  /** So is every distance less one. */
  lemma DistanceRecovered(d: nat)
    requires d < DICT_SIZE
    ensures DistSym(d) <= 29
    ensures DistanceExtra(DistSym(d)) == DistExtra(d) <= 13
    ensures DistBase(DistSym(d)) + Low(d, DistExtra(d)) == d + 1
  {
    hide DistBase, DistanceExtra, Shr, Pow2;
    if d < 4 {
      DistTable(d);
    } else {
      if d < 512 { NearGroup(d); } else { FarGroup(d); }
      DistancePaired(d);
    }
  }

  lemma DistancePaired(d: nat)
    requires 4 <= d < DICT_SIZE && 1 <= DistExtra(d) <= 13
    requires DistSym(d) == 2 * DistExtra(d) + Shr(d, DistExtra(d)) && 2 <= Shr(d, DistExtra(d)) < 4
    ensures DistSym(d) <= 29
    ensures DistanceExtra(DistSym(d)) == DistExtra(d)
    ensures DistBase(DistSym(d)) + Low(d, DistExtra(d)) == d + 1
  {
    hide *;
    var e, q := DistExtra(d), Shr(d, DistExtra(d));
    DistTable(2 * e + q);
    Masked(d, e, Pow2(e));
    assert (2 * e + q - 2) / 2 == e && (2 * e + q) % 2 == q - 2;
  }
}
