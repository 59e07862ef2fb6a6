/**
 The three search drivers of lfind.c. Each rounds the element count down to
 a multiple of its stride with a bitmask, scans that prefix one stride at a
 time with a vector predicate (returning as soon as a stride matches), then
 scans the remaining tail one element at a time.

 The drivers only read `base`: they carry no `modifies` clause, so the array
 is unchanged by every call.
 */
module Lfind {
  import opened Bits
  import opened Simd

  /** The C `uint32` type of element counts and indices. */
  type uint32 = x: int | 0 <= x < 0x1_0000_0000

  /** Widths in bits of C's uint32 and of size_t, the type `sizeof` yields. */
  const UInt32Bits: nat := 32
  const SizeTBits: nat := 64

  /** Elements per iteration of `Lfind8` / `Lfind8Le`: sizeof(Vector8). */
  const Stride8: nat := RegisterBytes

  /** Elements per vector of `Lfind32`: sizeof(Vector32) / sizeof(uint32). */
  const Nelem32PerVector: nat := Lanes32

  /** Elements per unrolled iteration of `Lfind32`: four registers, 4 * Nelem32PerVector. */
  const Nelem32PerIteration: nat := 16

  /**
   `~(sizeof(Vector8) - 1)`: `sizeof` yields a 64-bit size_t, so the
   complement is taken in 64 bits.
   */
  const StrideMask8: nat := 0xFFFF_FFFF_FFFF_FFF0

  /** `~(nelem_per_iteration - 1)`, taken in uint32. */
  const StrideMask32: nat := 0xFFFF_FFF0

  /**
   The mask of lfind8 and lfind8_le is `~(sizeof(Vector8) - 1)`, the
   complement of 15 in 64-bit size_t, and a uint32 count always fits in a
   size_t.
   */
  lemma StrideMask8IsComplement()
    ensures Stride8 == 16
    ensures 15 < Pow2(UInt32Bits) < Pow2(SizeTBits)
    ensures StrideMask8 == BitNot(Stride8 - 1, SizeTBits)
  {
    Pow2Widths();
    assert Pow2(SizeTBits) == 0x1_0000_0000_0000_0000 by {
      Pow2Add(UInt32Bits, UInt32Bits);
    }
  }

  /**
   The mask of lfind32 is `~(nelem_per_iteration - 1)` in uint32, where an
   iteration covers four registers of `nelem_per_vector` words, 16 in all.
   */
  lemma StrideMask32IsComplement()
    ensures Nelem32PerIteration == 4 * Nelem32PerVector == 16
    ensures 15 < Pow2(UInt32Bits)
    ensures StrideMask32 == BitNot(Nelem32PerIteration - 1, UInt32Bits)
  {
    Pow2Widths();
  }

  /** AND with lfind8's mask rounds a uint32 count down to a multiple of its stride. */
  lemma Mask8RoundsDown(n: uint32)
    ensures BitAnd(n, StrideMask8) == n - n % Stride8
  {
    StrideMask8IsComplement();
    RoundDown16(n, SizeTBits);
  }

  /** AND with lfind32's mask rounds a uint32 count down to a multiple of its stride. */
  lemma Mask32RoundsDown(n: uint32)
    ensures BitAnd(n, StrideMask32) == n - n % Nelem32PerIteration
  {
    StrideMask32IsComplement();
    Pow2Widths();
    RoundDown16(n, UInt32Bits);
  }

  /**
   The tail index of lfind8 and lfind8_le: `nelem & ~(sizeof(Vector8) - 1)`.
   The AND never exceeds `nelem`, so narrowing the size_t result back to
   uint32 loses nothing. The result is `nelem` rounded down to a multiple
   of 16.
   */
  function TailIndex8(nelem: uint32): (t: uint32)
    ensures t == nelem - nelem % Stride8
    ensures t <= nelem && t % Stride8 == 0 && nelem - t < Stride8
  {
    Mask8RoundsDown(nelem);
    RoundDownMultiple(nelem, Stride8);
    BitAnd(nelem, StrideMask8)
  }

  /**
   The tail index of lfind32: `nelem & ~(nelem_per_iteration - 1)`, computed
   in uint32, i.e. `nelem` rounded down to a multiple of 16.
   */
  function TailIndex32(nelem: uint32): (t: uint32)
    ensures t == nelem - nelem % Nelem32PerIteration
    ensures t <= nelem && t % Nelem32PerIteration == 0 && nelem - t < Nelem32PerIteration
  {
    Mask32RoundsDown(nelem);
    RoundDownMultiple(nelem, Nelem32PerIteration);
    BitAnd(nelem, StrideMask32)
  }

  /**
   One vector step of lfind8: load the 16 bytes at `i` and test them with
   vector8_has. The step matches exactly when one of those bytes is `key`.
   */
  method ChunkHas8(key: bv8, s: seq<bv8>, i: nat) returns (matched: bool)
    requires i + Stride8 <= |s|
    ensures matched <==> exists j :: i <= j < i + Stride8 && s[j] == key
  {
    var chunk := Load8(s, i);
    matched := Has8(chunk, key);
    if matched {
      ghost var k :| 0 <= k < Stride8 && chunk[k] == key;
      assert s[i + k] == chunk[k];
    }
    if exists j :: i <= j < i + Stride8 && s[j] == key {
      ghost var j :| i <= j < i + Stride8 && s[j] == key;
      assert chunk[j - i] == s[j];
    }
  }

  /**
   One vector step of lfind8_le: load the 16 bytes at `i` and test them with
   vector8_has_le. The step matches exactly when one of those bytes is <= `key`.
   */
  method ChunkHasLe8(key: bv8, s: seq<bv8>, i: nat) returns (matched: bool)
    requires i + Stride8 <= |s|
    ensures matched <==> exists j :: i <= j < i + Stride8 && s[j] <= key
  {
    var chunk := Load8(s, i);
    matched := HasLe8(chunk, key);
    if matched {
      ghost var k :| 0 <= k < Stride8 && chunk[k] <= key;
      assert s[i + k] == chunk[k];
    }
    if exists j :: i <= j < i + Stride8 && s[j] <= key {
      ghost var j :| i <= j < i + Stride8 && s[j] <= key;
      assert chunk[j - i] == s[j];
    }
  }

  /**
   lfind8: is some element among the first `nelem` of `base` equal to `key`?
   Each vector step loads only its own 16 bytes, all below `tailIdx`; the
   tail reads one element at a time. Nothing past the first match is read,
   and for `nelem == 0` nothing is read at all.
   */
  method Lfind8(key: bv8, base: array<bv8>, nelem: uint32) returns (found: bool)
    requires nelem <= base.Length
    ensures found <==> exists i :: 0 <= i < nelem && base[i] == key
  {
    var tailIdx := TailIndex8(nelem);
    var i: uint32 := 0;
    while i < tailIdx
      invariant i <= tailIdx && (tailIdx - i) % Stride8 == 0
      invariant forall j :: 0 <= j < i ==> base[j] != key
    {
      assert i + Stride8 <= tailIdx <= nelem;
      var matched := ChunkHas8(key, base[i..i + Stride8], 0);
      if matched {
        return true;
      }
      i := i + Stride8;
    }
    // the vector phase covered exactly [0, tailIdx); the tail is [tailIdx, nelem)
    assert i == tailIdx;
    while i < nelem
      invariant tailIdx <= i <= nelem
      invariant forall j :: 0 <= j < i ==> base[j] != key
    {
      if key == base[i] {
        return true;
      }
      i := i + 1;
    }
    return false;
  }

  /**
   lfind8_le: is some element among the first `nelem` of `base` less than or
   equal to `key` (unsigned)?
   */
  method Lfind8Le(key: bv8, base: array<bv8>, nelem: uint32) returns (found: bool)
    requires nelem <= base.Length
    ensures found <==> exists i :: 0 <= i < nelem && base[i] <= key
  {
    var tailIdx := TailIndex8(nelem);
    var i: uint32 := 0;
    while i < tailIdx
      invariant i <= tailIdx && (tailIdx - i) % Stride8 == 0
      invariant forall j :: 0 <= j < i ==> !(base[j] <= key)
    {
      assert i + Stride8 <= tailIdx <= nelem;
      var matched := ChunkHasLe8(key, base[i..i + Stride8], 0);
      if matched {
        return true;
      }
      i := i + Stride8;
    }
    assert i == tailIdx;
    while i < nelem
      invariant tailIdx <= i <= nelem
      invariant forall j :: 0 <= j < i ==> !(base[j] <= key)
    {
      if base[i] <= key {
        return true;
      }
      i := i + 1;
    }
    return false;
  }

  /**
   One unrolled iteration of lfind32: the four registers at offsets 0, 4, 8
   and 12 from `i` are combined into one comparison result, which is reduced
   once. The fold forgets which register matched but not whether one did:
   the iteration matches exactly when one of the 16 words equals the key.
   */
  method BlockHasKey32(key: bv32, keys: Vector32, s: seq<bv32>, i: nat) returns (matched: bool)
    requires keys == Broadcast32(key)
    requires i + Nelem32PerIteration <= |s|
    ensures matched <==> exists j :: i <= j < i + Nelem32PerIteration && s[j] == key
  {
    var result := CombineBlock32(key, keys, s, i);
    matched := IsHighbitSet32(result);
    BlockMatch(key, s, i, result);
  }

  /**
   Load four registers, compare each with the broadcast key and fold the
   four comparison results pairwise with OR. Lane `k` of the folded result is
   all-ones exactly when word `k` of one of the four registers is the key.
   */
  method CombineBlock32(key: bv32, keys: Vector32, s: seq<bv32>, i: nat) returns (result: Vector32)
    requires keys == Broadcast32(key)
    requires i + Nelem32PerIteration <= |s|
    ensures IsMask32(result)
    ensures forall k :: 0 <= k < Lanes32 ==>
      (result[k] == AllOnes32 <==>
        s[i + k] == key || s[i + Nelem32PerVector + k] == key ||
        s[i + Nelem32PerVector * 2 + k] == key || s[i + Nelem32PerVector * 3 + k] == key)
  {
    var vals1 := Load32(s, i);
    var vals2 := Load32(s, i + Nelem32PerVector);
    var vals3 := Load32(s, i + Nelem32PerVector * 2);
    var vals4 := Load32(s, i + Nelem32PerVector * 3);
    var result1 := Eq32(keys, vals1);
    var result2 := Eq32(keys, vals2);
    var result3 := Eq32(keys, vals3);
    var result4 := Eq32(keys, vals4);
    var tmp1 := Or32(result1, result2);
    var tmp2 := Or32(result3, result4);
    result := Or32(tmp1, tmp2);
    LaneMatches(key, keys, s, i, result1);
    LaneMatches(key, keys, s, i + Nelem32PerVector, result2);
    LaneMatches(key, keys, s, i + Nelem32PerVector * 2, result3);
    LaneMatches(key, keys, s, i + Nelem32PerVector * 3, result4);
    OrFold4(result1, result2, result3, result4, result);
  }

  /** Lane `k` of a key comparison is all-ones exactly when word `off + k` is the key. */
  lemma LaneMatches(key: bv32, keys: Vector32, s: seq<bv32>, off: nat, r: Vector32)
    requires keys == Broadcast32(key)
    requires off + Lanes32 <= |s|
    requires r == Eq32(keys, Load32(s, off))
    ensures IsMask32(r)
    ensures forall k :: 0 <= k < Lanes32 ==> (r[k] == AllOnes32 <==> s[off + k] == key)
  {
  }

  /** Folding four comparison results with OR keeps every match. */
  lemma OrFold4(r1: Vector32, r2: Vector32, r3: Vector32, r4: Vector32, result: Vector32)
    requires IsMask32(r1) && IsMask32(r2) && IsMask32(r3) && IsMask32(r4)
    requires result == Or32(Or32(r1, r2), Or32(r3, r4))
    ensures IsMask32(result)
    ensures forall k :: 0 <= k < Lanes32 ==>
      (result[k] == AllOnes32 <==>
        r1[k] == AllOnes32 || r2[k] == AllOnes32 || r3[k] == AllOnes32 || r4[k] == AllOnes32)
  {
  }

  /** Some lane of the folded result is all-ones exactly when the block holds the key. */
  lemma BlockMatch(key: bv32, s: seq<bv32>, i: nat, result: Vector32)
    requires i + Nelem32PerIteration <= |s|
    requires forall k :: 0 <= k < Lanes32 ==>
      (result[k] == AllOnes32 <==>
        s[i + k] == key || s[i + Nelem32PerVector + k] == key ||
        s[i + Nelem32PerVector * 2 + k] == key || s[i + Nelem32PerVector * 3 + k] == key)
    ensures (exists k :: 0 <= k < Lanes32 && result[k] == AllOnes32)
        <==> exists j :: i <= j < i + Nelem32PerIteration && s[j] == key
  {
    if exists j :: i <= j < i + Nelem32PerIteration && s[j] == key {
      var j :| i <= j < i + Nelem32PerIteration && s[j] == key;
      var k := (j - i) % 4;
      assert result[k] == AllOnes32;
    }
  }

  /**
   lfind32: is some element among the first `nelem` of `base` equal to `key`?
   Each vector iteration loads only its own 16 words, in four registers.
   */
  method Lfind32(key: bv32, base: array<bv32>, nelem: uint32) returns (found: bool)
    requires nelem <= base.Length
    ensures found <==> exists i :: 0 <= i < nelem && base[i] == key
  {
    var keys := Broadcast32(key);
    var tailIdx := TailIndex32(nelem);
    var i: uint32 := 0;
    while i < tailIdx
      invariant i <= tailIdx && (tailIdx - i) % Nelem32PerIteration == 0
      invariant forall j :: 0 <= j < i ==> base[j] != key
    {
      assert i + Nelem32PerIteration <= tailIdx <= nelem;
      var matched := BlockHasKey32(key, keys, base[i..i + Nelem32PerIteration], 0);
      if matched {
        return true;
      }
      i := i + Nelem32PerIteration;
    }
    assert i == tailIdx;
    while i < nelem
      invariant tailIdx <= i <= nelem
      invariant forall j :: 0 <= j < i ==> base[j] != key
    {
      if key == base[i] {
        return true;
      }
      i := i + 1;
    }
    return false;
  }
}
