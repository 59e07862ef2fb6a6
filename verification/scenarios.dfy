/**
 The concrete cases of the functional tests, stated as postconditions of
 calls to the drivers: the model gives the results the tests expect.
 */
module Scenarios {
  import opened Lfind

  /** The tests' reference: a plain scan of the first `nelem` bytes for `key`. */
  method LinearSearch8(key: bv8, base: array<bv8>, nelem: uint32) returns (found: bool)
    requires nelem <= base.Length
    ensures found <==> exists i :: 0 <= i < nelem && base[i] == key
  {
    var i: uint32 := 0;
    while i < nelem
      invariant i <= nelem
      invariant forall j :: 0 <= j < i ==> base[j] != key
    {
      if base[i] == key {
        return true;
      }
      i := i + 1;
    }
    return false;
  }

  /** The tests' reference: a plain scan of the first `nelem` words for `key`. */
  method LinearSearch32(key: bv32, base: array<bv32>, nelem: uint32) returns (found: bool)
    requires nelem <= base.Length
    ensures found <==> exists i :: 0 <= i < nelem && base[i] == key
  {
    var i: uint32 := 0;
    while i < nelem
      invariant i <= nelem
      invariant forall j :: 0 <= j < i ==> base[j] != key
    {
      if base[i] == key {
        return true;
      }
      i := i + 1;
    }
    return false;
  }

  /** The tests' reference: a plain scan of the first `nelem` bytes for one <= `key`. */
  method LinearSearch8Le(key: bv8, base: array<bv8>, nelem: uint32) returns (found: bool)
    requires nelem <= base.Length
    ensures found <==> exists i :: 0 <= i < nelem && base[i] <= key
  {
    var i: uint32 := 0;
    while i < nelem
      invariant i <= nelem
      invariant forall j :: 0 <= j < i ==> !(base[j] <= key)
    {
      if base[i] <= key {
        return true;
      }
      i := i + 1;
    }
    return false;
  }

  /** lfind8 agrees with the linear scan on every key and every array. */
  method Lfind8MatchesLinear(key: bv8, base: array<bv8>, nelem: uint32) returns (simd: bool, linear: bool)
    requires nelem <= base.Length
    ensures simd == linear
  {
    simd := Lfind8(key, base, nelem);
    linear := LinearSearch8(key, base, nelem);
  }

  /** lfind8_le agrees with the linear scan on every key and every array. */
  method Lfind8LeMatchesLinear(key: bv8, base: array<bv8>, nelem: uint32) returns (simd: bool, linear: bool)
    requires nelem <= base.Length
    ensures simd == linear
  {
    simd := Lfind8Le(key, base, nelem);
    linear := LinearSearch8Le(key, base, nelem);
  }

  /** lfind32 agrees with the linear scan on every key and every array. */
  method Lfind32MatchesLinear(key: bv32, base: array<bv32>, nelem: uint32) returns (simd: bool, linear: bool)
    requires nelem <= base.Length
    ensures simd == linear
  {
    simd := Lfind32(key, base, nelem);
    linear := LinearSearch32(key, base, nelem);
  }

  /** lfind8 on {1, 3, ..., 15}: 5, 1 and 15 are found; 2, 16 and 0 are not. */
  method Lfind8Basic() returns (five: bool, first: bool, last: bool, two: bool, above: bool, below: bool)
    ensures five && first && last
    ensures !two && !above && !below
  {
    var a := new bv8[8] [1, 3, 5, 7, 9, 11, 13, 15];
    five := Lfind8(5, a, 8);
    assert a[2] == 5 && a[0] == 1 && a[7] == 15;
    first := Lfind8(1, a, 8);
    last := Lfind8(15, a, 8);
    two := Lfind8(2, a, 8);
    above := Lfind8(16, a, 8);
    below := Lfind8(0, a, 8);
  }

  /** Every driver answers false on zero elements, whatever the array holds. */
  method EmptyInput(key8: bv8, key32: bv32, a8: array<bv8>, a32: array<bv32>)
    returns (eq8: bool, le8: bool, eq32: bool)
    ensures !eq8 && !le8 && !eq32
  {
    eq8 := Lfind8(key8, a8, 0);
    le8 := Lfind8Le(key8, a8, 0);
    eq32 := Lfind32(key32, a32, 0);
  }

  /** lfind8 on one element, and on an array with duplicates. */
  method Lfind8EdgeCases() returns (single: bool, other: bool, duplicate: bool)
    ensures single && !other && duplicate
  {
    var one := new bv8[1] [42];
    single := Lfind8(42, one, 1);
    assert one[0] == 42;
    other := Lfind8(41, one, 1);
    var dups := new bv8[7] [1, 2, 3, 2, 4, 2, 5];
    duplicate := Lfind8(2, dups, 7);
    assert dups[3] == 2;
  }

  /** lfind8 over 10000 bytes holding i mod 256 finds 100 and 255. */
  method Lfind8Large() returns (hundred: bool, max: bool)
    ensures hundred && max
  {
    var a := new bv8[10000];
    var i := 0;
    while i < 10000
      invariant 0 <= i <= 10000
      invariant forall j :: 0 <= j < i ==> a[j] == (j % 256) as bv8
    {
      a[i] := (i % 256) as bv8;
      i := i + 1;
    }
    hundred := Lfind8(100, a, 10000);
    assert a[100] == 100;
    max := Lfind8(255, a, 10000);
    assert a[255] == 255;
  }

  /**
   For every size from 1 to 64, an array holding 0, 1, ..., size - 1 yields
   both its first and its last element: every tail length is exercised.
   */
  method Lfind8Alignment(size: uint32) returns (foundFirst: bool, foundLast: bool)
    requires 1 <= size <= 64
    ensures foundFirst && foundLast
  {
    var a := new bv8[size];
    var i := 0;
    while i < size
      invariant 0 <= i <= size
      invariant forall j :: 0 <= j < i ==> a[j] == j as bv8
    {
      a[i] := i as bv8;
      i := i + 1;
    }
    foundFirst := Lfind8(0, a, size);
    assert a[0] == 0;
    foundLast := Lfind8((size - 1) as bv8, a, size);
    assert a[size - 1] == (size - 1) as bv8;
  }

  /** lfind8_le on {10, 30, ..., 150}: 50, 25 and 200 have a smaller element; 5 has none. */
  method Lfind8LeBasic() returns (fifty: bool, twentyFive: bool, all: bool, five: bool)
    ensures fifty && twentyFive && all && !five
  {
    var a := new bv8[8] [10, 30, 50, 70, 90, 110, 130, 150];
    fifty := Lfind8Le(50, a, 8);
    assert a[0] == 10;
    twentyFive := Lfind8Le(25, a, 8);
    all := Lfind8Le(200, a, 8);
    five := Lfind8Le(5, a, 8);
  }

  /** lfind32 on {10, 30, ..., 150}: 50, 10 and 150 are found; 25, 200 and 5 are not. */
  method Lfind32Basic() returns (fifty: bool, first: bool, last: bool, missing: bool, above: bool, below: bool)
    ensures fifty && first && last
    ensures !missing && !above && !below
  {
    var a := new bv32[8] [10, 30, 50, 70, 90, 110, 130, 150];
    fifty := Lfind32(50, a, 8);
    assert a[2] == 50 && a[0] == 10 && a[7] == 150;
    first := Lfind32(10, a, 8);
    last := Lfind32(150, a, 8);
    missing := Lfind32(25, a, 8);
    above := Lfind32(200, a, 8);
    below := Lfind32(5, a, 8);
  }

  /**
   lfind32 over 10000 words holding the even numbers 0, 2, 4, ...: 1000 is
   found and the odd 1001 is not. The fill is stated as the precondition.
   */
  method Lfind32Large(a: array<bv32>) returns (thousand: bool, odd: bool)
    requires a.Length == 10000
    requires forall j :: 0 <= j < a.Length ==> a[j] as int == 2 * j
    ensures thousand && !odd
  {
    thousand := Lfind32(1000, a, 10000);
    assert a[500] as int == 1000;
    odd := Lfind32(1001, a, 10000);
  }

  /** lfind32 on one element, and on the extremes {0, 0xFFFFFFFF, 1, 0xFFFFFFFE}. */
  method Lfind32EdgeCases() returns (single: bool, other: bool, min: bool, max: bool)
    ensures single && !other && min && max
  {
    var one := new bv32[1] [0xDEAD_BEEF];
    single := Lfind32(0xDEAD_BEEF, one, 1);
    assert one[0] == 0xDEAD_BEEF;
    other := Lfind32(0xCAFE_BABE, one, 1);
    var extremes := new bv32[4] [0, 0xFFFF_FFFF, 1, 0xFFFF_FFFE];
    min := Lfind32(0, extremes, 4);
    assert extremes[0] == 0;
    max := Lfind32(0xFFFF_FFFF, extremes, 4);
    assert extremes[1] == 0xFFFF_FFFF;
  }
}
