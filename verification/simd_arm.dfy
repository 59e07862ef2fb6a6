/**
 The 128-bit vector abstraction of simd_arm.h and the predicates built on it.

 A register is a bundle of lanes: `Vector8` holds 16 unsigned bytes,
 `Vector32` holds 4 unsigned 32-bit words. Every operation is a total,
 lane-wise function. The header names NEON types but its bodies use SSE2
 intrinsics (`_mm_cmpeq_epi8`, `_mm_subs_epu8`, `_mm_movemask_epi8`, ...);
 only the lane semantics those names and comments document are modelled,
 not either instruction set's encoding.
 */
module Simd {
  import opened Bits

  /** sizeof(Vector8) == sizeof(Vector32): one register, in bytes. */
  const RegisterBytes: nat := 16

  /** Number of 32-bit lanes in a register: sizeof(Vector32) / sizeof(uint32). */
  const Lanes32: nat := 4

  type Vector8 = v: seq<bv8> | |v| == RegisterBytes witness seq(16, _ => 0)
  type Vector32 = v: seq<bv32> | |v| == Lanes32 witness seq(4, _ => 0)

  /** The lane value a successful comparison produces: every bit set. */
  const AllOnes8: bv8 := 0xFF
  const AllOnes32: bv32 := 0xFFFF_FFFF

  /** Bit 7 of a byte. */
  predicate HighBit(x: bv8) {
    x & 0x80 != 0
  }

  /** A comparison result: every lane is all-zeros or all-ones. */
  ghost predicate IsMask8(v: seq<bv8>) {
    forall k :: 0 <= k < |v| ==> v[k] == 0 || v[k] == AllOnes8
  }

  ghost predicate IsMask32(v: seq<bv32>) {
    forall k :: 0 <= k < |v| ==> v[k] == 0 || v[k] == AllOnes32
  }

  // ---------------------------------------------------------------- load

  /** vector8_load: the 16 consecutive bytes of `s` starting at `i`. */
  function Load8(s: seq<bv8>, i: nat): (v: Vector8)
    requires i + RegisterBytes <= |s|
    ensures forall k :: 0 <= k < RegisterBytes ==> v[k] == s[i + k]
  {
    s[i..i + RegisterBytes]
  }

  /** vector32_load: the 4 consecutive words of `s` starting at `i`. */
  function Load32(s: seq<bv32>, i: nat): (v: Vector32)
    requires i + Lanes32 <= |s|
    ensures forall k :: 0 <= k < Lanes32 ==> v[k] == s[i + k]
  {
    s[i..i + Lanes32]
  }

  // ----------------------------------------------------------- broadcast

  /** vector8_broadcast: every lane holds `c`. */
  function Broadcast8(c: bv8): (v: Vector8)
    ensures forall k :: 0 <= k < RegisterBytes ==> v[k] == c
  {
    seq(RegisterBytes, _ => c)
  }

  /** vector32_broadcast: every lane holds `c`. */
  function Broadcast32(c: bv32): (v: Vector32)
    ensures forall k :: 0 <= k < Lanes32 ==> v[k] == c
  {
    seq(Lanes32, _ => c)
  }

  // ---------------------------------------------------------- comparison

  /** vector8_eq: all bits set in the lanes where the inputs agree, none elsewhere. */
  function Eq8(a: Vector8, b: Vector8): (r: Vector8)
    ensures IsMask8(r)
    ensures forall k :: 0 <= k < RegisterBytes ==> (r[k] == AllOnes8 <==> a[k] == b[k])
  {
    seq(RegisterBytes, k requires 0 <= k < RegisterBytes => if a[k] == b[k] then AllOnes8 else 0)
  }

  /** vector32_eq: all bits set in the lanes where the inputs agree, none elsewhere. */
  function Eq32(a: Vector32, b: Vector32): (r: Vector32)
    ensures IsMask32(r)
    ensures forall k :: 0 <= k < Lanes32 ==> (r[k] == AllOnes32 <==> a[k] == b[k])
  {
    seq(Lanes32, k requires 0 <= k < Lanes32 => if a[k] == b[k] then AllOnes32 else 0)
  }

  // ------------------------------------------------------------------ or

  /**
   vector8_or: lane-wise bitwise OR. A lane keeps every bit of both inputs
   and has no other bit set, so it is zero only where both are; OR-ing
   comparison results gives a comparison result that matched wherever
   either input matched.
   */
  function Or8(a: Vector8, b: Vector8): (r: Vector8)
    ensures forall k :: 0 <= k < RegisterBytes ==> r[k] | a[k] == r[k] && r[k] | b[k] == r[k]
    ensures forall k :: 0 <= k < RegisterBytes ==> r[k] & !a[k] & !b[k] == 0
    ensures forall k :: 0 <= k < RegisterBytes ==> (r[k] == 0 <==> a[k] == 0 && b[k] == 0)
    ensures IsMask8(a) && IsMask8(b) ==> IsMask8(r)
    ensures IsMask8(a) && IsMask8(b) ==>
      forall k :: 0 <= k < RegisterBytes ==> (r[k] == AllOnes8 <==> a[k] == AllOnes8 || b[k] == AllOnes8)
  {
    seq(RegisterBytes, k requires 0 <= k < RegisterBytes => a[k] | b[k])
  }

  /**
   vector32_or: lane-wise bitwise OR. A lane keeps every bit of both inputs
   and has no other bit set, so it is zero only where both are; OR-ing
   comparison results gives a comparison result that matched wherever
   either input matched.
   */
  function Or32(a: Vector32, b: Vector32): (r: Vector32)
    ensures forall k :: 0 <= k < Lanes32 ==> r[k] | a[k] == r[k] && r[k] | b[k] == r[k]
    ensures forall k :: 0 <= k < Lanes32 ==> r[k] & !a[k] & !b[k] == 0
    ensures forall k :: 0 <= k < Lanes32 ==> (r[k] == 0 <==> a[k] == 0 && b[k] == 0)
    ensures IsMask32(a) && IsMask32(b) ==> IsMask32(r)
    ensures IsMask32(a) && IsMask32(b) ==>
      forall k :: 0 <= k < Lanes32 ==> (r[k] == AllOnes32 <==> a[k] == AllOnes32 || b[k] == AllOnes32)
  {
    seq(Lanes32, k requires 0 <= k < Lanes32 => a[k] | b[k])
  }

  // ------------------------------------------------- saturating subtract

  /**
   vector8_ssub: unsigned saturating subtraction, max(a - b, 0) per lane.
   A lane never wraps: it is zero exactly where a <= b, and elsewhere it is
   the exact difference (adding b back gives a, and it never exceeds a).
   */
  function Ssub8(a: Vector8, b: Vector8): (r: Vector8)
    ensures forall k :: 0 <= k < RegisterBytes ==> (r[k] == 0 <==> a[k] <= b[k])
    ensures forall k :: 0 <= k < RegisterBytes ==> r[k] <= a[k]
    ensures forall k :: 0 <= k < RegisterBytes && b[k] < a[k] ==> r[k] + b[k] == a[k]
  {
    seq(RegisterBytes, k requires 0 <= k < RegisterBytes => if b[k] < a[k] then a[k] - b[k] else 0)
  }

  // ----------------------------------------------------------- reduction

  /**
   The `_mm_movemask_epi8` gather: bit `k` of the result is the high bit of
   byte `k`. It is zero exactly when no byte has its high bit set.
   */
  function MoveMask(v: seq<bv8>): (m: nat)
    ensures m < Pow2(|v|)
    ensures m == 0 <==> forall k :: 0 <= k < |v| ==> !HighBit(v[k])
  {
    if |v| == 0 then 0
    else (if HighBit(v[0]) then 1 else 0) + 2 * MoveMask(v[1..])
  }

  /** Bit `k` of the gathered mask is the high bit of byte `k`. */
  lemma {:induction false} MoveMaskBit(v: seq<bv8>, k: nat)
    requires k < |v|
    ensures (MoveMask(v) / Pow2(k)) % 2 == (if HighBit(v[k]) then 1 else 0)
  {
    if k > 0 {
      MoveMaskBit(v[1..], k - 1);
      var rest := MoveMask(v[1..]);
      var low := if HighBit(v[0]) then 1 else 0;
      var p := Pow2(k - 1);
      assert v[1..][k - 1] == v[k];
      DivDoubled(low + 2 * rest, low, rest, p);
    }
  }

  /** Dividing `low + 2 * rest` by `2p` drops the low bit and halves. */
  lemma DivDoubled(n: nat, low: nat, rest: nat, p: nat)
    requires low < 2 && p > 0 && n == low + 2 * rest
    ensures n / (2 * p) == rest / p
  {
    var q, r := rest / p, rest % p;
    assert n == (2 * p) * q + (2 * r + low);
    DivUnique(n, 2 * p, q, 2 * r + low);
  }

  lemma DivUnique(n: nat, d: nat, q: nat, r: nat)
    requires d > 0 && r < d && n == d * q + r
    ensures n / d == q
  {
    ModUnique(n, d, q, r);
  }

  /** vector8_is_highbit_set: some byte has bit 7 set. */
  function IsHighbitSet8(v: Vector8): (b: bool)
    ensures b <==> exists k :: 0 <= k < RegisterBytes && HighBit(v[k])
  {
    MoveMask(v) != 0
  }

  /** Byte `s` (0 = least significant) of a 32-bit word. */
  function ByteOf(w: bv32, s: nat): bv8
    requires s < 4
  {
    var shifted := if s == 0 then w else if s == 1 then w >> 8 else if s == 2 then w >> 16 else w >> 24;
    (shifted & 0xFF) as bv8
  }

  /**
   The 16 bytes of a `Vector32` register in memory order: the x86 backend
   uses one register type for every lane width, so a word register can be
   read byte by byte. Lanes are little-endian.
   */
  function Bytes32(v: Vector32): (r: Vector8)
    ensures forall j, s :: 0 <= j < Lanes32 && 0 <= s < 4 ==> r[4 * j + s] == ByteOf(v[j], s)
  {
    var r := seq(RegisterBytes, k requires 0 <= k < RegisterBytes => ByteOf(v[k / 4], k % 4));
    assert forall j, s :: 0 <= j < Lanes32 && 0 <= s < 4 ==> r[4 * j + s] == ByteOf(v[j], s) by {
      forall j, s | 0 <= j < Lanes32 && 0 <= s < 4
        ensures r[4 * j + s] == ByteOf(v[j], s)
      {
        WordOffset(j, s);
      }
    }
    r
  }

  /** Byte `4 * j + s` of a register is byte `s` of word `j`. */
  lemma WordOffset(j: nat, s: nat)
    requires s < 4
    ensures (4 * j + s) / 4 == j && (4 * j + s) % 4 == s
  {
  }

  /** A word has a byte with its high bit set exactly when it meets 0x80808080. */
  lemma WordHighBits(w: bv32)
    ensures (w & 0x8080_8080 != 0) <==> exists s :: 0 <= s < 4 && HighBit(ByteOf(w, s))
  {
    assert HighBit(ByteOf(w, 0)) <==> w & 0x0000_0080 != 0;
    assert HighBit(ByteOf(w, 1)) <==> w & 0x0000_8000 != 0;
    assert HighBit(ByteOf(w, 2)) <==> w & 0x0080_0000 != 0;
    assert HighBit(ByteOf(w, 3)) <==> w & 0x8000_0000 != 0;
  }

  /**
   vector32_is_highbit_set: the byte-level test of `IsHighbitSet8` applied to
   the register's 16 bytes, i.e. some word has one of its four byte high bits
   set. On a comparison result (every lane 0 or all-ones) this is exactly
   "some lane is all-ones".
   */
  function IsHighbitSet32(v: Vector32): (b: bool)
    ensures b <==> exists j :: 0 <= j < Lanes32 && v[j] & 0x8080_8080 != 0
    ensures IsMask32(v) ==> (b <==> exists j :: 0 <= j < Lanes32 && v[j] == AllOnes32)
  {
    var bytes := Bytes32(v);
    HighbitOfBytes32(v, bytes);
    MaskHighBits(v);
    IsHighbitSet8(bytes)
  }

  /** On a comparison result, a lane meets 0x80808080 exactly when it is all-ones. */
  lemma MaskHighBits(v: Vector32)
    ensures IsMask32(v) ==> ((exists j :: 0 <= j < Lanes32 && v[j] & 0x8080_8080 != 0)
                             <==> (exists j :: 0 <= j < Lanes32 && v[j] == AllOnes32))
  {
    if IsMask32(v) {
      forall j | 0 <= j < Lanes32
        ensures v[j] & 0x8080_8080 != 0 <==> v[j] == AllOnes32
      {
        assert v[j] == 0 || v[j] == AllOnes32;
      }
    }
  }

  /** Byte `k` of the register lies in word `k / 4`. */
  lemma ByteOfRegister(v: Vector32, k: nat)
    requires k < RegisterBytes
    ensures Bytes32(v)[k] == ByteOf(v[k / 4], k % 4)
  {
  }

  lemma HighbitOfBytes32(v: Vector32, bytes: Vector8)
    requires bytes == Bytes32(v)
    ensures (exists k :: 0 <= k < RegisterBytes && HighBit(bytes[k]))
        <==> (exists j :: 0 <= j < Lanes32 && v[j] & 0x8080_8080 != 0)
  {
    if exists k :: 0 <= k < RegisterBytes && HighBit(bytes[k]) {
      var k :| 0 <= k < RegisterBytes && HighBit(bytes[k]);
      ByteOfRegister(v, k);
      WordHighBits(v[k / 4]);
    }
    if exists j :: 0 <= j < Lanes32 && v[j] & 0x8080_8080 != 0 {
      var j :| 0 <= j < Lanes32 && v[j] & 0x8080_8080 != 0;
      WordHighBits(v[j]);
      var s :| 0 <= s < 4 && HighBit(ByteOf(v[j], s));
      ByteOfRegister(v, 4 * j + s);
      WordOffset(j, s);
      assert HighBit(bytes[4 * j + s]);
    }
  }

  // ---------------------------------------------------------- predicates

  /** vector8_has: some lane equals `c`. */
  function Has8(v: Vector8, c: bv8): (b: bool)
    ensures b <==> exists k :: 0 <= k < RegisterBytes && v[k] == c
  {
    var eq := Eq8(v, Broadcast8(c));
    assert forall k :: 0 <= k < RegisterBytes ==> (HighBit(eq[k]) <==> v[k] == c);
    IsHighbitSet8(eq)
  }

  /** vector8_has_zero: `Has8(v, 0)`, i.e. some lane is zero. */
  function HasZero8(v: Vector8): (b: bool)
    ensures b <==> exists k :: 0 <= k < RegisterBytes && v[k] == 0
  {
    Has8(v, 0)
  }

  /**
   vector8_has_le: some lane is <= `c` (unsigned). Computed without an
   unsigned compare: the lanes <= c are exactly those that saturating
   subtraction of `c` turns into zero.
   */
  function HasLe8(v: Vector8, c: bv8): (b: bool)
    ensures b <==> exists k :: 0 <= k < RegisterBytes && v[k] <= c
  {
    var diff := Ssub8(v, Broadcast8(c));
    assert forall k :: 0 <= k < RegisterBytes ==> (diff[k] == 0 <==> v[k] <= c);
    HasZero8(diff)
  }
}
