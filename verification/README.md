# libsimd linear search, modelled in Dafny

libsimd's core answers one question: is there an element in the first
`nelem` entries of an array that matches a key? `lfind8` looks for an
equal byte, `lfind8_le` for a byte less than or equal to the key (unsigned),
and `lfind32` for an equal 32-bit word. Each driver works in two phases:

- **Vector phase.** It rounds `nelem` down to a multiple of its stride with
  a bitmask. It then tests that prefix one stride at a time with 128-bit
  vector predicates and returns true on the first stride that matches.
- **Tail phase.** It scans the remaining elements one at a time.

The vector predicates come from simd_arm.h:

- broadcast, lane-wise equality and saturating subtraction;
- bitwise OR;
- the "any high bit set" reduction;
- `vector8_has`, `vector8_has_zero` and `vector8_has_le`, built from the
  primitives above.

The project has four modules:

- `Bits` (bits.dfy): powers of two, and bitwise AND and complement on
  naturals. It proves that `n & ~15` in a 32- or 64-bit word is `n` rounded
  down to a multiple of 16.
- `Simd` (simd_arm.dfy):
  - Lanes are `bv8` or `bv32`. A register is a sequence of 16 bytes
    (`Vector8`) or 4 words (`Vector32`).
  - Every primitive is a pure function whose contract states its lane
    semantics.
  - `_mm_movemask_epi8` is modelled as `MoveMask`, a natural number whose
    bit `k` is the high bit of byte `k`.
  - `vector32_is_highbit_set` reads the word register as its 16
    little-endian bytes, as the x86 code does.
- `Lfind` (lfind.dfy): the three drivers as methods.
  - Each has the loops, the tail index and the early returns of the C
    code.
  - Each proves `found <==> exists i :: 0 <= i < nelem && base[i] == key`,
    with `<=` in place of `==` for `Lfind8Le`.
  - Counts and indices have type `uint32`. The subtype proves that
    `i += stride` never wraps, because `i <= tail_idx <= nelem`.
  - The vector loop's invariant `(tail_idx - i) % stride == 0` shows that
    it stops exactly at `tail_idx`. The two phases therefore partition
    `[0, nelem)`.
  - Each vector step hands only its own 16 elements, `base[i..i + 16]`,
    to `Load8`/`Load32`. Since `i + 16 <= tail_idx <= nelem`, no read goes
    past `nelem`, and nothing after the first matching stride is read.
  - The drivers have no `modifies` clause, so they cannot change the
    array.
- `Scenarios` (scenarios.dfy): the functional tests' reference linear
  searches and their concrete cases.
  - Each driver is proved to agree with its reference search on every key
    and every array.
  - The fixed test cases are proved to give the results the tests expect.

## Model

| member | source | states |
|---|---|---|
| Simd.Load8 | simd_arm.h:38-42 | lane `k` of the loaded register is byte `i + k` of the source; the 16 bytes must exist |
| Simd.Load32 | simd_arm.h:44-48 | lane `k` of the loaded register is word `i + k` of the source; the 4 words must exist |
| Simd.Broadcast8 | simd_arm.h:50-57 | every one of the 16 lanes holds `c` |
| Simd.Broadcast32 | simd_arm.h:59-63 | every one of the 4 lanes holds `c` |
| Simd.Eq8 | simd_arm.h:157-165 | the result is a comparison mask whose lane is all-ones exactly where the inputs agree and zero elsewhere |
| Simd.Eq32 | simd_arm.h:167-171 | the same for 32-bit lanes |
| Simd.Or8 | simd_arm.h:131-138 | each lane contains every bit of both inputs and no other bit; it is zero only where both are zero; OR of two masks is a mask that is all-ones where either is |
| Simd.Or32 | simd_arm.h:140-144 | the same for 32-bit lanes: every bit of both inputs and no other; zero only where both are; OR of two masks is a mask, all-ones where either is |
| Simd.Ssub8 | simd_arm.h:146-156 | a lane is zero exactly when `a[k] <= b[k]`; otherwise it is the exact difference (`r[k] + b[k] == a[k]`) with no wrap-around; never above `a[k]` |
| Simd.MoveMask | simd_arm.h:109-113 | the gathered mask fits in `|v|` bits and is zero exactly when no byte has its high bit set |
| Simd.MoveMaskBit | simd_arm.h:109-113 | bit `k` of the gathered mask is the high bit of byte `k` |
| Simd.IsHighbitSet8 | simd_arm.h:106-113 | true exactly when some byte has bit 7 set |
| Simd.HighbitOfBytes32 | simd_arm.h:115-129 | some byte of the word register's byte view has its high bit set exactly when some word meets 0x80808080 |
| Simd.IsHighbitSet32 | simd_arm.h:115-129 | true exactly when some word has a byte with bit 7 set; on a comparison mask, exactly when some lane is all-ones |
| Simd.Has8 | simd_arm.h:65-76 | true exactly when some lane equals `c` |
| Simd.HasZero8 | simd_arm.h:78-85 | true exactly when some lane is zero |
| Simd.HasLe8 | simd_arm.h:87-104 | true exactly when some lane is `<= c` as an unsigned byte |
| Bits.RoundDown16 | lfind.c:15-16 | in a word of at least 4 bits, `n & ~15` equals `n - n % 16` |
| Lfind.StrideMask8IsComplement | lfind.c:15-16 | the byte stride is 16; the mask constant is `~15` taken in 64-bit size_t, which holds every uint32 count |
| Lfind.StrideMask32IsComplement | lfind.c:79-84 | an iteration covers 4 registers of 4 words, 16 in all; the mask constant is `~15` taken in uint32 |
| Lfind.Mask8RoundsDown | lfind.c:15-16 | the size_t mask, applied to a uint32 count, rounds it down to a multiple of 16 |
| Lfind.Mask32RoundsDown | lfind.c:83-84 | the uint32 mask, applied to a uint32 count, rounds it down to a multiple of 16 |
| Lfind.TailIndex8 | lfind.c:15-16 | `tail_idx` is `nelem` rounded down to a multiple of 16: at most `nelem`, a multiple of 16, within 16 of `nelem`; lfind8_le computes the same expression at lfind.c:48 |
| Lfind.TailIndex32 | lfind.c:79-84 | the same for `nelem_per_iteration == 16`, computed in uint32 |
| Lfind.ChunkHas8 | lfind.c:19-24 | one vector step matches exactly when one of the 16 bytes at `i` is the key |
| Lfind.ChunkHasLe8 | lfind.c:51-56 | one vector step matches exactly when one of the 16 bytes at `i` is `<=` the key |
| Lfind.Lfind8 | lfind.c:4-34 | true exactly when some element among the first `nelem` equals `key`; false when `nelem == 0` |
| Lfind.Lfind8Le | lfind.c:36-66 | true exactly when some element among the first `nelem` is `<= key` (unsigned) |
| Lfind.CombineBlock32 | lfind.c:100-115 | the folded result is a mask whose lane `k` is all-ones exactly when word `k` of one of the four registers is the key |
| Lfind.BlockMatch | lfind.c:112-121 | some lane of the folded result is all-ones exactly when one of the block's 16 words is the key |
| Lfind.BlockHasKey32 | lfind.c:100-121 | one unrolled iteration matches exactly when one of the 16 words at `i` is the key |
| Lfind.Lfind32 | lfind.c:69-134 | true exactly when some element among the first `nelem` equals `key`; false when `nelem == 0` |
| Scenarios.LinearSearch8 | test/test_functional.c:44-53 | the reference scan is true exactly when some element among the first `nelem` equals `key` |
| Scenarios.LinearSearch32 | test/test_functional.c:55-63 | the same for 32-bit words |
| Scenarios.LinearSearch8Le | test/test_functional.c:65-73 | the reference scan is true exactly when some element is `<= key` |
| Scenarios.Lfind8MatchesLinear | test/test_functional.c:142-153 | lfind8 and the reference scan agree on every key, array and count |
| Scenarios.Lfind8LeMatchesLinear | test/test_functional.c:181-192 | lfind8_le and the reference scan agree on every key, array and count |
| Scenarios.Lfind32MatchesLinear | test/test_functional.c:266-277 | lfind32 and the reference scan agree on every key, array and count |
| Scenarios.Lfind8Basic | test/test_functional.c:76-99 | on {1, 3, ..., 15}: 5, 1 and 15 are found; 2, 16 and 0 are not |
| Scenarios.EmptyInput | test/test_functional.c:104-108 | all three drivers return false for zero elements, whatever the key and the array |
| Scenarios.Lfind8EdgeCases | test/test_functional.c:110-121 | a one-element array yields its element and nothing else; a duplicated element is found |
| Scenarios.Lfind8Large | test/test_functional.c:124-140 | over 10000 bytes holding `i % 256`, 100 and 255 are found |
| Scenarios.Lfind8Alignment | test/test_functional.c:285-307 | for every size from 1 to 64, the first and the last of 0, 1, ..., size - 1 are found |
| Scenarios.Lfind8LeBasic | test/test_functional.c:161-179 | on {10, 30, ..., 150}: keys 50, 25 and 200 match; key 5 does not |
| Scenarios.Lfind32Basic | test/test_functional.c:198-221 | on {10, 30, ..., 150}: 50, 10 and 150 are found; 25, 200 and 5 are not |
| Scenarios.Lfind32EdgeCases | test/test_functional.c:232-245 | a one-element array yields its element only; 0 and 0xFFFFFFFF are found among the extremes |
| Scenarios.Lfind32Large | test/test_functional.c:248-264 | over the even numbers 0, 2, ..., 19998, 1000 is found and 1001 is not |

## Left out

- Scenarios.Lfind32Large: the even-number fill is a precondition on the array rather than a loop, because relating a `bv32` lane to its integer index in a 10000-step loop is beyond what the solver settles cheaply.
- Scenarios.Lfind8Alignment: covers one size per call, for any size from 1 to 64, instead of looping over the sizes.
- Scenarios.Lfind8MatchesLinear, Scenarios.Lfind8LeMatchesLinear, Scenarios.Lfind32MatchesLinear: the tests run each comparison on one fixed array. For lfind8 the test tries all 256 keys; for lfind8_le and lfind32 it tries sampled keys. These lemmas compare every key on every array and count, which is stronger.
- The instruction encodings. simd_arm.h includes `arm_neon.h` and names NEON types, but its bodies call SSE2 intrinsics. Only the lane semantics that the function names and comments document is modelled.
- simd.h's choice of backend (x86, Arm or none) is a build-time switch and is not modelled.
- Alignment of loads: the C loads are unaligned. The model has no addresses, only indices.
- Pointers: a NULL `base` with `nelem == 0` is modelled by an empty array, because Dafny arrays are never null.
- The test harness's printing, pass/fail counters and `malloc`/`free` are I/O and not modelled. test_performance.c measures timing and is not part of this model.
- Concurrent callers: the drivers only read the array. Read stability during a call is the caller's concern and is not modelled.
