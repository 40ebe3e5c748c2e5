# Bit-plane similarity engine of cosdata, in Dafny

This project models the integer and bit-level engine of the scalar-quantisation
experiment in `org/src/main.rs` of the cosdata repository, and proves properties of it:

- **Popcount** (`popcount.dfy`): the nibble table `x_function`, the 16-bit nibble sum
  `shift_and_accumulate_u16`, the 65536-entry lookup table `U16_LOOKUP_TABLE` filled by
  `initialize_u16_lookup_table`, and the 32-bit lookup `shift_and_accumulate`. The
  mutable static table is a class `PopcountTable` over an `array<nat>`. Filling it
  establishes that every entry is the popcount of its index, and from then on the
  32-bit lookup returns the popcount of the word.
- **BitPlanes** (`bitplanes.dfy`): the bit extraction of `to_float_flag` (flags of the
  bucket number's low `r` bits, most significant first) and the packer
  `quantize_to_u32_bits`. The packer puts flag `k` of component `i` at bit `i mod 32` of
  word `i div 32` of plane `k`. It flushes every 32 components and pushes a final
  partial word. The packer is proved to produce exactly the layout `Packed`. That layout
  is proved unique, and reading a component's bits back from the planes gives its
  bucket number modulo `2^r`.
- **Kernels** (`kernels.dfy`): `quaternary_multiply_u32` and `senary_multiply_u8`. On
  0/1 inputs they compute the carry-less (GF(2)) product of the 2-bit and 3-bit codes.
  They are symmetric, and they equal the integer product exactly when no column of
  partial products carries.
- **Similarity** (`similarity.dfy`): the integer accumulators of `cosine_coalesce`
  (`final_result`, the Hamming distance summed over planes) and of
  `cosine_similarity_new` (`dot_product_and_count`: per word pair, the popcount of the
  AND shifted left by the plane index, read as `i32`, minus 16). Both are proved
  against recursive specification functions, and lemmas are proved about those
  functions.

`bits.dfy` (module `Bits`) holds the word-level vocabulary on unbounded naturals:
`Pow2`, `Popcount`, `And`, `Or`, `Xor`, `Shr`, `Shl32`/`Shl8` (shifts that drop bits
beyond the word, as Rust's `<<` on `u32`/`u8` does), `TestBit`, and the arithmetic
lemmas about them. `u32`, `u16` and `u8` are subset types of `nat` (`U32`, `U16`, `U8`).

In these places the model follows the code's behaviour:

- No clamp at the upper boundary. A component that lands in bucket `2^r` keeps only
  its low `r` bits and packs as code 0 (`BitPlanes.BoundaryWrapsToZero`).
- The coalesce score sums the plane popcounts without weighting the planes.
- Operands of different shapes are not rejected with an error. Too short an operand
  makes Rust panic on an index, and the model makes this a precondition. It applies only
  when a word is actually read. When no word is read (`length < 32` for the coalesce, an
  empty plane 0 for the and-count), any operands are accepted and the total is 0.
  Extra planes or words are ignored.

## Model

| member | source | states |
|---|---|---|
| Popcount.NibbleCount | org/src/main.rs:33-54 | for a nibble (at most 15) the result is its number of set bits; above 15 it is 0 |
| Popcount.ShiftAndAccumulateU16 | org/src/main.rs:23-31 | the sum of the four masked nibble counts is the popcount of the 16-bit value, hence at most 16 |
| Popcount.NibbleDecomposition | org/src/main.rs:26-29 | the popcount of a 16-bit value is the sum of the popcounts of the nibbles at shifts 0, 4, 8 and 12, and at most 16 |
| Popcount.NibbleAt | org/src/main.rs:26-29 | `15 & (v >> s)` is the nibble of `v` at bit `s` |
| Popcount.PopcountTable.constructor | org/src/main.rs:2-6 | the static table has 65536 slots, all 0 |
| Popcount.PopcountTable.Initialize | org/src/main.rs:14-21 | after the pass every entry holds the popcount of its index; the indices are written once each, in ascending order |
| Popcount.PopcountTable.ShiftAndAccumulate | org/src/main.rs:56-60 | the two half-word entries sum to at most 32 (no `u32` overflow); with the table initialised, the sum is the popcount of the word |
| Popcount.HalvesOfWord | org/src/main.rs:57-59 | both halves of a word index the table, and their popcounts add up to the word's popcount |
| BitPlanes.ToFloatFlag | org/src/main.rs:252-259 | the loop of low-bit pushes and right shifts, then the reversal, yields bit `r-1-k` of the bucket number at position `k` |
| BitPlanes.Reverse | org/src/main.rs:258 | position `k` of the result is position `n-1-k` of the input |
| BitPlanes.FlagsRoundTrip | org/src/main.rs:252-259 | decoding the flags most significant first gives the bucket number modulo `2^r` |
| BitPlanes.FlagsDropHighBits | org/src/main.rs:252-259 | the flags depend only on the low `r` bits of the bucket number |
| BitPlanes.BoundaryWrapsToZero | org/src/main.rs:249-259 | bucket number `2^r` yields all flags clear and code 0 |
| BitPlanes.QuantizeToU32Bits | org/src/main.rs:262-300 | the result is the layout `Packed`: `r` planes of ceil(n/32) words; bit `b` of word `w` of plane `k` is flag `k` of component `32w+b`, or clear past the last component |
| BitPlanes.OrFlags | org/src/main.rs:276-280 | each plane's current word gains bit `bit_index` exactly when its flag is set; the other words and bits are unchanged |
| BitPlanes.FlushWords | org/src/main.rs:283-289 | every plane gets its current word appended, and the words are reset to 0 |
| BitPlanes.PushWords | org/src/main.rs:293-297 | every plane gets its partial current word appended |
| BitPlanes.PackedComponentBit | org/src/main.rs:273-281 | in a packed result, bit `i mod 32` of word `i div 32` of plane `k` is bit `r-1-k` of component `i`'s bucket number |
| BitPlanes.PackedPadding | org/src/main.rs:293-297 | the unused high bits of a trailing partial word are clear |
| BitPlanes.PackedNoExtraWord | org/src/main.rs:283-297 | when `n` is a multiple of 32, each plane has exactly `n/32` words |
| BitPlanes.PackedUnique | org/src/main.rs:262-300 | the layout determines every word of every plane |
| BitPlanes.PackedRoundTrip | org/src/main.rs:262-300 | reading component `i`'s bit from every plane and decoding gives its bucket number modulo `2^r` |
| Kernels.QuaternaryMultiply | org/src/main.rs:115-124 | the result fits a `u32`; on 0/1 inputs it is `4·a1b1 + 2·((a0b1 + a1b0) mod 2) + a0b0` |
| Kernels.QuaternaryIsCarryless | org/src/main.rs:115-124 | on 0/1 inputs the kernel is the carry-less product of the codes `2a1+a0` and `2b1+b0` |
| Kernels.QuaternarySymmetric | org/src/main.rs:115-124 | swapping the operand codes does not change the result |
| Kernels.QuaternaryVersusProduct | org/src/main.rs:115-124 | on 0/1 inputs the kernel equals the integer product of the codes if and only if the codes are not both 3; for 3 and 3 it gives 5 |
| Kernels.SenaryMultiply | org/src/main.rs:126-137 | the result fits a `u8`; on 0/1 inputs, bit `j` holds the parity of the `j`-th column of partial products |
| Kernels.SenaryIsCarryless | org/src/main.rs:126-137 | on 0/1 inputs the kernel is the carry-less product of the two 3-bit codes |
| Kernels.SenarySymmetric | org/src/main.rs:126-137 | swapping the operand codes does not change the result |
| Kernels.SenaryVersusProduct | org/src/main.rs:126-137 | on 0/1 inputs the kernel is below 32 and at most the integer product; it equals it if and only if no column sum reaches 2 |
| Kernels.SenaryCarryLost | org/src/main.rs:126-137 | for the codes 7 and 7 the kernel gives 21 and the corrected kernel 49 |
| Kernels.QuaternaryMultiplyExact | org/src/main.rs:115-124 | the corrected 2-bit kernel; on 0/1 inputs it is the integer product of the codes |
| Kernels.SenaryMultiplyExact | org/src/main.rs:126-137 | the corrected 3-bit kernel; on 0/1 inputs it is the integer product of the codes |
| Kernels.ExactAgreesWithoutCarry | org/src/main.rs:126-137 | the corrected and the written senary kernels agree if and only if no column carries |
| Similarity.CoalesceSum | org/src/main.rs:143-154 | the nested loops' total is the sum, over the planes read, of the popcounts of the xor of the word pairs; the operands need those planes and words only when at least one word is read, and otherwise the total is 0 |
| Similarity.CosineCoalesceSum | org/src/main.rs:139-154 | `final_result` is the Hamming sum over `2^resolution` planes of `length >> 5` words; with `length < 32` nothing is read and it is 0 for any operands |
| Similarity.CosineCoalesceSumCorrected | org/src/main.rs:139-156 | reading `resolution` planes, `final_result` is their Hamming sum and at most the divisor `length · resolution`; with `length < 32` nothing is read and any operands are accepted |
| Similarity.PackedCoalesceAccepted | org/src/main.rs:142-146 | two vectors packed at resolution `r` from `length` components have the `r` planes and `length >> 5` words the corrected coalesce reads |
| Similarity.PackedRejectedByCoalesce | org/src/main.rs:140-146 | a packed vector has fewer than `2^r` planes, so once a word is read from each plane (`length` at least 32) no packed input meets the as-written coalesce's reads |
| Similarity.CoalesceShortInput | org/src/main.rs:142-154 | with `length < 32` no word is read: any operands are accepted and `final_result` is 0 |
| Similarity.HammingSumSymmetric | org/src/main.rs:143-154 | for operands of the same shape (the same plane and word count read), swapping `x` and `y` does not change `final_result` |
| Similarity.HammingSumZero | org/src/main.rs:143-154 | `final_result` is 0 if and only if all compared words are equal |
| Similarity.HammingSumSelf | org/src/main.rs:143-154 | comparing a vector with itself gives 0 |
| Similarity.HammingSumBound | org/src/main.rs:143-154 | `final_result` is at most 32 per compared word pair |
| Similarity.CoalesceBelowDivisor | org/src/main.rs:142-156 | `final_result` is at most the divisor `length · parts`, so the score `1 - final_result/(length·parts)` lies in [0, 1] for `length > 0` (at `length == 0` the divisor is 0) |
| Similarity.I32 | org/src/main.rs:176 | `u32 as i32` gives the value in `[-2^31, 2^31)` that is congruent to the word modulo `2^32` |
| Similarity.CosineSimilarityNewAndCount | org/src/main.rs:159-184 | `dot_product_and_count` is the sum, over every plane `index` and every word pair, of `(popcount(a & b) << index) as i32 - 16`; when plane 0 is empty nothing is read, `y` and the plane count are unconstrained, and the count is 0 |
| Similarity.AndSumSymmetric | org/src/main.rs:173-184 | for operands of the same shape (the same plane and word count read), swapping `x` and `y` does not change `dot_product_and_count` |
| Similarity.RowAndWeighted | org/src/main.rs:175-176 | for plane index at most 25, the plane contributes `2^index · (common set bits) - 16 · words` |
| Similarity.AndTermWeighted | org/src/main.rs:176 | for index at most 25, one term is `2^index · popcount(a & b) - 16` |
| Similarity.ShiftWithoutWrap | org/src/main.rs:176 | a popcount of at most 32 shifted by at most 25 loses no bit and reads the same as `i32` |
| Similarity.AndTermWrapsAtTopPlane | org/src/main.rs:176 | at plane 31 a single common bit makes `<< 31` then `as i32` give `-2^31`; the model's unbounded term is then `-2^31 - 16`, which is exactly where Rust's `i32` subtraction `- 16` overflows |

## Left out

- `main`, `dot_product`, `magnitude`, `cosine_similarity` and `cosine_similarity_quaternary` are outside the modelled core. The benchmarks `benches/*.rs` and `src/quantization/scalar.rs` are not part of this model.
- Floating point: the bucket computation `((x + 1.0) / step).floor() as usize` (line 249), the step `2.0 / parts` (line 265), the final division of `cosine_coalesce` (line 156), and everything after line 184 in `cosine_similarity_new`. The model stops at the integer accumulators.
- BitPlanes.ToFloatFlag: takes the bucket number `num` as input instead of the float, because the float-to-integer step is not modelled.
- BitPlanes.QuantizeToU32Bits: takes the components' bucket numbers instead of the floats, for the same reason. The `Vec::with_capacity` hint has no observable effect and is not modelled.
- BitPlanes.QuantizeToU32Bits: accepts every `u8` resolution. In Rust, `2_usize.pow(bits_per_value as u32)` (line 264) overflows for resolution 64 or more (a panic in debug builds) before anything is packed. The model does not capture that failure.
- `println!` output (lines 149, 151, 155, 179-182, 250, 285) is I/O and is left out.
- The `unsafe` static table: the model passes the table object explicitly. Data races between initialisation and lookup are not modelled.
- Popcount.PopcountTable.ShiftAndAccumulate: the `Ready()` requirement (table initialised) appears only in the ensures. Before initialisation the source reads zeros; the model promises only the bound then.
- Popcount.PopcountTable.Initialize: the ghost `written` log records only the latest pass.
- Table entries are `u32` in the source and `nat` bounded by 16 here. All sums are proved to stay within `u32`.
- Similarity.CosineSimilarityNewAndCount: the accumulator is an unbounded `int`. The `i32` overflow of `+=` and of `- 16` (a panic in debug builds, wrap-around in release builds) is not modelled. `Similarity.AndTermWrapsAtTopPlane` shows where it starts.
- Similarity.CosineSimilarityNewAndCount: requires at most 32 planes whenever a word is read, because a `u32` shift by 32 or more panics in debug builds.
- Similarity.AndTermWrapsAtTopPlane: states the model's unbounded value `-2^31 - 16`, which no `i32` holds. In Rust the `- 16` overflows there: a panic in debug builds, `2^31 - 16` in release builds.
- Similarity.CosineCoalesceSum: `2_usize.pow(resolution)` is unbounded here. Its overflow for resolution 64 or more is not modelled.
- Similarity.CosineCoalesceSum and Similarity.CosineSimilarityNewAndCount: an index past the end of a plane or of the plane list panics in Rust. Both methods instead require that the operands cover every index read, and only when a word is read. `y.resolution` is ignored, as in the source.

## Findings

| source | as written | input that shows it | evidently intended | confidence | as-written member | corrected member |
|---|---|---|---|---|---|---|
| org/src/main.rs:115-124 | the middle partial products are combined with xor and the columns with or, so carries are lost | codes 3 and 3 (all four bits 1) give 5 | the integer product of the 2-bit codes, 9 | medium, not executed | Kernels.QuaternaryVersusProduct | Kernels.QuaternaryMultiplyExact |
| org/src/main.rs:126-137 | same; each column's parity is kept instead of its sum | codes 7 and 7 (all six bits 1) give 21 | the integer product of the 3-bit codes, 49 | medium, not executed | Kernels.SenaryCarryLost | Kernels.SenaryMultiplyExact |
| org/src/main.rs:140-146 | `parts = 2^resolution` planes are read, but `quantize_to_u32_bits` makes `resolution` planes | resolution 2, 32 components: two planes are packed, and `quant_vec[2]` is read out of bounds (with fewer than 32 components no word is read and nothing fails) | read the `resolution` packed planes and divide by `length · resolution` | medium, not executed | Similarity.PackedRejectedByCoalesce | Similarity.CosineCoalesceSumCorrected |
