# url-decode-simd, modelled in Dafny

`url-decode-simd` decodes URL and form data. Every `+` becomes a space. A
`%` followed by two hex digits becomes the byte those digits spell. Every
other byte is copied unchanged, including a `%` that is not followed by two
hex digits. The crate has three parts:

- a scalar decoder (`fallback::decode` and `fallback::decode_extend`), taken
  from the `url` crate;
- an SSE4.1 block decoder, which decodes sixteen bytes at a time:
  - it finds the `%` lanes that start complete escapes;
  - it merges each escape's two nibbles into the lane of its `%`;
  - it squeezes out the digit lanes with one byte shuffle, using an entry of
    a precomputed table;
  - it carries a trailing `%` into the next block;
  - it hands the bytes after the last full block to the scalar decoder;
- an older AVX block decoder, which builds the shuffle map with a loop for
  every block.

The table is generated by `build_mask_128` in
`examples/build-shuffle-mask.rs`.

The model has these modules:

- `Bytes`: bytes, the hex digit classifier, the output buffer, and bit
  operations.
- `Fallback`: the scalar decoder. It has two layers:
  - a pure specification, `Decoded`, which is `PercentDecoded` applied to
    `ReplacedPlus`;
  - the imperative code proved against it: the slice cursor, the
    `PercentDecode` iterator, `if_any`, `replace_plus`, `decode` and
    `decode_extend`.
- `Simd`: the SSE/AVX intrinsics as functions on sixteen-lane sequences.
- `ShuffleMask`: `build_mask_128` (its loop over an array), the table, and
  the compaction theorem.
- `Compaction`: the proof that compacting a merged block decodes it.
- `BlockLanes`: the lane stages the two block decoders share.
- `Sse41`: the SSE4.1 decoder. It is proved to append exactly what the
  scalar `decode_extend` appends, for every input.
- `Avx`: the AVX decoder. Its panics are made explicit as a precondition.
  It is proved to agree with percent-decoding of the full blocks when every
  `%` in them starts an escape, and with `fallback_decode` when those blocks
  also hold no `+`. The bytes after the last full block are dropped.
- `Cases`: the unit cases of the source, stated as lemmas over inputs.

## Model

| member | source | states |
|---|---|---|
| Bytes.HexValue | src/fallback.rs:55-56 | the value `to_digit(16)` gives a hex digit is below 16 |
| Bytes.UpperHexDigit | src/fallback.rs:55-56 | every nibble has an upper-case hex digit whose value it is, so HexValue is onto the nibbles |
| Bytes.HexValueCaseInsensitive | src/fallback.rs:55-56 | two hex digits have the same value exactly when they are the same digit up to case |
| Bytes.Unhex | src/fallback.rs:58 | the byte `h * 0x10 + l` has the first digit's value as its high nibble and the second's as its low nibble |
| Bytes.BitAndBit | src/sse41.rs:139 | bit `i` of `a & b` is set exactly when it is set in both operands |
| Bytes.AndPow2 | examples/build-shuffle-mask.rs:45 | `found_mask & (1 << n) > 0` exactly when bit `n` of `found_mask` is set |
| Bytes.PopCount | src/sse41.rs:135 | the popcount of a 16-bit mask is at most 16 |
| Simd.MoveMask | src/sse41.rs:132 | bit `i` of `_mm_movemask_epi8` is the top bit of lane `i` |
| Simd.LoadU | src/sse41.rs:30 | `_mm_loadu_si128` reads the slice's first sixteen bytes, lane 0 lowest |
| Simd.Set1 | src/sse41.rs:22-24 | `_mm_set1_epi8(x)` holds `x` in every lane |
| Simd.Identity | src/sse41.rs:165 | `_mm_set_epi8(15, ..., 0)` holds `i` in lane `i` |
| Simd.CmpEq | src/sse41.rs:34 | `_mm_cmpeq_epi8` is 0xFF in the lanes where the operands are equal and 0 elsewhere |
| Simd.CmpLt | src/sse41.rs:71 | `_mm_cmplt_epi8` compares lanes as signed `i8` |
| Simd.CmpGt | src/sse41.rs:72 | `_mm_cmpgt_epi8` compares lanes as signed `i8` |
| Simd.And | src/sse41.rs:41 | `_mm_and_si128` is the lane-wise `&` |
| Simd.Or | src/sse41.rs:67 | `_mm_or_si128` is the lane-wise OR |
| Simd.Xor | src/sse41.rs:41 | `_mm_xor_si128` is the lane-wise `^` |
| Simd.Add | src/sse41.rs:166 | `_mm_add_epi8` adds lanes modulo 256 |
| Simd.Sub | src/sse41.rs:74 | `_mm_sub_epi8` subtracts lanes modulo 256 |
| Simd.Srli | src/sse41.rs:41 | `_mm_srli_si128(a, k)` moves lane `i + k` into lane `i` and zero-fills the top `k` lanes |
| Simd.Slli | src/sse41.rs:54 | `_mm_slli_si128(a, k)` moves lane `i - k` into lane `i` and zero-fills the bottom `k` lanes |
| Simd.SlliEpi16By4 | src/sse41.rs:113 | `_mm_slli_epi16(a, 4)` shifts each 16-bit lane up a nibble: an even byte lane keeps its low nibble shifted up, and an odd lane also gets the top nibble of the even lane below it |
| Simd.Blendv | src/sse41.rs:36 | `_mm_blendv_epi8(a, b, mask)` takes `b` where bit 7 of the mask lane is set and `a` elsewhere |
| Simd.Shuffle | src/sse41.rs:169 | `_mm_shuffle_epi8` (`pshufb`) zeroes lane `j` when bit 7 of `idx[j]` is set, and otherwise reads lane `idx[j] & 15` |
| Simd.TestAllZeros | src/sse41.rs:45 | `_mm_test_all_zeros(a, mask) > 0` holds when `a & mask` is zero in every lane |
| Fallback.ReplacedPlus | src/fallback.rs:15-29 | the specification of `replace_plus`: every `+` becomes a space and every other byte is kept |
| Fallback.EscapeAt | src/fallback.rs:53-59 | a complete escape starts at `i`: a `%` followed, inside the input, by two bytes that `to_digit(16)` accepts |
| Fallback.PercentDecoded | src/fallback.rs:64-77 | iterating the decoder yields at most as many bytes as the input holds, and at least a third of them |
| Fallback.Decoded | src/fallback.rs:31-37 | `decode` never lengthens its input |
| Fallback.NoEscapeIdentity | src/fallback.rs:91-105 | an input with no complete escape decodes to itself (why `if_any` may return `None`) |
| Fallback.DecodeStep | src/fallback.rs:64-72 | decoding is one step, then decoding what that step leaves: three bytes go for an escape, one byte for anything else |
| Fallback.LiteralPrefix | src/fallback.rs:93-97 | the bytes before the first complete escape are copied unchanged |
| Fallback.FirstEscape | src/fallback.rs:94-99 | decoding is the bytes before the first escape, then its byte, then the decoding of what follows it |
| Fallback.NoPercentNoEscape | src/fallback.rs:93 | when no `%` remains after the scanned part and the scanned part holds no escape, the input holds no escape |
| Fallback.SplitAt | src/sse41.rs:151-161 | decoding splits at any position that no escape straddles |
| Fallback.ReplacedPlusAppend | src/fallback.rs:15-29 | `+` replacement distributes over concatenation |
| Fallback.ReplacedPlusClean | src/fallback.rs:15-29 | no `+` survives replacement, and an input without `+` is left as it is |
| Fallback.DecodedLengthBounds | src/fallback.rs:74-77 | the decoded length lies between a third of the input and the whole input, the bounds `size_hint` reports |
| Fallback.SliceIter.constructor | src/fallback.rs:10 | `input.iter()` starts a cursor over the whole input |
| Fallback.SliceIter.Clone | src/fallback.rs:54 | the clone is a new cursor over the same remaining bytes, so advancing it leaves the original where it was |
| Fallback.SliceIter.Next | src/fallback.rs:65 | the cursor yields its first byte and drops it, or yields `None` when exhausted |
| Fallback.SliceIter.AnyPercent | src/fallback.rs:93 | `any(b == '%')` is true exactly when a `%` remains; it consumes bytes up to and including the first `%`, or consumes everything |
| Fallback.AfterPercentSign | src/fallback.rs:53-59 | succeeds exactly when the next two bytes are hex digits; on success returns `16*h + l` and advances by two; on failure leaves the cursor where it was |
| Fallback.PercentDecode.constructor | src/fallback.rs:7-12 | `percent_decode(input)` is an iterator over a new cursor holding the whole input |
| Fallback.PercentDecode.FromIter | src/fallback.rs:99 | `PercentDecode { bytes: iter }` wraps the given cursor itself, not a copy |
| Fallback.PercentDecode.Next | src/fallback.rs:64-72 | a complete escape yields its byte and consumes three bytes; any other byte, including a `%` that is not followed by two digits, is yielded as it is and consumes one; `None` only at the end; yielded byte plus the decoding of the rest is the decoding before the call |
| Fallback.PercentDecode.SizeHint | src/fallback.rs:74-77 | `(len / 3, Some(len))` bounds the number of bytes still to come, from below and above |
| Fallback.PercentDecode.IfAny | src/fallback.rs:89-106 | returns `None` exactly when the input holds no complete escape (decoding then changes nothing); otherwise returns the whole decoding, built from the unchanged prefix (the prefix-length subtraction never underflows), the first escape's byte and the decoded rest |
| Fallback.PercentDecode.ToBytes | src/fallback.rs:80-87 | the conversion into bytes yields the decoding, whether it borrows the input or owns a new vector |
| Fallback.Extend | src/fallback.rs:99 | extending with the iterator appends the decoding of what the iterator has left, and exhausts it |
| Fallback.ReplacePlus | src/fallback.rs:15-29 | the result is the input with every `+` turned into a space; it is the input itself when the input holds no `+` |
| Fallback.Decode | src/fallback.rs:31-37 | `dst` is overwritten with the decoded input |
| Fallback.DecodeExtend | src/fallback.rs:39-45 | the decoded input is appended to `dst`, and `dst`'s earlier contents stay as a prefix |
| ShuffleMask.KeptBefore | examples/build-shuffle-mask.rs:38-57 | at most `x` lanes below `x` survive compaction |
| ShuffleMask.MaskFrom | examples/build-shuffle-mask.rs:43-55 | the loop terminates from every state (the measure is lanes left plus two per remaining set bit) and leaves a 16-entry map |
| ShuffleMask.BuildMask | examples/build-shuffle-mask.rs:38-57 | `build_mask_128(found_mask)` as a value: the loop run from its initial state, giving a 16-entry map |
| ShuffleMask.BuildMask128 | examples/build-shuffle-mask.rs:38-57 | the in-place array loop computes BuildMask, never indexes outside 0..15 for any bitmap (the `out_i >= 2` guard), has first entry 0 and only even entries up to twice the popcount, and compacts every valid bitmap |
| ShuffleMask.BuildMaskShape | examples/build-shuffle-mask.rs:40-51 | for every bitmap, valid or not, the first entry is 0 and every entry is even and at most `2 * popcount` |
| ShuffleMask.KeptFormula | examples/build-shuffle-mask.rs:43-55 | for a valid bitmap, `t + 2 - 2c` lanes below `t + 2` survive, less one more when an escape starts at `t`, where `c` counts the escapes below `t` |
| ShuffleMask.MaskFromCorrect | examples/build-shuffle-mask.rs:43-55 | from any state that satisfies the loop invariant, the finished map is right in all 16 entries |
| ShuffleMask.BuildMaskCompacts | examples/build-shuffle-mask.rs:38-57 | for a valid bitmap with `k` escapes, output lane `j < 16 - 2k` reads a lane below 16 that is no escape's digit lane and is the `j`-th such lane: order is kept and exactly two lanes go per escape |
| ShuffleMask.BuildMaskExample | examples/build-shuffle-mask.rs:13-15 | `build_mask_128(0b10001)` is `[0, 2, 2, 4, 4, 4, 4, 4, 4, 4, 4, 4, 4, 4, 4, 4]` |
| ShuffleMask.MaskFromNoBits | examples/build-shuffle-mask.rs:43-55 | once no set bit is left, the loop fills the remaining entries with `num_junk` |
| ShuffleMask.BuildTable | examples/build-shuffle-mask.rs:23-33 | the table has 16384 entries, and entry `i` is `build_mask_128(i)` |
| ShuffleMask.ValidInTable | src/sse41.rs:139-147 | a bitmap with lanes 14 and 15 clear indexes inside the 2^14-entry table |
| Compaction.MarksValid | src/sse41.rs:99-104 | the escape starts of a block form a valid bitmap: lanes 0..13, pairwise at least three apart |
| Compaction.SqueezeDecodes | src/sse41.rs:165-173 | decoding a block from any lane that is not a digit lane yields the merged lanes that survive, in order |
| Compaction.KeptTotal | src/sse41.rs:135-136 | a block of `n` lanes with `k` escapes keeps `n - 2k` lanes |
| Compaction.CompactDecodes | src/sse41.rs:165-173 | once each lane holds its merged byte and the entries compact the bitmap, reading lane `j + entry[j]` for every `j` below `n - 2k` spells the decoded block |
| BlockLanes.DigitCandidates | src/sse41.rs:54-67 | `first_and_second`: the chunk ANDed with the marks shifted up one and two lanes, ORed |
| BlockLanes.DigitCandidatesLanes | src/sse41.rs:54-67 | `first_and_second` holds the chunk's byte in the two lanes after each marked lane, and zero elsewhere |
| BlockLanes.HexDigits | src/sse41.rs:69-97 | the three digit classes (`0-9`, `A-F`, `a-f`) as signed range tests, each class's lanes less its base, and `valid_mask` as the OR of the classes |
| BlockLanes.ClassMaskLane | src/sse41.rs:70-95 | the signed range test between two bounds below 0x80 marks exactly the bytes strictly between them, so bytes from 0x80 up never match |
| BlockLanes.HexDigitsLane | src/sse41.rs:69-97 | the three ORed digit classes give each hex digit's value (zero elsewhere), and the validity mask marks exactly the hex digit lanes |
| BlockLanes.MergeHex | src/sse41.rs:111-127 | the merge: first nibble shifted up four in the lane after the mark, ORed with the second nibble moved down, shifted into the mark's lane, ANDed with `found` and blended over the chunk |
| BlockLanes.MergeDigitsLane | src/sse41.rs:111-121 | in the lane after an escape's `%`, the first nibble shifted up by four (the 16-bit shift's spill is zero because nibbles are below 16) ORed with the second gives the escape's byte |
| BlockLanes.MergeHexLanes | src/sse41.rs:111-127 | after the shift down and the blend, each escape's `%` lane holds its byte and every other lane holds the chunk's own byte |
| BlockLanes.ShuffleLane | src/sse41.rs:165-169 | `pshufb` by lane index plus entry makes output lane `j` read lane `j + entry[j]` |
| BlockLanes.ShuffleDecodes | src/sse41.rs:165-173 | the first `n - 2k` shuffled lanes are the decoded block |
| Sse41.KeepUnlessAhead | src/sse41.rs:41-42 | `f & (f ^ (f >> k))` keeps the lanes of `f` whose lane `k` further on is clear |
| Sse41.StartFrom | src/sse41.rs:40-42 | some lane at or after every `%` survives both filters |
| Sse41.EarlyExit | src/sse41.rs:45-50 | the block tests all-zero exactly when it holds no `%` |
| Sse41.PairCheck | src/sse41.rs:100-102 | `valid_mask` ANDed with itself shifted up a lane, then twice ORed with itself shifted down a lane |
| Sse41.PairCheckLanes | src/sse41.rs:99-102 | a lane of the checked mask is set exactly when a pair of adjacent digit lanes ends there or one of the next two lanes |
| Sse41.StartNearPair | src/sse41.rs:99-104 | a surviving `%` lane with such a pair near it starts a complete escape, and conversely |
| Sse41.DigitLanes | src/sse41.rs:52-97 | the validity mask marks the digit lanes after each surviving `%`, all nibbles are below 16, and an escape's two digit lanes carry their values |
| Sse41.CheckedLanes | src/sse41.rs:99-109 | after line 104 `found` marks exactly the `%` lanes followed by two hex digits inside the block, and the kept nibbles are those digits' values |
| Sse41.Carry | src/sse41.rs:154-159 | at most two bytes are carried into the next block |
| Sse41.CarryEscapes | src/sse41.rs:151-161 | no complete escape of the block reaches into the bytes carried over |
| Sse41.CarrySplit | src/sse41.rs:151-176 | decoding the rest of the input is decoding the block's first `16 - carry` bytes, then decoding from the first carried byte |
| Sse41.NoPercentBlock | src/sse41.rs:45-50 | a block without `%` appends its 16 bytes, with `+` replaced, and decoding goes on 16 bytes later |
| Sse41.FoundMaskMarks | src/sse41.rs:131-147 | lanes 14 and 15 are never set, so `& 0b0011111111111111` leaves `found_mask` unchanged, in the table's range, and marking exactly the block's escapes |
| Sse41.ChunkDecodes | src/sse41.rs:131-173 | `2k <= 16 - carry`, so `dst_end` does not underflow, and the first `16 - carry - 2k` shuffled lanes are the decoding of the block's first `16 - carry` bytes |
| Sse41.BlockDecodes | src/sse41.rs:131-176 | decoding the rest of the input is the block's output, then decoding from `src_end` |
| Sse41.ReplacePlusLanes | src/sse41.rs:33-36 | every `+` lane becomes a space and every other lane is unchanged |
| Sse41.LocatePercent | src/sse41.rs:39-42 | `found` marks exactly the `%` lanes that end a run of `%` with no such run end two lanes on |
| Sse41.MergeEscapes | src/sse41.rs:52-127 | `found` marks exactly the complete escapes, and each lane of `hex` holds its merged byte |
| Sse41.ShuffleMaskAt | src/sse41.rs:147 | a table entry has 16 lanes |
| Sse41.CompactBlock | src/sse41.rs:131-176 | the cursor advances by 16 less the carried bytes (14, 15 or 16); the output has `src_end - 2 * num_percent` bytes; decoding the rest of the input is that output, then decoding from the new cursor |
| Sse41.UrlDecode | src/sse41.rs:19-182 | `dst` ends as its old contents followed by exactly what the scalar `decode` makes of the whole input, tail included |
| Avx.FallbackDecode | src/lib.rs:8-10 | `fallback_decode` overwrites `dst` with the scalar decoding |
| Avx.CountPct | src/lib.rs:199-200 | at most `t` of the lanes below `t` hold `%` |
| Avx.ShuffleMapFrom | src/lib.rs:197-206 | the map loop from iteration `t` on: `None` exactly where `out_i -= 2` would go below zero, otherwise a 16-entry map |
| Avx.ShuffleMap | src/lib.rs:194-206 | the map loop from `out_i = 0`, `num_junk = 0` and an all-zero map, giving 16 entries when it does not panic |
| Avx.SafeBlock | src/lib.rs:194-207 | a block is decoded without a panic when the map loop never underflows `out_i` and `16 - num_junk` is not negative |
| Avx.ShuffleMapFromSome | src/lib.rs:194-206 | the loop avoids the `out_i -= 2` underflow exactly when every `%` after the first sits at a lane at least twice the number of `%` before it |
| Avx.SafeBlockIff | src/lib.rs:194-207 | a block is decoded without a panic exactly when it holds at most eight `%` and that lane condition holds, so `%%` in lanes 0 and 1 panics |
| Avx.PctMask | src/lib.rs:63-65 | the block's `%` bitmap has bit `i` set exactly when lane `i` is `%` |
| Avx.ShuffleMapFromCorrect | src/lib.rs:194-206 | when every `%` starts an escape, the loop never panics and keeps `build_mask_128`'s invariant, so every kept entry is right |
| Avx.WellFormedMap | src/lib.rs:194-206 | when every `%` starts an escape, the `%` lanes are the escapes and the map compacts them |
| Avx.MergedBlock | src/lib.rs:63-138 | `hex` after the blend, with no check that the bytes after a `%` are hex digits |
| Avx.MergeKeepsPlain | src/lib.rs:138 | the blend writes only the `%` lanes: every other lane of `hex` is the chunk's byte, whatever follows a `%` |
| Avx.WellFormedMerge | src/lib.rs:68-138 | when every `%` starts an escape, the unvalidated merge still holds each escape's byte at its `%` |
| Avx.Compacted | src/lib.rs:207-221 | the bytes copied out number `16 - num_junk` |
| Avx.Block | src/lib.rs:207-221 | what one safe block appends: the merged block shuffled by the map, its first `16 - num_junk` lanes |
| Avx.CompactedDecodes | src/lib.rs:207-221 | compacting a merged block whose map compacts its escapes yields the decoded block |
| Avx.WellFormedBlock | src/lib.rs:57-227 | a block whose every `%` starts an escape is safe and appends its percent-decoding |
| Avx.FullBlocks | src/lib.rs:57 | the full blocks are a prefix of the input whose length is a multiple of 16 and less than 16 bytes short of the input |
| Avx.FullBlocksSplit | src/lib.rs:227 | without an escape crossing the first block's end, decoding the full blocks splits after it |
| Avx.SafeBlocks | src/lib.rs:57 | every full block of the input is safe |
| Avx.BlocksDecoded | src/lib.rs:57-228 | what the loop appends: each full block's output in order, nothing for the last fewer than 16 bytes |
| Avx.WellFormedInput | src/lib.rs:52-229 | when every full block is well formed, the decoder is safe and appends the percent-decoding of the full blocks; the tail is dropped |
| Avx.WellFormedDecoded | src/lib.rs:52-229 | with no `+` in the full blocks either, that is what `fallback_decode` makes of them |
| Avx.MergeBlock | src/lib.rs:63-138 | lanes without `%` keep the chunk's byte; when every `%` of the block starts an escape, each `%` lane holds its escape's byte |
| Avx.BuildShuffleMap | src/lib.rs:194-206 | the `for` loop over the array computes the shuffle map, with `num_junk` twice the number of `%` lanes |
| Avx.AppendBlock | src/lib.rs:217-227 | appending a block's output and moving on 16 bytes keeps the loop's account of the output |
| Avx.DecodeBlock | src/lib.rs:60-221 | one iteration appends the block's output |
| Avx.UrlDecode | src/lib.rs:52-229 | on input whose every block is safe, `dst` keeps its old contents and gains exactly each full block's output, in order |
| Cases.DecodedNoPlus | src/fallback.rs:31-37 | input without `+` is only percent-decoded |
| Cases.NoPercent | src/fallback.rs:91-105 | input without `%` decodes to itself |
| Cases.TwoEscapes | src/fallback.rs:141-153 | an escape, a byte, an escape, a byte, then bytes without `%` decode to the two escaped bytes interleaved with the two plain ones, then the rest |
| Cases.DecodedEscape | src/fallback.rs:31-33 | an escape at the start yields the byte it spells, then decoding goes on after it |
| Cases.EncodedPlus | src/fallback.rs:31-33 | `%2B` and `%2b` decode to `+`, which stays `+` because `+` is replaced before escapes are decoded |
| Cases.HighEscape | src/fallback.rs:270-277 | `%AA` decodes to the byte 0xAA |
| Cases.FallbackAaBb | src/fallback.rs:156-169 | `%41a%42b12345678` decodes to `AaBb12345678` |
| Cases.FallbackKaLb | src/fallback.rs:171-199 | `%4Ba%4Cb12345678` and `%4ba%4cb12345678` both decode to `KaLb12345678` |
| Cases.FallbackInvalidChars | src/fallback.rs:201-208 | `%%12` followed by bytes without `%` or `+` decodes to `%`, 0x12, then those bytes |
| Cases.FallbackReplacePlus | src/sse41.rs:324-330 | `a+a+a+a+a+a+a+a+` decodes to `a a a a a a a a ` |
| Cases.WellFormedOne | src/lib.rs:279-292 | a block whose only `%` bytes start escapes at lanes 0 and 4 is safe for the AVX decoder, which appends its percent-decoding |
| Cases.AvxTwoEscapes | src/lib.rs:279-322 | for such a block the AVX decoder appends the two escaped bytes interleaved with the two plain ones, then the last eight bytes |
| Cases.AvxAaBb | src/lib.rs:279-292 | the AVX decoder appends `AaBb` and the last eight bytes for the block `%41a%42b` followed by eight bytes without `%` |
| Cases.AvxKaLb | src/lib.rs:294-322 | for `%4Ba%4Cb` or `%4ba%4cb` followed by eight bytes without `%`, the AVX decoder appends `KaLb` and the eight bytes |
| Cases.AvxDoublePercent | src/lib.rs:194-206 | a block starting with `%%` is not safe: `out_i -= 2` underflows where the scalar decoder would copy a `%` |

## Left out

- The `print_m128i!` debug macros (src/lib.rs:12-49) and `src/debug.rs` only print to stdout, so they are not modelled.
- `benches/benchmark.rs` is a timing harness and is not modelled.
- The printing in `main` of `examples/build-shuffle-mask.rs` (lines 25-35) emits Rust source, so it is not modelled. The table it prints is `ShuffleMask.BuildTable`, and the self-check on lines 13-15 is `ShuffleMask.BuildMaskExample`.
- `src/shuffle_mask.rs` is not part of this model. `SHUFFLE_MASK[i]` is taken to be `build_mask_128(i)`, the table the generator prints.
- Memory-level details are not modelled:
  - `unsafe`;
  - unaligned loads (`_mm_loadu_si128` is the first sixteen bytes of the slice);
  - `mem::transmute`;
  - `get_unchecked` (its index is proved in range instead);
  - `#[target_feature]`.
- CPU-feature dispatch does not appear in the source, so it is not modelled.
- `Cow`'s borrowed-versus-owned distinction is not modelled, because it cannot be seen in the output. `replace_plus`, `if_any` and the `Cow` conversion return byte sequences instead.
- `char::to_digit(16)` on a byte is modelled by `Bytes.IsHexDigit` and `Bytes.HexValue`.
- Each `url_decode` loop body is split into stage methods (`Sse41.ReplacePlusLanes` … `Sse41.CompactBlock`, `Avx.MergeBlock`, `Avx.BuildShuffleMap`, `Avx.DecodeBlock`). The loops reassign a sub-slice variable `rest` where the source reassigns `src`.
- The AVX shuffle-map loop reads `src[in_i]`. For `in_i < 16` these are the chunk's lanes, and the model reads them there.
- Avx.UrlDecode: in a debug build the source panics on an unsafe block: a `%` that moves `out_i` below zero, or more than eight `%` making `16 - num_junk` negative. The model requires every block to be safe (`Avx.SafeBlocks`). What a release build does with the wrapped values is not modelled.
- Avx.UrlDecode: the bytes after the last full block are never decoded. The model keeps this behaviour: `Avx.BlocksDecoded` drops them.
- Integers are unbounded, because `usize` overflow cannot happen on slice lengths. The byte and 16-bit lane values are modelled exactly: `Wrap` for 8-bit wrap-around, `num_junk as u8` as `% 0x100`, and `mask << 1` on a `u16` as `% 0x10000`.
