# AFL havoc mutations in Dafny

A model of the AFL-style havoc stage of the AFLMutationFunctions library. The
engine, `CAFLMutationFunctions`, owns three things: a table of "interesting"
integers, two lists of havoc operators and a random engine.

- Every operator edits the first `size` bytes (the value) of a caller's
  buffer in place. It returns the new size, or `MUTATION_FAILED` when the
  value is too short or the capacity `sizeMax` is full.
- The operators are bit flips, interesting-value stores, arithmetic on 1-,
  2-, 4- and 8-byte integers, byte replacement, block removal, block
  insertion and chunk overwrite.
- `Havoc` applies a number of randomly drawn operators in a row. A failed
  operator does not count. After 128 failures in a row it gives up.

Alongside the engine the model covers these helpers:

- `CAlignmentSafeReference`: an integer at a misaligned offset of the buffer.
- `CVectorConcatenation`: the candidate list that `Havoc` rebuilds on every
  round.
- `AFLMutationFunctions::Details`, the range-based helpers of the newer
  implementation:
  - byte reversal and widening;
  - the sorted, duplicate-free interesting table;
  - the tagged mutation wrapper;
  - the size filter;
  - random windows;
  - filling a window with cloned or repeated bytes.

The modules follow the source:

- `Bytes` and `Bits`: little-endian images of integers, byte reversal,
  bit flips.
- `Memory`: `memmove` and `memset` on arrays.
- `AlignmentSafeReference` and `VectorConcatenation`: the two helper
  classes, as Dafny classes.
- `AFLTable`: the interesting table the engine's constructor builds.
- `AFLEffects`: what one call of each operator does, for every random choice.
- `AFLMutationFunctions`: the engine class, its operators and `Havoc`.
- `Algorithms`, `DetailsRanges` and `Details`: the Details helpers.
- `Errors`, `Random`: exceptions as results; the random engine, which
  promises only that `Next(lo, hi)` lies in `[lo, hi]`.

Each operator is a method on an `array<Byte>`. Its postcondition says that
the buffer before and after the call and the returned size satisfy that
operator's effect predicate in `AFLEffects`. The predicate quantifies over
the random choices. The lemmas about the predicates state what every outcome
looks like. `Havoc` returns a ghost trace of states, and each state is
reached from the previous one by an effect of an operator from that round's
candidate list.

## Model

| member | source | states |
|---|---|---|
| Bytes.DecodeEncode | include/AlignmentSafeReference.hh:60-67 | reading back the bytes stored for an integer gives the integer modulo 2^(8w) |
| Bytes.EncodeDecode | include/AlignmentSafeReference.hh:43-50 | the image of the number read from w bytes is those w bytes |
| Bytes.EncodeInjective | include/AlignmentSafeReference.hh:60-67 | two integers have the same w-byte image exactly when they agree modulo 2^(8w) |
| Bytes.SwapEndianBytes | AFLMutationFunctions.cpp:17-57 | the image of SwapEndian(v) is the image of v reversed |
| Bytes.SwapEndianByteAt | AFLMutationFunctions.cpp:33-57 | byte k of the swapped value is byte w-1-k of the value |
| Bytes.SwapEndianInvolution | AFLMutationFunctions.cpp:17-57 | swapping twice gives the unsigned value back; a 1-byte swap is the identity |
| Bytes.SwapEndian | AFLMutationFunctions.cpp:17-57 | the swapped pattern is an unsigned value of the same width |
| Bytes.ToSignedEncode | AFLMutationFunctions.cpp:60-70 | converting the unsigned swap back to the signed type keeps its bytes |
| Bits.FlipBitTwice | AFLMutationFunctions.cpp:242-256 | `b ^ (1 << bit)` applied twice gives b back |
| Bits.FlipBitChangesOneBit | AFLMutationFunctions.cpp:242-256 | the flip inverts bit `bit` and no other bit of the byte |
| Memory.MovedBytes | AFLMutationFunctions.cpp:393 | after memmove, the destination window holds the old source window and every other byte is unchanged |
| Memory.FilledBytes | AFLMutationFunctions.cpp:397 | after memset, the window holds the byte and every other byte is unchanged |
| Memory.CopyForward | include/AFLMutationFunctions/Details.hh:424-428 | a front-to-back copy to a lower address yields the memmove result, although the ranges overlap |
| Memory.CopyBackward | include/AFLMutationFunctions/Details.hh:417-423 | a back-to-front copy to a higher address yields the memmove result, although the ranges overlap |
| Memory.MemMove | AFLMutationFunctions.cpp:393 | the array becomes the memmove of the old contents |
| Memory.MemSet | AFLMutationFunctions.cpp:397 | the array becomes the memset of the old contents |
| Memory.SuffixKept | AFLMutationFunctions.cpp:220-233 | slicing helper of `StepFacts`: two buffers that agree from one index on agree from every later index, which carries "nothing from sizeMax on is written" from each operator's own bound to sizeMax |
| AlignmentSafeReference.LoadStored | include/AlignmentSafeReference.hh:60-67 | reading what Set wrote gives the value truncated to the width |
| AlignmentSafeReference.StoredLoaded | include/AlignmentSafeReference.hh:43-67 | writing back the value that was read leaves the buffer unchanged |
| AlignmentSafeReference.StoredAt | include/AlignmentSafeReference.hh:60-67 | a write changes only its width bytes, and byte k of the window becomes byte k of the image |
| AlignmentSafeReference.StoredOutside | include/AlignmentSafeReference.hh:60-67 | a write keeps the bytes before its window and every suffix after it |
| AlignmentSafeReference.StoredTwice | include/AlignmentSafeReference.hh:60-67 | a second write to the same window hides the first |
| AlignmentSafeReference.WriteImage | include/AlignmentSafeReference.hh:66 | the byte copy leaves exactly the stored image in the buffer |
| AlignmentSafeReference.AlignmentSafeReference.constructor | include/AlignmentSafeReference.hh:43-50 | the local copy is the integer that the width bytes at the offset encode |
| AlignmentSafeReference.AlignmentSafeReference.Move | include/AlignmentSafeReference.hh:32-37 | the moved reference has the same target and the same value |
| AlignmentSafeReference.AlignmentSafeReference.Get | include/AlignmentSafeReference.hh:53-54 | the value read lies in the range of T |
| AlignmentSafeReference.AlignmentSafeReference.Set | include/AlignmentSafeReference.hh:60-67 | Get then returns v, and the buffer is the old one with the image of v stored at the offset and nothing else changed |
| VectorConcatenation.FlattenAppend | include/VectorConcatenation.hh:46-53 | concatenating one more vector appends its elements |
| VectorConcatenation.FlattenAt | include/VectorConcatenation.hh:56-65 | element j of vector k sits at the sum of the sizes of the vectors before k, plus j |
| VectorConcatenation.VectorConcatenation.constructor | include/VectorConcatenation.hh:30 | a new concatenation is empty |
| VectorConcatenation.VectorConcatenation.Concatenate | include/VectorConcatenation.hh:46-53 | the elements become the old elements followed by the source, and the size stays the element count |
| VectorConcatenation.VectorConcatenation.Size | include/VectorConcatenation.hh:68-69 | the size is the number of elements |
| VectorConcatenation.VectorConcatenation.Clear | include/VectorConcatenation.hh:75-80 | after Clear the concatenation is empty |
| VectorConcatenation.VectorConcatenation.At | include/VectorConcatenation.hh:86-102 | returns element `position` of the concatenation, or OutOfRange when the position is past its end |
| VectorConcatenation.VectorConcatenation.Subscript | include/VectorConcatenation.hh:56-65 | the same element as At, found by skipping whole vectors |
| AFLTable.LegacyTableLayout | AFLMutationFunctions.cpp:76-146 | the table holds 56 entries: the 8-, 16-, 32- and 64-bit lists in that order, with 8, 20, 16 and 12 entries |
| AFLTable.LegacyTableSignExtends | AFLMutationFunctions.cpp:133-140 | the cast to size_t sign-extends: INT8_MIN becomes 0xFFFFFFFFFFFFFF80 |
| AFLTable.LegacyTableUnsortedWithDuplicates | AFLMutationFunctions.cpp:78-102 | the table is not sorted, and INT16_MIN appears twice |
| AFLTable.LegacySpansStayInNarrowPart | AFLMutationFunctions.cpp:259-273 | every width's span is a prefix of the first 28 entries; the 64-bit span is the 8-bit values and four 16-bit seeds |
| AFLTable.ToSignedOfSigned | AFLMutationFunctions.cpp:69 | a value of the signed type survives the trip through its unsigned bit pattern |
| AFLTable.OtherEndianInvolution | AFLMutationFunctions.cpp:60-70 | the other-endian form of a signed value is a value of the same type, and taking it twice gives the value back |
| AFLTable.OtherEndianOneByte | AFLMutationFunctions.cpp:23-30 | a one-byte value is its own other-endian form |
| AFLTable.WithOtherEndianShape | AFLMutationFunctions.cpp:60-70 | the extended list is the seeds, then each seed's other-endian form in order |
| AFLTable.AddOtherEndian | AFLMutationFunctions.cpp:60-70 | the loop appends the other-endian form of each original entry, not of the entries it appends |
| AFLTable.AppendAsSizeT | AFLMutationFunctions.cpp:133-140 | the push loops append every entry cast to size_t |
| AFLEffects.StoredByte | AFLMutationFunctions.cpp:242-256 | a one-byte reference writes and reads exactly the byte at its offset |
| AFLEffects.AddedAtShape | AFLMutationFunctions.cpp:304-326 | adding changes only the width bytes, which then hold the old integer plus d modulo 2^(8w) |
| AFLEffects.SubtractAfterAdd | AFLMutationFunctions.cpp:304-351 | subtracting the operand that was added restores the buffer |
| AFLEffects.StoredInside | AFLMutationFunctions.cpp:283-301 | a store inside the value changes nothing outside its window or beyond the value |
| AFLEffects.AddedInside | AFLMutationFunctions.cpp:304-326 | an addition inside the value keeps everything else, and subtracting the operand undoes it |
| AFLEffects.SubtractedInside | AFLMutationFunctions.cpp:329-351 | a subtraction inside the value keeps everything else |
| AFLEffects.MoveAndFillRemoveBlock | AFLMutationFunctions.cpp:386-397 | the memmove of the remainder followed by the memset of the tail removes the block |
| AFLEffects.BlockRemovedShape | AFLMutationFunctions.cpp:372-400 | after a removal the new value is the bytes before and after the block, d zeros follow it and the bytes beyond the old size are kept |
| AFLEffects.RemoveRandomBlockChoice | AFLMutationFunctions.cpp:372-400 | every block of 1 to size-1 bytes is a possible removal |
| AFLEffects.ShiftAndMoveInsertBlock | AFLMutationFunctions.cpp:418-430 | shifting the tail and then moving a window into the hole inserts that window |
| AFLEffects.ShiftAndFillInsertBlock | AFLMutationFunctions.cpp:418-441 | shifting the tail and then filling the hole inserts a repeated byte |
| AFLEffects.InsertedShape | AFLMutationFunctions.cpp:403-445 | after an insertion the bytes before the position are kept, the block follows, then the old tail; the bytes beyond the new size are kept |
| AFLEffects.FlipBitEffectFacts | AFLMutationFunctions.cpp:242-256 | fails exactly on an empty value and then changes nothing; otherwise keeps the size and bytes beyond it, and flipping the same bit again restores the buffer |
| AFLEffects.InterestingValueEffectFacts | AFLMutationFunctions.cpp:283-301 | fails exactly when size < sizeof(T); otherwise keeps the size, and only one width window of the value changes, to a truncated table entry |
| AFLEffects.ArithmeticAddEffectFacts | AFLMutationFunctions.cpp:304-326 | fails exactly when size < sizeof(T); otherwise some window of the value now holds its old integer plus an operand in [1, 35] (byte-swapped only for 2 bytes or more) modulo 2^(8w), nothing else changes, and a subtraction restores the buffer |
| AFLEffects.ArithmeticSubtractEffectFacts | AFLMutationFunctions.cpp:329-351 | fails exactly when size < sizeof(T); otherwise keeps the size, and some window of the value now holds its old integer minus an operand in [1, 35] (byte-swapped only for 2 bytes or more) modulo 2^(8w), with nothing else changed |
| AFLEffects.SubtractedAtShape | AFLMutationFunctions.cpp:329-351 | subtracting changes only the width bytes, which then hold the old integer minus d modulo 2^(8w) |
| AFLEffects.AddedWindow | AFLMutationFunctions.cpp:313-325 | adding an arithmetic operand at a window changes that window to the sum modulo 2^(8w) and nothing outside it, and subtracting the same operand there undoes it |
| AFLEffects.SubtractedWindow | AFLMutationFunctions.cpp:338-350 | subtracting an arithmetic operand at a window changes that window to the difference modulo 2^(8w) and nothing outside it |
| AFLEffects.RandomByteReplaceEffectFacts | AFLMutationFunctions.cpp:354-369 | fails exactly on an empty value; otherwise at most one byte of the value changes, and that byte then holds a value in [1, 255] |
| AFLEffects.RandomByteReplaceMayKeepBuffer | AFLMutationFunctions.cpp:364-366 | the byte is assigned rather than XORed, so a success can leave the buffer unchanged: any value whose first byte is non-zero may come back as it was |
| AFLEffects.RemoveRandomBlockEffectFacts | AFLMutationFunctions.cpp:372-400 | fails exactly when size <= 1; otherwise the new size is in [1, size-1], the value closes the gap, the vacated bytes are zero and nothing beyond the old size changes |
| AFLEffects.RandomBlockInsertEffectFacts | AFLMutationFunctions.cpp:403-445 | fails exactly when size >= sizeMax; otherwise the new size is in (size, sizeMax], the prefix and the shifted tail are kept, and nothing beyond the new size changes |
| AFLEffects.RandomChunkOverwriteEffectFacts | AFLMutationFunctions.cpp:448-479 | fails exactly on an empty value; otherwise keeps the size, and only one block of the value changes |
| AFLMutationFunctions.CandidatesFacts | AFLMutationFunctions.cpp:199-213 | the candidate list holds the inserter exactly when the value can grow, and the 17 constant-size operators exactly when it is not empty; it is never empty for a valid size; only an operator needing more bytes than a value under 8 bytes holds can fail |
| AFLMutationFunctions.MutationEffectFacts | AFLMutationFunctions.cpp:242-479 | every operator fails exactly under its size condition and then changes nothing; a success gives a size in [1, sizeMax] that moves in the operator's direction |
| AFLMutationFunctions.StepFacts | AFLMutationFunctions.cpp:196-236 | a havoc step keeps the buffer length, gives a size in [1, sizeMax] and never writes at or beyond sizeMax |
| AFLMutationFunctions.EffectFacts | AFLMutationFunctions.cpp:220-235 | the per-step facts for a known operator: the buffer keeps its length, the new size is in [1, sizeMax] and nothing from sizeMax on is written; `MutateOnce` uses it with the operator it applied, and `StepFacts` with one chosen from the `Step` existential |
| AFLMutationFunctions.TraceFacts | AFLMutationFunctions.cpp:196-238 | every state of a havoc trace has a size within sizeMax, non-zero after the first step, and the bytes from sizeMax on as at the start |
| AFLMutationFunctions.RemoveBlock | AFLMutationFunctions.cpp:386-397 | the memmove and memset leave the buffer with the block removed |
| AFLMutationFunctions.MutationFunctions.constructor | AFLMutationFunctions.cpp:76-175 | builds the 56-entry table, the per-width counts and the two operator lists |
| AFLMutationFunctions.MutationFunctions.GetInterestingValues | AFLMutationFunctions.cpp:259-273 | gives the prefix of the table for widths 1, 2, 4 and 8, and InvalidArgument for any other type |
| AFLMutationFunctions.MutationFunctions.RandomPosition | AFLMutationFunctions.cpp:482-489 | the result lies in [lo, hi] |
| AFLMutationFunctions.MutationFunctions.ChooseIndexOfRandomBlock | AFLMutationFunctions.cpp:492-500 | a block of the given size fits at the chosen offset |
| AFLMutationFunctions.MutationFunctions.ChooseRandomValueReference | AFLMutationFunctions.cpp:503-510 | a fresh reference to a width-byte integer inside the value, holding the integer stored there |
| AFLMutationFunctions.MutationFunctions.FlipBit | AFLMutationFunctions.cpp:242-256 | the buffer and result satisfy FlipBitEffect |
| AFLMutationFunctions.MutationFunctions.InterestingValue | AFLMutationFunctions.cpp:283-301 | the buffer and result satisfy InterestingValueEffect with the width's span of the table |
| AFLMutationFunctions.MutationFunctions.ArithmeticOperandOf | AFLMutationFunctions.cpp:315-319 | the operand is a number in [1, 35], or its byte swap for T wider than a byte |
| AFLMutationFunctions.MutationFunctions.ArithmeticAdd | AFLMutationFunctions.cpp:304-326 | the buffer and result satisfy ArithmeticAddEffect |
| AFLMutationFunctions.MutationFunctions.ArithmeticSubstract | AFLMutationFunctions.cpp:329-351 | the buffer and result satisfy ArithmeticSubtractEffect |
| AFLMutationFunctions.MutationFunctions.RandomByteReplace | AFLMutationFunctions.cpp:354-369 | the buffer and result satisfy RandomByteReplaceEffect |
| AFLMutationFunctions.MutationFunctions.RemoveRandomBlock | AFLMutationFunctions.cpp:372-400 | the buffer and result satisfy RemoveRandomBlockEffect |
| AFLMutationFunctions.MutationFunctions.RandomBlockInsert | AFLMutationFunctions.cpp:403-445 | the buffer and result satisfy RandomBlockInsertEffect |
| AFLMutationFunctions.MutationFunctions.InsertedByte | AFLMutationFunctions.cpp:434-440 | the repeated byte is random, or, only when the value is not empty, a byte read from the value |
| AFLMutationFunctions.MutationFunctions.WriteInsertedBlock | AFLMutationFunctions.cpp:424-441 | with the tail shifted, the hole is filled with a cloned window or a repeated byte, which inserts that block |
| AFLMutationFunctions.MutationFunctions.RandomChunkOverwrite | AFLMutationFunctions.cpp:448-479 | the buffer and result satisfy RandomChunkOverwriteEffect |
| AFLMutationFunctions.MutationFunctions.Apply | AFLMutationFunctions.cpp:220-221 | invoking an operator has that operator's effect |
| AFLMutationFunctions.MutationFunctions.CollectCandidates | AFLMutationFunctions.cpp:199-213 | the candidate list becomes the size-increasing operators when the value can grow, followed by the constant-size ones when it is not empty |
| AFLMutationFunctions.MutationFunctions.MutateOnce | AFLMutationFunctions.cpp:199-235 | the operator drawn is one of the round's candidates, and the round fails exactly when that operator fails at this size; a failed round leaves the buffer unchanged and needs a value under 8 bytes; a success is a step of the trace within sizeMax |
| AFLMutationFunctions.MutationFunctions.Havoc | AFLMutationFunctions.cpp:181-239 | InvalidArgument exactly when size > sizeMax or both are 0, with the buffer untouched; otherwise a trace of successful steps with the result at most sizeMax, and at least 1 when iterations > 0 (zero rounds return the input size, which may be 0), with nothing from sizeMax on written; HavocHung only after 128 consecutive failed candidates of the last state's size (a success resets the run, so Ok has no failure pending), and only at a size under 8 |
| Algorithms.Sort | include/AFLMutationFunctions/Details.hh:129 | the array ends sorted and is a permutation of the input |
| Algorithms.InsertLast | include/AFLMutationFunctions/Details.hh:129 | inserting the next element keeps the prefix sorted and the contents a permutation |
| Algorithms.DedupFacts | include/AFLMutationFunctions/Details.hh:130-131 | removing adjacent duplicates keeps exactly the same members and turns a sorted sequence into a strictly increasing one |
| Algorithms.DedupSnoc | include/AFLMutationFunctions/Details.hh:130-131 | one more element is kept exactly when it differs from the last kept one |
| Algorithms.Unique | include/AFLMutationFunctions/Details.hh:130-131 | the kept prefix of the array is the input with adjacent duplicates removed |
| Algorithms.KeepIfNew | include/AFLMutationFunctions/Details.hh:130-131 | one step of unique: the element is appended to the kept prefix unless it equals the last kept one |
| Details.SwapEndianOf | include/AFLMutationFunctions/Details.hh:21-31 | the result is a value of T: in the signed range for a signed type, in [0, 2^(8w)) for an unsigned one |
| Details.SwapEndianOfBytes | include/AFLMutationFunctions/Details.hh:21-31 | the result's bytes are the argument's bytes reversed |
| Details.SwapEndianOfInvolution | include/AFLMutationFunctions/Details.hh:21-31 | reversing twice gives back every value of T, signed or unsigned; a byte is unchanged |
| Details.SwapEndianExamples | tests/CompiletimeTests.cpp:9-10 | SwapEndian<uint8_t>(1) is 1, and SwapEndian<uint64_t>(0x1000000000000000) is 0x10 |
| Details.ReinterpretInt | include/AFLMutationFunctions/Details.hh:33-45 | the widened value is non-negative and below 2^(8·sizeof(From)): the bit pattern is zero-extended, never sign-extended |
| Details.ReinterpretIntBytes | include/AFLMutationFunctions/Details.hh:33-45 | the wide image of the result is the narrow image of the argument followed by zero bytes |
| Details.ReinterpretIntExample | tests/CompiletimeTests.cpp:13 | int8_t -1 widened to uint64_t is 0xff |
| Details.PairedAt | include/AFLMutationFunctions/Details.hh:47-65 | seed i contributes its widened value at 2i and its widened byte swap at 2i+1 |
| Details.PairedSnoc | include/AFLMutationFunctions/Details.hh:47-65 | one more seed appends its two entries |
| Details.AddValuesAndTheirSwappedEndians | include/AFLMutationFunctions/Details.hh:47-65 | the target keeps its entries and gains each seed's value and swapped value, in order |
| Details.PairedContains | include/AFLMutationFunctions/Details.hh:47-65 | every seed's widened value is among its list's entries |
| Details.MinusOneWidened | include/AFLMutationFunctions/Details.hh:83-117 | a list starting with -1 contributes the all-ones value of its width |
| Details.Paired8Contains | include/AFLMutationFunctions/Details.hh:71-80 | 0 and 0xff are among the 8-bit entries |
| Details.Paired16Contains | include/AFLMutationFunctions/Details.hh:83-94 | 0xffff is among the 16-bit entries |
| Details.Paired32Contains | include/AFLMutationFunctions/Details.hh:97-106 | 0xffffffff is among the 32-bit entries |
| Details.RawInterestingContains | tests/CompiletimeTests.cpp:24-27 | 0, 0xff, 0xffff and 0xffffffff are among the entries before sorting |
| Details.GetInteresting | include/AFLMutationFunctions/Details.hh:67-133 | the result is strictly increasing, holds exactly the seeds' entries and contains 0, 0xff, 0xffff and 0xffffffff |
| Details.MaxIntWithSize | include/AFLMutationFunctions/Details.hh:267-281 | the result is 2^(8w) - 1 for the narrowest of the 1-, 2-, 4- and 8-byte unsigned types that holds that many bits |
| Details.MaxIntWithSizeFacts | include/AFLMutationFunctions/Details.hh:267-281 | the bound is the all-ones value of the narrowest unsigned type of at least that many bits, grows with the bits, and gives 0xff, 0xffff, 0xffffffff and 2^64-1 for 1, 9, 18 and 33 |
| Details.BoundedPrefix | tests/CompiletimeTests.cpp:29-34 | in a sorted table, the entries at or below a bound form a prefix |
| Details.CountAtMostMonotone | tests/CompiletimeTests.cpp:29-40 | a larger bound never gives a shorter leading run |
| Details.InterestingFitting | tests/CompiletimeTests.cpp:29-40 | in a strictly increasing table cut at MaxIntWithSize(bits), the entries before the cut are exactly those that fit the bits-wide unsigned type, and a wider type keeps at least as many |
| Details.Invoke | include/AFLMutationFunctions/Details.hh:239-246 | calling a wrapped mutation keeps the buffer's size and returns a span inside the buffer |
| Details.ConstantApplied | include/AFLMutationFunctions/Details.hh:184-195 | the wrapped call of a constant-size operation keeps the buffer's size and returns a span inside it |
| Details.ReducingApplied | include/AFLMutationFunctions/Details.hh:207-218 | the wrapped call of a reducing operation keeps the buffer's size and returns a span inside it |
| Details.FromConstant | include/AFLMutationFunctions/Details.hh:184-195 | the wrapper of a constant-size mutation is tagged Constant |
| Details.FromIncreasing | include/AFLMutationFunctions/Details.hh:198-204 | the wrapper of a size-increasing mutation is tagged Increasing |
| Details.FromReducing | include/AFLMutationFunctions/Details.hh:207-218 | the wrapper of a size-reducing mutation is tagged Reducing |
| Details.MutationKinds | include/AFLMutationFunctions/Details.hh:221-236 | every mutation is exactly one of constant, reducing or increasing |
| Details.ConstantMutationInvoke | include/AFLMutationFunctions/Details.hh:184-195 | a constant-size mutation rewrites the value in place, keeps the rest of the buffer and returns the whole value's span |
| Details.ConstantMutationSeesValueOnly | include/AFLMutationFunctions/Details.hh:184-195 | what it writes depends only on the value, not on the bytes beyond it |
| Details.ReducingMutationInvoke | include/AFLMutationFunctions/Details.hh:207-218 | a reducing mutation rewrites only the value and returns a span inside it |
| Details.ReducingMutationSeesValueOnly | include/AFLMutationFunctions/Details.hh:207-218 | its output and span depend only on the value |
| Details.IncreasingMutationInvoke | include/AFLMutationFunctions/Details.hh:198-204 | an increasing mutation gets the whole buffer and the size |
| Details.SelectRandomSubspan | include/AFLMutationFunctions/Details.hh:249-265 | the chosen span has the requested size and lies inside the source span |
| Details.FillSubrangeWithRandomValues | include/AFLMutationFunctions/Details.hh:396-444 | the buffer after the call satisfies FillEffect: a cloned window of the range, or one byte repeated over the subrange |
| Details.FillEffectFacts | include/AFLMutationFunctions/Details.hh:396-444 | a fill changes nothing outside the subrange; the subrange becomes one repeated byte, or starts with a copy of a window of the old range |
| DetailsRanges.SelectRandom | include/AFLMutationFunctions/Details.hh:286-313 | the result is an element of the range |
| DetailsRanges.SelectRandomSubrange | include/AFLMutationFunctions/Details.hh:374-393 | the result is the window of the requested size at an offset where it fits |
| DetailsRanges.FilterMutations | include/AFLMutationFunctions/Details.hh:345-372 | the filtered list holds only mutations the sizes allow, and every allowed one |
| DetailsRanges.SelectMembers | include/AFLMutationFunctions/Details.hh:368-371 | a filter view holds exactly the members that satisfy its predicate |
| DetailsRanges.SelectAppend | include/AFLMutationFunctions/Details.hh:368-371 | filtering distributes over concatenation |
| DetailsRanges.SelectSelect | include/AFLMutationFunctions/Details.hh:368-371 | two chained filters are one filter on the conjunction |
| DetailsRanges.SelectAgree | include/AFLMutationFunctions/Details.hh:368-371 | predicates that agree on the elements select the same elements |
| DetailsRanges.SelectAll | include/AFLMutationFunctions/Details.hh:368-371 | a predicate true everywhere keeps everything |
| DetailsRanges.SelectNone | include/AFLMutationFunctions/Details.hh:368-371 | a predicate false everywhere keeps nothing |
| DetailsRanges.FilterMutationsSuitable | include/AFLMutationFunctions/Details.hh:345-372 | the three chained filters keep, in order, exactly the mutations the sizes allow |
| DetailsRanges.FilterMutationsCases | include/AFLMutationFunctions/Details.hh:345-372 | everything passes while the value is non-empty and can grow; the increasing mutations are dropped when the buffer is full; only reducing ones remain when the value is too large; only increasing ones remain when it is empty |
| DetailsRanges.FilterMutationsFullBuffer | tests/CompiletimeTests.cpp:58-60 | with buffer and value both 5, no increasing mutation is left |
| DetailsRanges.FilterMutationsRoomToGrow | tests/CompiletimeTests.cpp:61 | with buffer 6 and value 5, all three mock mutations are left |
| DetailsRanges.FilterMutationsOversized | tests/CompiletimeTests.cpp:62-64 | with buffer 4 and value 5, only reducing mutations are left |
| DetailsRanges.FilterMutationsEmptyValue | tests/CompiletimeTests.cpp:65-66 | with an empty value, only increasing mutations are left |

## Left out

- StackedHavocOperationsCount (AFLMutationFunctions.cpp:276-280) draws the number of havoc rounds with floating-point arithmetic. The model takes that number as the `iterations` input of `Havoc`.
- Seed (AFLMutationFunctions.cpp:178) and the internals of `std::default_random_engine` and the distributions are left out. `RandomEngine.Next` promises only a result in `[lo, hi]`, so no probability (3/4 cloning, 1/2 byte swap) is modelled.
- The `std::function`/`std::bind` plumbing and `std::type_index` are not modelled:
  - operators are an `Operation` datatype dispatched by `Apply`;
  - `GetInterestingValues` takes the byte width of T.
- The C++20 concepts (Details.hh:145-158) are not modelled: a mutation's kind is passed to the filter as two functions.
- GetInterestingArray (Details.hh:134-143) copies `GetInteresting` into a fixed array, so it is not modelled separately.
- Exceptions become results: `std::invalid_argument` is `Err(InvalidArgument)`, the hung-havoc exception is `Err(HavocHung)`, and `std::out_of_range` is `Err(OutOfRange)`.
- The per-width compiler intrinsics of SwapEndian are modelled as the byte reversal they compute. `std::bit_cast` is modelled as the little-endian image.
- tests/MutationTests.cpp is not part of this model. It exercises a free `Havoc(bytes, size, random)` and `GetMutationFunctions`, which are not among the modelled files, and it checks probabilistic outcomes: a value that is non-zero after 50,000 calls, and every mutation changing the value within 100 tries. `RandomEngine.Next` promises only bounds, so no contract here can state them. For example, a subtraction followed by an addition may restore a zero buffer.
- VectorConcatenation.VectorConcatenation: it holds copies of the concatenated sequences rather than pointers to them. Modifying a vector after concatenating it (undefined behaviour in the source) therefore cannot be expressed.
- AFLMutationFunctions.MutationFunctions.RandomBlockInsert: the source shifts the tail with `memcpy` on overlapping ranges. The model uses the `memmove` result, the only defined outcome.
- AFLMutationFunctions.MutationFunctions.RandomBlockInsert: the block is cloned from `[0, sizeMax - L]` of the buffer after the shift, as the code does, and not from the current value.
- DetailsRanges.SelectRandom: only the random-access version is modelled. The forward-range version (Details.hh:315-329) copies the range into a vector and draws from it, which gives the same contract.
- Details.FillSubrangeWithRandomValues: the repeated byte is stated as any byte. The contract does not say that it comes from the range or from `[0, 255]`.
- Details.Invoke: the random generator that `operator()` forwards to the wrapped mutation is not a parameter, because the modelled operations are functions of the buffer alone.
- Algorithms.Sort: `std::ranges::sort` is modelled by an insertion sort. Only its result (sorted, a permutation) is claimed.
- Details seeds: the 16-, 32- and 64-bit lists in Details.hh compute the boundary seeds with `ReinterpretInt`, which zero-extends. For example INT8_MIN widened and less one is 127, not -129. The model follows the code.
- Integer widths: size_t wrap-around is modelled only where it matters. That is the cast of the signed seeds to size_t (`AFLTable.SizeT`) and the wrap-around of T in the arithmetic operators. The sizes passed to the operators are unbounded naturals.
