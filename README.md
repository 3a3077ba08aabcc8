# Radamsa and AFL++ mutators of VmfExperimental, modelled in Dafny

This project models the byte-level core of the VmfExperimental mutator
modules.

- **AFL++ mutators.** Flip four bytes, overwrite with an interesting 8-, 16- or 32-bit value, and overwrite a block with a copy of another block.
- **Radamsa shared helpers.** The repetition-length draw and the UTF-8 encoder.
- **Byte-sequence repetition.** A byte range is repeated a random number of times.
- **Line mutators.** Delete one line, shuffle all lines, or move one line somewhere else. They share a `Line` table.
- **Widen-code-point mutator.** One printable byte becomes an overlong two-byte UTF-8 form.
- **Fuse-data helpers.** Random pairs, suffix lists, the prefix/suffix split, and the mutator's error checks.
- **Radamsa tree mutator base.** A binary search tree of `size_t` values: its bracket text format `v(left)(right)`, parsing, printing, insertion, and deletion by value and by in-order index.

The model is written as follows:

- **Test cases.** A test case is a sequence of bytes (`Common.Source`). A null buffer pointer is a separate case that still carries the size it reports.
- **Results.** What a mutator produces is an `Outcome`:
  - the new buffer that gets written;
  - the `RuntimeException` error code raised;
  - or no output at all.
- **Randomness.** Random draws are parameters. Their ranges are stated as the callers' obligations, with the bounds `randBelow`/`randBetween` guarantee.
- **Loops.** Loops over buffers are methods with loop invariants, each proved equal to a specification function. The lemmas state the properties of those functions:
  - what is kept;
  - what moves where;
  - that a shuffle is a permutation;
  - that the printed tree parses back to itself.

## Model

| member | source | states |
|---|---|---|
| Common.Zeros | Radamsa/src/common/mutator/byteSequenceMutations.cpp:103-104 | a freshly allocated, zeroed buffer of `n` bytes: length `n`, every byte 0 |
| Common.CopyBlock | Radamsa/src/common/mutator/byteSequenceMutations.cpp:117-120 | `memcpy` of `data[start..end)` to position `d`: exactly those cells receive those bytes, every other cell is unchanged |
| AflMutators.Inverted | AFLPlusPlus/src/module/AFLFlip4ByteMutator.cpp:136-139 | a byte xor-ed with 0xFF; inverting again gives the byte back |
| AflMutators.FlipFourAt | AFLPlusPlus/src/module/AFLFlip4ByteMutator.cpp:136-139 | exactly the four bytes from `b` are inverted, every other byte is kept, and the length is unchanged |
| AflMutators.FlipFourAtTwiceRestores | AFLPlusPlus/src/module/AFLFlip4ByteMutator.cpp:136-139 | flipping the same four bytes twice restores the buffer |
| AflMutators.CopyOf | AFLPlusPlus/src/module/AFLFlip4ByteMutator.cpp:122-123 | the new entry's buffer is a fresh exact copy of the base buffer |
| AflMutators.Flip4Byte | AFLPlusPlus/src/module/AFLFlip4ByteMutator.cpp:111-142 | an empty buffer raises USAGE_ERROR; 1 to 3 bytes are copied unchanged; otherwise the four bytes at the draw are inverted and the size is kept |
| AflMutators.Interesting8 | AFLPlusPlus/src/module/AFLInteresting8Mutator.cpp:114-134 | an empty buffer raises USAGE_ERROR; otherwise a copy with exactly one byte, at the drawn position, replaced by the drawn table entry |
| AflMutators.StoreAt | AFLPlusPlus/src/module/AFLInteresting16Mutator.cpp:136-137 | a store of a little-endian word at an offset: those bytes are the word's bytes, every other byte is kept |
| AflMutators.Le16RoundTrip | AFLPlusPlus/src/module/AFLInteresting16Mutator.cpp:136-137 | the two bytes stored for a 16-bit value read back as that value |
| AflMutators.Le32RoundTrip | AFLPlusPlus/src/module/AFLInteresting32Mutator.cpp:141-142 | the four bytes stored for a 32-bit value read back as that value |
| AflMutators.Widen8To16 | AFLPlusPlus/src/module/AFLInteresting16Mutator.cpp:61 | an `int8_t` entry in the `int16_t` table: low byte kept, high byte all sign bits |
| AflMutators.Widen8To32 | AFLPlusPlus/src/module/AFLInteresting32Mutator.cpp:61-66 | an `int8_t` entry in the `int32_t` table: low byte kept, the other bytes all sign bits |
| AflMutators.Widen16To32 | AFLPlusPlus/src/module/AFLInteresting32Mutator.cpp:61-66 | an `int16_t` entry in the `int32_t` table: low half kept, high half all sign bits |
| AflMutators.Interesting16Table | AFLPlusPlus/src/module/AFLInteresting16Mutator.cpp:61 | the table is the sign-extended 8-bit values followed by the 16-bit values, entry by entry |
| AflMutators.Interesting32Table | AFLPlusPlus/src/module/AFLInteresting32Mutator.cpp:61-66 | the table is the sign-extended 8-bit values, then the sign-extended 16-bit values, then the 32-bit values, entry by entry |
| AflMutators.Interesting16 | AFLPlusPlus/src/module/AFLInteresting16Mutator.cpp:114-140 | an empty buffer raises USAGE_ERROR; a 1-byte buffer is copied unchanged; otherwise the drawn table value is stored little-endian at the drawn offset, and the size is kept |
| AflMutators.Interesting32 | AFLPlusPlus/src/module/AFLInteresting32Mutator.cpp:119-145 | an empty buffer raises USAGE_ERROR; 1 to 3 bytes are copied unchanged; otherwise the drawn table value is stored little-endian at the drawn offset, and the size is kept |
| AflMutators.MoveBlock | AFLPlusPlus/src/module/AFLOverwriteCopyMutator.cpp:136-138 | what `memmove` leaves: the destination block holds the source block's old bytes, all other bytes are kept |
| AflMutators.MoveBlockOntoItself | AFLPlusPlus/src/module/AFLOverwriteCopyMutator.cpp:136-138 | moving a block onto itself changes nothing |
| AflMutators.Memmove | AFLPlusPlus/src/module/AFLOverwriteCopyMutator.cpp:136-138 | the in-place `memmove`, correct for overlapping blocks in either direction: the array becomes `MoveBlock` of its old contents |
| AflMutators.OverwriteCopy | AFLPlusPlus/src/module/AFLOverwriteCopyMutator.cpp:112-141 | an empty buffer raises USAGE_ERROR; a 1-byte buffer is copied unchanged; otherwise the drawn block is moved onto the drawn destination (no change when `from == to`), and the size is kept |
| BracketTree.SizeCountsValues | Radamsa/vmf/src/modules/common/mutator/RadamsaTreeMutatorBase.hpp:185-191 | `getSize` counts the values the tree holds |
| BracketTree.InOrder | Radamsa/vmf/src/modules/common/mutator/RadamsaTreeMutatorBase.hpp:128-147 | the in-order value sequence has one entry per node |
| BracketTree.InOrderNodesValues | Radamsa/vmf/src/modules/common/mutator/RadamsaTreeMutatorBase.hpp:128-147 | the k-th node of the in-order walk is a real node carrying the k-th in-order value |
| BracketTree.OrderedInOrder | Radamsa/vmf/src/modules/common/mutator/RadamsaTreeMutatorBase.hpp:41-43 | a search tree lists its values in ascending order, and that list holds exactly its values |
| BracketTree.SortedUnique | Radamsa/vmf/src/modules/common/mutator/RadamsaTreeMutatorBase.hpp:41-43 | two sorted sequences with the same contents are equal |
| BracketTree.LeftmostIsLeast | Radamsa/vmf/src/modules/common/mutator/RadamsaTreeMutatorBase.hpp:237-241 | the leftmost value reached by the successor walk belongs to the subtree and is its least value |
| BracketTree.InsertNode | Radamsa/vmf/src/modules/common/mutator/RadamsaTreeMutatorBase.hpp:194-210 | a non-null root, one node more, the value added to the contents, and the search order preserved |
| BracketTree.DeleteNodeByValue | Radamsa/vmf/src/modules/common/mutator/RadamsaTreeMutatorBase.hpp:213-248 | the recursive deletion, with the in-order-successor replacement of a node that has two children, equals the specification `Deleted` |
| BracketTree.DeletedOrdered | Radamsa/vmf/src/modules/common/mutator/RadamsaTreeMutatorBase.hpp:213-248 | deleting by value keeps a search tree ordered |
| BracketTree.DeletedBounds | Radamsa/vmf/src/modules/common/mutator/RadamsaTreeMutatorBase.hpp:213-248 | deleting by value keeps every upper and lower bound on the tree's values |
| BracketTree.DeletedValues | Radamsa/vmf/src/modules/common/mutator/RadamsaTreeMutatorBase.hpp:213-248 | on a search tree that holds `x`, deletion removes exactly one occurrence of `x` |
| BracketTree.DeletedValuesSuccessor | Radamsa/vmf/src/modules/common/mutator/RadamsaTreeMutatorBase.hpp:236-243 | the same, on a node with two children that is replaced by its successor |
| BracketTree.DeletedAbsent | Radamsa/vmf/src/modules/common/mutator/RadamsaTreeMutatorBase.hpp:213-248 | deleting a value the search tree does not hold leaves it unchanged |
| BracketTree.DeletedSize | Radamsa/vmf/src/modules/common/mutator/RadamsaTreeMutatorBase.hpp:213-248 | deletion shrinks the size by one exactly when the value is present |
| BracketTree.FindByIndex | Radamsa/vmf/src/modules/common/mutator/RadamsaTreeMutatorBase.hpp:128-147 | for an index below the size, the in-order k-th node; otherwise null, with the size subtracted from the remaining index |
| BracketTree.WithoutSorted | Radamsa/vmf/src/modules/common/mutator/RadamsaTreeMutatorBase.hpp:250-258 | removing one position from a sorted sequence keeps it sorted and removes exactly that value |
| BracketTree.DeletedInOrder | Radamsa/vmf/src/modules/common/mutator/RadamsaTreeMutatorBase.hpp:250-258 | deleting the value found at in-order position k takes exactly position k out of the in-order sequence |
| BracketTree.Tree.Empty | Radamsa/vmf/src/modules/common/mutator/RadamsaTreeMutatorBase.hpp:152 | `Tree()` has a null root |
| BracketTree.Tree.DeleteNodeByIndex | Radamsa/vmf/src/modules/common/mutator/RadamsaTreeMutatorBase.hpp:250-258 | an index at or past the size leaves the tree unchanged; otherwise, on every tree, ordered or not, the new root is `Deleted` of the old root by the value at in-order position k; on a search tree the order is kept and exactly position k leaves the in-order sequence; the new root is returned |
| TreeText.DigitChar | Radamsa/vmf/src/modules/common/mutator/RadamsaTreeMutatorBase.hpp:163 | a digit printed by `to_string` reads back as the same digit value |
| TreeText.Decimal | Radamsa/vmf/src/modules/common/mutator/RadamsaTreeMutatorBase.hpp:163 | `to_string` of a value is a non-empty run of decimal digits |
| TreeText.DecimalReads | Radamsa/vmf/src/modules/common/mutator/RadamsaTreeMutatorBase.hpp:97 | `stoul` of `to_string(v)` is `v` |
| TreeText.CloseBracket | Radamsa/vmf/src/modules/common/mutator/RadamsaTreeMutatorBase.hpp:60-83 | -1 exactly when no position up to `maxIndex` closes the bracket opened at `i`; otherwise the first such position |
| TreeText.ScanClose | Radamsa/vmf/src/modules/common/mutator/RadamsaTreeMutatorBase.hpp:65-82 | the scan from `j` finds the first closing position or reports -1 when none is left |
| TreeText.FindCloseBracketIndex | Radamsa/vmf/src/modules/common/mutator/RadamsaTreeMutatorBase.hpp:60-83 | the counting loop returns `CloseBracket` |
| TreeText.DigitRunEnd | Radamsa/vmf/src/modules/common/mutator/RadamsaTreeMutatorBase.hpp:92-96 | the digit run starting at `i` is maximal within `maxIndex` |
| TreeText.ReadDigits | Radamsa/vmf/src/modules/common/mutator/RadamsaTreeMutatorBase.hpp:92-97 | the digit loop collects exactly the digit run, and `stoul` of it is the run's numeral |
| TreeText.BuildTree | Radamsa/vmf/src/modules/common/mutator/RadamsaTreeMutatorBase.hpp:86-118 | the recursive parser returns or throws exactly what `Build` specifies |
| TreeText.NewTree | Radamsa/vmf/src/modules/common/mutator/RadamsaTreeMutatorBase.hpp:153-155 | `Tree(treeStr)` yields a fresh tree whose root is the parse of the whole string, or throws the parse's exception |
| TreeText.ToString | Radamsa/vmf/src/modules/common/mutator/RadamsaTreeMutatorBase.hpp:158-183 | appends exactly the text of the subtree to `s` |
| TreeText.TextNested | Radamsa/vmf/src/modules/common/mutator/RadamsaTreeMutatorBase.hpp:158-183 | every printed tree has balanced brackets that never go negative |
| TreeText.CloseOfGroup | Radamsa/vmf/src/modules/common/mutator/RadamsaTreeMutatorBase.hpp:60-83 | the bracket search finds the `)` of a printed subtree's group |
| TreeText.BuildText | Radamsa/vmf/src/modules/common/mutator/RadamsaTreeMutatorBase.hpp:86-118 | a subtree's text, wherever it occurs, parses back to that subtree |
| TreeText.ParseText | Radamsa/vmf/src/modules/common/mutator/RadamsaTreeMutatorBase.hpp:153-183 | round trip: `Tree(t.toString())` rebuilds `t` for every tree |
| TreeText.ParseEmpty | Radamsa/vmf/src/modules/common/mutator/RadamsaTreeMutatorBase.hpp:153-155 | the empty string gives the empty tree |
| TreeText.UnpairedBracketRaises | Radamsa/vmf/src/modules/common/mutator/RadamsaTreeMutatorBase.hpp:103-114 | a value followed by `(` with no `)` after it raises CONFIGURATION_ERROR |
| TreeText.NoLeadingDigitRejected | Radamsa/vmf/src/modules/common/mutator/RadamsaTreeMutatorBase.hpp:97 | a non-empty string that does not start with a digit makes `stoul` throw |
| ByteMutatorBase.Pow2Cap | Radamsa/vmf/src/modules/common/mutator/RadamsaByteMutatorBase.hpp:45-46 | the lower and upper limits are 2 and 0x20000, that is 2^1 and 2^17 |
| ByteMutatorBase.LimitExponent | Radamsa/vmf/src/modules/common/mutator/RadamsaByteMutatorBase.hpp:48-58 | the doubling stops at the first zero stop draw, never past exponent 17 |
| ByteMutatorBase.UpperLimit | Radamsa/vmf/src/modules/common/mutator/RadamsaByteMutatorBase.hpp:48-58 | the doubling loop yields `2^LimitExponent`, between 2 and 0x20000 |
| ByteMutatorBase.GetRandomRepetitionLength | Radamsa/vmf/src/modules/common/mutator/RadamsaByteMutatorBase.hpp:43-61 | the length is the final draw plus one, between 1 and 0x20001 |
| ByteMutatorBase.EncodeUtf8 | Radamsa/vmf/src/modules/common/mutator/RadamsaByteMutatorBase.hpp:63-84 | 1, 2, 3 or 4 bytes at the thresholds 0x7F, 0x7FF and 0xFFFF |
| ByteMutatorBase.EncodeUtf8Prefixes | Radamsa/vmf/src/modules/common/mutator/RadamsaByteMutatorBase.hpp:67-82 | the lead byte has the marker of its length and every other byte is a continuation byte |
| ByteMutatorBase.DecodeEncode | Radamsa/vmf/src/modules/common/mutator/RadamsaByteMutatorBase.hpp:63-84 | a strict RFC 3629 decoder reads every Unicode scalar value's encoding back as that value |
| ByteMutatorBase.EncodeDecode | Radamsa/vmf/src/modules/common/mutator/RadamsaByteMutatorBase.hpp:63-84 | every byte string the decoder accepts is the encoding of the value it decodes to |
| ByteMutatorBase.SurrogatesEncoded | Radamsa/vmf/src/modules/common/mutator/RadamsaByteMutatorBase.hpp:73-76 | a surrogate gets 3 bytes, which a strict decoder refuses |
| ByteSequence.Clamp | Radamsa/src/common/mutator/byteSequenceMutations.cpp:83-97 | `std::clamp`: the result lies within the limits and equals the value when it is inside them |
| ByteSequence.IndicesOrdered | Radamsa/src/common/mutator/byteSequenceMutations.cpp:83-98 | the clamped start and end satisfy `start <= end <= size - 1`, and they coincide only at the last index |
| ByteSequence.RepLength | Radamsa/src/common/mutator/byteSequenceMutations.cpp:99 | `reps` copies of a sequence have `reps * seqLen` bytes |
| ByteSequence.RepeatedLength | Radamsa/src/common/mutator/byteSequenceMutations.cpp:99 | the intended output has `originalSize + reps * seqLen + 1` bytes |
| ByteSequence.RepeatedKeepsRest | Radamsa/src/common/mutator/byteSequenceMutations.cpp:106-131 | the intended output keeps the bytes before `end`, shifts every later byte by `reps * seqLen`, and ends with 0 |
| ByteSequence.RepeatedNone | Radamsa/src/common/mutator/byteSequenceMutations.cpp:109-131 | zero repetitions give the input followed by 0 |
| ByteSequence.CopyRepeating | Radamsa/src/common/mutator/byteSequenceMutations.cpp:103-131 | the corrected copy loop produces the intended output `Repeated` |
| ByteSequence.CopyRepeatingAsWritten | Radamsa/src/common/mutator/byteSequenceMutations.cpp:103-131 | the copy loop as written produces `AsWritten`: the bytes before `end` are kept, the bytes after `end` are shifted by `reps - 1`, and the output ends with 0 |
| ByteSequence.AsWrittenLosesEndByte | Radamsa/src/common/mutator/byteSequenceMutations.cpp:114-122 | on "abc" with start 0, end 2 and 2 repetitions, the loop as written differs from the intended output |
| ByteSequence.RepeatByteSequence | Radamsa/src/common/mutator/byteSequenceMutations.cpp:54-132 | USAGE_ERROR below 2 bytes; INDEX_OUT_OF_RANGE for a minimum seed index past `size - 2`; UNEXPECTED_ERROR for a null buffer; otherwise the buffer the copy loop as written leaves (`AsWritten`), of size `originalSize + reps * seqLen + 1` |
| ByteSequence.RepeatByteSequenceIntended | Radamsa/src/common/mutator/byteSequenceMutations.cpp:54-132 | the same checks, indices and size, with the corrected copy loop: the input with `reps` copies of `data[start..end)` inserted at position `end`, then a terminating 0 (`Repeated`) |
| Lines.DefaultLine | Radamsa/vmf/src/modules/common/mutator/RadamsaLineMutatorBase.hpp:61-63 | a default line is invalid, starts at 0 and is empty |
| Lines.Equal | Radamsa/vmf/src/modules/common/mutator/RadamsaLineMutatorBase.hpp:54-58 | `==` holds exactly when validity, start and size agree |
| Lines.NotEqual | Radamsa/vmf/src/modules/common/mutator/RadamsaLineMutatorBase.hpp:59 | `!=` is the negation of `==` |
| Lines.LineEndUnique | Radamsa/test/RadamsaDuplicateLineMutatorTest.cpp:150-155 | a line ends after its first newline, or at the end of the buffer; the end is unique |
| Lines.LinesTile | Radamsa/test/RadamsaDuplicateLineMutatorTest.cpp:150-155 | the lines cover the buffer from the start, each starting where the previous one ended |
| Lines.TilingUnique | Radamsa/test/RadamsaDuplicateLineMutatorTest.cpp:150-155 | the line table is the only tiling into lines |
| Lines.LineTable | Radamsa/vmf/src/modules/common/mutator/RadamsaPermuteLinesMutator.cpp:122-132 | the line table tiles the buffer with non-empty valid lines, and it is non-empty exactly when the buffer is |
| Lines.TiledConcat | Radamsa/vmf/src/modules/common/mutator/RadamsaPermuteLinesMutator.cpp:155-165 | writing the lines out in table order reproduces the buffer |
| Lines.LinesWithout | Radamsa/vmf/src/modules/common/mutator/RadamsaDeleteLineMutator.cpp:147-157 | the other lines, in order, are the buffer with line k cut out |
| Lines.LinesAround | Radamsa/vmf/src/modules/common/mutator/RadamsaDeleteLineMutator.cpp:147-157 | the lines before k spell the buffer up to line k, and the lines after k spell the rest after it |
| Lines.Reorder | Radamsa/vmf/src/modules/common/mutator/RadamsaPermuteLinesMutator.cpp:155-165 | the k-th written line is the table's line at `order[k]` |
| Lines.ReorderMultiset | Radamsa/vmf/src/modules/common/mutator/RadamsaPermuteLinesMutator.cpp:155-165 | writing the lines in a permuted order writes each line exactly once |
| Lines.PermutedTotal | Radamsa/vmf/src/modules/common/mutator/RadamsaPermuteLinesMutator.cpp:152-154 | lines in another order have the same total size |
| Lines.RearrangedSize | Radamsa/vmf/src/modules/common/mutator/RadamsaPermuteLinesMutator.cpp:152-165 | for any permutation of the line indices, the rewritten lines are in bounds, the same lines, and exactly as many bytes as the buffer |
| Lines.LineTables | Radamsa/vmf/src/modules/common/mutator/RadamsaPermuteLinesMutator.cpp:122-132 | fresh arrays holding the identity order and the line table |
| Lines.WriteLines | Radamsa/vmf/src/modules/common/mutator/RadamsaPermuteLinesMutator.cpp:152-165 | the rebuild loop writes the lines in the given order into a zeroed buffer of the new size |
| Lines.WriteLine | Radamsa/vmf/src/modules/common/mutator/RadamsaPermuteLinesMutator.cpp:159-163 | one line's bytes are appended at `next`, and every later cell is unchanged |
| DeleteLine.WithoutLine | Radamsa/vmf/src/modules/common/mutator/RadamsaDeleteLineMutator.cpp:135-157 | the bytes before the line are kept, the bytes after it move up by its size, and the output ends with 0 |
| DeleteLine.CopySkipping | Radamsa/vmf/src/modules/common/mutator/RadamsaDeleteLineMutator.cpp:141-157 | the copy loop skips exactly the line's bytes and produces `WithoutLine` |
| DeleteLine.DeleteLine | Radamsa/vmf/src/modules/common/mutator/RadamsaDeleteLineMutator.cpp:90-158 | USAGE_ERROR for an empty buffer; UNEXPECTED_ERROR for a null one; otherwise the other lines in order, followed by 0, never longer than the input |
| PermuteLines.Swap | Radamsa/vmf/src/modules/common/mutator/RadamsaPermuteLinesMutator.cpp:143-145 | exactly entries `i` and `j` are exchanged |
| PermuteLines.SwapPermutes | Radamsa/vmf/src/modules/common/mutator/RadamsaPermuteLinesMutator.cpp:143-145 | a swap is a permutation |
| PermuteLines.ShuffledPermutes | Radamsa/vmf/src/modules/common/mutator/RadamsaPermuteLinesMutator.cpp:137-149 | the Fisher-Yates shuffle is a permutation of the line order |
| PermuteLines.ShuffleOrder | Radamsa/vmf/src/modules/common/mutator/RadamsaPermuteLinesMutator.cpp:137-149 | the in-place shuffle loop leaves `Shuffled` of the old order |
| PermuteLines.PermuteLines | Radamsa/vmf/src/modules/common/mutator/RadamsaPermuteLinesMutator.cpp:92-166 | USAGE_ERROR below 3 bytes or below 3 lines; UNEXPECTED_ERROR for a null buffer; otherwise every line exactly once, in shuffled order, followed by 0 |
| ReplaceLine.Moved | Radamsa/vmf/src/modules/common/mutator/RadamsaReplaceLineMutator.cpp:163-165 | erase-then-insert puts the chosen entry at `to` and keeps all the others in their order |
| ReplaceLine.MovedPermutes | Radamsa/vmf/src/modules/common/mutator/RadamsaReplaceLineMutator.cpp:163-165 | moving an entry is a permutation |
| ReplaceLine.MovedInPlace | Radamsa/vmf/src/modules/common/mutator/RadamsaReplaceLineMutator.cpp:163-165 | moving an entry to its own place changes nothing |
| ReplaceLine.ReplaceLine | Radamsa/vmf/src/modules/common/mutator/RadamsaReplaceLineMutator.cpp:92-182 | no output for a missing or null buffer; the input copied unchanged below 2 bytes or 2 lines; otherwise the lines with the chosen one moved to `to`, followed by zeros filling the buffer of `originalSize + line size + 1` bytes |
| ReplaceLine.ReplaceInPlace | Radamsa/vmf/src/modules/common/mutator/RadamsaReplaceLineMutator.cpp:163-181 | when the line is moved onto itself, the rewritten lines are the input |
| WidenCodePoint.FirstPrintable | Radamsa/vmf/src/modules/common/mutator/RadamsaWidenCodePointMutator.cpp:137-149 | the first draw that hits a printable byte, or none exactly when no draw does |
| WidenCodePoint.FindPrintable | Radamsa/vmf/src/modules/common/mutator/RadamsaWidenCodePointMutator.cpp:137-149 | the retry loop finds `FirstPrintable` |
| WidenCodePoint.Widened | Radamsa/vmf/src/modules/common/mutator/RadamsaWidenCodePointMutator.cpp:151-157 | the byte becomes `0xC0, byte \| 0x80`, the rest shifts by one, and the output ends with 0 |
| WidenCodePoint.WidenCodePoint | Radamsa/vmf/src/modules/common/mutator/RadamsaWidenCodePointMutator.cpp:92-160 | no output for a missing, null or empty buffer or when no printable byte is hit; otherwise the widened buffer, 2 bytes longer |
| WidenCodePoint.ContinuationOnlyBelow64 | Radamsa/vmf/src/modules/common/mutator/RadamsaWidenCodePointMutator.cpp:151-152 | the second byte is a real UTF-8 continuation byte only for bytes below 64 |
| WidenCodePoint.WidenedPairRejected | Radamsa/vmf/src/modules/common/mutator/RadamsaWidenCodePointMutator.cpp:151-152 | the pair carries the byte's low six bits, an overlong form that a strict UTF-8 decoder refuses |
| FuseData.RandomPair | Radamsa/vmf/src/modules/common/mutator/RadamsaFuseDataMutator.cpp:96-101 | both picked indices are in bounds, and they are the two draws |
| FuseData.SuffixLists | Radamsa/vmf/src/modules/common/mutator/RadamsaFuseDataMutator.cpp:104-128 | every list-A entry is a non-empty suffix, every list-B entry is a suffix, and there is one entry per step |
| FuseData.GetSuffixes | Radamsa/vmf/src/modules/common/mutator/RadamsaFuseDataMutator.cpp:104-128 | the loop builds the two suffix lists, with one entry per element of the data |
| FuseData.SetInsert | Radamsa/vmf/src/modules/common/mutator/RadamsaFuseDataMutator.cpp:135-136 | inserting into the `std::set` adds exactly the new element |
| FuseData.SetInsertSorted | Radamsa/vmf/src/modules/common/mutator/RadamsaFuseDataMutator.cpp:135-136 | the set stays in strictly ascending lexicographic order |
| FuseData.LessTransitive | Radamsa/vmf/src/modules/common/mutator/RadamsaFuseDataMutator.cpp:135-136 | the lexicographic order of the set is transitive (with `LessIrreflexive` and `LessTotal`: a strict total order) |
| FuseData.FirstByHeadDistinct | Radamsa/vmf/src/modules/common/mutator/RadamsaFuseDataMutator.cpp:139-146 | the kept prefixes are non-empty and have pairwise distinct first elements |
| FuseData.FirstByHeadKept | Radamsa/vmf/src/modules/common/mutator/RadamsaFuseDataMutator.cpp:139-146 | the kept prefixes are a subsequence of the prefixes |
| FuseData.AtLeastMembers | Radamsa/vmf/src/modules/common/mutator/RadamsaFuseDataMutator.cpp:147-158 | the suffixes kept are exactly those at least `len` long |
| FuseData.Partition | Radamsa/vmf/src/modules/common/mutator/RadamsaFuseDataMutator.cpp:147-158 | the long suffixes are kept, and the short ones are added to the sorted set |
| FuseData.SplitPrefixes | Radamsa/vmf/src/modules/common/mutator/RadamsaFuseDataMutator.cpp:131-165 | the new prefixes are the first prefix per head element; the new suffixes, sorted and without duplicates, are exactly the suffixes shorter than the longest kept prefix less one |
| FuseData.FuseData | Radamsa/vmf/src/modules/common/mutator/RadamsaFuseDataMutator.cpp:187-207 | USAGE_ERROR exactly for an empty buffer, UNEXPECTED_ERROR exactly for a null one, and otherwise no output |

## Left out

- **I/O and randomness.** Storage entries, `allocateBuffer` and the random number generator are not modelled. The draws are parameters, constrained to the ranges `randBelow`/`randBetween` return. The buffer a mutator allocates is the returned byte sequence.
- **Buffer ownership:** memory management, leaks and `delete` of tree nodes are left out. Tree nodes are values.
- **AFL++ value tables.** `INTERESTING_8/16/32` come from an AFL++ header, which is not part of this model. The tables are parameters; only how the 16- and 32-bit tables are built from them is modelled.
- AflMutators.Interesting16: stores are little-endian, the byte order of the targets AFL++ runs on; `*(u16*)` of a big-endian machine is not modelled.
- **Integer widths.** Sizes and indices are unbounded naturals; `int` buffer sizes and their narrowing `static_cast<int>` are not modelled. Tree values are `size_t` of 64 bits.
- AflMutators.Flip4Byte: the draw comes from `randBelow(size - 3)`. The `byte == -1` check it is compared against cannot hold, so it is not modelled.
- **Line segmentation.** `GetNumberOfLinesAfterIndex` and `GetLineData` are not part of this model. Lines are defined here as the runs of bytes ending with and including a newline, or at the end of the buffer, which is what the line mutator tests expect.
- **`CopyBufferAsIs`** is not part of this model. It is taken to write an exact copy of the base buffer.
- PermuteLines.PermuteLines: the never-read `shuffledLines` vector is left out. The line count is computed before the null-pointer check, as in the source, but it is not evaluated on a null pointer.
- **Widen: silent returns.** The widen-code-point mutator returns without output when no draw hits a printable byte, as the code does. Its test expects USAGE_ERROR there instead.
- **Replace-line fallbacks.** The replace-line mutator copies the buffer unchanged on its fallback paths, as the code does, instead of raising an error.
- FuseData.FuseData: `findJumpPoints` and the whole fusion step are left out. The source's `mutateTestCase` ends after its checks and writes nothing. Only the checks are modelled; the `minimumSeedIndex` check cannot fail.
- FuseData.RandomPair: requires non-empty data. On empty data `randBetween(0, size - 1)` wraps around, and indexing with the result is undefined behaviour.
- **`std::stoul` range.** Its `out_of_range` and `invalid_argument` exceptions are one error, `NumeralRejected`. Leading whitespace and signs, which `stoul` accepts, never reach it: only digits are collected.
- **RepeatByteSequence mutator wrapper.** The mutator class that calls `RepeatByteSequence` has an empty `mutateTestCase`, so only the shared routine is modelled. `DeleteByteSequence` has no body in the source.
- ByteSequence.RepeatByteSequence: `GetRandomValueWithinBounds` is not part of this model. Its second result is assumed to be at least its lower bound `start + 1`. When the minimum seed index is above 0, that bound can exceed the upper bound `size - minSeed`: for size 4, minimum seed index 2 and a first draw of 0, the bounds are [3, 2]. The model does not say what the call returns then. The same assumption applies to ByteSequence.RepeatByteSequenceIntended.
- ByteSequence.CopyRepeatingAsWritten: requires `start < end`, or both indices at the last byte. The clamps guarantee this under the assumption above (`IndicesOrdered`).

## Findings

| source | as written | input that shows it | evidently intended | confidence | as-written member | corrected member |
|---|---|---|---|---|---|---|
| Radamsa/src/common/mutator/byteSequenceMutations.cpp:109-131 | each repetition copies the whole sequence but advances the destination by only one byte, and the byte at the end index is never copied | "abc" (61 62 63), start 0, end 2, 2 repetitions: as written gives 61 62 61 61 62 00 00 00 | 61 62 61 62 61 62 63 00: the bytes up to `end`, the sequence repeated, then the rest of the input and a terminating 0 | not executed | ByteSequence.AsWrittenLosesEndByte | ByteSequence.RepeatByteSequenceIntended |
