# JPEG XL entropy coding and the fast lossless encoder, modelled in Dafny

This project models the integer core of libjxl and proves what it is for: that what one side writes, the other side
reads back. It has four parts.

- **The ANS decoder** (`AliasTable`, `Rans`, `HybridUint`, `UintConfigs`, `History`, `SymbolSpec`, `SymbolReader`,
  `CopyDistance`, `Histogram`, `AnsCode`): reading distributions, building alias tables, the 32-bit state machine, hybrid
  integers, the circular LZ77 window with checkpoints. Each layer is a packed form of something simple, and is proved
  against it. The encoder (`AnsEncoder`, `TokenStream`, `TokenWriter`, `HistogramCoding`) closes the loop: encode, write,
  read, decode.
- **Bit input and output** (`BitReader`, `BitWriter`, `FrameAssembly`, `Toc`): 64-bit registers with bits beyond the
  count, refining plain bit sequences; splicing at any bit offset; the table of contents, written and read.
- **The fast lossless encoder** (`PriorityQueue`, `HuffmanCost`, `Huffman`, `CanonicalCode`, `Alphabet`, `PrefixCode`,
  `PrefixHeader`, `PrefixWriter`, `ChunkEncoder`, `Prediction`, `PlaneCoding`, `RowShortcut`, `ImageArea`, `Pixels`,
  `SectionCoding`, `SectionSizes`, `GroupLayout`, `GlobalHeader`, `FrameCoding`): from the pixels of an image to the bits of a frame. The decoder it is
  proved against is the table of contents, the tree and the coding in the global section, a prefix decoder, the hybrid integers and LZ77 copies of
  lib/jxl/dec_ans.h:305-347, the code length reader of lib/jxl/dec_huffman.cc (section 3.5 of RFC 7932), the inverse
  predictor and the inverse colour transform.
- **Coefficient orders and block tiling** (`CoeffOrder`, `Lehmer`, `Fenwick`, `Permutations`, `CoeffOrderCoding`,
  `AcStrategy`).

`Bits`, `Sums` and `Sequences` hold the arithmetic and the sequence functions that all of them share.

## What the proofs found

- **The row shortcut loses data.** experimental/fast_lossless/fast_lossless.cc:905 skips a row while the AND of all
  samples is 255. In a signed chroma channel of 8-bit images -1 keeps the AND at 255 as well. A row of pixels
  (255, 127, 0) over a row of pixels (0, 0, 1), 16 wide, is not recovered from what the encoder writes
  (`ImagePixels.ImageIsNotRecovered`). The condition is exact and depends only on the input: an image is recovered if
  and only if, in both chroma channels, every row that the shortcut skips equals the row above it, and, if any row is
  skipped, the last two samples of the padded first row are equal (`RowShortcut.ReversibleIff`,
  `ImagePixels.SectionReadsBack`). Grey, alpha and luma channels always meet it.
- **`SkipBits` beyond the end** does not advance by the number of bits asked for (lib/jxl/dec_bit_reader.h:185-195).
  `BitReading.BitReader.SkipBits` says by how much it falls short, and that the position is past the end all the same.
- **A comment against its code.** lib/jxl/dec_ans.cc:145-148 means to reject a run right after the omitted count, but
  compares a log-count with 4097, which no log-count reaches. The model follows the code; `Histogram.ReadHistogram`
  shows that the counts still sum to 4096.
- **A permutation survives its code** exactly if it keeps the skipped entries
  (`CoeffOrderCoding.PermutationRoundTrip`): the tokenizer drops their digits without looking at them.
- **`ComputeCanonicalCode` asserts positive lengths** in its first chunk (fast_lossless.cc:89). The constructor passes a
  zero for the counts 1, 0, 1 (`PrefixCoding.ConstructWithGap`). The assertion holds exactly for counts without a gap
  (`PrefixCoding.ConstructPrefixCode`), and so for an image whenever sampling left no gap above the symbols that every code
  gets (`SectionCoding.ChooseCode`). The proofs do not need it: a symbol without a length changes only bits that
  `BitReverse` drops.
- **Very large images are written but not read.** The encoder has no limit on the number of groups; the decoder rejects
  a table of contents with more than 65536 entries (lib/jxl/toc.cc:27). `FrameCoding.FrameReadsBack` states both sides.

## Model

| member | source | states |
|---|---|---|
| AliasTable.InitAliasTable | lib/jxl/ans_common.cc:51-146 | for every distribution that sums to 4096, `Lookup` over the finished table is a bijection from [0, 4096) onto the pairs (symbol, offset below its count) and reports that count; unless one symbol has it all, which gives the identity on offsets, every entry holds the slots that the distribution alone prescribes: its own up to a cut, then those of its giver from the top of the surplus down (`IsFilledInOrder`) |
| AliasTable.OneTableInOrder | lib/jxl/ans_common.cc:97-123 | two tables that are filled as the distribution prescribes agree in every position |
| AliasTable.HigherFilledFirst | lib/jxl/ans_common.cc:97-111 | of two entries that are short of slots, the higher one is filled first: its last slot comes from a higher symbol, or from higher up in the same one |
| AliasTable.ExhaustedFilledNext | lib/jxl/ans_common.cc:112-123 | an overfull symbol that gave more than its surplus is filled from the next lower overfull symbol |
| AliasTable.Reassign | lib/jxl/ans_common.cc:104-123 | the two-stack loop ends, never pops an empty underfull stack, and leaves every entry exactly full with its slots still tiling the distribution |
| AliasTable.UnderfullExists | lib/jxl/ans_common.cc:105-111 | as long as the loads average one entry each, an overfull entry means that some unfilled entry is underfull |
| AliasTable.FinishedIsSound | lib/jxl/ans_common.cc:124-146 | every position of a finished table falls on a slot of its symbol, with the symbol's count |
| AliasTable.FinishedIsInjective | lib/jxl/ans_common.h:88-128 | no two positions of a finished table give the same symbol and offset |
| AliasTable.FinishedIsSurjective | lib/jxl/ans_common.h:88-128 | every slot of every symbol is given by some position of a finished table |
| Rans.UniqueStream | lib/jxl/dec_ans.h:189-216 | for every sequence of tables and symbols that occur in them, exactly one normalized state and word sequence decodes to these symbols, uses up exactly these words and ends in the signature state |
| Rans.StepUndoesPut | lib/jxl/dec_ans.h:189-216 | decoding right after encoding returns the symbol and the state before, and takes a word exactly if one was put out |
| Rans.PutUndoesStep | lib/jxl/enc_ans.h:58-76 | encoding the symbol that a decoding step returned gives back the state and the word it took |
| Rans.RunStaysNormalized | lib/jxl/dec_ans.h:189-216 | whatever the words, a run from a normalized state stays in [2^16, 2^32) and returns only symbols that occur |
| AnsEncoding.BuildInfoTable | lib/jxl/enc_ans.cc:39-63 | one pass over the table inverts it: the reverse map of every symbol sends each offset to the position that decodes to it |
| AnsEncoding.ReciprocalDivides | lib/jxl/enc_ans.h:66-70 | for every state that is divided, the 64-bit product does not overflow and its high part is the quotient |
| AnsEncoding.ANSCoder.PutSymbol | lib/jxl/enc_ans.h:58-76 | the new state and the word put out are those of the inverse decoding step |
| TokenStream.DecodePrepended | lib/jxl/enc_ans.cc:1628-1643 | decoding a token that was put in front of a stream returns its symbol and value and leaves the decoder in front of that stream |
| TokenStream.ReadItems | lib/jxl/dec_ans.h:305-347 | decoding the stream of any list of literals and copies returns the values they stand for, ends in the signature state and stops at the last bit of the stream |
| TokenWriting.ReversedBits.AddBits | lib/jxl/enc_ans.cc:1611-1625 | the new bits stand in front of everything collected so far, across chunks |
| TokenWriting.WriteTokens | lib/jxl/enc_ans.cc:1604-1659 | the writer receives the final state and the bits of the stream that is defined from the last token to the first |
| TokenWriting.EncodeThenDecode | lib/jxl/enc_ans.cc:1604-1659 | any list of literals and copies is encoded, written, padded, read by the buffered reader and decoded to the same values; the final state check passes and no bit past the end is read |
| BitReading.BitReader.Refill | lib/jxl/dec_bit_reader.h:86-103 | at least 56 bits are available afterwards, nothing is consumed, and the buffered bits are the next bits of the zero-extended stream although true stream bits are left above them |
| BitReading.BitReader.ReadBits | lib/jxl/dec_bit_reader.h:148-154 | returns exactly the next bits of the zero-extended stream and advances by their number |
| BitReading.BitReader.SkipBits | lib/jxl/dec_bit_reader.h:167-201 | advances by exactly the number of bits asked for unless the jump passes the last byte; then it falls short by a stated amount, and the position is past the end |
| BitReading.BitReader.AllReadsWithinBounds | lib/jxl/dec_bit_reader.h:237-249 | true exactly if no bit past the end has been consumed |
| BitReading.BitReader.JumpToByteBoundary | lib/jxl/dec_bit_reader.h:208-215 | moves to the next byte boundary and fails exactly if a skipped bit is set |
| BitReading.BitReader.Close | lib/jxl/dec_bit_reader.h:253-262 | fails exactly if bits past the end were consumed since the last bounds check |
| BitWriting.BitWriter.Write | experimental/fast_lossless/fast_lossless.cc:30-38 | appends the bits, whatever the alignment |
| BitWriting.AppendWriter | experimental/fast_lossless/fast_lossless.cc:272-297 | appends all bits of another writer at any bit offset |
| FrameAssembly.SpliceAndRead | experimental/fast_lossless/fast_lossless.cc:272-297 | fields written through any number of writers, spliced in order, are read back in order with their widths |
| FrameAssembly.AssembleGroups | experimental/fast_lossless/fast_lossless.cc:441-464 | the output receives a table of the byte sizes of the groups and then the padded groups themselves |
| TocReading.ReadGroupOffsets | lib/jxl/toc.cc:23-98 | on every stream, outcome, sizes, offsets, total and end are those of the parser on the bit sequence, with both kinds of failure and the permutation; on success the reader stands behind the table |
| TocReading.AcceptedIff | lib/jxl/toc.cc:23-98 | a stream is accepted if and only if it holds, behind the flag and the permutation if there is one, zeros up to a byte boundary, the table of some sizes, and zeros again; then these sizes and their prefix sums come out in the order of the permutation |
| TocReading.AcceptedTiles | lib/jxl/toc.cc:73-96 | in everything that is accepted, permuted or not, the byte ranges of the groups are disjoint and cover all bytes up to the total, and the offsets are below 2^64, so that the overflow test never fires |
| TocReading.WrittenIff | experimental/fast_lossless/fast_lossless.cc:439-457 | without a permutation, a table is accepted with these sizes if and only if the stream holds exactly what the encoder writes for them |
| TocReading.AssembledIsParsed | experimental/fast_lossless/fast_lossless.cc:439-464 | what is assembled is accepted, with the sizes of the groups, and every offset is where its group starts |
| HybridUint.DecodeEncode | lib/jxl/dec_ans.h:70-87 | decoding inverts encoding for every 32-bit value and every configuration, and the number of raw bits written is the number that is read |
| HybridUint.EncodeDecode | lib/jxl/dec_ans.h:244-276 | a token and raw bits that decode to a 32-bit value without reaching the reader's limits are the only encoding of that value |
| HybridUint.DecodeBound | lib/jxl/dec_ans.h:244-276 | no raw bits take a decoded value beyond the bits that are accounted for its token |
| UintConfigs.ParsedIsValid | lib/jxl/dec_ans.cc:264-286 | every accepted configuration satisfies the assertion of the constructor |
| UintConfigs.ParseConfigBits | lib/jxl/enc_ans.cc:525-537 | every configuration that is written is read back, but for the two digit counts when no token reaches the split token |
| UintConfigs.DecodeUintConfig | lib/jxl/dec_ans.cc:264-286 | the reader with a register parses as the parser on the bit sequence does, failures included |
| History.RestoredShows | lib/jxl/dec_ans.h:385-424 | putting the saved 512 entries back restores every window entry the earlier history can ask for, around the end of the window too |
| SymbolSpec.CopyRun | lib/jxl/dec_ans.h:305-313 | a copy appends, each time, the value exactly `distance` positions back, and touches neither the ANS state nor the bit position |
| SymbolSpec.CopyFromNothing | lib/jxl/dec_ans.h:334-339 | a copy that starts without history yields only zeros |
| SymbolSpec.ReadManyBound | lib/jxl/dec_ans.h:305-347 | if the literals of all contexts need at most m bits, every value read is below 2^m, copies included |
| SymbolSpec.SingleValueRun | lib/jxl/dec_ans.h:357-375 | from a normalized state, reading a context with one symbol below the split token returns that symbol every time and moves neither the state nor the bit position |
| SymbolReading.SymbolReader.ReadSymbolANSWithoutRefill | lib/jxl/dec_ans.h:189-216 | with 16 buffered bits, one step on the register returns the symbol, state and position of the step on the bit sequence |
| SymbolReading.SymbolReader.ReadHybridUintClustered | lib/jxl/dec_ans.h:305-347 | with the circular window and one refill per symbol, value, state, position and history are those of the read on an unbounded history; the call on itself goes one level deep; which distances the codes stand for is in the next three rows |
| CopyDistances.LongDistance | lib/jxl/dec_ans.h:318-343 | a copy whose code is d - 1 beyond the special distances is decoded to values each of which equals the one exactly d positions before it, limited to the history and to 2^20 |
| CopyDistances.ShortDistance | lib/jxl/dec_ans.h:172-187 | with an image width, a code below 120 copies from dx + width dy positions back, and from the value just before if that is less than one, for the offset (dx, dy) in the table |
| CopyDistances.TableIsSorted | lib/jxl/dec_ans.h:116-135 | the table lists each of the 120 offsets within seven rows above once and nothing else: by distance, then nearer columns first, then to the right first |
| SymbolReading.SymbolReader.IsSingleValueAndAdvance | lib/jxl/dec_ans.h:357-375 | when it returns true from a normalized state, everything is as after that many reads; when it returns false, nothing has changed |
| SymbolReading.SymbolReader.Restore | lib/jxl/dec_ans.h:404-424 | after any decoding that counts as at most 512 values, the state of the checkpoint is back |
| SymbolReading.SymbolReader.SaveDecodeRestore | lib/jxl/dec_ans.h:385-424 | a checkpoint, any decoding of at most 512 values, and a restore leave state, counters and history as they were |
| Histogram.CreateFlatHistogram | lib/jxl/ans_common.cc:15-25 | positive counts with the given total, differing by at most one, larger ones first |
| Histogram.ReadGeneralHistogram | lib/jxl/dec_ans.cc:86-184 | on success the counts sum to 4096, each is explained by its log-count or its run, and the omitted count, at the first of the largest log-counts, is positive |
| Histogram.ReadHistogram | lib/jxl/dec_ans.cc:51-186 | on every bit stream, counts, end and failure are those of the parser on the bit sequence, and what is accepted are counts that sum to 4096 |
| HistogramCoding.EncodeCounts | lib/jxl/enc_ans.cc:240-356 | the writer receives the bits of the counts: one or two symbols, or log-counts with runs, the shift, the omitted symbol and the kept bits below the highest one |
| HistogramCoding.CountsReadBack | lib/jxl/dec_ans.cc:51-186 | a reader in front of what is written for any counts gets exactly these counts, without the zeros at the end, and stops behind them |
| HistogramCoding.EncodeFlatHistogram | lib/jxl/enc_ans.cc:358-366 | the writer receives the marks and the size of a flat histogram |
| HistogramCoding.FlatReadsBack | lib/jxl/enc_ans.cc:358-366 | a reader in front of a flat histogram gets the flat counts of this size |
| HistogramCoding.PrecisionGrows | lib/jxl/ans_common.h:22-30 | how many bits of a count are kept: none while the shift is small, then one more with every shift, until all are |
| AnsCode.ANSCode.DecodeANSCodes | lib/jxl/dec_ans.cc:227-260 | succeeds if and only if the stream holds a histogram for every context, none with more than 2^logAlphaSize symbols; then every table is the alias table of the histogram of its context without the zeros at the end, and the recorded bit count is the largest number of bits that a literal which can occur needs |
| AnsCode.ANSCode.UpdateMaxNumBits | lib/jxl/dec_ans.cc:310-331 | the maximum of the old value and the bits that the symbol needs in its context, with the length configuration for length symbols |
| AnsCode.EveryValueBelow | lib/jxl/dec_ans.cc:227-260 | after a successful `DecodeANSCodes` every value that a fresh reader returns, whatever the bits and contexts, is below 2^maxNumBits |
| Lehmer.SelectedIsPermutation | lib/jxl/lehmer_code.h:60-97 | the elements that a complete code selects are a permutation |
| Lehmer.SelectedCodeOf | lib/jxl/lehmer_code.h:31-58 | selecting by the code of a permutation gives the permutation |
| Lehmer.CodeOfSelected | lib/jxl/lehmer_code.h:31-58 | the code of what a code selects is that code |
| Fenwick.FindSet | lib/jxl/lehmer_code.h:72-86 | the descent in the tree ends at the set value with exactly `digit` set values below it |
| Fenwick.DecodeLehmerCode | lib/jxl/lehmer_code.h:60-97 | the tree, although padded to a power of two, selects what the digits select among the remaining elements |
| Fenwick.ComputeLehmerCode | lib/jxl/lehmer_code.h:31-58 | the tree computes the code that selects the permutation |
| Fenwick.CodeAndDecode | lib/jxl/lehmer_code.h:31-97 | decoding what was computed gives the permutation back |
| CoeffOrder.CoeffOrderAndLut | lib/jxl/ac_strategy.cc:26-77 | for every block with sides in ratio 2^k the loops write the natural order, or, for the table, its two-sided inverse |
| CoeffOrder.NaturalIsPermutation | lib/jxl/ac_strategy.cc:26-77 | a natural order is a permutation of all positions and starts with the low-frequency cells row by row |
| CoeffOrder.NaturalIsUnique | lib/jxl/ac_strategy.cc:19-22 | zig-zag order with the low-frequency cells first determines the order |
| CoeffOrder.InverseBothWays | lib/jxl/ac_strategy.h:131-137 | a table that inverts a permutation on one side inverts it on the other |
| AcStrategy.ComputeNaturalCoeffOrder | lib/jxl/ac_strategy.cc:79-84 | every one of the 27 strategies has a shape for which the order is a permutation |
| AcStrategy.ComputeNaturalCoeffOrderLut | lib/jxl/ac_strategy.cc:82-84 | for every strategy the table inverts the natural order on both sides |
| AcStrategy.Log2Covered | lib/jxl/ac_strategy.h:141-167 | the table of logarithms agrees with the tables of both sides |
| AcStrategy.MultiblockCovers | lib/jxl/ac_strategy.h:97-109 | a strategy is a multi-block one exactly if it covers more than one block |
| AcStrategy.CoversItsSides | lib/jxl/ac_strategy.h:141-157 | a strategy covers as many blocks as its sides in pixels need |
| Permutations.ReadPermutation | lib/jxl/coeff_order.cc:36-60 | accepts exactly the complete value lists, stops at the first value that rules acceptance out, and returns the permutation that the values stand for |
| Permutations.AcceptedIsPermutation | lib/jxl/coeff_order.cc:36-60 | whatever is accepted stands for a permutation that keeps the skipped entries in place |
| Permutations.ContextIsLength | lib/jxl/coeff_order.cc:29-33 | the context is the number of binary digits of the value, up to seven |
| CoeffOrderCoding.TokenizePermutation | lib/jxl/enc_coeff_order.cc:212-230 | the tokens are the trimmed number of digits and the digits of the permutation's code behind the skipped ones, each in the context of the one before |
| CoeffOrderCoding.PermutationRoundTrip | lib/jxl/enc_coeff_order.cc:212-230 | what is tokenized is accepted, and gives the permutation back if and only if it keeps the skipped entries |
| CoeffOrderCoding.DecodeCoeffOrder | lib/jxl/coeff_order.cc:81-96 | every accepted stream gives a permutation of all positions that starts as the natural order does |
| CoeffOrderCoding.EncodeCoeffOrder | lib/jxl/enc_coeff_order.cc:246-255 | the tokens decode to the order if and only if it starts as the natural order does |
| AcStrategy.AcStrategyImage.SetNoBoundsCheck | lib/jxl/ac_strategy.h:213-229 | with the check it succeeds only if all cells were free and then extends the tiling; on an overlap the cells before it stay marked; without the check all cells are marked |
| AcStrategy.TiledNext | lib/jxl/ac_strategy.h:213-229 | marking free cells keeps the image an exact tiling, with one more placement |
| AcStrategy.FirstBlocks | lib/jxl/ac_strategy.h:225-226 | in a tiling the first-block flag is set exactly in the top-left cells of the placements |
| AcStrategy.AcStrategyImage.CountBlocks | lib/jxl/ac_strategy.cc:97-106 | in a tiling the result is the number of placements of the strategy |
| AcStrategy.PlaceAll | lib/jxl/ac_strategy.h:204-229 | checked placements on a cleared image all succeed if and only if they are pairwise disjoint, and then tile it exactly; otherwise the run stops at a placement that overlaps an earlier one, with all before it disjoint |
| CanonicalCode.BitReverseReverses | experimental/fast_lossless/fast_lossless.cc:65-75 | read from its lowest bit on, the result is the argument read from bit nbits - 1 down; bits above are dropped |
| CanonicalCode.StartCodeIs | experimental/fast_lossless/fast_lossless.cc:97-101 | counting zero-length symbols adds to the first code of each length only a multiple of 2^length |
| CanonicalCode.ComputeCanonicalCode | experimental/fast_lossless/fast_lossless.cc:79-111 | both chunks receive the canonical codewords of all symbols together, bit-reversed, in 16-bit arithmetic |
| CanonicalCode.HandedOut | experimental/fast_lossless/fast_lossless.cc:79-111 | the words of 15 bits are handed out in the order of the lengths, and of the symbols for equal lengths: a word starts with a codeword exactly if its value is in the range that begins where the ranges before it end |
| CanonicalCode.PrefixFree | experimental/fast_lossless/fast_lossless.cc:79-111 | with Kraft's sum at most one, no codeword is a prefix of another |
| CanonicalCode.ReadsOne | lib/jxl/dec_huffman.cc:240-253 | at most one symbol can be read at a position |
| Alphabets.RawCodeword | experimental/fast_lossless/fast_lossless.cc:51-63 | a raw symbol has the same codeword in the 512-symbol alphabet of the decoder as among the used symbols |
| Alphabets.Lz77Codeword | experimental/fast_lossless/fast_lossless.cc:51-63 | so has every LZ77 symbol, at 224 + 16 i |
| Huffman.ComputeCodeLengths | experimental/fast_lossless/fast_lossless.cc:143-191 | ends for every frequency vector of at most 32 and at most 2^limit symbols; with two or more that occur, each gets a length in 1..limit and Kraft's sum is exactly one; the lengths are the shortest of all prefix codes, of any depth, for the frequencies halved as often as the limit demands and no more often, which is never for up to limit + 1 symbols; the others keep their lengths |
| Huffman.RunIsCheapest | experimental/fast_lossless/fast_lossless.cc:155-183 | no lengths that meet Kraft's inequality cost less than the run of merges |
| HuffmanCost.LowerBound | experimental/fast_lossless/fast_lossless.cc:155-183 | merging the two rarest weights first gives a lower bound for the cost of any lengths |
| Huffman.KraftOfTree | experimental/fast_lossless/fast_lossless.cc:160-177 | the leaves of the merged forest share out 2^limit exactly if no depth exceeds the limit |
| Huffman.MergedLog | experimental/fast_lossless/fast_lossless.cc:160-170 | merging the two smallest weights of a balanced queue passes the next power of two, so that equal frequencies give a balanced tree |
| Huffman.HalvedTotal | experimental/fast_lossless/fast_lossless.cc:185-188 | halving lowers the total until only ones are left |
| PrefixCoding.ConstructPrefixCode | experimental/fast_lossless/fast_lossless.cc:113-141 | a valid prefix code for any counts; with one raw and two LZ77 symbols it is complete and every symbol that occurs has a codeword; both levels have the shortest lengths for their counts, all LZ77 symbols together being one of the first; raw symbols that do not occur have none, so that all lengths in the first chunk are positive, as `ComputeCanonicalCode` asserts, if and only if every raw symbol up to the last one that occurs occurs as well and it is not the only symbol of the first level |
| PrefixCoding.ConstructWithGap | experimental/fast_lossless/fast_lossless.cc:86-90 | counts for which the assertion does not hold |
| PrefixCoding.LevelsTogether | experimental/fast_lossless/fast_lossless.cc:126-137 | two levels of lengths, the second below one symbol of the first, never take more than there is, and everything if both are complete |
| PrefixHeader.ClLensReadBack | lib/jxl/dec_huffman.cc:203-221 | the reader gets the code length code back in its permuted order and stops after the last length that is not zero |
| PrefixHeader.LenStep | lib/jxl/dec_huffman.cc:46-57 | reading a written length appends it and ends any repetition |
| PrefixHeader.ZeroStep | lib/jxl/dec_huffman.cc:58-83 | reading symbol 17 appends exactly the zeros by which the chained repetition grows |
| PrefixHeaderWriting.HeaderReadsBack | lib/jxl/dec_huffman.cc:175-216 | the decoder gets the lengths of all 512 symbols, raw lengths at 0..14, LZ77 lengths at 224 + 16 i and zeros elsewhere, and stops at the end of the header |
| PrefixHeaderWriting.WriteTo | experimental/fast_lossless/fast_lossless.cc:193-259 | for every complete code with an LZ77 symbol, what is written reads back, wherever it stands, as the code's 512 lengths; the code length code is the shortest within five bits for the number of times that lengths and runs of zeros are written, all 17 LZ77 symbols included |
| ChunkCoding.Is000 | experimental/fast_lossless/fast_lossless.cc:264-270 | the token encoder is the hybrid integer code with configuration (0, 0, 0) |
| ChunkCoding.Is404 | experimental/fast_lossless/fast_lossless.cc:538-545 | on multiples of 16 the run encoder is the hybrid integer code with configuration (4, 0, 4), its token divided by 16 |
| ChunkCoding.ItemsReadAs | lib/jxl/dec_ans.h:305-347 | the bits of literals and runs, the first one a literal, are read as the values they stand for by any reader in front of them, whatever it has read before; it stops at their end with no copy left |
| ChunkCoding.ChannelRowProcessor.ProcessResiduals | experimental/fast_lossless/fast_lossless.cc:806-817 | sixteen residuals continue the run or end it; in both cases what is written and the run together stand for all residuals seen |
| ChunkCoding.ChannelRowProcessor.Chunk | experimental/fast_lossless/fast_lossless.cc:725-746 | the run and the sixteen literals are written, one word each |
| ChunkCoding.ChannelRowProcessor.ReadsBackResiduals | experimental/fast_lossless/fast_lossless.cc:748-749 | after `Finalize` the output has grown by bits that read as all residuals seen |
| Prediction.UnpackPacked | experimental/fast_lossless/fast_lossless.cc:780-783 | unpacking inverts `PackSigned` for all 16-bit values |
| Prediction.PredictIsClampedGradient | experimental/fast_lossless/fast_lossless.cc:797-805 | the sign trick, in 16-bit arithmetic, is the median of left, top and left + top - topleft for samples of 13 bits and sign |
| Prediction.PixelRoundTrip | experimental/fast_lossless/fast_lossless.cc:879-885 | the inverse colour transform recovers pixels of up to 12 bits per channel |
| PlaneCoding.DecodePlaneIff | experimental/fast_lossless/fast_lossless.cc:786-825 | a plane is recovered from residual rows exactly if they are its own |
| PlaneCoding.CropDecodes | experimental/fast_lossless/fast_lossless.cc:895-902 | the first columns of a decoded plane depend only on the first columns of the residuals, so the padding does no harm |
| RowShortcut.NonNegativeRepeats | experimental/fast_lossless/fast_lossless.cc:904-908 | in channels without negative samples every skipped row equals the row above, and the first row ends flat |
| RowShortcut.LastBeforeSkip | experimental/fast_lossless/fast_lossless.cc:904-908 | the residual that a skipped row repeats is zero exactly if the padded first row ends with two equal samples |
| RowShortcut.ReversibleIff | experimental/fast_lossless/fast_lossless.cc:904-908 | the visible columns of what is decoded are the channel if and only if every skipped row equals the row above and the padded first row ends with two equal samples |
| RowShortcut.SignedChannelIsLost | experimental/fast_lossless/fast_lossless.cc:905 | a channel of a row of 255 and a row of -1 has its second row skipped and is not recovered |
| ImageArea.ChunkResiduals | experimental/fast_lossless/fast_lossless.cc:788-808 | the residuals computed from the two buffers are those of the whole padded image |
| ImageArea.PrepareRow | experimental/fast_lossless/fast_lossless.cc:855-902 | after a row is filled in, both buffers hold row, left border, row above and its border as prediction in the whole image needs them |
| ImageArea.ProcessRow | experimental/fast_lossless/fast_lossless.cc:819-825 | all residuals of the row are added, chunk by chunk |
| ImageArea.ProcessOneRow | experimental/fast_lossless/fast_lossless.cc:853-919 | one row goes through the shortcut exactly if the accumulated OR or AND says so, and through prediction otherwise; the buffers are ready for the next one |
| ImageArea.EncodeChannel | experimental/fast_lossless/fast_lossless.cc:830-923 | the output grows by bits from which any decoder in front of them, whatever it has read before, reads a plane, stopping at their end with no copy left; its visible columns are the channel if and only if the skipped rows repeat |
| ImagePixels.RecoversIff | experimental/fast_lossless/fast_lossless.cc:847-886 | decoded planes give all visible pixels, but for colours under alpha 0, exactly if their visible columns are the channels of the image |
| ImagePixels.WriteACSection | experimental/fast_lossless/fast_lossless.cc:926-956 | every writer receives the bits of its channel, the first one behind the group header, and the other writers nothing |
| ImagePixels.SectionReadsBack | lib/jxl/modular/encoding/encoding.cc:516-539 | one reader over the bits of all channels stops at their end, and all visible pixels are recovered if and only if there are at most two channels or the shortcut is safe in both chroma channels |
| ImagePixels.ImageIsNotRecovered | experimental/fast_lossless/fast_lossless.cc:905 | an 8-bit image of two rows is not recovered from its bits, whatever code was used |
| SectionCoding.RawCounts | experimental/fast_lossless/fast_lossless.cc:1254-1268 | exactly the symbols that residuals of this bit depth can need, and those that were sampled, count |
| SectionCoding.RunsCovered | experimental/fast_lossless/fast_lossless.cc:1261-1281 | every run of up to all samples of a group has a codeword |
| SectionCoding.ImageCovered | experimental/fast_lossless/fast_lossless.cc:1254-1268 | every residual of every image of this bit depth has a codeword |
| SectionCoding.TopSymbolNeeded | experimental/fast_lossless/fast_lossless.cc:1254-1260 | the largest symbol that always counts is needed: some image of this bit depth has a residual with that token |
| SectionCoding.ChooseCode | experimental/fast_lossless/fast_lossless.cc:1254-1282 | whatever was sampled, the code is complete, has the codewords that images of this bit depth can need, and is the shortest, level by level, for the sampled counts times 256 plus the fixed ones; the assertion on its lengths holds if and only if no symbol above these is missing below a sampled one, so always when none was sampled |
| SectionCoding.EncodeGroup | experimental/fast_lossless/fast_lossless.cc:1300-1325 | the first writer receives code, options and first channel, the others their channels; nothing lacks a codeword |
| SectionCoding.GroupReadsBack | lib/jxl/modular/encoding/encoding.cc:516-539 | wherever the spliced writers of a single-group image stand, the decoder finds the code lengths, and with them one reader recovers all visible pixels if and only if there is no colour or the shortcut is safe in both chroma channels |
| SectionCoding.AcSectionReadsBack | lib/jxl/modular/encoding/encoding.cc:516-539 | the same for a section of an image with several groups |
| SectionCoding.EncodeAndSplice | experimental/fast_lossless/fast_lossless.cc:459-464 | after splicing at a byte boundary, every stream that starts with the frame holds the writers in order, as the round trip needs them |
| GroupLayout.TilesCount | experimental/fast_lossless/fast_lossless.cc:1230-1233 | there is a tile for every multiple of 256 below the size, a DC tile for every multiple of 2048, and a DC tile covers eight tiles |
| GroupLayout.SectionsOfSides | lib/jxl/toc.h:27-44 | the number of sections, and which one holds a pixel, from the sides of the image alone |
| GroupLayout.FrameIff | experimental/fast_lossless/fast_lossless.cc:1300-1310 | every pixel of an image comes back from the planes of its group if and only if every group comes back; groups are cut from the image without gap or overlap |
| SectionSizes.ChannelsSize | lib/jxl/toc.h:22-25 | the channels of a group take at most 46 bits per sample of a full group, whatever the code |
| FrameCoding.FrameFits | experimental/fast_lossless/fast_lossless.cc:441-456 | every section of every image, the global one with the code included, fits the largest size of the table of contents |
| GlobalHeader.GlobalIsRead | experimental/fast_lossless/fast_lossless.cc:467-508 | wherever the constants around the code stand, the decoder reads a tree of one leaf with the gradient predictor and multiplier 1, LZ77 from symbol 224 on with lengths of at least 16, both hybrid configurations, the context map, 512 symbols, and 1 as the only distance code |
| GlobalHeader.ImageHeaderIsRead | lib/jxl/modular/encoding/encoding.h:32-45 | the options are read as the transform to YCoCg from the first channel on, or as none |
| FrameCoding.EncodeFrame | experimental/fast_lossless/fast_lossless.cc:1282-1321 | for any image, any number of groups and any sampled counts: behind the frame header come the flag, the table of contents, the global section with the code, the empty sections, and one section per group with its channels; an image covered by gx by gy squares of 256 pixels and dx by dy squares of 2048 has one section if gx = gy = 1, and 2 + dx dy + gx gy otherwise |
| FrameCoding.FrameReadsBack | lib/jxl/dec_frame.cc:276-288 | a decoder in front of such a frame accepts it if and only if its table has at most 65536 entries; it finds the tree, the coding, the code and every group through the table, and every pixel of the image comes back, but for colours under alpha 0, if and only if there is no colour or the row shortcut is safe in both chroma channels of every group |

## Left out

- AliasTable.InitAliasTable: the range is fixed to 4096, as every caller passes it, and the alphabet to 16..256 entries.
- AliasTable.FinishedIsSound: soundness alone; that no two positions agree and that every slot is reached is in the next two rows, and `InitAliasTable` states all three together.
- Huffman.ComputeCodeLengths: frequencies are unbounded, so sums that pass 2^64 are not modelled.
- SectionCoding.RawCounts: counts are unbounded, so the shift by eight never drops bits; the sampled counts themselves are parameters, and the sixteenth count, which the code does not use, is left out.
- TokenWriting.WriteTokens: the branch for prefix codes in front of the cited lines is not part of it; prefix codes are written by the fast encoder.
- SymbolReading.SymbolReader.ReadHybridUintClustered: fewer than 2^32 decoded values; the prefix code branch of the symbol read is left to `ChunkCoding`.
- PrefixHeaderWriting.WriteTo: a code without an LZ77 symbol makes the source's loop run past the start of its array, and is not modelled; incomplete codes are rejected or misread depending on what follows.
- CoeffOrderCoding.DecodeCoeffOrder: the variant that decodes without storing an order is not modelled.
- TocReading.ReadGroupOffsets: `DecodePermutation` is a parameter that gives a permutation and its end or fails; reading its histograms is not modelled, and what its reader accepts is in `Permutations.ReadPermutation`.
- ImageArea.EncodeChannel: channels are processed one after the other instead of row by row in turn; each has its own buffers, run and writer, so nothing is shared.
- ImageArea.PrepareRow: samples are parameters; fetching one or two bytes from the pixel buffer and the row stride are not modelled, nor is `yskip`, which only the sampling pass uses.
- AcStrategy.AcStrategyImage.SetNoBoundsCheck: placements lie inside the image, as its callers check; the row stride is the width.
- Lookup tables of the prefix decoder: a prefix code is decoded as "the symbol whose codeword is next"; building the two-level tables, simple prefix codes with more than two symbols and the run-only fast path for prefix codes are not modelled.
- The context map of the ANS decoder is an arbitrary valid map.
- Buffer sizes in the fast encoder: output is an unbounded sequence.
- Headers and metadata fields of a frame: straight-line writes.
- GlobalHeader.GlobalIsRead: other trees, context maps, codings and simple prefix codes than those that the fast encoder writes are read as unknown, as are transforms other than that of colour in `GlobalHeader.ImageHeaderIsRead`.
- Palette detection and palette sections: the batch of eight slots is not the scalar loop, and its sort key is floating point.
- The vector versions of the chunk encoder and the byte-order variants of the table lookup: the scalar ones are modelled.
- Sampling rows to estimate counts: only what holds for all counts is used.
- HistogramCoding.EncodeCounts: counts are parameters that the format can hold, as normalizing leaves them; normalizing them is floating point.
- Choosing histograms, clustering and hybrid configurations in the encoder: heuristics in floating point; any valid choice is covered.
