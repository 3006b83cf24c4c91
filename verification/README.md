# A verified model of the zlib DEFLATE codec and its neighbours

The project models the compression code of the repository and proves what it is for: what
`deflate` puts out, `inflate` turns back into the input, whatever the level, the strategy, the
flushes and the pieces in which data are passed. Beside it stand models of the checksums, of the
`compress` decoder and of the privilege-separation RPC.

There are two kinds of modules. Specifications are values and functions: bit strings (`Bits`),
canonical codes (`Canonical`), tokens and what they stand for (`Lz77`), the run-length code of code
lengths (`RunLength`), the bits of a block and of a stream (`BlockSpec`, `Blocks`), the decoder as
an abstract machine over the bit stream (`InflateSpec`, `InflateRun`), Huffman's theorem
(`Huffman`) and Kraft's inequality (`PrefixCodes`), hash chains over a text and what a search along
them is to find (`Hash`, `Chains`, `Search`), the CRC as a shift register (`CrcSpec`), LZW as a
dictionary of strings and a stream of codes (`Lzw`, `LzwLimits`) with an encoder of its own
(`LzwFile`), and the RPC as a state machine of two sides and two streams (`RpcStream`, `RpcRuns`). Programs are classes and methods over arrays with the loops of the source, each proved
against its specification.

* Decoder: `InfTrees` and `InflateTable` (`inflate_table`), `TableLookup`, `FixedTables`,
  `Accumulator` (the bit accumulator), `Window` (`updatewindow`), `Output`, `InflateInput`,
  `FastInput` and `Inflate` (`inflate`, `inflate_fast`), `Streaming` (whole runs), `VoidCode`.
* Encoder: `BitWriter` (`send_bits`, `bi_flush`, `bi_windup`, `copy_block`), `Heap`, `HuffmanMerge`,
  `Levels`, `Repair`, `BuildTree` (`build_tree`, `gen_bitlen`), `GenCodes`, `TreeScan`,
  `StaticTables`, `Tally` and `TreeCosts` (costs), `CompressBlock`, `Encoder` (the block encoder of
  `trees.c`), `FreqWidth` (16-bit counters).
* Parser: `Matcher` (`longest_match`, `fill_window`, `INSERT_STRING`), `Deflate` (the four
  strategies and `deflate`).
* Both together: `BlockRoundTrip`, `StreamRoundTrip`, `DeflateInflate`.
* Known values, which tie both sides to the formats rather than to each other: `Samples`, `DynamicSample`
  and `SampleRuns` (files of libz_all/test/infcover.c), `CrcValues`.
* Others: `CrcBytes`, `Crc32`, `Adler32`, `Uncompress`, `RpcWire`, `Rpc`.

Bytes are numbers below 256 and words are unbounded numbers with their width stated where it
matters. Bit operations are written as arithmetic (`>>` as division by a power of two, `&` with a
mask as a remainder, `|` of disjoint bits as a sum), except exclusive or, which is `ExclusiveOr.Xor`.
Input and output buffers of a call are parameters; a position in the stream of a window that slides
is kept as a ghost offset. Indices that the source keeps in unsigned variables are integers here, and
a difference is taken modulo 2^32 where one of them may be negative: `match_start` of a pending match
is -1 after the window has slid exactly if the match is as far back as it can be and `strstart` was
the first index at which the window slides (`Deflate.Deflater.PendingInFront`), and the unsigned
difference is its distance all the same (`Deflate.UnsignedDifference`). The state FAILED of
`Uncompress` is not in the source, where zs_state is S_MIDDLE after a read that has returned -1
(gzip_all/zuncompress.c:226); it marks that no read may follow. The bit stream follows RFC 1951, the
checksums section 8 of RFC 1952 and section 8.2 of RFC 1950.

## Findings

Where a comment or a claim in the source and the code disagree the model follows the code.

* `inflate_fast` is documented to be entered with fewer than eight bits in the accumulator
  (libz_all/inffast.c:46, libz_all/inffast.c:309). It is not always: `Streaming.EntersCrowded` feeds
  seven bytes that break off in a nine-bit code and then six more, and the second call begins with
  `inflate_fast` and eight bits at hand. Within a call this happens exactly if the call begins in
  state LEN with eight or more bits, six bytes of input and 258 bytes of room
  (`Inflate.Inflater.Inflate`). It does no harm: those bits are part of the next code.
* The comment that a forced code belongs to symbol 0 or 1 (libz_all/trees.c:653) is wrong: symbol 2
  is forced exactly when symbol 1 is the only one used (`ForcedCodes.ForcedTwo`). Its conclusion
  holds, since symbol 2 has no extra bits either.
* The state CODELENS does not look at the kind of an entry (libz_all/inflate.c:938-946), so a code
  length code without any code is not rejected there. `VoidCode.InvalidEntryIff` says that the table of
  an accepted code length code has an invalid entry exactly for the vector of zeros;
  `VoidCode.VoidBlockFails` that each bit is then read as a length of zero, as many as the block
  announces; `VoidCode.NoEndOfBlock` that the check for an end-of-block code fails in the end, while the
  other checks would pass. `VoidCode.VoidFileFails` is a file of 36 bytes that does so.
* A compressed file that ends with a group of bits too short for a single code still yields a code,
  made up with what the buffer held before (gzip_all/zuncompress.c:356-367). `Lzw.FetchIsField` says of
  every code, across groups, changes of width and clear codes, at which bit of the file it begins; that
  there is none exactly at the end of the file; and that it is the field of that many bits at that place
  exactly if the field does not go beyond the end of the file, which it does only in a last group that
  is not empty and shorter than one code. Nothing comes after such a code (`Lzw.MadeUpIsLast`).
  `LzwLimits.ShortGroup` is a file with eight bits of data that yields a byte although no code of nine
  bits is there.
* The stack of the LZW decoder is said to be bounded by `1 << BITS - 256` (gzip_all/zuncompress.c:292).
  That holds for all files exactly if the third byte of the header says block mode or fewer than 16
  bits (`LzwLimits.StackBoundIff`). Of the other files there is one, `LzwLimits.RampFile`, whose last
  string has 65281 bytes (`LzwLimits.LongestString`); no string is longer (`LzwLimits.StringsBounded`),
  and `Uncompress.ZState.Stack` shows that no more stack is ever needed.
* A reply that is longer than the host has room for leaves its data in the stream
  (libsep/sandbox.c:384-392), where the next call takes them for a header. After each call, up to the
  first one refused, both streams are empty exactly if the answer has fitted (`RpcRuns.RestingIff`), and
  all calls so far have had their answers exactly if all these have fitted (`RpcRuns.RepliesAnswer`).
  `RpcRuns.RefusedReached` has a run to the refusal for each script with an answer that does not fit,
  `RpcRuns.NextTakesData` says what the next call makes of the data, and `RpcRuns.TakenForAnother` is a
  run in which they are taken for the reply to the next call and both streams are empty again.

## Model

| member | source | states |
|---|---|---|
| DeflateInflate.InflateFollows | libz_all/deflate.c:676-985 | the round trip of the whole codec: an inflate stream fed, in any calls, with some of what deflate has put out has written a beginning of deflate's input, and all of it once it has used up the output of a flush or of the end of the stream |
| Deflate.Deflater.Deflate | libz_all/deflate.c:678-985 | for every sequence of calls with any pieces, room and flush values: input becomes text and none is lost, output is only added to; Z_BUF_ERROR exactly for a call without room, for one with nothing waiting, no input and a flush that does not outrank the last one, and for input after the end once the output that waits has room; Z_STREAM_END exactly if a call with Z_FINISH leaves room, and then the whole stream is out; Z_OK with room left means all input was taken, the flush has its mark, after a full flush no string is left for matches to go back to, and after a sync or full flush the blocks put out stand for all of it up to a byte boundary |
| Deflate.Deflater.Finish | libz_all/gzwrite.c:92-124 | repeating Z_FINISH with any room at all comes to an end: with Z_STREAM_END, the text being all that was given and all of the output out, or with Z_BUF_ERROR exactly if the stream had ended before and there is input |
| Deflate.Deflater.MarkFlush | libz_all/deflate.c:937-953 | which flush values are followed by an empty static block, by an empty stored block up to a byte boundary, or by nothing, and that a full flush forgets all strings and no other one does |
| Deflate.Deflater.DeflateFast | libz_all/deflate.c:1646-1740 | the tokens tallied and the blocks sent always stand for exactly the text passed, no distance is greater than MAX_DIST, and the reason for returning is the right one |
| Deflate.Deflater.FastStep | libz_all/deflate.c:1667-1730 | each step tallies one token, a match or a literal, and no match that the chains have on offer is longer, unless the match is good enough |
| Deflate.Deflater.FastMatch | libz_all/deflate.c:1686-1723 | the strings of a match are inserted exactly if it is not too long and three bytes are left behind it |
| Deflate.Deflater.SlowStep | libz_all/deflate.c:1769-1845 | a match is taken, all of it and with its own distance, exactly if the longest on offer at the next position, unless discarded as too short or too far, is not better; otherwise a literal is said or the position waits, and that match is kept |
| Deflate.Deflater.DeflateSlow | libz_all/deflate.c:1748-1872 | the same with lazy matching: the byte before strstart may be undecided, and a pending match at it is a true one, across slides of the window |
| Deflate.Deflater.DeflateRle | libz_all/deflate.c:1879-1945 | the same with matches of distance one only |
| Deflate.Deflater.RleStep | libz_all/deflate.c:1898-1931 | each step takes the whole run of the byte in front, if it is three bytes or more, and else a literal |
| Deflate.Deflater.DeflateHuff | libz_all/deflate.c:1952-1985 | the same with literals only |
| Deflate.Deflater.PendingInFront | libz_all/deflate.c:1434-1438 | a pending match is in front of the window after it has slid exactly if it is as far back as it can be and strstart is the first index at which the window slides |
| Deflate.UnsignedDifference | libz_all/deflate.c:1814-1815 | the unsigned difference of the indices is its distance all the same |
| Deflate.Deflater.FlushBlock | libz_all/deflate.c:1556-1565 | the block ends at strstart: the blocks in the log now stand for all of the text up to there, and what the caller is given is a prefix of them |
| Matcher.Matcher.LongestMatch | libz_all/deflate.c:1166-1307 | a length above prev_length is that of a true match at match_start, at a distance of at most MAX_DIST, and no length exceeds the lookahead, although the third byte is never compared; and no inserted string within reach that fewer than chain_length others with the same key come after agrees in more bytes, unless the length is nice_match at least |
| Search.OneFurther | libz_all/deflate.c:1296-1300 | each link of the chain passes over no string with the key, so that following it counts them |
| Search.TooFarBack | libz_all/deflate.c:1180-1184 | where the chain leaves the window nothing on offer is left out, the head at just MAX_DIST included |
| Matcher.Matcher.TryMatch | libz_all/deflate.c:1237-1289 | the four bytes looked at first rule out only strings that do not agree in more than best_len bytes, and the unrolled comparison finds all that agree, up to MAX_MATCH |
| Matcher.Matcher.InsertDeferred | libz_all/deflate.c:1814-1823 | the strings of the match are inserted, one for each position that has three bytes |
| Matcher.Matcher.Run | libz_all/deflate.c:1899-1916 | the length is that of the run, up to MAX_MATCH and the lookahead, and 0 only if it is shorter than three |
| Matcher.Matcher.InsertString | libz_all/deflate.c:181-189 | the chains are kept, the running key is that of the string, the string is added to those inserted, and the head returned is the latest older string in the window with the same key, or NIL if there is none |
| Matcher.Matcher.FillWindow | libz_all/deflate.c:1408-1550 | the window holds the end of the text, chains and keys survive the slide, every position stays where it was in the text, and there is enough lookahead or no input left |
| Chains.ChainsInsert | libz_all/deflate.c:186-189 | inserting a string keeps every chain of positions with equal keys, each link leading to the latest one before |
| Chains.ChainsSlide | libz_all/deflate.c:1448-1477 | so does the slide of head[] and prev[] by wsize |
| Chains.NextLink | libz_all/deflate.c:1296-1300 | the next position on a chain lies further back and has the same key, as long as it is within the window, and none between the two has it |
| Hash.Forgets | libz_all/deflate.c:160-167 | after three bytes the running key does not depend on anything before them |
| Hash.ThirdByte | libz_all/deflate.c:1243-1258 | strings with equal first two bytes and equal keys have equal third bytes |
| Inflate.Inflater.Inflate | libz_all/inflate.c:605-1251 | one call, with any input and room, advances the abstract decoder along the one run that the stream determines; output is what it writes, the result is its verdict, and a call stops only for want of input or room; and when inflate_fast is entered with eight bits or more |
| Inflate.Inflater.InflateFast | libz_all/inffast.c:67-323 | the fast loop takes the same steps as the slow states and hands unused bytes back, so that fewer than eight bits remain |
| Inflate.Inflater.FastToken | libz_all/inffast.c:120-303 | one round of it reads at most six bytes and writes at most 258 |
| InflateSpec.TransmissionOrder | libz_all/inflate.c:625-626 | the lengths of the code length code position by position, in the order of section 3.2.7 of RFC 1951 |
| InflateSpec.RepeatCounts | libz_all/inflate.c:943-982 | how often each of the symbols 16, 17 and 18 repeats what, and by how many bits |
| Alphabet.LengthAlphabet | libz_all/inftrees.c:60-65 | base lengths and extra bits in closed form |
| Alphabet.DistanceAlphabet | libz_all/inftrees.c:66-73 | base distances and extra bits in closed form |
| Samples.FixedLitCodes | libz_all/inflate.c:272-276 | the code words of the fixed literal/length code are those of section 3.2.6 of RFC 1951 |
| DynamicSample.Pull17Ends | libz_all/test/infcover.c:603 | a file with dynamic codes, read from its first bit to its end through header, code length code, runs of zeros, lengths and end-of-block code |
| SampleRuns.Pull17Inflated | libz_all/test/infcover.c:603 | and by an inflate stream, in any calls |
| SampleRuns.WindowWrapInflated | libz_all/test/infcover.c:613 | a file with a literal, a match of 258 bytes and one at distance 4, which an inflate stream turns into 262 zeros |
| Samples.StoredByte | libz_all/test/infcover.c:586 | a file with a stored byte is read to its end |
| Samples.FixedEmpty | libz_all/test/infcover.c:584 | so is the empty file with fixed codes |
| Samples.InvalidBlockType | libz_all/test/infcover.c:585 | block type 3 is an error after three bits |
| Samples.InvalidStoredBlockLengths | libz_all/test/infcover.c:583 | a stored length without its complement is one |
| Samples.TooManyLengthOrDistanceSymbols | libz_all/test/infcover.c:587 | 288 literal/length codes are too many |
| Samples.InvalidDistanceCode | libz_all/test/infcover.c:596 | distance code 31 is an error |
| Samples.DistanceTooFarBack | libz_all/inflate.c:1123-1135 | so is a match before anything has been written |
| Streaming.StreamingIndependence | libz_all/inflate.c:605-1251 | two decoders fed the same data in different pieces never disagree: one output is the beginning of the other, and at the end of the data output, verdict and state are the same |
| Streaming.WindowHoldsOutput | libz_all/inflate.c:379-427 | between calls the window's history is all that has been written |
| Streaming.NoOverreading | libz_all/inffast.c:309-313 | eight or more bits are at hand only when the next step needs them as well |
| Streaming.EntersCrowded | libz_all/inffast.c:40-46 | two calls after which inflate_fast has been entered with eight bits |
| Window.SlidingWindow.Update | libz_all/inflate.c:379-427 | appending any number of bytes to the circular window appends them to its history |
| Window.SlidingWindow.GetDictionary | libz_all/inflate.c:1268-1289 | the dictionary returned is the last min(total, 32768) bytes of the history, oldest first |
| Accumulator.BitReader.Decode | libz_all/inflate.c:1025-1041 | the loop of lookups pulls a byte only when the code needs it and finds the entry of the canonical code at hand, in the root table or a sub-table |
| InflateTable.InflateTable | libz_all/inftrees.c:32-306 | -1 exactly for over-subscribed and disallowed incomplete sets, +1 exactly when the table would outgrow its budget, and otherwise a table that holds every code, with its exact size |
| TableLookup.TableCorrect | libz_all/inftrees.c:107-305 | for every such table, every accumulator value and every number of bits in it, the entries met are those of the code's own decoding |
| VoidCode.InvalidEntryIff | libz_all/inftrees.c:107-122 | the table of an accepted code length code has an invalid entry exactly if it has no code at all |
| VoidCode.VoidBlockFails | libz_all/inflate.c:917-982 | a block with such a code takes one bit for each length that it announces, whatever the bits are, and fails |
| VoidCode.NoEndOfBlock | libz_all/inflate.c:984-1019 | of the checks of the lengths so read only the one for an end-of-block code fails |
| VoidCode.VoidFileFails | libz_all/inflate.c:917-1019 | a file with such a block, and the bit at which it is found to be bad |
| FixedTables.BuildFixed | libz_all/inflate.c:261-294 | the fixed tables are tables of the fixed codes and take 544 entries together |
| GenCodes.GenCodes | libz_all/trees.c:575-607 | the loops give every used symbol its canonical code, bits reversed, and touch no other |
| BitWriter.BiReverse | libz_all/trees.c:1154-1164 | the low bits of the result are the code's bits in opposite order |
| BitWriter.Writer.SendBits | libz_all/trees.c:186-224 | exactly the bits of the value are appended to all bits sent, across the 16-bit buffer |
| BitWriter.Writer.BiFlush | libz_all/trees.c:1169-1181 | nothing is added or lost and at most seven bits stay in the buffer |
| BitWriter.Writer.BiWindup | libz_all/trees.c:1186-1199 | zeros up to the byte boundary are added and the buffer is empty |
| BitWriter.Writer.CopyBlock | libz_all/trees.c:1205-1226 | length, complement and bytes are appended |
| StaticTables.LengthCodes | libz_all/trees.c:252-275 | the loops fill base_length and _length_code so that they agree with the alphabet of section 3.2.5 of RFC 1951, length 258 included |
| StaticTables.DistCodes | libz_all/trees.c:277-296 | the same for distances, with the two ranges of _dist_code |
| Heap.PqDownHeap | libz_all/trees.c:453-475 | sifting down restores the heap order from k on, keeps the nodes as a multiset and touches nothing else |
| BuildTree.TreeBuilder.Combine | libz_all/trees.c:667-694 | the merging loop builds a Huffman tree over the leaves and lists it in heap[]; no node weighs more than all leaves together |
| Levels.FatherFirst | libz_all/trees.c:503-527 | every father comes before its sons in heap[heap_max..], so that Dad is read before Len overwrites it |
| BuildTree.TreeBuilder.FirstPass | libz_all/trees.c:503-530 | every node is one level below its father, cut off at max_length; overflow counts the cuts; opt_len and static_len grow by the exact costs |
| Repair.RepairCounts | libz_all/trees.c:536-547 | the overflow loop always finds a shorter code, terminates, keeps the number of codes and ends with a code space that is exactly full |
| Repair.RepairStep | libz_all/trees.c:537-545 | each step removes exactly one unit of excess |
| BuildTree.TreeBuilder.SecondPass | libz_all/trees.c:549-564 | the lengths are handed out again as bl_count says, and opt_len follows the cost |
| BuildTree.TreeBuilder.BuildTree | libz_all/trees.c:617-699 | complete codes of at most max_length for all used symbols, at least two of them, with their canonical code words; opt_len and static_len grow by exactly frequency times length plus extra bits, forced codes not counted; and the least cost of any prefix code if nothing was cut off |
| Huffman.LowerBound | libz_all/trees.c:667-694 | no lengths that satisfy Kraft's inequality cost less than the weight of the inner nodes of the tree |
| PrefixCodes.KraftInequality | libz_all/trees.c:609-616 | the lengths of every set of code words of which none begins another satisfy Kraft's inequality |
| TreeCosts.BestIsLeast | libz_all/trees.c:609-616 | so lengths that are best among those cost no more than any prefix code for the symbols used |
| Huffman.Optimal | libz_all/trees.c:617-699 | the depths in the tree cost exactly that |
| ForcedCodes.ForcedTwo | libz_all/trees.c:648-654 | symbol 2 gets a forced code exactly when symbol 1 is the only one used |
| FreqWidth.SixteenBits | libz_all/deflate.h:64-68 | with fewer than 32768 tokens no frequency and no weight in the two data trees exceeds 65535 |
| FreqWidth.ClWeights | libz_all/trees.c:801-829 | the same for the tree of the code lengths: at most 318 |
| TreeScan.ScanTree | libz_all/trees.c:705-744 | the frequencies grow by exactly the number of times that send_tree will send each symbol |
| TreeScan.SendTree | libz_all/trees.c:750-795 | the bits sent are those of the run-length code of the lengths |
| RunLength.RunLengthRoundTrip | libz_all/inflate.c:936-982 | decoding the run-length code gives every length vector back |
| Tally.DataCost | libz_all/trees.c:524-529 | the bits of all tokens and the end-of-block code are frequency times length plus extra bits |
| TreeFacts.TreesCost | libz_all/trees.c:801-829 | the same for the bits of the trees themselves |
| Encoder.Encoder.BuildTrees | libz_all/trees.c:907-945 | opt_len and static_len are exactly the bits that the dynamic and the static block take after the header |
| Encoder.Encoder.BuildBlTree | libz_all/trees.c:801-829 | the code length code is complete, no used code is left out by max_blindex, and opt_len grows by exactly what sending the trees takes |
| CompressBlock.CompressBlock | libz_all/trees.c:1060-1105 | the bits sent are those of the buffered tokens and the end-of-block code |
| Encoder.Encoder.TallyDist | libz_all/trees.c:1010-1055 | a match becomes a token, its frequencies are counted, and the flag says when the buffer is full |
| Encoder.Encoder.FlushBlock | libz_all/trees.c:907-1004 | one block is sent, sound and ended as asked, and the text grows by what the tokens stand for; in whole bytes it is no longer than the block with fixed codes or, but for Z_FIXED, than the one with codes of its own, and it is a stored one exactly if the bytes are still there and no more than either; with Z_FIXED it never has codes of its own |
| Encoder.NearlyShortest | libz_all/trees.c:938-976 | so from any bit position on it takes at most 17 bits more than any of the ways to send it |
| Encoder.Encoder.Align | libz_all/trees.c:892-901 | an empty static block is sent and at most seven bits stay behind |
| Encoder.Encoder.TrStoredBlock | libz_all/trees.c:865-877 | a stored block is sent, up to a byte boundary |
| BlockRoundTrip.StoredBlockRoundTrip | libz_all/inflate.c:864-896 | the decoder reads a stored block, from any bit position, to its bytes |
| BlockRoundTrip.StaticBlockRoundTrip | libz_all/inflate.c:828-863 | and a block with fixed codes to its tokens |
| BlockRoundTrip.DynamicBlockRoundTrip | libz_all/inflate.c:898-1173 | and a block with its own codes, header, code lengths and all |
| StreamRoundTrip.RoundTrip | libz_all/inflate.c:828-1251 | the abstract decoder finishes on the bits of any list of blocks, having written their text |
| StreamRoundTrip.EncodedIsDecoded | libz_all/trees.c:907-1004 | what the block encoder has put out, fed to an inflate stream in any calls, is decoded to the text of its blocks, and then the stream is done |
| CrcSpec.CrcContinues | libz_all/crc32.c:204-241 | continuing a check value over a second buffer gives that of both |
| CrcSpec.CrcOfBoth | libz_all/crc32.c:331-412 | the check value of a concatenation is that of the first part, moved on by the zeros of the second, plus that of the second |
| Crc32.MakeCrcTable | libz_all/crc32.c:90-158 | all eight tables hold what the shift register makes of a byte and k zero bytes, the upper four byte-swapped, from the terms of the polynomial |
| Crc32.Crc32Bytes | libz_all/crc32.c:204-241 | a byte at a time is the bit-serial check value |
| Crc32.Crc32Little | libz_all/crc32.c:244-284 | so are four bytes at a time on a little-endian machine, for every length and alignment |
| Crc32.Crc32Big | libz_all/crc32.c:286-324 | and on a big-endian machine, with byte-swapped tables and register |
| Crc32.Gf2MatrixTimes | libz_all/crc32.c:331-345 | the product with the matrix of n zero bits is the register moved on by n zero bits |
| Crc32.Gf2MatrixSquare | libz_all/crc32.c:348-356 | the square of that matrix is the one of 2n zero bits |
| CrcValues.Residue | libz_all/crc32.c:204-241 | the check value of any data followed by their own check value, lowest byte first, is 0x2144df1c |
| CrcValues.OfZero | libz_all/crc32.c:204-241 | and that of a zero byte is 0xd202ef8d |
| Crc32.Crc32Combine | libz_all/crc32.c:359-412 | squaring driven by the bits of len2 moves crc1 on by 8 * len2 zero bits; a length that is not positive returns crc1 |
| Crc32.CombineTwo | libz_all/crc32.c:359-412 | combining the check values of two buffers gives that of their concatenation |
| Adler32.Adler32 | libz_all/adler32.c:65-128 | the sums of section 8.2 of RFC 1950 for every length, through all four branches, and no sum exceeds 32 bits before its remainder is taken |
| Adler32.Samples | libz_all/test/infcover.c:404 | the checksums of nothing, of a zero byte as in that file, and of three letters |
| Adler32.NmaxIsLargest | libz_all/adler32.c:15-16 | NMAX is the largest number of bytes for which that bound holds |
| Adler32.AllOnes | libz_all/adler32.c:15-16 | the bound is met with equality by bytes of 255 |
| Adler32.Mod28Iff | libz_all/adler32.c:34-38 | MOD28 is the remainder exactly when what CHOP leaves is less than twice BASE |
| Adler32.Mod63 | libz_all/adler32.c:44-55 | the shift-and-add reduction is the remainder for all lengths of 63 bits |
| Adler32.AdlerContinues | libz_all/adler32.c:65-128 | continuing a checksum over a second buffer gives that of both |
| Adler32.CombineTwo | libz_all/adler32.c:136-162 | combining the checksums of two buffers gives that of their concatenation |
| Uncompress.ZState.Zread | gzip_all/zuncompress.c:212-322 | until it has failed, each read returns as many bytes as asked for, fewer only at the end of the file, and -1 only for a wrong header or a code that has no meaning; all bytes delivered are a beginning of what the dictionary of strings says |
| Uncompress.ReadSizesDoNotMatter | gzip_all/zuncompress.c:294-322 | the sizes of the reads do not change what is read nor whether it ends well |
| Uncompress.StringLength | gzip_all/zuncompress.c:281-293 | prefixes have smaller codes, so a string is never longer than its code allows, and one byte shorter in block mode |
| Uncompress.ZState.Stack | gzip_all/zuncompress.c:266-293 | what is pushed, read back, is the string of the code, the KwKwK case included, within the stack |
| Uncompress.ZState.GetCode | gzip_all/zuncompress.c:332-395 | -1 exactly at the end of the file; otherwise the code is the field of n_bits bits at its place in the file, across changes of width, clear codes and groups, exactly if the field is all there |
| Uncompress.ZState.Extract | gzip_all/zuncompress.c:372-393 | putting a code together from two or three bytes gives the n_bits bits at roffset |
| Lzw.FetchIsField | gzip_all/zuncompress.c:343-393 | every code, not only the first of a group, is the field of the file at the place that the widths of the codes and the groups determine, exactly if it is all there; it is not only in a last group, not empty, that is shorter than a code |
| LzwFile.RoundTrip | gzip_all/zuncompress.c:212-322 | the round trip: every text, put into codes by longest strings and clear codes, with or without block mode and for every width, and read in pieces of any size, comes back, and no read fails |
| LzwFile.FileIsRead | gzip_all/zuncompress.c:237-322 | the same for whatever list of codes that make sense a file has been made of, header and groups included |
| LzwFile.SamplesRead | gzip_all/zuncompress.c:244-261 | two files of six bytes, one in block mode and one not, that are read as three letters |
| Lzw.MadeUpIsLast | gzip_all/zuncompress.c:354-368 | a code made up of too few bits is the last one |
| LzwLimits.ShortGroup | gzip_all/zuncompress.c:354-368 | a file with such a code |
| LzwLimits.StringsBounded | gzip_all/zuncompress.c:281-286 | no code of any file stands for more bytes than the last code of the table can |
| LzwLimits.StackBoundIff | gzip_all/zuncompress.c:287-293 | the bound in the comment holds for all files with a given header exactly if it says block mode or fewer than 16 bits |
| LzwLimits.LongestString | gzip_all/zuncompress.c:281-293 | a run of the decoder over a file whose last string has 65281 bytes |
| Rpc.HostRpc | libsep/sandbox.c:303-429 | one request goes out; what is made of the bytes that come in, and where the stream then stands, is what `Take` says, and the data of a reply that is taken go into the buffers in order |
| RpcStream.TakenIff | libsep/sandbox.c:384-392 | data are taken exactly from what begins with the bytes of the magic number, of sequence number 0, of the operation and of a length that fits, and has that many bytes behind the header |
| Rpc.FilledInOrder | libsep/sandbox.c:397-427 | scattered buffers filled in order hold the data, and behind them what they held before |
| Rpc.SandboxRecvRpc | libsep/sandbox.c:523-607 | one request is taken, and the stream stands behind it |
| Rpc.Socket.SendEverything | libsep/sandbox_rpc.c:14-27 | however often send is cut short or interrupted, all bytes go out once and in order |
| Rpc.Socket.RecvEverything | libsep/sandbox_rpc.c:30-43 | the same for receiving |
| RpcRuns.ResultsOfReplies | libsep/sandbox.c:303-429 | in every interleaving of partial sends and receives of both sides, whatever the answers, the results are what the calls make, one after the other, of all replies in a row, and no byte is lost |
| RpcRuns.RepliesAnswer | libsep/sandbox.c:303-429 | each call so far has had the answer to it exactly if all these answers fit |
| RpcRuns.RestingIff | libsep/sandbox.c:384-392 | after each call up to the first one refused both streams are empty and both sides wait for a header exactly if the answer has fitted; if not it is refused and all its data are left |
| RpcRuns.NextTakesData | libsep/sandbox.c:369-392 | the next call makes of these data and what follows them what it would make of a reply |
| RpcRuns.RefusedReached | libsep/sandbox.c:384-392 | there is a run to the first answer that does not fit, and it ends with its data in the stream |
| RpcRuns.TakenForAnother | libsep/sandbox.c:369-392 | a run in which what has been refused is taken for the reply to the next call |
| RpcRuns.CallAndReturn | libsep/sandbox.c:303-429 | the effects of host_rpc, sandbox_recvrpc and sandbox_sendrpc on the streams, one after the other, are steps of this machine |
| RpcRuns.NeverStuck | libsep/sandbox.c:303-429 | as long as there are calls to make, and the answers to those made fit, some step is possible |

## Left out

- The overlay of pending_buf with d_buf and l_buf, and the limited size of pending_buf: the buffers are separate, and pending output is a sequence.
- That ENOUGH_LENS and ENOUGH_DISTS suffice for every code: the round trips take it as a premise (`Fits`) that the table of a code fits, as `inflate_table` checks at run time; a code no longer than the index of its table always does (`DynamicSample.ShortFits`).
- Headers, trailers and check values of the zlib and gzip formats in inflate and deflate: streams are raw.
- Preset dictionaries, inflatePrime, inflateSync, inflateUndermine, inflateCopy, deflatePrime, deflateParams, deflateTune, deflateCopy and gzip header fields.
- Flush values of inflate other than Z_NO_FLUSH, and windows of inflate smaller than 32768 bytes.
- Level 0 (deflate_stored), and detect_data_type.
- infback.c, the gz* layer, the command line tools, process creation, descriptor passing and sandbox plumbing.
- Memory allocation failure; null buffers (adler32 and crc32 of a null buffer return constants); builds with FASTEST, UNALIGNED_OK or assembler code.
- The decoding tables of a running decoder are snapshots of codes[] rather than pointers into it; nothing writes to codes[] while they are in use.
- Deflate.Deflater.Deflate: is about raw streams at levels 1 to 9, and does not bound pending output by the size of pending_buf, because its no-overlap argument is about averages.
- Inflate.Inflater.Inflate: is about raw data, Z_NO_FLUSH and windows of 32768 bytes; wrappers, other flush values and smaller windows are left out as said above.
- Adler32.Adler32: does not say what comes of a starting value whose halves are not remainders, because the callers pass 1 or an earlier result.
- Crc32.Crc32Bytes: does not say what comes of a starting value of more than 32 bits.
- Uncompress.ZState.Zread: is not called again after it has returned -1, because the source then takes the state for one with something on the stack, and nothing is; the byte behind the code buffer that getcode looks at and masks out is part of the buffer here.
- Rpc.HostRpc: descriptor passing, closed descriptors and a peer that goes away in the middle of a message are not modelled.
