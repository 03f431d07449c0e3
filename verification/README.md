# A verified model of cosmoz

cosmoz is a Zstandard encoder and decoder (RFC 8878). This project models the coding layers of both,
from single bits up to whole runs of blocks, and proves that each layer of the encoder is undone by
the same layer of the decoder, that every fast form does what its plain form does, and that the two
match finders report only what is there and miss nothing that their walks and hunts meet. `dafny verify dfyconfig.toml` checks everything.

## Main results

- **Whole runs of blocks** (`BlockRun.CompressBlocks`, `BlockRun.RoundTrip`). For every input, every
  finder that returns valid parses, every choice of split points and every cost estimate, a buffer of
  the promised maximum size is always enough for the run of Raw, RLE, Compressed and split-piece
  blocks. The bytes decode to the input, in a buffer of any size that holds it, and all of them are
  used, for every input of at most 16386 bytes and, whatever the input, for every finder whose answers
  end with records of at most 38 extra bits (`BlockRun.FinderShort`); beyond that, whenever the first
  pass of every sequences section fitted the tables picked (`BlockWriter.AllFit`), and there is a run
  that does not come back (see Findings). Every section in the output is shown to hold a slice of what
  the finder returned. Wherever the encoder writes a Treeless literals section or a Repeat table mode,
  the decoder holds that very table; both repeat-offset histories stay equal, rollbacks included.
  `BlockRun.RoundTripFast` is the same for the fast finder itself, from any earlier state.
- **The decoder accepts exactly the meaningful inputs** (`BlockReader.BlockWorkspace.DecodeBlockSequence`).
  The meaning of a run of blocks is defined by plain recursion over the bytes (`RunOf`). The decoder's
  loop, which decodes compressed blocks in pairs where it can, parks the second block's literals in
  the output, runs eight Huffman streams in lockstep and executes sequences with overshooting
  copies, returns Ok exactly where that meaning exists, with its output, position and histories.
- **The fast sequence path refines the checked one** (`FastSequences.DecodeSequencesFast`), and
  **lockstep Huffman rounds refine symbol-at-a-time decoding** (`HuffmanFast.DecodeStreams`) for any
  number of streams, each with its own table: same outcome, same bytes.
- **Which blocks are written** (`BlockWriter.EncodeWorkspace.WriteBlock`, `SequencesWriter.PickTableMode`,
  `LiteralsWriter.WriteLiterals`). Not only what is written decodes: a block is compressed, split,
  repeated or raw exactly as the sizes say, a literals section takes the form its terms give it, and a
  table is picked because it has the least of the costs compared. The run of blocks is stated block by
  block (`BlockRun.BlocksFollow`).
- **Package-merge** (`CodeLengths.BuildCodeLengths`, `PackageMergeOptimal`): sorting in place and
  merging level by level give lengths within the limit, an exact Kraft sum, and the least total cost of
  all codes within the limit; no level outgrows its fixed array. `LiteralsChoice.FewestBits` carries this
  to the literals: no other table within the limit codes them in fewer bits.
- **FSE** (`Fse`, `FseSpread`, `FseTables`, `FseDescription`, `NormalizeCounts`, `DefaultTables`): the
  spread fills each cell once with the right counts and in the right order, the default tables are
  those of appendix A of RFC 8878, normalised counts are in proportion to the counts, each symbol's
  state intervals partition all states, an encode step is undone by the decode step, table descriptions
  round trip, and the 32-bit tricks in the encoder's tables (`bits_delta`, wrapped first states)
  compute what the abstract table says; the cost read off `bits_delta` is the average number of bits
  over all states (`TableCosts.CostIsAverage`).
- **Interleaved weights** (`WeightStream.TurnsRoundTrip`): a decoder that stops only because it read
  too far still gets exactly the weights written, for odd and even counts.
- **Sequences** (`SequenceBits.WholeRoundTrip`, `SequenceBits.WriteOneStream`): three interleaved states
  written back to front are read front to back with no bit left. The writer stays inside the 64-bit
  container exactly when its first pass fits, and what it writes is stated for every input.
- **The binary-tree matcher** (`BinaryTreeMatcher`, `SearchForest`, `TreeSearch`): in every reachable state
  each live node's two child chains are ordered by suffix bytes, so the bytes a search skips are common,
  lengths are exact, and candidates are true matches of strictly increasing length. Of all that is
  offered exactly the improvements are reported; a walk that is not cut off has found the longest match
  in its tree and lost no node (`TreeSearch.NothingMissed`), and after a run of such walks it is the
  longest of all positions with that hash (`TreeSearch.LongestOfAll`).
- **The fast finder** (`FastFinder`): over any run of resets and blocks, a hunt finds a match exactly when
  a position it probes agrees with the entry its bucket holds then, or with the repeat
  (`FastFinder.FindsExactly`); every position probed is stored; the records are those of the greedy
  search, and executing them rebuilds the block.

## How the model is laid out

| layer | modules |
|---|---|
| bits and bit streams | `Bits`, `BitWriter`, `BitReader` |
| FSE, section 4.1 of RFC 8878 | `Permutations`, `FseSpread`, `Fse`, `FseTables`, `FseDescription`, `NormalizeCounts`, `TableCosts`, `DefaultTables` |
| Huffman, section 4.2 | `SymbolSort`, `PackageMerge`, `PackageMergeOptimal`, `CodeLengths`, `HuffmanCodes`, `HuffmanWeights`, `WeightStream`, `HuffmanTables`, `HuffmanStream`, `FourStreams`, `HuffmanFast` |
| sequences, sections 3.1.1.3.2 and 3.1.1.4 | `SequenceCodes`, `RepeatOffsets`, `SequenceBits`, `FirstPass`, `SequenceExecution`, `SequenceDecoder`, `BlockDecoder`, `MatchCopy`, `FastSequences` |
| sections and blocks, section 3.1.1.2 and 3.1.1.3 | `SectionHeaders`, `LiteralsSection`, `LiteralsChoice`, `LiteralsWriter`, `SequencesSection`, `SequencesWriter`, `PairedBlocks`, `BlockReader`, `ParsePieces`, `RecordLimits`, `BlockWriter`, `BlockRun`, `LostRun` |
| match finders | `SuffixOrder`, `SearchForest`, `TreeSearch`, `BinaryTreeMatcher`, `ValidParse`, `FastFinder` |

Conventions. A bit stream is a `seq<bool>`, least significant bit first. Machine words are natural
numbers with explicit masks and wrap-around; shifts, masks and `|` are defined bit by bit in `Bits`.
Objects whose methods update fields are classes, buffers written in place are arrays, and a class is
tied to its abstract value by a predicate (`Holds`, `Decodes`, `Valid`) or a ghost field. An FSE table
is abstractly the sequence that says which symbol owns which cell (`Fse.Tans`), a Huffman table
abstractly its list of weights; encoder and decoder tables are both proved to expand that one value.
An `Err` of the original is `None` or a false result; only whether there is an error is modelled, not
which. A writer's contract has the form "the bytes, in front of anything, mean this to every decoder
that agrees with the encoder so far", so that sections and blocks can be put one behind the other.

## Findings

- `write_one_stream` does not flush between the last record's extra bits and the first state bits
  (src/block/sequence_writer.rs:397-421). Every add, until the output runs out and the result is an
  error, stays within 64 bits exactly when those bits fit (`SequenceBits.FirstPassFits`, the outcome
  `within` of `SequenceBits.WriteOneStream`); when they do not, the first bits of the stream are replaced
  by what the over-full container leaves (`SequenceBits.StreamWritten`). For all tables and records the
  stream survives exactly when they fit or what is left happens to be the same bits
  (`FirstPass.StreamKept`); when only the literal-length state passes the top, exactly when the bits
  that fall out are zeros (`FirstPass.StreamKeptWhere`). `FirstPass` names two valid records of one block
  with 50 extra bits and 17 state bits under the default tables, shows that the section writer picks
  those tables for them on its quick path (`FirstPass.WriteDamagedSection`), that the stream written is
  not theirs (`FirstPass.StreamDamaged`), that a decoder does not read them back
  (`FirstPass.RecordsMisread`) and that it rejects the section (`FirstPass.SectionRejected`).
  `LostRun.RunIsLost` carries this through a whole run: for any 524288 bytes, then a block of any
  literals around those two records, the quick settings and a finder that finds exactly these, the
  block is committed and the decoder rejects the run. Whether one of the repository's own finders
  returns such records is not shown; the fast finder returns no match as short as the first of them.
  The size promises do not depend on it. What a caller can check beforehand: an input of at most 16386
  bytes, or a finder whose answers end with records of at most 38 extra bits (`BlockRun.ShortInput`,
  `BlockRun.ShortFinderFits`).
- `normalize_counts` can fail although the table has room for every symbol: `NormalizeCounts.RoomIsNotEnough`
  names 256 counts of 16 symbols, for which `pick_accuracy_log` picks 32 cells and neither way of sharing
  leaves the most frequent symbol a cell. `SequencesWriter.PickTableMode` then fails, and the block is
  stored raw.
- Four Huffman streams are decodable exactly for 4, 7, 8 and from 10 literals on
  (`FourStreams.LastSegmentNotEmpty`); the literals writer uses them only from 256 on.
- For table logs 1 and 3, which `build_fse_decode_table` accepts and the format does not use, the spread
  step is a multiple of the table size, the walk never leaves cell 0 (`FseSpread.StuckWalk`), and the
  symbols get their counts exactly when at most one cell belongs to others than symbol 0
  (`FseSpread.SpreadRightExactly`).

## Model

| member | source | states |
|---|---|---|
| `BitWriter.ContainerAdd` | src/bits/forward_bit_writer.rs:22-33 | a masked value put above the bits already in the container extends the bit list by exactly its low bits, as long as all fit 64 |
| `BitWriter.ContainerDrain` | src/bits/forward_bit_writer.rs:35-54 | taking whole bytes off the container splits the bit list at that byte boundary |
| `BitWriter.ForwardBitWriter.AddBits` | src/bits/forward_bit_writer.rs:22-33 | the value's low bits follow everything written before; it fails exactly when a flush is due and the pending whole bytes do not fit |
| `BitWriter.ForwardBitWriter.AddBitsWithoutFlush` | src/bits/forward_bit_writer.rs:57-62 | inside the 64-bit budget the bit list grows by the field; past it the container word is what the wrapped shift leaves, and the breach is recorded |
| `BitWriter.ForwardBitWriter.FlushBytes` | src/bits/forward_bit_writer.rs:35-54 | moves whole bytes out without changing what has been written, or fails exactly when they do not fit |
| `BitWriter.ForwardBitWriter.FlushWholeBytes` | src/bits/forward_bit_writer.rs:65-75 | the eight-byte store keeps the contents; at the end of the output it falls back and the overflow is sticky; an over-full container is stored as one word while the position moves on by all its bytes |
| `BitWriter.ForwardBitWriter.Finish` | src/bits/forward_bit_writer.rs:77-91 | the output holds all bits written, zero-padded to bytes, or an error exactly when they cannot fit |
| `BitWriter.BackwardBitWriter.Finish` | src/bits/backward_bit_writer.rs:28-31 | the finished bytes are the contents, one marker bit, and fewer than eight zeros, so a backward reader opens to exactly the contents |
| `BitReader.FieldsReadBack` | src/bits/backward_bit_reader.rs:13-116 | every list of (value, width) pairs written is peeked and dropped in reverse order, masked to the widths, and nothing is left |
| `BitReader.MarkerFound` | src/bits/backward_bit_reader.rs:118-123 | a marker followed by fewer than eight zeros is found again, whatever the contents |
| `BitReader.BackwardBitReader.New` | src/bits/backward_bit_reader.rs:14-39 | a reader exists exactly when the input is non-empty and its last byte is not zero, and it stands on the bits below the marker |
| `BitReader.BackwardBitReader.LoadMoreBytes` | src/bits/backward_bit_reader.rs:95-115 | refilling at any moment leaves the unread bits as they were |
| `BitReader.BackwardBitReader.PeekBits` | src/bits/backward_bit_reader.rs:47-64 | the next bits of the reference list, zero-padded past the start, without moving or overflowing |
| `BitReader.BackwardBitReader.SkipBits` | src/bits/backward_bit_reader.rs:66-77 | drops exactly those bits; overflow is recorded exactly when more were asked for than were left, and sticks |
| `BitReader.BackwardBitReader.ReadBits` | src/bits/backward_bit_reader.rs:41-45 | peek and skip in one, against the reference list |
| `BitReader.FastBitReader.constructor` | src/bits/fast_bit_reader.rs:21-40 | over eight or more bytes the window starts on the bits below the marker |
| `BitReader.FastBitReader.Padded` | src/bits/fast_bit_reader.rs:42-69 | fewer than eight bytes are read from a zeroed buffer with the same unread bits |
| `BitReader.FastBitReader.Peek` | src/bits/fast_bit_reader.rs:72-77 | within the window it equals the reference reader; past it only the width is known |
| `BitReader.FastBitReader.Skip` | src/bits/fast_bit_reader.rs:80-82 | in-budget skips drop from the reference list; more leaves the reader overdrawn |
| `BitReader.FastBitReader.Refill` | src/bits/fast_bit_reader.rs:92-121 | reports Overflow exactly for an overdrawn reader; otherwise the unread bits stay and the window is full again or at the stream start |
| `BitReader.FastBitReader.IsFinished` | src/bits/fast_bit_reader.rs:134-136 | true exactly when no bit is left and none was overdrawn |
| `BitReader.FastBitReader.MoveWindow` | src/bits/fast_bit_reader.rs:127-132 | a window moved down by the Huffman rounds is again a valid reader over the same stream |
| `BitReader.ForwardBitReader.ReadBits` | src/bits/forward_bit_reader.rs:14-18 | the bits at the position of a stream that continues with zeros past its end |
| `BitReader.ExtractCorrect` | src/bits/forward_bit_reader.rs:35-44 | the shifted and masked word is the field of the zero-extended stream |
| `FseSpread.StepOdd` | src/entropy/fse_decode_table.rs:252-254 | the spread step is odd for each table log of the format (5 to 9) and, of the logs 1 to 9, even exactly for 1 and 3 |
| `FseSpread.WalkIs` | src/entropy/fse_decode_table.rs:252-254 | after t steps the walk over a table of 8 cells or more stands on cell t * (5/8 of the table + 3), modulo the table: the step is pinned without being named |
| `FseSpread.StuckWalk` | src/entropy/fse_decode_table.rs:252-254 | for the logs 1 and 3 the walk never leaves cell 0 |
| `FseSpread.FullCycle` | src/entropy/fse_decode_table.rs:178-250 | one full walk meets every free cell exactly once |
| `FseSpread.WalkReturns` | src/entropy/fse_decode_table.rs:178-250 | after 2^log steps the walk is back at 0 |
| `FseSpread.SpreadGivesCounts` | src/entropy/fse_decode_table.rs:178-250 | the spread gives each symbol exactly its count of cells, a low-probability symbol one |
| `FseSpread.SpreadRightExactly` | src/entropy/fse_decode_table.rs:178-250 | the spread gives every symbol its count exactly when the log is not 1 or 3, or at most one cell belongs to others than symbol 0 |
| `FseSpread.CellMet` | src/entropy/fse_decode_table.rs:178-250 | the cell the walk stands on after t steps belongs to the next repeated symbol in order: as many were placed before it as steps met free cells |
| `FseSpread.CellOnTop` | src/entropy/fse_decode_table.rs:178-250 | the i-th low-probability symbol has the i-th cell from the top |
| `DefaultTables.DefaultCells` | src/entropy/fse_predefined.rs:7-19 | the three default tables have, cell by cell, the symbols that appendix A of RFC 8878 lists: pins the spread step and the default counts |
| `FseSpread.PlaceLowProbability` | src/entropy/fse_decode_table.rs:178-250 | low-probability symbols take the top cells downwards, even when the threshold wraps |
| `FseSpread.SpreadSymbols` | src/entropy/fse_decode_table.rs:178-250 | for every valid count vector of every log the in-place walk ends at position 0 and leaves exactly the abstract cells, those of the stuck logs 1 and 3 included |
| `Fse.EncodeStepUndone` | src/entropy/fse_encode_table.rs:71-82 | the decode step undoes the encode step: same symbol, same bits, same previous state, for every cell and symbol |
| `Fse.IntervalsPartition` | src/entropy/fse_decode_table.rs:178-250 | the next-state intervals of one symbol are disjoint and together are all 2^log states |
| `Fse.RunRoundTrip` | src/entropy/fse_encode_table.rs:46-91 | every symbol list over a table encodes to bits that decode to the same list, using exactly those bits |
| `Fse.FirstCellNeedsBits` | src/entropy/huffman_encode_table.rs:325-336 | unless a symbol owns all cells, the cell its first state stands on asks for at least one bit |
| `FseTables.CheckCounts` | src/entropy/fse_decode_table.rs:178-250 | accepts exactly the count vectors whose effective sum fills the table |
| `FseTables.FseDecodeTable.Build` | src/entropy/fse_decode_table.rs:178-250 | Ok exactly on valid counts, and then every entry holds symbol, bit count and base of its cell, wherever the spread gives the counts |
| `FseTables.FseDecodeTable.BuildRle` | src/entropy/fse_decode_table.rs:169-176 | one cell, no bits |
| `FseTables.FseDecodeState.Update` | src/entropy/fse_decode_table.rs:62-67 | the state moves as the abstract decode step says |
| `FseTables.BitsDeltaWorks` | src/entropy/fse_encode_table.rs:71-82 | adding a state to the 32-bit bits_delta carries into the high half exactly from the edge on, so the high half is the number of bits out |
| `FseTables.FirstStateShift` | src/entropy/fse_encode_table.rs:47-54 | the wrapped arithmetic of the first state yields the symbol's first cell |
| `FseTables.FseEncodeTable.Build` | src/entropy/fse_encode_table.rs:235-336 | Ok exactly on valid counts; next_state and the transforms then encode the same abstract table the decoder builds, and absent symbols are marked |
| `FseTables.FseEncodeState.EncodeSymbol` | src/entropy/fse_encode_table.rs:56-68 | writes the step's bits and moves to the step's cell; fails, unchanged, exactly when a flush is due and the pending bytes do not fit |
| `FseTables.FseEncodeState.EncodeSymbolWithoutFlush` | src/entropy/fse_encode_table.rs:71-82 | the same inside the container budget; past it the container word is still known |
| `FseTables.FseEncodeState.Flush` | src/entropy/fse_encode_table.rs:84-90 | writes the final state as the decoder reads it first; fails, unchanged, exactly when a flush is due and the pending bytes do not fit |
| `NormalizeCounts.Normalize` | src/entropy/fse_encode_table.rs:124-168 | Ok exactly when the log is in range, the symbols fit and one share or the other leaves the largest symbol a cell; the vector is then the one of the scaled shares where they work, of the exact shares otherwise, with the remainder on the first largest symbol, and all cells for a symbol alone; it fills the table, and an entry is zero exactly where the count is |
| `NormalizeCounts.Proportional` | src/entropy/fse_encode_table.rs:124-191 | stated on the counts alone: every symbol but the first largest has at most its proportional part of the table, and falls short of it by less than one cell and 2^-21 of one; with no cell left it has the low probability |
| `NormalizeCounts.Distribute` | src/entropy/fse_encode_table.rs:170-191 | either share: every symbol its share, at least the low probability, the remainder to the first of the largest; valid exactly when that entry stays positive |
| `NormalizeCounts.LargestShareZero` | src/entropy/fse_encode_table.rs:170-191 | with 32-bit counts the largest share rounds to zero only if there are as many symbols as cells, when every one gets a cell |
| `NormalizeCounts.LargestShareExact` | src/entropy/fse_encode_table.rs:193-217 | an exact share of the largest symbol is never zero |
| `NormalizeCounts.FindLargest` | src/entropy/fse_encode_table.rs:219-229 | no count exceeds the one found, and none before it equals it |
| `NormalizeCounts.LogExactly` | src/entropy/fse_encode_table.rs:93-122 | within the limit a log above 5 is reached exactly when the total has more than four counts per cell, or a quarter of the cells are fewer than the symbols |
| `NormalizeCounts.SymbolsHaveRoom` | src/entropy/fse_encode_table.rs:93-122 | whenever the limit has room for the symbols, the log picked has |
| `NormalizeCounts.RoomIsNotEnough` | src/entropy/fse_encode_table.rs:124-168 | 256 counts of 16 symbols for which the log picked has room for every symbol, and yet neither way of sharing works: normalising fails |
| `FseDescription.WriteDescription` | src/entropy/fse_encode_table.rs:354-426 | Ok exactly when log and room allow, with the described bits padded to bytes |
| `FseDescription.ReadDescription` | src/entropy/fse_decode_table.rs:76-153 | on any input it ends, remaining never falls below one, and Ok exactly when the input parses, with the parsed table and byte count |
| `FseDescription.ReadCountsFill` | src/entropy/fse_decode_table.rs:76-153 | whatever is read fills the table exactly |
| `FseDescription.DescriptionRoundTrip` | src/entropy/fse_decode_table.rs:76-167 | what the writer emits, in front of anything, reads back to the same table (trailing zero counts own no cells) and the same number of bytes |
| `FseDescription.TrimmedTable` | src/entropy/fse_decode_table.rs:155-167 | leaving out trailing zero counts does not change the table |
| `SymbolSort.SortUsedSymbolsByCount` | src/entropy/huffman_encode_table.rs:101-130 | the in-place result is the used symbols in ascending count order, a permutation |
| `SymbolSort.InsertionSort` | src/entropy/huffman_encode_table.rs:132-140 | sorts the bucket, keeps its elements, and touches nothing outside |
| `CodeLengths.CheapDepthSuffices` | src/entropy/huffman_encode_table.rs:53-64 | the depth is within 5 to 11 and leaves a code for every used symbol, for every histogram |
| `CodeLengths.CheapDepthExactly` | src/entropy/huffman_encode_table.rs:53-64 | a depth from 5 to 10 is enough exactly when its table has no more than four literals to a cell, and more cells than literals or more than twice the largest symbol; the least such is picked, or 11 |
| `PackageMerge.MergePrefixLeast` | src/entropy/huffman_encode_table.rs:142-219 | the first items of a merged level weigh no more than any choice of as many leaves and packages |
| `PackageMerge.LeavesGrow` | src/entropy/huffman_encode_table.rs:142-219 | a leaf taken on one level is taken on every level above |
| `PackageMergeOptimal.KraftExact` | src/entropy/huffman_encode_table.rs:142-219 | the Kraft sum of the lengths is exactly 1 |
| `PackageMergeOptimal.LengthsInRange` | src/entropy/huffman_encode_table.rs:142-219 | every used symbol gets 1 to depth bits |
| `PackageMergeOptimal.Optimal` | src/entropy/huffman_encode_table.rs:142-219 | no length assignment within the depth limit that fits the code space has a smaller total of count times length |
| `CodeLengths.MergeLevel` | src/entropy/huffman_encode_table.rs:142-219 | the level array is the merge of the leaves and the packages of the level below, all of both; it never has more than 2n - 1 items for n used symbols |
| `CodeLengths.BuildLevels` | src/entropy/huffman_encode_table.rs:142-219 | every level is such a merge, and none outgrows the level arrays |
| `CodeLengths.BuildCodeLengths` | src/entropy/huffman_encode_table.rs:142-219 | the array the method fills is complete, within the limit and of least cost among all codes within the limit |
| `HuffmanCodes.StartAligned` | src/entropy/huffman_encode_table.rs:221-238 | an exact Kraft sum aligns every symbol's run of cells to its own size |
| `HuffmanCodes.PrefixFree` | src/entropy/huffman_encode_table.rs:221-238 | no code is a prefix of another |
| `HuffmanCodes.OwnsByPrefix` | src/entropy/huffman_decode_table.rs:214-284 | a window belongs to a symbol exactly when it starts with the symbol's code |
| `HuffmanCodes.HuffmanEncodeTable.AssignCodes` | src/entropy/huffman_encode_table.rs:221-238 | every used symbol gets its canonical code and length, every other none |
| `HuffmanWeights.BuildHuffmanEncodeTable` | src/entropy/huffman_encode_table.rs:70-97 | fails exactly for fewer than two used symbols; otherwise the weights are those of a code no code within the depth limit beats in total cost, complete, the last is present, and the codes match them |
| `HuffmanWeights.LengthsToWeights` | src/entropy/huffman_encode_table.rs:70-97 | complete lengths become complete weights up to the largest used symbol |
| `HuffmanWeights.AddLastWeight` | src/entropy/huffman_decode_table.rs:175-212 | accepts exactly the weight lists that some last weight completes, and stores that weight |
| `HuffmanWeights.CompletesIs` | src/entropy/huffman_decode_table.rs:175-212 | the completing weight is unique: the missing cells are one power of two |
| `HuffmanWeights.LastWeightRecovered` | src/entropy/huffman_decode_table.rs:175-212 | leaving out the last weight of an encoder's table loses nothing |
| `HuffmanCodes.HuffmanDecodeTable.Build` | src/entropy/huffman_decode_table.rs:214-284 | accepts exactly the complete weight lists; each cell then names its owner and the owner's length |
| `HuffmanTables.ReadDirectWeights` | src/entropy/huffman_decode_table.rs:154-173 | the nibbles, high first, or an error exactly for missing bytes |
| `HuffmanTables.ReadFseWeights` | src/entropy/huffman_decode_table.rs:85-139 | description and interleaved stream, Ok exactly when both parse |
| `WeightStream.ReadTurns` | src/entropy/huffman_decode_table.rs:102-138 | the stop-on-overrun loop computes the abstract turns, or fails exactly when they do not fit |
| `HuffmanTables.ReadHuffmanTable` | src/entropy/huffman_decode_table.rs:43-65 | Ok exactly when the description parses and some last weight completes it; the table then decodes by those weights |
| `WeightStream.TurnsRoundTrip` | src/entropy/huffman_encode_table.rs:373-407 | with two distinct weights the decoder's overrun rule gives back exactly the weights and their number, for odd and even counts |
| `WeightStream.WriteInterleaved` | src/entropy/huffman_encode_table.rs:373-407 | Ok exactly when the output can take the stream and its marker; the two states then leave exactly the stream of the abstract turns |
| `HuffmanTables.WriteDirectWeights` | src/entropy/huffman_encode_table.rs:240-272 | Ok exactly up to 128 weights that fit, with the nibbles in place |
| `HuffmanTables.WriteFseWeights` | src/entropy/huffman_encode_table.rs:300-371 | Ok exactly for weights whose counts can be normalised, when description and stream together stay below 128 bytes and find room; what is written reads back as the weights in as many bytes |
| `HuffmanTables.BuildWeightTable` | src/entropy/huffman_encode_table.rs:300-371 | Ok exactly for weights of two kinds or more whose counts can be normalised; the table is that of the counts shared out at the log picked for them, and codes every weight |
| `HuffmanTables.WriteHuffmanTable` | src/entropy/huffman_encode_table.rs:274-298 | the FSE form is sent exactly where it is possible and shorter, or the only one; else the direct one; an error exactly where neither is possible or fits; either reads back, in front of anything, as the weights without the last and the same byte count |
| `HuffmanStream.PickUnrollCount` | src/entropy/huffman_encode.rs:23-29 | seven pending bits and that many longest codes fit 64 bits |
| `HuffmanStream.StreamPacker.Flush` | src/entropy/huffman_encode.rs:139-163 | stores eight bytes, keeps fewer than eight bits pending, and changes nothing of what was packed |
| `HuffmanStream.EncodeGroup` | src/entropy/huffman_encode.rs:62-137 | one container of codes, last symbol first |
| `HuffmanStream.EncodeStream` | src/entropy/huffman_encode.rs:62-137 | the unrolled loop writes exactly the coded symbols and the marker, within the capacity bound |
| `HuffmanStream.EncodeOneStream` | src/entropy/huffman_encode.rs:11-21 | fails exactly below the capacity bound; otherwise the stream opens to the coded symbols |
| `FourStreams.EncodeFourStreams` | src/entropy/huffman_encode.rs:165-209 | jump table and four streams in the layout of the format, each coding its segment; Ok exactly when each stream finds the room its encoder asks for and a two-byte size, and the size is that of the coded bits |
| `HuffmanStream.StreamRoundTrip` | src/entropy/huffman_decode.rs:227-246 | for every complete code and every symbol list, decoding the coded bits gives the list and uses exactly its bits |
| `HuffmanStream.SecondIndex` | src/entropy/huffman_decode.rs:152-169 | the second lookup in one double window is the window after the first code |
| `HuffmanStream.DecodeSymbolPair` | src/entropy/huffman_decode.rs:152-169 | two symbols from one window, as if decoded one after the other |
| `HuffmanStream.DecodeSymbols` | src/entropy/huffman_decode.rs:227-246 | the paired loop equals symbol-at-a-time decoding |
| `HuffmanStream.DecodeOneStream` | src/entropy/huffman_decode.rs:10-24 | accepts exactly the streams of that many symbols that use up their bits |
| `HuffmanStream.OneStreamDecodes` | src/entropy/huffman_decode.rs:10-24 | what one side encodes the other decodes, on every input |
| `FourStreams.LastSegmentNotEmpty` | src/entropy/huffman_decode.rs:46-105 | four streams are decodable exactly for 4, 7, 8 and from 10 literals on |
| `FourStreams.SplitFourStreams` | src/entropy/huffman_decode.rs:46-105 | accepts exactly the layouts of four non-empty streams with a non-empty last segment |
| `FourStreams.FourStreamsDecode` | src/entropy/huffman_decode.rs:28-129 | each written stream decodes to its segment |
| `FourStreams.SegmentsJoin` | src/entropy/huffman_decode.rs:46-105 | the segments in order are the input |
| `HuffmanFast.MarkerStays` | src/entropy/huffman_decode_fast.rs:70-91 | while fewer than 64 bits are shifted out, the low-bit marker tells how far the window was shifted |
| `HuffmanFast.MarkedTop` | src/entropy/huffman_decode_fast.rs:70-91 | the top bits of a marked window are the stream's, as long as the marker stays below them |
| `HuffmanFast.SafeRounds` | src/entropy/huffman_decode_fast.rs:63-67 | that many rounds can neither lose the marker nor move below the stream start |
| `HuffmanFast.DecodeRound` | src/entropy/huffman_decode_fast.rs:70-91 | five symbols from one window are the next five symbols of the checked decoder |
| `HuffmanFast.PeekWindowPadded` | src/entropy/huffman_decode_fast.rs:141-148 | near the start missing bits read as zeros, as in the checked reader |
| `HuffmanFast.FinishCursor` | src/entropy/huffman_decode_fast.rs:93-116 | the tail symbols and the finished test are the checked decoder's |
| `HuffmanFast.LockstepRound` | src/entropy/huffman_decode_fast.rs:119-138 | a round of every cursor advances each by its own five symbols and disturbs no other |
| `HuffmanFast.DecodeRounds` | src/entropy/huffman_decode_fast.rs:119-138 | any number of cursors advance together only as far as all are safe |
| `HuffmanFast.FinishCursors` | src/entropy/huffman_decode_fast.rs:175-186 | true exactly when every stream is used up |
| `HuffmanFast.DecodeStreams` | src/entropy/huffman_decode_fast.rs:188-211 | any lockstep of streams, each with its own table, is accepted exactly when the checked decoder accepts every one, with the same bytes |
| `HuffmanFast.DecodeGroup` | src/entropy/huffman_decode_fast.rs:214-259 | a group of the streams runs on by itself and disturbs no other |
| `HuffmanFast.DecodeInGroups` | src/entropy/huffman_decode_fast.rs:214-259 | lockstep over all streams, then over each group: accepted exactly when the checked decoder accepts every stream, with the same bytes |
| `SequenceCodes.LiteralLengthInverts` | src/block/sequence_codes.rs:281-295 | code base plus extra bits give back every literal length, and the extra bits fit |
| `SequenceCodes.MatchLengthInverts` | src/block/sequence_codes.rs:298-311 | the same for every match length |
| `SequenceCodes.OffsetInverts` | src/block/sequence_codes.rs:314-319 | the same for every 32-bit offset value |
| `SequenceCodes.LiteralRangesTile` | src/block/sequence_codes.rs:6-69 | the 36 literal-length ranges lie side by side from 0 to 131071, with no gap and no overlap |
| `SequenceCodes.MatchRangesTile` | src/block/sequence_codes.rs:29-88 | the 53 match-length ranges lie side by side from 3 to 131074 |
| `SequenceCodes.QuickLiteralAgrees` | src/block/sequence_codes.rs:255-261 | the quick finder gives the same code, and masking the length gives the extra bits |
| `SequenceCodes.QuickMatchAgrees` | src/block/sequence_codes.rs:265-272 | the same for match lengths |
| `SequenceCodes.QuickOffsetAgrees` | src/block/sequence_codes.rs:276-278 | the same for offset values |
| `RepeatOffsets.ValueResolves` | src/block/repeat_offsets.rs:74-102 | the value the encoder picks resolves to the offset it was given |
| `RepeatOffsets.OffsetMovesToFront` | src/block/repeat_offsets.rs:16-62 | the newest offset ends up in front, and only the three offsets are kept |
| `RepeatOffsets.RepeatOffsets.GetOffset` | src/block/repeat_offsets.rs:16-62 | returns the offset the value stands for and leaves the history after it |
| `RepeatOffsets.RepeatOffsets.GetOffsetValue` | src/block/repeat_offsets.rs:74-102 | picks a value that resolves to the offset and moves the encoder's history as the decoder's will |
| `SequenceBits.RecordsRoundTrip` | src/block/sequence_writer.rs:377-440 | three interleaved states: every non-empty list of records written back to front is read front to back, for any matching tables |
| `SequenceBits.WholeRoundTrip` | src/block/sequence_writer.rs:377-440 | including the initial states, with no bit left over |
| `SequenceBits.StepBitsBound` | src/block/sequence_writer.rs:407-421 | the three states drop at most 8 + 9 + 9 bits, which 7 + 31 pending ones leave room for |
| `SequenceBits.PutFirstStates` | src/block/sequence_writer.rs:397-424 | the first pass: inside the budget exactly when the extra bits and state bits fit 64, and in any case what the store leaves of them |
| `SequenceBits.PutRecord` | src/block/sequence_writer.rs:407-433 | every later pass stays inside the budget: one flushed byte, an offset and three states |
| `SequenceBits.WriteOneStream` | src/block/sequence_writer.rs:377-440 | Ok exactly when the output can take the stream; no add passes 64 bits exactly when the first pass fits, and then the stream opens to the abstract bits; otherwise it opens to them with the first bits replaced by what the over-full container leaves |
| `FirstPass.FirstPassOverflows` | src/block/sequence_writer.rs:397-421 | two valid records of one block with 50 extra and 17 state bits under the default tables: the budget does not hold by itself |
| `FirstPass.StreamKept` | src/block/sequence_writer.rs:397-421 | for all tables and records: the stream left is the stream of the records exactly when the first pass fits, or what the over-full container leaves of its bits happens to be those bits |
| `FirstPass.StreamKeptWhere` | src/block/sequence_writer.rs:397-421 | when only the literal-length state passes the top, by less than a byte: exactly when the bits that fall out are zeros |
| `FirstPass.StreamDamaged` | src/block/sequence_writer.rs:377-440 | at these records the written stream differs from theirs, whatever the output held before |
| `FirstPass.RecordsMisread` | src/block/sequence_writer.rs:377-440 | read as the decoder reads it, the written stream does not give the two records back |
| `FirstPass.SectionRejected` | src/block/block_decoder.rs:289-336 | whatever the literals and the output, a section with that stream means nothing: bits are left over |
| `FirstPass.WriteDamaged` | src/block/sequence_writer.rs:377-440 | the stream writer at these records, in any output of eleven bytes or more: Ok, and misread |
| `FirstPass.WriteDamagedSection` | src/block/sequence_writer.rs:82-142 | the section writer on its quick path picks the default tables for them and writes the damaged stream |
| `SequenceDecoder.SequenceStream.constructor` | src/block/sequences.rs:211-227 | the initial states and whether the stream had them |
| `SequenceDecoder.SequenceStream.NextSequence` | src/block/sequences.rs:233-283 | reads and resolves one record as the abstract machine does, failing in exactly its cases |
| `SequenceExecution.RunIsExecute` | src/block/sequences.rs:233-283 | decoding and executing record by record is executing the decoded list |
| `SequenceExecution.SectionOfWritten` | src/block/block_decoder.rs:289-336 | a written stream, as a section, means exactly executing its records and taking the remaining literals |
| `MatchCopy.PatternExtends` | src/simd/copy_bytes.rs:95-122 | copying forward by a multiple of the offset extends the repeating pattern |
| `MatchCopy.CopyMatchOvershoot` | src/simd/copy_bytes.rs:95-122 | load-then-store vectors with a doubling step equal byte-by-byte copying and write at most 15 bytes past the end |
| `MatchCopy.CopyForward` | src/simd/copy_bytes.rs:124-149 | the vector loop copies the bytes and overshoots by at most 15 |
| `MatchCopy.CopyMatchExact` | src/block/block_decoder.rs:458-474 | the single and the doubling moves equal byte-by-byte copying |
| `MatchCopy.CopyMatchInto` | src/block/block_decoder.rs:429-475 | byte-by-byte LZ77 copying for every offset and length on every path; an error exactly for a bad offset or too little room |
| `BlockDecoder.TakeLiterals` | src/block/block_decoder.rs:358-412 | from any source the next literals, or an error exactly when they or the room are missing |
| `BlockDecoder.ExecuteSequence` | src/block/block_decoder.rs:298-315 | literals, match and block limit of one record as the abstract machine has them |
| `BlockDecoder.DecodeSequencesChecked` | src/block/block_decoder.rs:289-336 | the checked loop is Ok exactly when the section means something, with that output, position and history |
| `FastSequences.FastSequenceTables.BuildAll` | src/block/sequence_tables_fast.rs:117-127 | building only dirty tables leaves all three expanding the tables in use |
| `FastSequences.RepeatRule` | src/block/block_decoder_fast.rs:71-95 | the hand-written repeat cases are the general rule |
| `FastSequences.FastStream.ReadRepeatOffset` | src/block/block_decoder_fast.rs:71-95 | offset codes 0 and 1 resolve and move the history as the rule says |
| `FastSequences.FastStream.DecodeOneSequence` | src/block/block_decoder_fast.rs:99-167 | one conditional refill suffices (7 + 30 + 26 bits); a record is the checked one, and an overrun is reported later |
| `FastSequences.ExecuteSequenceFast` | src/block/block_decoder_fast.rs:195-257 | all limits first, then the same bytes as the checked path, at most 15 past the end |
| `FastSequences.DecodeSequencesFast` | src/block/block_decoder_fast.rs:261-328 | Ok exactly when the checked loop is, with the same bytes, end position and repeat offsets |
| `FastSequences.DecodeSequences` | src/block/block_decoder.rs:255-337 | whichever path is taken the outcome is the section's meaning |
| `SuffixOrder.Sandwich` | src/algorithms/binary_tree_matcher.rs:192-276 | a suffix between two others shares with a fourth at least what both of them do: the bytes a search may skip |
| `SearchForest.SureBytesAgree` | src/algorithms/binary_tree_matcher.rs:192-276 | in every ordered state the first min(smaller, larger) bytes of the next node are common, so skipping them is sound |
| `SearchForest.WalkStarts` | src/algorithms/binary_tree_matcher.rs:192-276 | rooting a new node over the old root keeps the forest in order |
| `SearchForest.WalkSteps` | src/algorithms/binary_tree_matcher.rs:192-276 | relinking one met node to its side of the new one keeps every live node's two chains ordered, under slot reuse |
| `SearchForest.WalkEnds` | src/algorithms/binary_tree_matcher.rs:192-276 | emptying the two waiting slots at any point keeps the order |
| `SearchForest.WalkEndsAtDead` | src/algorithms/binary_tree_matcher.rs:192-276 | stopping at a node whose slots may be reused keeps the order |
| `SearchForest.ForestForgets` | src/algorithms/binary_tree_matcher.rs:183-190 | indices that fall below the window stop mattering |
| `SearchForest.ForestShifts` | src/algorithms/binary_tree_matcher.rs:176-180 | shifting the index offset forgets every node |
| `TreeSearch.OuterShorter` | src/algorithms/binary_tree_matcher.rs:192-276 | a suffix on the far side of a node has no more in common with the new one than the node: why the walk may pass it by |
| `TreeSearch.WalkGoesOn` | src/algorithms/binary_tree_matcher.rs:192-276 | one step of the walk: every node of the tree with more in common than the best so far hangs below the next one, and no node but those below it has left the trees |
| `TreeSearch.WalkEndsDead` | src/algorithms/binary_tree_matcher.rs:192-276 | stopping at a node whose slots may be reused loses no node |
| `TreeSearch.BestIsLongest` | src/algorithms/binary_tree_matcher.rs:335-491 | the best of a walk is the greatest common length of the nodes it met |
| `TreeSearch.RootMet` | src/algorithms/binary_tree_matcher.rs:335-491 | with any budget, the best is at least the common length of the old root, if that is in the window |
| `TreeSearch.NothingMissed` | src/algorithms/binary_tree_matcher.rs:335-491 | a walk ended neither by its budget nor by a good enough match has found the greatest common length of all nodes in the window that hung in the tree, and all of them still hang there |
| `TreeSearch.WalkLosesNothing` | src/algorithms/binary_tree_matcher.rs:192-276 | an insertion not cut off inside the window loses none of its nodes, in any tree |
| `TreeSearch.ChainLosesNothing` | src/algorithms/binary_tree_matcher.rs:278-286 | nor does a run of them, as long as the nodes are live |
| `TreeSearch.LongestOfAll` | src/algorithms/binary_tree_matcher.rs:309-333 | after such a run a search not cut off has a match as long as any position of the run in the same bucket gives |
| `BinaryTreeMatcher.Count` | src/algorithms/binary_tree_matcher.rs:62-83 | exactly the common prefix length |
| `BinaryTreeMatcher.BinaryTreeMatcher.Compare` | src/algorithms/binary_tree_matcher.rs:335-491 | the reported length is the exact common length although only bytes past the sure ones are looked at |
| `BinaryTreeMatcher.BinaryTreeMatcher.InsertPosition` | src/algorithms/binary_tree_matcher.rs:192-276 | splits the tree in place and keeps the whole invariant; the walk meets node after node, by suffix order, until its budget, the window, a dead node or a good enough match ends it, and the step is what its best match asks |
| `BinaryTreeMatcher.BinaryTreeMatcher.UpdateTree` | src/algorithms/binary_tree_matcher.rs:278-286 | catches up to the position by one such insertion after another, each starting from the trees the one before left |
| `BinaryTreeMatcher.BinaryTreeMatcher.InsertHash3AndFindFirst` | src/algorithms/binary_tree_matcher.rs:288-306 | the latest position whose three bytes have the same hash, or the older entry where there is none, with the table caught up |
| `BinaryTreeMatcher.BinaryTreeMatcher.SearchRepeats` | src/algorithms/binary_tree_matcher.rs:335-491 | of what the repeat offsets offer in order, exactly those are reported that improve on the ones before, and the search ends at the first that suffices |
| `BinaryTreeMatcher.BinaryTreeMatcher.SearchTree` | src/algorithms/binary_tree_matcher.rs:335-491 | the position is inserted on the way, and exactly those nodes met are reported that improve on all before, the best among them |
| `BinaryTreeMatcher.BinaryTreeMatcher.InsertAndFindAllMatches` | src/algorithms/binary_tree_matcher.rs:335-491 | of all that the repeats, the nearest position with the same three bytes and the tree offer, exactly the improvements are reported, up to the stage that suffices |
| `BinaryTreeMatcher.BinaryTreeMatcher.FindAllMatches` | src/algorithms/binary_tree_matcher.rs:309-333 | from any reachable state: the trees catch up, and exactly the improvements are reported; all are true matches of strictly increasing exact length; a position already inserted changes nothing |
| `BinaryTreeMatcher.BinaryTreeMatcher.LongestFound` | src/algorithms/binary_tree_matcher.rs:309-333 | if no walk was cut off inside the window, the best length is at least that of every position just inserted with the same hash of four bytes, in the window and live |
| `BinaryTreeMatcher.BinaryTreeMatcher.Reset` | src/algorithms/binary_tree_matcher.rs:112-139 | valid over any input with exactly the settings asked for, or marked unusable exactly when the tables do not fit |
| `BinaryTreeMatcher.BinaryTreeMatcher.PrepareForBlock` | src/algorithms/binary_tree_matcher.rs:163-174 | moving the window up keeps the invariant; the lowest index and the next one to insert are exactly those of the window and of the skip over a long gap |
| `BinaryTreeMatcher.BinaryTreeMatcher.ForgetHistoryBefore` | src/algorithms/binary_tree_matcher.rs:176-180 | afterwards the next text may be any |
| `BinaryTreeMatcher.BinaryTreeMatcher.StaysValid` | src/algorithms/binary_tree_matcher.rs:309-333 | more input behind the present one does not disturb the trees |
| `FastFinder.InsideExactly` | src/algorithms/fast.rs:366-416 | the one wrapped comparison holds exactly for entries of this input, inside the window and before the position; entries of earlier inputs never pass |
| `FastFinder.FastFinder.Reset` | src/algorithms/fast.rs:62-74 | after any run every entry is stale for the new input, whether indices move on or the table is cleared |
| `FastFinder.ExtendBackward` | src/algorithms/fast.rs:433-455 | a longer true match at the same offset that stops exactly at a limit or a differing byte |
| `FastFinder.ExtendRepeatBackward` | src/algorithms/fast.rs:419-430 | one byte further back exactly when it agrees |
| `FastFinder.MatchLength` | src/algorithms/fast.rs:458-466 | a true match that cannot be extended |
| `FastFinder.FastFinder.FindMatch` | src/algorithms/fast.rs:144-224 | finds a match exactly when the hunt does, and then that match; afterwards the table holds exactly the entries of the probes made, each stored in turn |
| `FastFinder.FindsExactly` | src/algorithms/fast.rs:144-224 | a hunt finds a match exactly when some probed position agrees in four bytes with the in-window entry its bucket holds then, or some far position with the repeat, before the end of the input |
| `FastFinder.HeldLast` | src/algorithms/fast.rs:144-224 | the entry a bucket holds at a probe is the latest earlier probe of the same hash |
| `FastFinder.HeldOld` | src/algorithms/fast.rs:144-224 | or the entry from before, where no earlier probe has that hash |
| `FastFinder.ProbesKept` | src/algorithms/fast.rs:144-224 | after the hunt the entry for the hash of each probed position is at least that position |
| `FastFinder.GreedyEnds` | src/algorithms/fast.rs:111-258 | a search that has room left ends because a hunt from the end of its last match finds nothing, and none of its matches could have been longer |
| `FastFinder.SequenceList.Add` | src/algorithms/fast.rs:294-306 | literals, lengths and offset value of one record, after which everything so far is rebuilt |
| `FastFinder.FastFinder.AddSecondRepeats` | src/algorithms/fast.rs:316-341 | exactly the repeats at the second offset that agree right after the match, as long as there are any, and the entries they store |
| `FastFinder.FastFinder.Search` | src/algorithms/fast.rs:111-258 | the matches are those of hunt after hunt, each extended as far as it goes; they parse the block |
| `FastFinder.FastFinder.FindSequences` | src/algorithms/fast.rs:80-106 | for any run of resets and blocks: the records are those of the greedy search over the table as it stood, and the table afterwards is the one it leaves; records and literals rebuild the block from the history, offsets stay within the window, and the decoder's repeat offsets become the encoder's |
| `ValidParse.RebuildsMatch` | src/algorithms/fast.rs:294-306 | one more true match extends what executing the records rebuilds |
| `ValidParse.RebuildsAll` | src/algorithms/fast.rs:308-312 | with the remaining literals the whole block is rebuilt |
| `ValidParse.MatchIsCopy` | src/algorithms/fast.rs:412-416 | bytes that agree with those an offset back are what copying from there gives |
| `SectionHeaders.BlockHeaderRoundTrip` | src/frame/block_header.rs:20-45 | a written block header reads back, in front of anything |
| `SectionHeaders.RawHeaderRoundTrip` | src/block/literals.rs:53-111 | raw and repeated-byte headers read back in all three sizes |
| `SectionHeaders.CodedHeaderRoundTrip` | src/block/literals.rs:53-111 | Huffman-coded headers read back: type, both sizes and stream count |
| `SectionHeaders.PickRawSizeFormat` | src/block/literals_writer.rs:321-331 | a format exists exactly below 2^20 |
| `SectionHeaders.PickSizeFormat` | src/block/literals_writer.rs:341-360 | a format exists exactly below its limit; it is the smallest that holds the size, and format 0 means one stream |
| `SectionHeaders.SequenceCountRoundTrip` | src/block/sequence_writer.rs:184-208 | every count up to 0x17EFF reads back from its one, two or three bytes |
| `SectionHeaders.WriteSequenceCount` | src/block/sequence_writer.rs:184-208 | an error exactly above 0x17EFF |
| `SectionHeaders.SequencesHeaderRoundTrip` | src/block/sequences.rs:81-121 | count and three modes read back |
| `LiteralsSection.DecodeAlike` | src/entropy/huffman_decode_table.rs:214-284 | tables filled by the same weights decode every stream alike, so a table is known by its weights |
| `LiteralsSection.LayoutUnique` | src/entropy/huffman_decode.rs:46-105 | a section has only one layout of four streams |
| `LiteralsSection.OneCompletion` | src/entropy/huffman_decode_table.rs:175-212 | only one weight completes a description |
| `LiteralsSection.JobsDeliver` | src/entropy/huffman_decode_fast.rs:188-211 | four streams in lockstep are accepted exactly when the section has literals, and deliver them |
| `LiteralsSection.DecodeStreamsOf` | src/block/literals.rs:296-311 | one or four streams: exactly the section's literals |
| `LiteralsSection.ReadSectionTable` | src/block/literals.rs:208-230 | the section's own table or the held one, with its streams, or an error exactly when there is none |
| `LiteralsSection.DecodeLiterals` | src/block/literals.rs:113-191 | Ok exactly when the bytes mean something under the held table, with those literals, byte count and table held next |
| `LiteralsWriter.EstimateHuffmanBitCost` | src/block/literals_writer.rs:134-147 | a cost exists exactly when every symbol that occurs has a code, and is counts times code lengths |
| `LiteralsWriter.CostIsLength` | src/block/literals_writer.rs:134-147 | that cost is the number of bits the codes give the literals |
| `LiteralsChoice.FewestBits` | src/entropy/huffman_encode_table.rs:70-97 | end to end: no complete table within the depth limit codes the literals in fewer bits than the one the encoder builds for them |
| `LiteralsWriter.CodedBy` | src/block/literals_writer.rs:149-187 | a held table with such a cost codes every literal: the guard that makes Treeless sound |
| `LiteralsChoice.StreamCountIs` | src/block/literals_writer.rs:333-339 | four streams exactly from 256 literals on, none of them empty |
| `LiteralsWriter.TreelessCarries` | src/block/literals_writer.rs:149-257 | a Treeless section reads back for every decoder that holds the same table |
| `LiteralsWriter.CompressedCarries` | src/block/literals_writer.rs:149-257 | a Compressed section reads back for every decoder and replaces its table by the encoder's |
| `LiteralsWriter.RawCarries` | src/block/literals_writer.rs:102-119 | a Raw section reads back and leaves the table |
| `LiteralsWriter.RleCarries` | src/block/literals_writer.rs:121-132 | a repeated byte reads back and leaves the table |
| `LiteralsWriter.WriteCompressedLiterals` | src/block/literals_writer.rs:149-257 | a section is written exactly when there is a new table with a description, the winner of new and held has its room, and the result is smaller than raw and below the limit of its header; the winner has the fewer bits, description counted, unless the quick choice rules the new one out; the size is the coded one, and it carries the literals |
| `LiteralsWriter.WriteLiterals` | src/block/literals_writer.rs:30-70 | for every input, table and hint: raw exactly for nothing, for a quick loss, and where neither a repeated byte nor a coded section that pays is there; whatever is written carries the literals in front of anything, for every decoder in agreement; never longer than raw, and where that has room some section is written |
| `LiteralsWriter.RepeatedIs` | src/block/literals_writer.rs:30-70 | the literals are one byte throughout exactly if some byte occurs as often as there are literals |
| `SequencesSection.PredefinedValid` | src/entropy/fse_predefined.rs:7-19 | the three default distributions fill their tables |
| `SequencesSection.ReadTableForMode` | src/block/sequences.rs:123-160 | Ok exactly when mode and bytes give a table, and the object then decodes by it |
| `SequencesSection.SequenceState.ReadSequenceTables` | src/block/sequences.rs:162-200 | three tables one behind the other; only repeated ones stay clean |
| `SequencesSection.SequenceState.DecodeSequencesSection` | src/block/block_decoder.rs:216-337 | Ok exactly when the section means something under the held tables, with that output, history and tables, and nothing outside its reach touched |
| `TableCosts.CostIsAverage` | src/entropy/symbol_cost.rs:59-83 | the arithmetic on bits_delta is the average number of bits the symbol drops over all states of the table, in 256ths, rounded up, and always below the limit |
| `TableCosts.GetEncodeTableBits` | src/entropy/symbol_cost.rs:59-83 | a cost exactly when the table has more than one cell, knows that many symbols and has cells for every one that occurs; it is the sum of the averages, cut to bits |
| `TableCosts.AbsentIsDear` | src/entropy/symbol_cost.rs:59-83 | a symbol without cells costs exactly the limit that rules the table out |
| `SequencesWriter.SingleDistinctSymbol` | src/block/sequence_writer.rs:351-363 | the one symbol that occurs, if only one does |
| `SequencesWriter.PickTableMode` | src/block/sequence_writer.rs:268-349 | fails exactly when neither the quick choice nor normalising settles it; the mode picked has the least of the costs compared, of equal ones the default before the held before the counts' own; one code alone is sent as it is; whatever is picked encodes every code, its description says it, and it may be repeated next exactly if it was described or repeated |
| `SequencesWriter.OneCheapest` | src/block/sequence_writer.rs:268-349 | the costs compared leave at most one mode to pick, ties included |
| `SequencesWriter.WriteTableDescription` | src/block/sequence_writer.rs:219-238 | an error exactly for lack of room; the bytes give back the table, in front of anything, to every decoder that holds what the encoder may repeat |
| `SequencesWriter.TablesSaid` | src/block/sequence_writer.rs:144-182 | three descriptions one behind the other give back the three tables |
| `SequencesWriter.SectionMade` | src/block/sequence_writer.rs:82-142 | header, descriptions and stream make a section that announces its tables, whether or not the first pass fitted |
| `SequencesWriter.SectionCarries` | src/block/sequence_writer.rs:82-142 | a section whose first pass fitted means executing its records |
| `SequencesWriter.WriteSequences` | src/block/sequence_writer.rs:82-142 | for any records, any tables at hand and any estimates: with enough room a section is written exactly when all three tables settle; it announces the tables the costs pick, which cover the records, and holds the stream the writer leaves; if its first pass fitted it carries the records for every decoder in agreement |
| `SequencesWriter.RoomIsEnough` | src/block/sequence_writer.rs:397-421 | 38 extra bits in the last record leave the first pass room, whatever tables are picked |
| `PairedBlocks.DecodeTwoSections` | src/entropy/huffman_decode_fast.rs:214-259 | eight streams in lockstep, then four and four, give both sections' literals exactly when each section has some |
| `PairedBlocks.DecodeLiteralSectionsPair` | src/block/literals.rs:236-294 | the same literals and the same table afterwards as one section after the other, or untouched when not both have four streams |
| `PairedBlocks.SequencesLength` | src/block/block_decoder.rs:216-337 | a decoded block is longer than its start by at most a block |
| `PairedBlocks.ParkedStay` | src/block/block_decoder.rs:153-208 | parked literals beyond the reach of a block survive it |
| `BlockReader.BlockWorkspace.DecodeCompressedBlock` | src/block/block_decoder.rs:126-151 | Ok exactly when both sections mean something, leaving output and history |
| `BlockReader.BlockWorkspace.ExecutePair` | src/block/block_decoder.rs:182-207 | both sequence sections in turn, the second from its parked literals |
| `BlockReader.BlockWorkspace.DecodeCompressedBlockPair` | src/block/block_decoder.rs:156-208 | skipped without a trace, or exactly the outcome of one block after the other: success, bytes, position, tables and repeat offsets |
| `BlockReader.BlockWorkspace.DecodeBlock` | src/block/block_decoder.rs:80-92 | each block type as its bytes mean |
| `BlockReader.ReadNextCompressedBlock` | src/decoder.rs:172-187 | the next block exactly if it is compressed and complete; unreadable exactly without a header |
| `BlockReader.TwoBlocks` | src/decoder.rs:142-160 | the meaning of a run that starts with two compressed blocks |
| `BlockReader.BlockWorkspace.DecodeTwo` | src/decoder.rs:142-160 | a paired round advances the run by exactly its two blocks |
| `BlockReader.BlockWorkspace.DecodeBlockSequence` | src/decoder.rs:121-170 | accepts exactly the runs that mean something, with their output, the bytes read and what they leave, however blocks are paired |
| `ParsePieces.PieceMeans` | src/block/block_writer.rs:203-234 | cut at record boundaries, each piece with its own literals goes from one mark of the whole parse to the next |
| `BlockWriter.CarryBoth` | src/block/block_writer.rs:188-285 | blocks that carry the output one behind the other carry it together, for every decoder in step |
| `BlockWriter.CompressedCarry` | src/block/block_writer.rs:134-184 | a compressed block with a meaningful body carries the output |
| `BlockWriter.RawCarry` | src/block/block_writer.rs:296-306 | a raw block carries its content and leaves all histories |
| `BlockWriter.RleCarry` | src/block/block_writer.rs:308-323 | so does a block of one repeated byte |
| `BlockWriter.BodyOf` | src/block/block_writer.rs:326-356 | literals and sequences written by their contracts make a body of the piece |
| `BlockWriter.WriteCompressedBlockBody` | src/block/block_writer.rs:326-356 | both sections within the scratch buffer, the tables they leave, and the literals and, if the first pass fitted, the records they carry; with room for any body it is made exactly when the tables settle; the literals take the form and the sequences the tables their terms and costs pick |
| `BlockWriter.EncodeWorkspace.RollBack` | src/block/block_writer.rs:175-182 | undoing restores offsets and both kinds of tables exactly, so encoder and decoder stay in step over the raw block, which holds the content |
| `BlockWriter.EncodeWorkspace.CommitSingleBlock` | src/block/block_writer.rs:134-184 | the block is the compressed one exactly when there is a body and it is smaller than the content, otherwise the raw one, after the rollback; nothing only where that does not fit; at most content + 3 bytes; the section listed holds the records handed in, and the block is carried if it fitted |
| `BlockWriter.EncodeWorkspace.WritePiece` | src/block/block_writer.rs:217-282 | a piece is written exactly when its body is smaller than its content and output stays within consumed content + 3, given up otherwise, an error exactly for lack of room; every section listed holds a slice of the block's records up to an end of a piece; if all fitted, the decoder is in step |
| `BlockWriter.EncodeWorkspace.WriteBlockAsSplitPieces` | src/block/block_writer.rs:188-285 | the outcome is that of the pieces tried in order, each with its own literals, records and table held: all together, given up at the first that does not pay, or an error; every section listed holds a slice of the records up to a boundary, and if all fitted they decode to the content |
| `BlockWriter.EncodeWorkspace.WriteBlock` | src/block/block_writer.rs:23-131 | for any valid parse, any estimates and any splits: empty, one repeated byte, the pieces where they pay, else compressed exactly if smaller, else raw; costs at most content + 3, never fails with that much room; every section listed holds a slice of the records found; all of them fit if the records at the ends of the pieces have at most 38 extra bits; and if all fitted, the block is decoded by every decoder in step |
| `BlockWriter.EncodeWorkspace.UnsplitBlock` | src/block/block_writer.rs:23-131 | the header of an unsplit block reads back as RLE exactly for a repeated byte, as compressed exactly for another content with a smaller body, with the size that follows |
| `BlockWriter.RoomySectionsFit` | src/block/sequence_writer.rs:397-421 | sections whose last record has at most 38 extra bits fit, whatever tables were picked |
| `BlockWriter.PiecesFit` | src/block/sequence_writer.rs:397-421 | a condition on what the finder found: if the records before every end of a piece are short, all sections written for the block fit |
| `RecordLimits.FewExtras` | src/block/sequence_codes.rs:281-319 | in 16386 bytes a long literal run, a long match and a far offset exclude each other: at most 38 extra bits |
| `RecordLimits.ParsedShort` | src/block/sequence_writer.rs:397-421 | every record of every parse of an input of that length has at most 38 |
| `BlockRun.FindBlockLength` | src/block/block_presplitter.rs:56-78 | the length is that of the first chunk boundary the fingerprints call different, once three bytes have been saved, else a full block or what remains |
| `BlockRun.SizeStep` | src/encoder.rs:374-407 | savings of three pay for the header of a block that ends early: the size invariant of the loop |
| `BlockRun.CompressBlocks` | src/encoder.rs:374-407 | the run is block after block, each as long as it is to be, written as its content and the finder's answer ask, and continuing from the history the one before it leaves; a buffer of the maximum size is always enough; every section holds records the finder answered with, and all fit if its answers end with short records; if all fitted, every decoder with room for the input decodes the bytes, all of them, to the input |
| `BlockRun.AppendBlock` | src/encoder.rs:374-407 | one block more, as written, keeps the size paid for; the sections added hold slices of what was found; if all fitted, the decoder is in step |
| `BlockRun.FindBlock` | src/encoder.rs:374-407 | the fast finder's answer for a block is that of its greedy search over the table as it stands, and of nothing for one repeated byte |
| `BlockRun.ShortFinderFits` | src/encoder.rs:374-407 | a finder whose answers end with records of at most 38 extra bits makes every first pass fit |
| `BlockRun.ShortInput` | src/encoder.rs:374-407 | in an input of at most 16386 bytes every finder that returns valid parses is such a finder |
| `BlockRun.BufferSuffices` | src/encoder.rs:309-322 | the maximum size leaves the blocks all the room they may need behind header and checksum |
| `BlockRun.LiteralsFinderFits` | src/encoder.rs:374-407 | the finder that finds nothing meets the contract for every input, and its answers end with no record at all |
| `BlockRun.RoundTrip` | src/encoder.rs:374-407 | compressing and decompressing gives back the input, for every split and estimate, with every finder whose answers end with short records, and with every finder at all for inputs of at most 16386 bytes; otherwise if every section fitted |
| `BlockRun.CompressFast` | src/encoder.rs:374-407 | the same with the fast finder, reset from any earlier state: what is found for each block is its greedy search over the table the blocks before have left; every section holds records of a parse of some block; all fit for inputs of at most 16386 bytes |
| `BlockRun.RoundTripFast` | src/encoder.rs:374-407 | with the fast finder every input of at most 16386 bytes comes back, and every other if every section fitted |
| `LostRun.AloneLost` | src/decoder.rs:121-170 | no decoder in step decodes a block whose only sequences section holds the two records, whatever follows and however much room there is |
| `LostRun.LostFinderFits` | src/encoder.rs:374-407 | finding nothing in four blocks and the two records in the fifth is a valid finder, for any first four blocks |
| `LostRun.RunIsLost` | src/encoder.rs:374-407 | for a whole family of inputs of five blocks and that finder: the run is written within its size, and the decoder rejects it |

## Left out

- BinaryTreeMatcher.BinaryTreeMatcher.FindAllMatches: asks that input and index offset together fit 32 bits, which the original takes for granted when it computes an index; what a wrapped index would do is not modelled.
- FastFinder.FastFinder.FindSequences: asks that the input is no longer than the length given to `Reset`, that window_log is at most 27 and hash_log at least 1, as every parameter table and caller has it.
- HuffmanFast.DecodeStreams: asks that 8 times the stream length plus 128 fits 32 bits, which the cast in the rounds needs; sections of a block are far shorter.
- FseTables.FseDecodeTable.Build: at table logs 1 and 3 only count vectors whose stuck spread is right; the others end in a table with wrong counts or an arithmetic underflow, which is not modelled. The same holds for `FseTables.FseEncodeTable.Build`.
- BitReader.FastBitReader.Peek: past the window only the width of the result is stated, as callers detect the overrun at the next refill.
- BlockRun.RoundTrip: for longer inputs and finders with long last records only the condition on the tables picked is stated; the other finders enter as a function of block and repeat offsets that returns a valid parse, and only the fast finder is run with its own state (`BlockRun.RoundTripFast`).
- BlockWriter.EncodeWorkspace.WriteBlock: ties the literals of each body to the settings and the table held; which sequence tables the costs pick is stated one level down, by `BlockWriter.WriteCompressedBlockBody`.
- SequencesWriter.WriteSequences: when a section is written is stated for room for any section of as many records; with less room only that what is written is right.
- Level arrays: a level of package-merge is a growing sequence; that the fixed arrays are long enough is proved (`CodeLengths.BuildLevels`).
- Cost estimates: entropy bits, table cost estimates, the block splitter and the presplitter's fingerprints are parameters; every theorem holds for all their values.
- Price-driven and lazy parsers (ultra2, lazy2), symbol prices and row tags: they meet the same valid-parse contract and would add size only.
- Hash quality: the hash of a position is a function of its bytes; nothing is stated about how well it spreads.
- Frame headers, checksums, skippable frames and the buffering stream encoder: small field codecs and buffers around the block run.
- WebAssembly, std I/O, the public API wrappers and error kinds: no logic of their own.
- SIMD intrinsics, prefetch and unchecked allocation: a vector copy is a load of 16 bytes followed by a store of 16.
- Output slices: a slice of the caller's buffer is a separate array or a byte sequence with a capacity; aliasing between slices is not modelled, except that parked literals and block output share one array.
- Pair of literal destinations: the two outputs of the paired literal decode are one array, copied to their places afterwards.
- Encode tables: kept by reference and replaced by new ones where the original overwrites; a snapshot is the old reference.
- Resetting a workspace for a new frame: modelled by a fresh workspace.
