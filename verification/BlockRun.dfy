/** The whole run of blocks: how long the next block is, the loop that writes them, the size it may
    need, and the round trip through the decoder. */
module BlockRun {
  import opened Bits
  import opened BitReader
  import opened SectionHeaders
  import opened LiteralsSection
  import opened SequenceExecution
  import opened SequencesSection
  import opened BlockReader
  import opened BlockWriter
  import opened SequenceBits
  import opened ValidParse
  import opened FastFinder
  import opened RecordLimits
  import R = RepeatOffsets

  const CHUNK_LENGTH := 8192
  const MIN_SAVINGS_TO_SPLIT := 3
  const MAX_FRAME_HEADER_LENGTH := 14
  const ZSTD_CHECKSUM_LENGTH := 4

  // ---------------------------------------------------------------- sizes

  function BlockCount(n: nat): nat {
    (n + MAX_BLOCK_SIZE - 1) / MAX_BLOCK_SIZE
  }

  /** Room for all blocks raw. */
  function BlocksSize(n: nat): nat {
    n + BLOCK_HEADER_LENGTH * BlockCount(n)
  }

  function GetMaxCompressedSize(inputLength: nat, withChecksum: bool): nat {
    var blockCount := if inputLength == 0 then 1 else BlockCount(inputLength);
    var checksumLength := if withChecksum then ZSTD_CHECKSUM_LENGTH else 0;
    MAX_FRAME_HEADER_LENGTH + (inputLength + blockCount * BLOCK_HEADER_LENGTH) + checksumLength
  }

  lemma CountStep(n: nat)
    ensures n > 0 ==> BlockCount(n) >= 1
    ensures n >= MAX_BLOCK_SIZE ==> BlockCount(n) == 1 + BlockCount(n - MAX_BLOCK_SIZE)
    ensures 0 < n <= MAX_BLOCK_SIZE ==> BlockCount(n) == 1
    ensures BlockCount(0) == 0
  {
  }

  lemma CountMonotone(m: nat, n: nat)
    requires m <= n
    ensures BlockCount(m) <= BlockCount(n)
  {
  }

  /** Each block costs its content and a header; a block that ends early adds a header, which the
      savings so far must cover. */
  lemma SizeStep(total: nat, blockStart: nat, output: nat, length: nat, written: nat)
    requires blockStart + length <= total && length > 0 && written <= length + 3
    requires output + BlocksSize(total - blockStart) <= BlocksSize(total)
    requires length == total - blockStart || length == MAX_BLOCK_SIZE || output + 3 <= blockStart
    requires length <= MAX_BLOCK_SIZE
    ensures output + length + 3 <= BlocksSize(total)
    ensures output + written + BlocksSize(total - blockStart - length) <= BlocksSize(total)
  {
    var rest := total - blockStart;
    CountStep(rest);
    CountStep(rest - length);
    CountMonotone(rest - length, total);
  }

  // ---------------------------------------------------------------- the next block's length

  /** Where the next block ends: a short rest is one block; a full block ends early only when enough has been
      saved, and then at the first chunk whose statistics are too different. */
  ghost predicate EndsBlock(remaining: nat, savings: int, isTooDifferent: nat -> bool, length: nat) {
    if remaining < MAX_BLOCK_SIZE then length == remaining
    else if savings < MIN_SAVINGS_TO_SPLIT then length == MAX_BLOCK_SIZE
    else
      && 0 < length <= MAX_BLOCK_SIZE
      && (length < MAX_BLOCK_SIZE ==> length % CHUNK_LENGTH == 0 && isTooDifferent(length))
      && forall k: nat :: 0 < k * CHUNK_LENGTH < length ==> !isTooDifferent(k * CHUNK_LENGTH)
  }

  /** `find_block_length`: only a full block may end early, only where the statistics change, and
      only when enough has been saved. */
  method FindBlockLength(remaining: nat, savings: int, isTooDifferent: nat -> bool) returns (length: nat)
    ensures remaining < MAX_BLOCK_SIZE ==> length == remaining
    ensures remaining >= MAX_BLOCK_SIZE ==>
              length == MAX_BLOCK_SIZE || (0 < length < MAX_BLOCK_SIZE && savings >= MIN_SAVINGS_TO_SPLIT)
    ensures EndsBlock(remaining, savings, isTooDifferent, length)
  {
    if remaining < MAX_BLOCK_SIZE {
      return remaining;
    }
    if savings < MIN_SAVINGS_TO_SPLIT {
      return MAX_BLOCK_SIZE;
    }
    var position: nat := CHUNK_LENGTH;
    ghost var chunk: nat := 1;
    while position <= MAX_BLOCK_SIZE - CHUNK_LENGTH
      invariant 0 < position <= MAX_BLOCK_SIZE && position == chunk * CHUNK_LENGTH
      invariant forall k: nat :: 0 < k * CHUNK_LENGTH < position ==> !isTooDifferent(k * CHUNK_LENGTH)
    {
      if isTooDifferent(position) {
        return position;
      }
      position := position + CHUNK_LENGTH;
      chunk := chunk + 1;
    }
    return MAX_BLOCK_SIZE;
  }

  method FindNextBlockLength(remaining: nat, savings: int, presplits: bool, isTooDifferent: nat -> bool)
    returns (length: nat)
    requires remaining > 0
    ensures 0 < length <= remaining && length <= MAX_BLOCK_SIZE
    ensures length == remaining || length == MAX_BLOCK_SIZE || savings >= MIN_SAVINGS_TO_SPLIT
    ensures if presplits then EndsBlock(remaining, savings, isTooDifferent, length)
            else length == Min(remaining, MAX_BLOCK_SIZE)
  {
    if presplits {
      length := FindBlockLength(remaining, savings, isTooDifferent);
    } else {
      length := Min(remaining, MAX_BLOCK_SIZE);
    }
  }

  // ---------------------------------------------------------------- the blocks of a run

  /** One block of a run: what it covers, what was found for it, the history before it, what was written,
      how its body or its pieces came out, and the history it leaves. */
  datatype BlockMade = BlockMade(start: nat, end: nat, found: Found, history: History, bytes: seq<byte>,
                                 whole: Piece, pieces: seq<Piece>, after: History)

  /** The history behind blocks: what the last of them leaves. */
  function HistoryBehind(blocks: seq<BlockMade>): History {
    if blocks == [] then NO_HISTORY else blocks[|blocks| - 1].after
  }

  function EndOf(blocks: seq<BlockMade>): nat {
    if blocks == [] then 0 else blocks[|blocks| - 1].end
  }

  function BytesOf(blocks: seq<BlockMade>): seq<byte> {
    if blocks == [] then [] else BytesOf(blocks[..|blocks| - 1]) + blocks[|blocks| - 1].bytes
  }

  /** A block behind others: as long as it is to be, and written as its content and what was found ask. */
  ghost predicate BlockFollows(workspace: EncodeWorkspace, input: seq<byte>, room: nat, presplits: bool,
                               isTooDifferent: nat -> (nat -> bool), done: nat, written: nat, b: BlockMade) {
    && b.start == done < b.end <= |input| && written <= room
    && (if presplits then
          EndsBlock(|input| - b.start, b.start - written, isTooDifferent(b.start), b.end - b.start)
        else b.end - b.start == Min(|input| - b.start, MAX_BLOCK_SIZE))
    && var from := if b.start == 0 then Restarted(b.history) else b.history;
    && workspace.WrittenAs(Some(b.bytes), b.end == |input|, room - written, input[b.start..b.end], b.found,
                           b.start != 0, b.whole, b.pieces, from)
    && b.after == workspace.HistoryLeft(b.end == |input|, room - written, input[b.start..b.end], b.found, b.whole,
                                        b.pieces, from)
  }

  /** Before the first block all tables are forgotten. */
  function Restarted(h: History): History {
    History(None, HeldTables(None, None, None), h.offsets)
  }

  /** Block after block, each from the history the one before it leaves. */
  ghost predicate BlocksFollow(workspace: EncodeWorkspace, input: seq<byte>, room: nat, presplits: bool,
                               isTooDifferent: nat -> (nat -> bool), blocks: seq<BlockMade>) {
    forall k :: 0 <= k < |blocks| ==>
      && blocks[k].history == HistoryBehind(blocks[..k])
      && BlockFollows(workspace, input, room, presplits, isTooDifferent, EndOf(blocks[..k]), |BytesOf(blocks[..k])|,
                      blocks[k])
  }

  lemma RestartedIs(h: History)
    ensures Restarted(h) == History(None, HeldTables(None, None, None), h.offsets)
  {
  }

  lemma BlockFollowsWhen(workspace: EncodeWorkspace, input: seq<byte>, room: nat, presplits: bool,
                         isTooDifferent: nat -> (nat -> bool), done: nat, written: nat, b: BlockMade)
    requires b.start == done < b.end <= |input| && written <= room
    requires if presplits then
               EndsBlock(|input| - b.start, b.start - written, isTooDifferent(b.start), b.end - b.start)
             else b.end - b.start == Min(|input| - b.start, MAX_BLOCK_SIZE)
    requires var from := if b.start == 0 then Restarted(b.history) else b.history;
             && workspace.WrittenAs(Some(b.bytes), b.end == |input|, room - written, input[b.start..b.end], b.found,
                                    b.start != 0, b.whole, b.pieces, from)
             && b.after == workspace.HistoryLeft(b.end == |input|, room - written, input[b.start..b.end], b.found,
                                                 b.whole, b.pieces, from)
    ensures BlockFollows(workspace, input, room, presplits, isTooDifferent, done, written, b)
  {
    hide EndsBlock, EncodeWorkspace.WrittenAs, EncodeWorkspace.HistoryLeft, Restarted;
  }

  lemma OneMoreBlock(workspace: EncodeWorkspace, input: seq<byte>, room: nat, presplits: bool,
                     isTooDifferent: nat -> (nat -> bool), blocks: seq<BlockMade>, b: BlockMade)
    requires BlocksFollow(workspace, input, room, presplits, isTooDifferent, blocks)
    requires BlockFollows(workspace, input, room, presplits, isTooDifferent, EndOf(blocks), |BytesOf(blocks)|, b)
    requires b.history == HistoryBehind(blocks)
    ensures BlocksFollow(workspace, input, room, presplits, isTooDifferent, blocks + [b])
    ensures HistoryBehind(blocks + [b]) == b.after
    ensures EndOf(blocks + [b]) == b.end && BytesOf(blocks + [b]) == BytesOf(blocks) + b.bytes
  {
    hide BlockFollows;
    var more := blocks + [b];
    assert more[..|blocks|] == blocks;
    forall k | 0 <= k < |more|
      ensures more[k].history == HistoryBehind(more[..k])
      ensures BlockFollows(workspace, input, room, presplits, isTooDifferent, EndOf(more[..k]), |BytesOf(more[..k])|,
                           more[k])
    {
      if k < |blocks| {
        assert more[..k] == blocks[..k] && more[k] == blocks[k];
      }
    }
  }

  lemma NoBlocks(workspace: EncodeWorkspace, input: seq<byte>, room: nat, presplits: bool,
                 isTooDifferent: nat -> (nat -> bool))
    ensures BlocksFollow(workspace, input, room, presplits, isTooDifferent, []) && EndOf([]) == 0 && BytesOf([]) == []
    ensures HistoryBehind([]) == NO_HISTORY
  {
  }

  // ---------------------------------------------------------------- the run

  /** What a finder may be asked for: a block of the input, and repeat offsets. */
  ghost predicate Asked(input: seq<byte>, start: nat, end: nat, offsets: R.History) {
    start <= end <= |input| && end - start <= MAX_BLOCK_SIZE && R.Small(offsets)
  }

  /** Whatever block it is asked for, the finder's output fits. */
  ghost predicate FinderFits(input: seq<byte>, window: nat, finder: (nat, nat, R.History) -> Found) {
    forall start: nat, end: nat, offsets: R.History :: Asked(input, start, end, offsets) ==>
      && FoundFits(input[..end], start, window, finder(start, end, offsets), offsets)
      && R.Small(finder(start, end, offsets).offsets)
  }

  /** Whatever block it is asked for, every piece of its answer ends with a record of few extra bits. */
  ghost predicate FinderShort(input: seq<byte>, finder: (nat, nat, R.History) -> Found) {
    forall start: nat, end: nat, offsets: R.History :: Asked(input, start, end, offsets) ==>
      EndsShort(finder(start, end, offsets).records, Ends(finder(start, end, offsets)))
  }

  lemma FinderAt(input: seq<byte>, window: nat, finder: (nat, nat, R.History) -> Found,
                 start: nat, end: nat, offsets: R.History)
    requires FinderFits(input, window, finder)
    requires start <= end <= |input| && end - start <= MAX_BLOCK_SIZE && R.Small(offsets)
    ensures Asked(input, start, end, offsets)
    ensures FoundFits(input[..end], start, window, finder(start, end, offsets), offsets)
    ensures R.Small(finder(start, end, offsets).offsets)
  {
    hide FoundFits, R.Small;
    assert Asked(input, start, end, offsets);
  }

  /** The plainest finder, which finds nothing, fits every input, and has no record at all. */
  lemma LiteralsFinderFits(input: seq<byte>, window: nat, finder: (nat, nat, R.History) -> Found)
    requires forall start: nat, end: nat, offsets: R.History :: start <= end <= |input| ==>
               finder(start, end, offsets) == Found(input[start..end], [], offsets, [])
    ensures FinderFits(input, window, finder) && FinderShort(input, finder)
  {
    hide FoundFits, R.Small;
    forall start: nat, end: nat, offsets: R.History | Asked(input, start, end, offsets)
      ensures FoundFits(input[..end], start, window, finder(start, end, offsets), offsets)
    {
      JustLiteralsFit(input[..end], start, window, offsets);
      assert input[..end][start..] == input[start..end];
    }
  }

  /** In a short input every record of every parse is short, whatever finder found it. */
  lemma ShortInput(input: seq<byte>, window: nat, finder: (nat, nat, R.History) -> Found)
    requires FinderFits(input, window, finder) && |input| <= ROOMY_INPUT
    ensures FinderShort(input, finder)
  {
    hide FoundFits, R.Small, EndsShort, Ends;
    forall start: nat, end: nat, offsets: R.History | Asked(input, start, end, offsets)
      ensures EndsShort(finder(start, end, offsets).records, Ends(finder(start, end, offsets)))
    {
      FoundShort(input[..end], start, window, finder(start, end, offsets), offsets);
    }
  }

  lemma FoundShort(input: seq<byte>, blockStart: nat, window: nat, found: Found, from: R.History)
    requires FoundFits(input, blockStart, window, found, from) && |input| <= ROOMY_INPUT
    ensures EndsShort(found.records, Ends(found))
  {
    hide Parses, Short;
    ParsedShort(input, blockStart, window, found.literals, found.records, from, found.offsets);
  }

  // ---------------------------------------------------------------- whose records a run's sections hold

  ghost predicate ByFinder(part: seq<SequenceRecord>, input: seq<byte>, finder: (nat, nat, R.History) -> Found) {
    exists start: nat, end: nat, offsets: R.History ::
      && Asked(input, start, end, offsets)
      && PieceOf(part, finder(start, end, offsets).records, Ends(finder(start, end, offsets)))
  }

  /** Every section holds a piece of what the finder answered for some block. */
  ghost predicate FromFinder(sections: seq<SectionWritten>, input: seq<byte>, finder: (nat, nat, R.History) -> Found) {
    forall k :: 0 <= k < |sections| ==> ByFinder(sections[k].records, input, finder)
  }

  lemma MoreFromFinder(sections: seq<SectionWritten>, added: seq<SectionWritten>, input: seq<byte>,
                       finder: (nat, nat, R.History) -> Found, start: nat, end: nat, offsets: R.History)
    requires FromFinder(sections, input, finder) && Asked(input, start, end, offsets)
    requires PiecesOf(added, finder(start, end, offsets).records, Ends(finder(start, end, offsets)))
    ensures FromFinder(sections + added, input, finder)
  {
    hide PieceOf, Asked, Ends;
    forall k | 0 <= k < |added|
      ensures ByFinder(added[k].records, input, finder)
    {
      assert PieceOf(added[k].records, finder(start, end, offsets).records, Ends(finder(start, end, offsets)));
    }
  }

  /** So a finder whose answers end with short records makes every first pass fit. */
  lemma ShortFinderFits(sections: seq<SectionWritten>, bytes: seq<byte>, input: seq<byte>,
                        finder: (nat, nat, R.History) -> Found)
    requires SectionsIn(sections, bytes) && FromFinder(sections, input, finder) && FinderShort(input, finder)
    ensures AllFit(sections)
  {
    hide SectionsIn, AllFit, PieceOf, Asked, Ends, LastIsShort, EndsShort;
    forall k | 0 <= k < |sections|
      ensures LastIsShort(sections[k].records)
    {
      assert ByFinder(sections[k].records, input, finder);
      var start: nat, end: nat, offsets: R.History :|
        Asked(input, start, end, offsets)
        && PieceOf(sections[k].records, finder(start, end, offsets).records, Ends(finder(start, end, offsets)));
      PieceIsShort(sections[k].records, finder(start, end, offsets).records, Ends(finder(start, end, offsets)));
    }
    RoomySectionsFit(sections, bytes);
  }

  /** What some finder may have found for some block. */
  ghost predicate Parsed(input: seq<byte>, window: nat, start: nat, end: nat, offsets: R.History, found: Found) {
    Asked(input, start, end, offsets) && FoundFits(input[..end], start, window, found, offsets)
  }

  ghost predicate ByParse(part: seq<SequenceRecord>, input: seq<byte>, window: nat) {
    exists start: nat, end: nat, offsets: R.History, found: Found ::
      Parsed(input, window, start, end, offsets, found) && PieceOf(part, found.records, Ends(found))
  }

  /** Every section holds a piece of a parse of some block. */
  ghost predicate FromParses(sections: seq<SectionWritten>, input: seq<byte>, window: nat) {
    forall k :: 0 <= k < |sections| ==> ByParse(sections[k].records, input, window)
  }

  lemma MoreFromParses(sections: seq<SectionWritten>, added: seq<SectionWritten>, input: seq<byte>, window: nat,
                       start: nat, end: nat, offsets: R.History, found: Found)
    requires FromParses(sections, input, window) && Asked(input, start, end, offsets)
    requires FoundFits(input[..end], start, window, found, offsets) && PiecesOf(added, found.records, Ends(found))
    ensures FromParses(sections + added, input, window)
  {
    hide PieceOf, Asked, Ends, FoundFits;
    forall k | 0 <= k < |added|
      ensures ByParse(added[k].records, input, window)
    {
      assert Parsed(input, window, start, end, offsets, found) && PieceOf(added[k].records, found.records, Ends(found));
    }
  }

  /** Whatever was found, every first pass over a short input fits. */
  lemma ShortParsesFit(sections: seq<SectionWritten>, bytes: seq<byte>, input: seq<byte>, window: nat)
    requires SectionsIn(sections, bytes) && FromParses(sections, input, window) && |input| <= ROOMY_INPUT
    ensures AllFit(sections)
  {
    hide SectionsIn, AllFit, PieceOf, FoundFits, R.Small, Ends, LastIsShort, EndsShort;
    forall k | 0 <= k < |sections|
      ensures LastIsShort(sections[k].records)
    {
      assert ByParse(sections[k].records, input, window);
      var start: nat, end: nat, offsets: R.History, found: Found :|
        Parsed(input, window, start, end, offsets, found) && PieceOf(sections[k].records, found.records, Ends(found));
      FoundShort(input[..end], start, window, found, offsets);
      PieceIsShort(sections[k].records, found.records, Ends(found));
    }
    RoomySectionsFit(sections, bytes);
  }

  lemma AskedWhen(input: seq<byte>, start: nat, end: nat, offsets: R.History)
    requires start <= end <= |input| && end - start <= MAX_BLOCK_SIZE && R.Small(offsets)
    ensures Asked(input, start, end, offsets)
  {
    hide R.Small;
  }

  lemma NoneFound(input: seq<byte>, finder: (nat, nat, R.History) -> Found)
    ensures FromFinder([], input, finder)
  {
  }

  lemma NoneParsed(input: seq<byte>, window: nat)
    ensures FromParses([], input, window)
  {
  }

  // ---------------------------------------------------------------- what a run keeps

  lemma JustLiteralsFit(input: seq<byte>, blockStart: nat, window: nat, offsets: R.History)
    requires blockStart <= |input| && |input| - blockStart <= MAX_BLOCK_SIZE
    ensures FoundFits(input, blockStart, window, Found(input[blockStart..], [], offsets, []), offsets)
  {
    NothingRebuilt(input, blockStart, window, offsets);
    RebuildsAll(input, blockStart, window, [], [], offsets, offsets, blockStart);
    assert [] + input[blockStart..] == input[blockStart..];
  }

  /** Every decoder with that much room decodes the bytes, all of them, to the input. */
  ghost predicate RunDecodes(bytes: seq<byte>, input: seq<byte>) {
    forall capacity: nat :: |input| <= capacity ==> DecodesTo(bytes, capacity, input)
  }

  ghost predicate DecodesTo(bytes: seq<byte>, capacity: nat, input: seq<byte>) {
    && ValidHistory(NO_HISTORY)
    && var r := RunOf(bytes, capacity, [], NO_HISTORY);
    r.Some? && r.value.0.out == input && r.value.1 == |bytes|
  }

  lemma FreshDecoder()
    ensures ValidHistory(NO_HISTORY) && InSync(NO_HISTORY, NO_HISTORY) && R.Small(NO_HISTORY.offsets)
    ensures NO_HISTORY.offsets == R.INITIAL
  {
  }

  lemma RunIsInput(bytes: seq<byte>, input: seq<byte>, next: History)
    requires BlocksCarry(bytes, true, [], input, NO_HISTORY, next)
    ensures RunDecodes(bytes, input)
  {
    hide BlocksCarry, ValidHistory, InSync, RunOf;
    FreshDecoder();
    forall capacity: nat | |input| <= capacity
      ensures DecodesTo(bytes, capacity, input)
    {
      var after := CarryOne(bytes, true, [], input, NO_HISTORY, next, [], capacity, NO_HISTORY);
      assert bytes + [] == bytes;
    }
  }

  /** The room all blocks need at most. */
  function RunSize(n: nat): nat {
    if n == 0 then BLOCK_HEADER_LENGTH else BlocksSize(n)
  }

  /** What the loop keeps: the size is paid for, the sections in the output are known, and if all of
      them fitted, the output carries the input so far. */
  ghost predicate Running(input: seq<byte>, blockStart: nat, output: seq<byte>, room: nat, now: History,
                          sections: seq<SectionWritten>) {
    && blockStart <= |input| && |output| <= room && R.Small(now.offsets)
    && |output| + BlocksSize(|input| - blockStart) <= BlocksSize(|input|)
    && SectionsIn(sections, output)
    && (AllFit(sections) ==> BlocksCarry(output, blockStart == |input|, [], input[..blockStart], NO_HISTORY, now))
  }

  /** A run in which every first pass fitted decodes to the input. */
  ghost predicate RunGood(bytes: seq<byte>, input: seq<byte>, sections: seq<SectionWritten>) {
    SectionsIn(sections, bytes) && (AllFit(sections) ==> RunDecodes(bytes, input))
  }

  lemma RunStarts(input: seq<byte>, room: nat)
    requires input != []
    ensures Running(input, 0, [], room, NO_HISTORY, [])
  {
    hide BlocksCarry, BlocksSize, InSync;
    FreshDecoder();
    CarryNothing([], NO_HISTORY);
    SizeStart(|input|);
    NoSections([]);
    assert input[..0] == [];
  }

  lemma RunEnds(input: seq<byte>, output: seq<byte>, room: nat, now: History, sections: seq<SectionWritten>)
    requires Running(input, |input|, output, room, now, sections)
    ensures RunGood(output, input, sections) && |output| <= BlocksSize(|input|) && |output| <= room
  {
    hide BlocksCarry, SectionsIn, AllFit, RunDecodes, BlocksSize;
    SizeStart(|input|);
    assert input[..|input|] == input;
    if AllFit(sections) {
      RunIsInput(output, input, now);
    }
  }

  /** One block more, whatever found it. */
  method AppendBlock(input: seq<byte>, blockStart: nat, blockEnd: nat, output: seq<byte>, room: nat,
                     workspace: EncodeWorkspace, found: Found, estimates: CostEstimates, ghost window: nat,
                     ghost now: History, ghost sections: seq<SectionWritten>)
    returns (newOutput: Option<seq<byte>>, ghost next: History, ghost added: seq<SectionWritten>, ghost b: BlockMade)
    requires Running(input, blockStart, output, room, now, sections) && workspace.Holds(now)
    requires blockStart < blockEnd <= |input| && blockEnd - blockStart <= MAX_BLOCK_SIZE
    requires blockEnd == |input| || blockEnd - blockStart == MAX_BLOCK_SIZE
             || |output| + MIN_SAVINGS_TO_SPLIT <= blockStart
    requires FoundFits(input[..blockEnd], blockStart, window, found, now.offsets) && R.Small(found.offsets)
    modifies workspace`huffmanTable, workspace`sequenceTables, workspace.repeatOffsets
    ensures room >= BlocksSize(|input|) ==> newOutput.Some?
    ensures newOutput.Some? ==>
              Running(input, blockEnd, newOutput.value, room, next, sections + added) && workspace.Holds(next)
    ensures newOutput.Some? ==> PiecesOf(added, found.records, Ends(found)) && newOutput.value == output + b.bytes
    ensures newOutput.Some? ==>
              && b == BlockMade(blockStart, blockEnd, found, now, b.bytes, b.whole, b.pieces, next) && |output| <= room
              && workspace.WrittenAs(Some(b.bytes), blockEnd == |input|, room - |output|, input[blockStart..blockEnd],
                                     found, blockStart != 0, b.whole, b.pieces,
                                     if blockStart == 0 then Restarted(now) else now)
              && next == workspace.HistoryLeft(blockEnd == |input|, room - |output|, input[blockStart..blockEnd], found,
                                               b.whole, b.pieces, if blockStart == 0 then Restarted(now) else now)
  {
    hide *;
    Limits();
    RunningParts(input, blockStart, output, room, now, sections);
    var block;
    assert input[..blockEnd][..blockStart] == input[..blockStart];
    ghost var whole, pieces;
    block, next, added, whole, pieces := workspace.WriteBlock(input[..blockEnd], blockStart, blockEnd == |input|,
                                                             room - |output|, found, estimates, window, now);
    b := BlockMade(blockStart, blockEnd, found, now, if block.Some? then block.value else [], whole, pieces, next);
    RestartedIs(now);
    assert input[..blockEnd][blockStart..] == input[blockStart..blockEnd];
    SizeStep(|input|, blockStart, |output|, blockEnd - blockStart, if block.Some? then |block.value| else 0);
    if block.None? {
      return None, next, added, b;
    }
    InBoth(sections, output, added, block.value);
    FitBoth(sections, added);
    if AllFit(sections + added) {
      CarryBoth(output, block.value, blockEnd == |input|, [], input[..blockStart], input[..blockEnd], NO_HISTORY, now,
                next);
    }
    newOutput := Some(output + block.value);
    RunningWhen(input, blockEnd, newOutput.value, room, next, sections + added);
  }

  lemma RunningParts(input: seq<byte>, blockStart: nat, output: seq<byte>, room: nat, now: History,
                     sections: seq<SectionWritten>)
    requires Running(input, blockStart, output, room, now, sections)
    ensures blockStart <= |input| && |output| <= room && R.Small(now.offsets)
    ensures |output| + BlocksSize(|input| - blockStart) <= BlocksSize(|input|) && SectionsIn(sections, output)
    ensures AllFit(sections) ==> BlocksCarry(output, blockStart == |input|, [], input[..blockStart], NO_HISTORY, now)
  {
    hide BlocksCarry, SectionsIn, AllFit, BlocksSize, R.Small;
  }

  lemma RunningWhen(input: seq<byte>, blockStart: nat, output: seq<byte>, room: nat, now: History,
                    sections: seq<SectionWritten>)
    requires blockStart <= |input| && |output| <= room && R.Small(now.offsets)
    requires |output| + BlocksSize(|input| - blockStart) <= BlocksSize(|input|) && SectionsIn(sections, output)
    requires AllFit(sections) ==> BlocksCarry(output, blockStart == |input|, [], input[..blockStart], NO_HISTORY, now)
    ensures Running(input, blockStart, output, room, now, sections)
  {
    hide BlocksCarry, SectionsIn, AllFit, BlocksSize, R.Small;
  }

  /** The one empty block of an empty input. */
  method CompressNothing(room: nat, workspace: EncodeWorkspace, estimates: CostEstimates)
    returns (bytes: Option<seq<byte>>, ghost sections: seq<SectionWritten>)
    requires workspace.Holds(NO_HISTORY)
    modifies workspace`huffmanTable, workspace`sequenceTables, workspace.repeatOffsets
    ensures room >= RunSize(0) ==> bytes.Some?
    ensures bytes.Some? ==> |bytes.value| <= RunSize(0) && |bytes.value| <= room && RunGood(bytes.value, [], sections)
    ensures bytes.Some? ==> sections == []
    ensures bytes == if room < 3 then None else Some(WriteBlockHeader(BlockHeader(RawBlock, 0, true)))
  {
    hide *;
    Limits();
    FreshDecoder();
    JustLiteralsFit([], 0, 0, R.INITIAL);
    ghost var now;
    var nothing: seq<byte> := [];
    var found := Found(nothing[0..], [], R.INITIAL, []);
    ghost var whole, pieces;
    bytes, now, sections, whole, pieces := workspace.WriteBlock(nothing, 0, true, room, found, estimates, 0,
                                                                NO_HISTORY);
    NothingSize();
    workspace.WrittenNothing(bytes, true, room, nothing[0..], found, false, whole, pieces,
                             History(None, HeldTables(None, None, None), NO_HISTORY.offsets));
    if bytes.Some? {
      assert nothing[..0] == [];
      PiecesNeedRecords(sections, found.records, Ends(found));
      GoodWhen(bytes.value, [], sections, now);
    }
  }

  lemma PiecesNeedRecords(sections: seq<SectionWritten>, records: seq<SequenceRecord>, ends: seq<nat>)
    requires PiecesOf(sections, records, ends)
    ensures sections != [] ==> records != []
  {
    if sections != [] {
      assert PieceOf(sections[0].records, records, ends);
    }
  }

  lemma NothingSize()
    ensures RunSize(0) == 3
  {
  }

  lemma GoodWhen(bytes: seq<byte>, input: seq<byte>, sections: seq<SectionWritten>, now: History)
    requires SectionsIn(sections, bytes) && (AllFit(sections) ==> BlocksCarry(bytes, true, [], input, NO_HISTORY, now))
    ensures RunGood(bytes, input, sections)
  {
    hide BlocksCarry, SectionsIn, AllFit, RunDecodes;
    if AllFit(sections) {
      RunIsInput(bytes, input, now);
    }
  }

  /** `compress_blocks`: for any finder that parses its blocks, any splits and any estimates, a buffer
      of the maximum size is enough. Every sequences section holds records the finder answered with.
      What is written decodes to the input if all first passes fitted, as they do for every finder
      whose answers end with short records. */
  method CompressBlocks(input: seq<byte>, room: nat, workspace: EncodeWorkspace, presplits: bool,
                        finder: (nat, nat, R.History) -> Found, estimates: nat -> CostEstimates,
                        isTooDifferent: nat -> (nat -> bool), ghost window: nat)
    returns (bytes: Option<seq<byte>>, ghost sections: seq<SectionWritten>, ghost blocks: seq<BlockMade>)
    requires workspace.Holds(NO_HISTORY) && FinderFits(input, window, finder)
    modifies workspace`huffmanTable, workspace`sequenceTables, workspace.repeatOffsets
    ensures room >= RunSize(|input|) ==> bytes.Some?
    ensures bytes.Some? ==> |bytes.value| <= RunSize(|input|) && |bytes.value| <= room
    ensures bytes.Some? ==> SectionsIn(sections, bytes.value) && FromFinder(sections, input, finder)
    ensures input == [] ==> bytes == if room < 3 then None else Some(WriteBlockHeader(BlockHeader(RawBlock, 0, true)))
    ensures bytes.Some? && input != [] ==>
              && bytes.value == BytesOf(blocks) && EndOf(blocks) == |input|
              && BlocksFollow(workspace, input, room, presplits, isTooDifferent, blocks)
              && forall k :: 0 <= k < |blocks| ==>
                   blocks[k].found == finder(blocks[k].start, blocks[k].end, blocks[k].history.offsets)
    ensures bytes.Some? && FinderShort(input, finder) ==> AllFit(sections)
    ensures bytes.Some? && AllFit(sections) ==> RunDecodes(bytes.value, input)
  {
    hide *;
    NoneFound(input, finder);
    blocks := [];
    NoBlocks(workspace, input, room, presplits, isTooDifferent);
    if input == [] {
      bytes, sections := CompressNothing(room, workspace, estimates(0));
      GoodParts(input, bytes, sections);
      NoSections([]);
      return;
    }
    ghost var now;
    var output: seq<byte>;
    output, now, sections := [], NO_HISTORY, [];
    var blockStart, savings := 0, 0;
    RunStarts(input, room);
    RunSizeIs(|input|);
    while blockStart < |input|
      modifies workspace`huffmanTable, workspace`sequenceTables, workspace.repeatOffsets
      invariant blockStart <= |input| && savings == blockStart - |output|
      invariant workspace.Holds(now) && Running(input, blockStart, output, room, now, sections)
      invariant FromFinder(sections, input, finder)
      invariant BlocksFollow(workspace, input, room, presplits, isTooDifferent, blocks) && now == HistoryBehind(blocks)
      invariant EndOf(blocks) == blockStart && BytesOf(blocks) == output
      invariant forall k :: 0 <= k < |blocks| ==>
                  blocks[k].found == finder(blocks[k].start, blocks[k].end, blocks[k].history.offsets)
    {
      assert allocated(workspace.sequenceTables.ll.table) && allocated(workspace.sequenceTables.of.table)
             && allocated(workspace.sequenceTables.ml.table);
      var blockLength := FindNextBlockLength(|input| - blockStart, savings, presplits, isTooDifferent(blockStart));
      var blockEnd := blockStart + blockLength;
      RunningParts(input, blockStart, output, room, now, sections);
      Limits();
      var offsets := OffsetsOf(workspace, now);
      FinderAt(input, window, finder, blockStart, blockEnd, offsets);
      var longer;
      ghost var added, b;
      ghost var before := now;
      longer, now, added, b := AppendBlock(input, blockStart, blockEnd, output, room, workspace,
                                        finder(blockStart, blockEnd, offsets), estimates(blockStart), window, now,
                                        sections);
      if longer.None? {
        return None, sections, blocks;
      }
      MoreFromFinder(sections, added, input, finder, blockStart, blockEnd, offsets);
      sections := sections + added;
      BlockFollowsWhen(workspace, input, room, presplits, isTooDifferent, blockStart, |output|, b);
      OneMoreBlock(workspace, input, room, presplits, isTooDifferent, blocks, b);
      blocks := blocks + [b];
      savings := savings + blockLength - (|longer.value| - |output|);
      output := longer.value;
      blockStart := blockEnd;
    }
    RunEnds(input, output, room, now, sections);
    bytes := Some(output);
    GoodParts(input, bytes, sections);
    if FinderShort(input, finder) {
      ShortFinderFits(sections, output, input, finder);
    }
  }

  method OffsetsOf(workspace: EncodeWorkspace, ghost now: History) returns (offsets: R.History)
    requires workspace.Holds(now)
    ensures offsets == now.offsets
  {
    hide *;
    workspace.HoldsParts(now);
    OffsetsAre(workspace.repeatOffsets);
    offsets := R.History(workspace.repeatOffsets.first, workspace.repeatOffsets.second, workspace.repeatOffsets.third);
  }

  lemma GoodParts(input: seq<byte>, bytes: Option<seq<byte>>, sections: seq<SectionWritten>)
    ensures bytes.Some? && RunGood(bytes.value, input, sections) ==>
              SectionsIn(sections, bytes.value) && (AllFit(sections) ==> RunDecodes(bytes.value, input))
  {
    hide SectionsIn, AllFit, RunDecodes;
  }

  lemma RunSizeIs(n: nat)
    requires n > 0
    ensures RunSize(n) == BlocksSize(n)
  {
  }

  lemma Limits()
    ensures MAX_BLOCK_SIZE == 131072 && MIN_SAVINGS_TO_SPLIT == 3 && BLOCK_HEADER_LENGTH == 3
  {
  }

  lemma SizeStart(n: nat)
    ensures 0 + BlocksSize(n - 0) <= BlocksSize(n)
    ensures BlocksSize(0) == 0 && BlocksSize(n) >= n
  {
  }

  /** A buffer of `get_max_compressed_size` leaves the blocks all the room they may need. */
  lemma BufferSuffices(inputLength: nat, withChecksum: bool, headerLength: nat)
    requires headerLength <= MAX_FRAME_HEADER_LENGTH
    ensures var checksumLength := if withChecksum then ZSTD_CHECKSUM_LENGTH else 0;
            GetMaxCompressedSize(inputLength, withChecksum) - headerLength - checksumLength >= RunSize(inputLength)
  {
  }

  /** Compressing and decompressing: any output buffer of the input's length or more receives the
      input, if all first passes fitted; and so it does for every finder whose answers end with short
      records, and for every short input, whatever the finder. */
  method RoundTrip(input: seq<byte>, room: nat, encoder: EncodeWorkspace, presplits: bool,
                   finder: (nat, nat, R.History) -> Found, estimates: nat -> CostEstimates,
                   isTooDifferent: nat -> (nat -> bool), output: array<byte>, ghost window: nat)
    returns (compressed: seq<byte>, ok: bool, length: nat, ghost sections: seq<SectionWritten>)
    requires encoder.Holds(NO_HISTORY) && FinderFits(input, window, finder) && |input| <= output.Length
    requires room >= RunSize(|input|)
    modifies encoder`huffmanTable, encoder`sequenceTables, encoder.repeatOffsets, output
    ensures |compressed| <= RunSize(|input|) && SectionsIn(sections, compressed) && FromFinder(sections, input, finder)
    ensures FinderShort(input, finder) || |input| <= ROOMY_INPUT ==>
              ok && length <= output.Length && output[..length] == input
    ensures AllFit(sections) ==> ok && length <= output.Length && output[..length] == input
  {
    hide *;
    if |input| <= ROOMY_INPUT {
      ShortInput(input, window, finder);
    }
    var bytes;
    ghost var blocks;
    bytes, sections, blocks := CompressBlocks(input, room, encoder, presplits, finder, estimates, isTooDifferent,
                                              window);
    compressed := bytes.value;
    ok, length := Decompress(compressed, input, output, sections);
  }

  method Decompress(compressed: seq<byte>, ghost input: seq<byte>, output: array<byte>,
                    ghost sections: seq<SectionWritten>)
    returns (ok: bool, length: nat)
    requires |input| <= output.Length && (AllFit(sections) ==> RunDecodes(compressed, input))
    modifies output
    ensures AllFit(sections) ==> ok && length <= output.Length && output[..length] == input
  {
    hide *;
    FreshDecoder();
    if AllFit(sections) {
      RunAt(compressed, input, output.Length);
    }
    var decoder := new BlockWorkspace();
    var used;
    ok, used, length := decoder.DecodeBlockSequence(compressed, output, NO_HISTORY);
  }

  lemma RunAt(bytes: seq<byte>, input: seq<byte>, capacity: nat)
    requires RunDecodes(bytes, input) && |input| <= capacity
    ensures ValidHistory(NO_HISTORY)
    ensures var r := RunOf(bytes, capacity, [], NO_HISTORY);
            r.Some? && r.value.0.out == input && r.value.1 == |bytes|
  {
    hide ValidHistory, RunOf;
    assert DecodesTo(bytes, capacity, input);
  }

  // ---------------------------------------------------------------- the run with the fast finder

  /** What the fast finder returns for a block is fit to write, unsplit. */
  lemma ParseFits(input: seq<byte>, blockStart: nat, window: nat, literals: seq<byte>, records: seq<SequenceRecord>,
                  from: R.History, to: R.History)
    requires Parses(input, blockStart, window, literals, records, from, to)
    ensures FoundFits(input, blockStart, window, Found(literals, records, to, []), from)
  {
    hide Parses;
  }

  /** The answer of the fast finder for a block, from its entries and the offsets it starts with. */
  ghost predicate FastAnswer(input: seq<byte>, blockStart: nat, table: Table, window: nat, entries: seq<nat>,
                             offsets: R.History, capacity: nat, found: Found, after: seq<nat>)
    requires blockStart < |input|
  {
    var content := input[blockStart..];
    if content == seq(|content|, _ => content[0]) then found == Found(content, [], offsets, []) && after == entries
    else
      var end := SearchOf(input, table, blockStart, window, entries, offsets, capacity);
      found.records == RecordsOf(offsets, blockStart, end.taken) && found.splitPoints == [] && after == end.entries
  }

  lemma FastAnswerIs(input: seq<byte>, blockStart: nat, table: Table, window: nat, entries: seq<nat>,
                     offsets: R.History, capacity: nat, found: Found, after: seq<nat>)
    requires blockStart < |input|
    ensures FastAnswer(input, blockStart, table, window, entries, offsets, capacity, found, after)
       <==> var content := input[blockStart..];
            if content == seq(|content|, _ => content[0]) then
              found == Found(content, [], offsets, []) && after == entries
            else
              var end := SearchOf(input, table, blockStart, window, entries, offsets, capacity);
              && found.records == RecordsOf(offsets, blockStart, end.taken) && found.splitPoints == []
              && after == end.entries
  {
    hide SearchOf, RecordsOf;
  }

  /** Every block of a run has the fast finder's answer, from the entries the one before left. */
  ghost predicate FastRun(input: seq<byte>, window: nat, table: Table, capacity: nat, blocks: seq<BlockMade>,
                          entries: seq<seq<nat>>) {
    && |entries| == |blocks| + 1
    && forall k :: 0 <= k < |blocks| ==>
         && blocks[k].start < blocks[k].end <= |input|
         && FastAnswer(input[..blocks[k].end], blocks[k].start, table, window, entries[k], blocks[k].history.offsets,
                       capacity, blocks[k].found, entries[k + 1])
  }

  lemma NoFastRun(input: seq<byte>, window: nat, table: Table, capacity: nat, entries: seq<nat>)
    ensures FastRun(input, window, table, capacity, [], [entries])
  {
  }

  lemma OneMoreFast(input: seq<byte>, window: nat, table: Table, capacity: nat, blocks: seq<BlockMade>,
                    entries: seq<seq<nat>>, b: BlockMade, after: seq<nat>)
    requires FastRun(input, window, table, capacity, blocks, entries) && b.start < b.end <= |input|
    requires FastAnswer(input[..b.end], b.start, table, window, entries[|blocks|], b.history.offsets, capacity, b.found,
                        after)
    ensures FastRun(input, window, table, capacity, blocks + [b], entries + [after])
    ensures (entries + [after])[|blocks + [b]|] == after
  {
    hide FastAnswer;
  }

  /** The finder at one block; blocks that are stored as they are never reach it. */
  method FindBlock(input: seq<byte>, blockStart: nat, finder: FastFinder, sequences: array<SequenceRecord>,
                   offsets: R.History)
    returns (found: Found)
    requires finder.Valid() && blockStart < |input| <= finder.lastInputLength && |input| - blockStart <= MAX_BLOCK_SIZE
    requires R.Small(offsets)
    modifies finder.positions, sequences
    ensures finder.Valid() && R.Small(found.offsets)
    ensures FoundFits(input, blockStart, Pow2(finder.windowLog), found, offsets)
    ensures FastAnswer(input, blockStart, finder.TableNow(), Pow2(finder.windowLog), old(finder.positions[..]), offsets,
                       sequences.Length, found, finder.positions[..])
  {
    hide *;
    finder.ValidParts();
    ghost var entries := finder.positions[..];
    var content := input[blockStart..];
    var uniform := IsUniform(content);
    if uniform {
      JustLiteralsFit(input, blockStart, Pow2(finder.windowLog), offsets);
      FastAnswerIs(input, blockStart, finder.TableNow(), Pow2(finder.windowLog), entries, offsets, sequences.Length,
                   Found(content, [], offsets, []), entries);
      return Found(content, [], offsets, []);
    }
    var scratch := new R.RepeatOffsets();
    scratch.first, scratch.second, scratch.third := offsets.first, offsets.second, offsets.third;
    OffsetsAre(scratch);
    var count, literals := finder.FindSequences(input, blockStart, sequences, scratch);
    OffsetsAre(scratch);
    found := Found(literals, sequences[..count], R.History(scratch.first, scratch.second, scratch.third), []);
    ParseFits(input, blockStart, Pow2(finder.windowLog), literals, sequences[..count], offsets, found.offsets);
    FastAnswerIs(input, blockStart, finder.TableNow(), Pow2(finder.windowLog), entries, offsets, sequences.Length,
                 found, finder.positions[..]);
  }

  /** The whole encoder run of the fast level over one input: the finder is reset, whatever inputs it
      has seen before, and every block is found, written and appended. */
  method CompressFast(input: seq<byte>, room: nat, workspace: EncodeWorkspace, presplits: bool, finder: FastFinder,
                      sequences: array<SequenceRecord>, windowLog: nat, hashLog: nat, minMatch: nat,
                      estimates: nat -> CostEstimates, isTooDifferent: nat -> (nat -> bool))
    returns (bytes: Option<seq<byte>>, ghost sections: seq<SectionWritten>, ghost blocks: seq<BlockMade>,
             ghost entries: seq<seq<nat>>)
    requires workspace.Holds(NO_HISTORY) && finder.Valid() && windowLog <= 27 && hashLog >= 1
    modifies workspace`huffmanTable, workspace`sequenceTables, workspace.repeatOffsets, finder, finder.positions
    modifies sequences
    ensures finder.Valid()
    ensures room >= RunSize(|input|) ==> bytes.Some?
    ensures bytes.Some? ==> |bytes.value| <= RunSize(|input|) && |bytes.value| <= room
    ensures bytes.Some? ==> SectionsIn(sections, bytes.value) && FromParses(sections, input, Pow2(windowLog))
    ensures input == [] ==> bytes == if room < 3 then None else Some(WriteBlockHeader(BlockHeader(RawBlock, 0, true)))
    ensures bytes.Some? && input != [] ==>
              && bytes.value == BytesOf(blocks) && EndOf(blocks) == |input|
              && BlocksFollow(workspace, input, room, presplits, isTooDifferent, blocks)
              && finder.firstIndex <= R.U32 && finder.hashLog <= MAX_HASH_LOG
              && FastRun(input, Pow2(windowLog), finder.TableNow(), sequences.Length, blocks, entries)
              && entries[|blocks|] == finder.positions[..]
    ensures bytes.Some? && |input| <= ROOMY_INPUT ==> AllFit(sections)
    ensures bytes.Some? && AllFit(sections) ==> RunDecodes(bytes.value, input)
  {
    hide *;
    assert allocated(workspace.sequenceTables.ll.table) && allocated(workspace.sequenceTables.of.table)
           && allocated(workspace.sequenceTables.ml.table);
    finder.Reset(|input|, windowLog, hashLog, minMatch);
    finder.ValidParts();
    blocks, entries := [], [finder.positions[..]];
    NoBlocks(workspace, input, room, presplits, isTooDifferent);
    NoFastRun(input, Pow2(windowLog), finder.TableNow(), sequences.Length, finder.positions[..]);
    NoneParsed(input, Pow2(windowLog));
    if input == [] {
      bytes, sections := CompressNothing(room, workspace, estimates(0));
      GoodParts(input, bytes, sections);
      NoSections([]);
      return;
    }
    ghost var now;
    var output: seq<byte>;
    output, now, sections := [], NO_HISTORY, [];
    var blockStart, savings := 0, 0;
    RunStarts(input, room);
    RunSizeIs(|input|);
    while blockStart < |input|
      modifies workspace`huffmanTable, workspace`sequenceTables, workspace.repeatOffsets, finder.positions, sequences
      invariant blockStart <= |input| && savings == blockStart - |output|
      invariant workspace.Holds(now) && Running(input, blockStart, output, room, now, sections)
      invariant finder.Valid() && finder.lastInputLength == |input| && finder.windowLog == windowLog
      invariant FromParses(sections, input, Pow2(windowLog))
      invariant BlocksFollow(workspace, input, room, presplits, isTooDifferent, blocks) && now == HistoryBehind(blocks)
      invariant EndOf(blocks) == blockStart && BytesOf(blocks) == output
      invariant finder.firstIndex <= R.U32 && finder.hashLog <= MAX_HASH_LOG && |entries| == |blocks| + 1
      invariant FastRun(input, Pow2(windowLog), finder.TableNow(), sequences.Length, blocks, entries)
      invariant entries[|blocks|] == finder.positions[..]
    {
      assert allocated(workspace.sequenceTables.ll.table) && allocated(workspace.sequenceTables.of.table)
             && allocated(workspace.sequenceTables.ml.table);
      var blockLength := FindNextBlockLength(|input| - blockStart, savings, presplits, isTooDifferent(blockStart));
      var blockEnd := blockStart + blockLength;
      RunningParts(input, blockStart, output, room, now, sections);
      Limits();
      var offsets := OffsetsOf(workspace, now);
      var found := FindBlock(input[..blockEnd], blockStart, finder, sequences, offsets);
      AskedWhen(input, blockStart, blockEnd, offsets);
      var longer;
      ghost var added, b;
      longer, now, added, b := AppendBlock(input, blockStart, blockEnd, output, room, workspace, found,
                                        estimates(blockStart), Pow2(windowLog), now, sections);
      if longer.None? {
        return None, sections, blocks, entries;
      }
      MoreFromParses(sections, added, input, Pow2(windowLog), blockStart, blockEnd, offsets, found);
      sections := sections + added;
      BlockFollowsWhen(workspace, input, room, presplits, isTooDifferent, blockStart, |output|, b);
      OneMoreBlock(workspace, input, room, presplits, isTooDifferent, blocks, b);
      OneMoreFast(input, Pow2(windowLog), finder.TableNow(), sequences.Length, blocks, entries, b,
                  finder.positions[..]);
      blocks, entries := blocks + [b], entries + [finder.positions[..]];
      savings := savings + blockLength - (|longer.value| - |output|);
      output := longer.value;
      blockStart := blockEnd;
    }
    RunEnds(input, output, room, now, sections);
    bytes := Some(output);
    GoodParts(input, bytes, sections);
    if |input| <= ROOMY_INPUT {
      ShortParsesFit(sections, output, input, Pow2(windowLog));
    }
  }

  /** With the fast finder and the decoder, from any state the finder may be in: the input comes back
      if every first pass fitted, and so every short input does. */
  method RoundTripFast(input: seq<byte>, room: nat, encoder: EncodeWorkspace, presplits: bool, finder: FastFinder,
                       sequences: array<SequenceRecord>, windowLog: nat, hashLog: nat, minMatch: nat,
                       estimates: nat -> CostEstimates, isTooDifferent: nat -> (nat -> bool), output: array<byte>)
    returns (compressed: seq<byte>, ok: bool, length: nat, ghost sections: seq<SectionWritten>)
    requires encoder.Holds(NO_HISTORY) && finder.Valid() && windowLog <= 27 && hashLog >= 1
    requires |input| <= output.Length && room >= RunSize(|input|)
    modifies encoder`huffmanTable, encoder`sequenceTables, encoder.repeatOffsets, finder, finder.positions, sequences
    modifies output
    ensures |compressed| <= RunSize(|input|) && SectionsIn(sections, compressed)
    ensures FromParses(sections, input, Pow2(windowLog))
    ensures |input| <= ROOMY_INPUT ==> ok && length <= output.Length && output[..length] == input
    ensures AllFit(sections) ==> ok && length <= output.Length && output[..length] == input
  {
    hide *;
    var bytes;
    ghost var blocks, entries;
    bytes, sections, blocks, entries := CompressFast(input, room, encoder, presplits, finder, sequences, windowLog,
                                                     hashLog, minMatch, estimates, isTooDifferent);
    compressed := bytes.value;
    ok, length := Decompress(compressed, input, output, sections);
  }
}
