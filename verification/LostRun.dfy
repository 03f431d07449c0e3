/** A block run that does not come back. Five blocks, of which a finder finds the two records of
    module `FirstPass` in the last: the block writer commits them, and every decoder rejects what it
    has written. */
module LostRun {
  import opened Bits
  import opened BitReader
  import opened MatchCopy
  import opened SectionHeaders
  import opened LiteralsSection
  import opened LiteralsChoice
  import opened LiteralsWriter
  import opened SequenceBits
  import opened SequenceExecution
  import opened SequencesSection
  import opened SequencesWriter
  import opened ValidParse
  import opened ParsePieces
  import opened BlockReader
  import opened BlockWriter
  import opened BlockRun
  import opened FirstPass
  import R = RepeatOffsets

  // ---------------------------------------------------------------- what every decoder makes of such a block

  /** The sequences section of the two records means nothing, whatever the literals. */
  lemma SequencesLost(bytes: seq<byte>, before: HeldTables, literals: seq<byte>, capacity: nat, out: seq<byte>,
                      history: R.History, decoder: HeldTables)
    requires ValidTables(DefaultTables()) && CoversAll(DefaultTables(), [EARLY, LAST])
    requires SectionHolds(bytes, [EARLY, LAST], DefaultTables(), before)
    requires ValidTablesHeld(decoder) && TablesAgree(before, decoder)
    ensures SequencesOf(bytes, literals, capacity, out, history, decoder).None?
  {
    hide *;
    var t := DefaultTables();
    var k, past := HoldsAt(bytes, [EARLY, LAST], t, before);
    var header := ReadSequencesHeader(bytes).value;
    var body := bytes[header.headerLength..];
    assert body[k - header.headerLength..] == bytes[k..];
    AnnouncedTo(bytes, 2, t, before, k, decoder);
    SequencesIs(bytes, literals, capacity, out, history, decoder);
    ExecutedIs(t, bytes[k..], 2, literals, capacity, out, history);
    SectionRejected(bytes[k..], past, Env(literals, |out|, capacity), Machine(out, 0, history));
  }

  lemma BodyLost(body: seq<byte>, cut: nat, literals: seq<byte>, from: History, huffman: Option<HuffmanTable>,
                 capacity: nat, out: seq<byte>, h: History)
    requires ValidHistory(h) && InSync(from, h) && cut <= |body|
    requires Carries(body[..cut], literals, from.huffman, huffman)
    requires ValidTables(DefaultTables()) && CoversAll(DefaultTables(), [EARLY, LAST])
    requires SectionHolds(body[cut..], [EARLY, LAST], DefaultTables(), from.tables)
    ensures CompressedOf(body, capacity, out, h).None?
  {
    hide *;
    SyncParts(from, h);
    assert body[..cut] + body[cut..] == body;
    LiteralsCarried(body[..cut], literals, from.huffman, huffman, body[cut..], h.huffman);
    CompressedParts(body, capacity, out, h);
    SequencesLost(body[cut..], from.tables, literals, capacity, out, h.offsets, h.tables);
  }

  /** No decoder in step decodes the block, whatever follows it and however much room there is. */
  lemma AloneLost(bytes: seq<byte>, isLast: bool, literals: seq<byte>, from: History, rest: seq<byte>, capacity: nat,
                  out: seq<byte>, h: History)
    requires Alone(bytes, isLast, literals, [EARLY, LAST], from) && ValidHistory(h) && InSync(from, h)
    ensures RunOf(bytes + rest, capacity, out, h).None?
  {
    hide *;
    var body, cut, huffman := AloneParts(bytes, isLast, literals, [EARLY, LAST], from);
    var header := BlockHeader(CompressedBlock, |body|, isLast);
    BodyLost(body, cut, literals, from, huffman, capacity, out, h);
    PayloadIs(header);
    BlockInFront(header, body, rest);
    BlockIsBody(header, body, capacity, out, h);
    RunStep(WriteBlockHeader(header) + body + rest, capacity, out, h);
  }

  lemma AloneParts(bytes: seq<byte>, isLast: bool, literals: seq<byte>, records: seq<SequenceRecord>, h: History)
    returns (body: seq<byte>, cut: nat, huffman: Option<HuffmanTable>)
    requires Alone(bytes, isLast, literals, records, h)
    ensures bytes == WriteBlockHeader(BlockHeader(CompressedBlock, |body|, isLast)) + body
    ensures cut <= |body| <= MAX_BLOCK_SIZE && Carries(body[..cut], literals, h.huffman, huffman)
    ensures records != [] && ValidTables(DefaultTables()) && CoversAll(DefaultTables(), records)
    ensures SectionHolds(body[cut..], records, DefaultTables(), h.tables)
  {
    hide WriteBlockHeader, Carries, DefaultTables, ValidTables, CoversAll, SectionHolds;
    body, cut, huffman :| AloneAt(bytes, isLast, literals, records, h, body, cut, huffman);
  }

  lemma PayloadIs(header: BlockHeader)
    requires header.blockType.CompressedBlock?
    ensures PayloadLength(header) == header.blockSize
  {
  }

  lemma BlockIsBody(header: BlockHeader, body: seq<byte>, capacity: nat, out: seq<byte>, h: History)
    requires header.blockType.CompressedBlock? && header.blockSize == |body| && ValidHistory(h)
    ensures |body| == PayloadLength(header)
    ensures BlockOf(header, body, capacity, out, h) == CompressedOf(body, capacity, out, h)
  {
    hide CompressedOf, ValidHistory;
  }

  // ---------------------------------------------------------------- the input

  const PAST_LENGTH := 524288
  const EARLY_LENGTH := 13
  const LITERALS_USED := 65549

  /** Four blocks of any bytes, and the literals of a fifth, which with the 32774 bytes of the two
      matches is not longer than a block. */
  predicate Suits(past: seq<byte>, literals: seq<byte>) {
    |past| == PAST_LENGTH && LITERALS_USED <= |literals| <= 98298 && literals[0] != literals[1]
  }

  /** The literals up to the first match, and the match, one byte back. */
  function AfterEarly(past: seq<byte>, literals: seq<byte>): (s: seq<byte>)
    requires Suits(past, literals)
    ensures |s| == PAST_LENGTH + 16 && s[..PAST_LENGTH + 13] == past + literals[..EARLY_LENGTH]
  {
    CopyMatch(past + literals[..EARLY_LENGTH], 1, 3)
  }

  /** The literals up to the second match, and the match, far back. */
  function AfterLast(past: seq<byte>, literals: seq<byte>): (s: seq<byte>)
    requires Suits(past, literals)
    ensures |s| == PAST_LENGTH + 98323 && s[..PAST_LENGTH + 16] == AfterEarly(past, literals)
  {
    var out := AfterEarly(past, literals) + literals[EARLY_LENGTH..LITERALS_USED];
    var all := CopyMatch(out, 524285, 32771);
    assert all[..PAST_LENGTH + 16] == all[..|out|][..PAST_LENGTH + 16];
    all
  }

  function LostInput(past: seq<byte>, literals: seq<byte>): (s: seq<byte>)
    requires Suits(past, literals)
    ensures |s| == PAST_LENGTH + |literals| + 32774 <= PAST_LENGTH + MAX_BLOCK_SIZE && s[..PAST_LENGTH] == past
    ensures s[PAST_LENGTH] == literals[0] && s[PAST_LENGTH + 1] == literals[1]
  {
    var s := AfterLast(past, literals) + literals[LITERALS_USED..];
    assert s[..PAST_LENGTH + 13] == AfterLast(past, literals)[..PAST_LENGTH + 16][..PAST_LENGTH + 13];
    assert s[..PAST_LENGTH] == s[..PAST_LENGTH + 13][..PAST_LENGTH];
    assert s[PAST_LENGTH] == s[..PAST_LENGTH + 13][PAST_LENGTH]
           && s[PAST_LENGTH + 1] == s[..PAST_LENGTH + 13][PAST_LENGTH + 1];
    s
  }

  /** The two records are a parse of the fifth block, whatever the repeat offsets. */
  lemma LostParse(past: seq<byte>, literals: seq<byte>, window: nat, from: R.History)
    requires Suits(past, literals) && window >= 524285
    ensures FoundFits(LostInput(past, literals), PAST_LENGTH, window,
                      Found(literals, [EARLY, LAST], R.After(R.After(from, 4, 13), 524288, 65536), []), from)
  {
    hide AfterEarly, AfterLast, LostInput, TakeRest, ExecuteOne, R.OffsetOf, R.After, ValidRecord;
    var input := LostInput(past, literals);
    assert input[..PAST_LENGTH] == past;
    var env, start := Env(literals, PAST_LENGTH, |input|), Machine(past, 0, from);
    EarlyStep(past, literals, from);
    LastStep(past, literals, R.After(from, 4, 13));
    var middle := Machine(AfterEarly(past, literals), EARLY_LENGTH, R.After(from, 4, 13));
    var end := Machine(AfterLast(past, literals), LITERALS_USED, R.After(R.After(from, 4, 13), 524288, 65536));
    RecordsInWindow(from, R.After(from, 4, 13), window);
    assert [EARLY, LAST][1..] == [LAST] && [LAST][1..] == [];
    assert ExecuteAll(env, middle, [LAST]) == Some(end) && Reaches(env, middle, [LAST], end, window);
    assert ExecuteAll(env, start, [EARLY, LAST]) == Some(end) && Reaches(env, start, [EARLY, LAST], end, window);
    LastLiterals(past, literals, end.history);
  }

  lemma EarlyStep(past: seq<byte>, literals: seq<byte>, from: R.History)
    requires Suits(past, literals)
    ensures ExecuteOne(Env(literals, PAST_LENGTH, |LostInput(past, literals)|), Machine(past, 0, from), EARLY)
         == Some(Machine(AfterEarly(past, literals), EARLY_LENGTH, R.After(from, 4, 13)))
  {
    hide CopyMatch, LostInput, AfterLast;
    assert literals[0..13] == literals[..13];
  }

  lemma LastStep(past: seq<byte>, literals: seq<byte>, history: R.History)
    requires Suits(past, literals)
    ensures ExecuteOne(Env(literals, PAST_LENGTH, |LostInput(past, literals)|),
                       Machine(AfterEarly(past, literals), EARLY_LENGTH, history), LAST)
         == Some(Machine(AfterLast(past, literals), LITERALS_USED, R.After(history, 524288, 65536)))
  {
    hide CopyMatch, LostInput, AfterEarly;
  }

  lemma LastLiterals(past: seq<byte>, literals: seq<byte>, history: R.History)
    requires Suits(past, literals)
    ensures var input := LostInput(past, literals);
            TakeRest(Env(literals, PAST_LENGTH, |input|), Machine(AfterLast(past, literals), LITERALS_USED, history))
            == Some(Machine(input, |literals|, history))
  {
    hide AfterLast;
    assert literals[LITERALS_USED..] == [] ==>
      AfterLast(past, literals) + literals[LITERALS_USED..] == AfterLast(past, literals);
  }

  lemma RecordsInWindow(from: R.History, middle: R.History, window: nat)
    requires window >= 524285
    ensures ValidRecord(EARLY) && R.OffsetOf(from, EARLY.offsetValue, EARLY.literalLength) <= window
    ensures ValidRecord(LAST) && R.OffsetOf(middle, LAST.offsetValue, LAST.literalLength) <= window
  {
  }

  // ---------------------------------------------------------------- the finder

  /** Nothing anywhere, except the two records in the fifth block. */
  function LostFinder(past: seq<byte>, literals: seq<byte>): (nat, nat, R.History) -> Found
    requires Suits(past, literals)
  {
    var input := LostInput(past, literals);
    (start: nat, end: nat, offsets: R.History) =>
      if start == PAST_LENGTH && end == |input| then
        Found(literals, [EARLY, LAST], R.After(R.After(offsets, 4, 13), 524288, 65536), [])
      else if start <= end <= |input| then Found(input[start..end], [], offsets, [])
      else Found([], [], offsets, [])
  }

  /** It is a finder as the block run wants it. */
  lemma LostFinderFits(past: seq<byte>, literals: seq<byte>, window: nat)
    requires Suits(past, literals) && window >= 524285
    ensures FinderFits(LostInput(past, literals), window, LostFinder(past, literals))
  {
    hide FoundFits, LostInput, Suits;
    var input, finder := LostInput(past, literals), LostFinder(past, literals);
    forall start: nat, end: nat, offsets: R.History | Asked(input, start, end, offsets)
      ensures FoundFits(input[..end], start, window, finder(start, end, offsets), offsets)
      ensures R.Small(finder(start, end, offsets).offsets)
    {
      if start == PAST_LENGTH && end == |input| {
        assert input[..end] == input;
        LostParse(past, literals, window, offsets);
      } else {
        JustLiteralsFit(input[..end], start, window, offsets);
        assert input[..end][start..] == input[start..end];
      }
    }
  }

  /** The block writer commits the fifth block as it is found. */
  lemma LostCommits(workspace: EncodeWorkspace, past: seq<byte>, literals: seq<byte>, offsets: R.History)
    requires Suits(past, literals)
    requires workspace.settings.allowQuickRaw && workspace.settings.scratchLength >= |literals| + 16
    ensures var input := LostInput(past, literals);
            workspace.QuickCommits(input[PAST_LENGTH..], LostFinder(past, literals)(PAST_LENGTH, |input|, offsets))
  {
    hide LostInput, QuickPays, R.After;
    var input := LostInput(past, literals);
    var content := input[PAST_LENGTH..];
    assert content[0] == literals[0] && content[1] == literals[1];
    NotUniform(content);
    LostPays(|literals|, workspace.settings.scratchLength, |content|);
  }

  lemma NotUniform(content: seq<byte>)
    requires |content| >= 2 && content[0] != content[1]
    ensures content != seq(|content|, _ => content[0])
  {
    assert seq(|content|, _ => content[0])[1] == content[0];
  }

  lemma LostPays(literalCount: nat, scratchLength: nat, contentLength: nat)
    requires 65549 <= literalCount <= 98298 && scratchLength >= literalCount + 16
    requires contentLength == literalCount + 32774
    ensures QuickPays(literalCount, [EARLY, LAST], scratchLength, contentLength)
  {
    hide *;
    ServedByDefaults();
    FirstBits();
    Limits();
    RawSizeIs(literalCount);
    PaysWhen(literalCount, [EARLY, LAST], scratchLength, contentLength);
  }

  lemma PaysWhen(literalCount: nat, records: seq<SequenceRecord>, scratchLength: nat, contentLength: nat)
    requires literalCount <= 98298 && RawSize(literalCount) <= literalCount + 3
    requires scratchLength >= literalCount + 16 && contentLength > literalCount + 16
    requires DefaultsServe(records) && ValidTables(DefaultTables()) && records != []
    requires CoversAll(DefaultTables(), records)
    requires |WholeStream(DefaultTables(), records)| == 86
    ensures QuickPays(literalCount, records, scratchLength, contentLength)
  {
    hide DefaultTables, ValidTables, CoversAll, WholeStream, DefaultsServe, RawSize;
  }

  // ---------------------------------------------------------------- the run

  /** The loop of the block run over this input, without splits, with this finder, and the decoder
      behind it: every block is written within the size promised, and the decoder rejects the run. */
  method RunIsLost(past: seq<byte>, literals: seq<byte>, room: nat, encoder: EncodeWorkspace,
                   estimates: nat -> CostEstimates, output: array<byte>, ghost window: nat)
    returns (compressed: seq<byte>, ok: bool)
    requires Suits(past, literals) && window >= 524285 && encoder.Holds(NO_HISTORY)
    requires encoder.settings.allowQuickRaw && encoder.settings.scratchLength >= |literals| + 16
    requires room >= RunSize(|LostInput(past, literals)|) && |LostInput(past, literals)| <= output.Length
    modifies encoder`huffmanTable, encoder`sequenceTables, encoder.repeatOffsets, output
    ensures FinderFits(LostInput(past, literals), window, LostFinder(past, literals))
    ensures |compressed| <= RunSize(|LostInput(past, literals)|)
    ensures !ok
  {
    hide *;
    var input, finder := LostInput(past, literals), LostFinder(past, literals);
    LostFinderFits(past, literals, window);
    Lengths(past, literals);
    Limits();
    ghost var now: History;
    var written: seq<byte>;
    written, now := [], NO_HISTORY;
    RunStarts(input, room);
    RunSizeIs(|input|);
    for k := 0 to 4
      modifies encoder`huffmanTable, encoder`sequenceTables, encoder.repeatOffsets
      invariant encoder.Holds(now) && Running(input, MAX_BLOCK_SIZE * k, written, room, now, [])
    {
      assert allocated(encoder.sequenceTables.ll.table) && allocated(encoder.sequenceTables.of.table)
             && allocated(encoder.sequenceTables.ml.table);
      var start, end := MAX_BLOCK_SIZE * k, MAX_BLOCK_SIZE * (k + 1);
      RunningParts(input, start, written, room, now, []);
      var offsets := OffsetsOf(encoder, now);
      FinderAt(input, window, finder, start, end, offsets);
      FoundNothing(past, literals, start, end, offsets);
      var longer;
      ghost var added, appended;
      longer, now, added, appended := AppendBlock(input, start, end, written, room, encoder,
                                                  finder(start, end, offsets), estimates(start), window, now, []);
      PiecesNeedRecords(added, finder(start, end, offsets).records, Ends(finder(start, end, offsets)));
      assert [] + added == [];
      written := longer.value;
    }
    assert allocated(encoder.sequenceTables.ll.table) && allocated(encoder.sequenceTables.of.table)
           && allocated(encoder.sequenceTables.ml.table);
    RunningParts(input, PAST_LENGTH, written, room, now, []);
    NoSections(written);
    var offsets := OffsetsOf(encoder, now);
    FinderAt(input, window, finder, PAST_LENGTH, |input|, offsets);
    LostCommits(encoder, past, literals, offsets);
    assert input[..|input|] == input;
    SizeStep(|input|, PAST_LENGTH, |written|, |input| - PAST_LENGTH, 0);
    var found := finder(PAST_LENGTH, |input|, offsets);
    FoundRecords(past, literals, offsets);
    var block;
    ghost var next, sections;
    ghost var whole, pieces;
    block, next, sections, whole, pieces := encoder.WriteBlock(input, PAST_LENGTH, true, room - |written|, found,
                                                               estimates(PAST_LENGTH), window, now);
    SizeStep(|input|, PAST_LENGTH, |written|, |input| - PAST_LENGTH, |block.value|);
    compressed := written + block.value;
    LostBehind(written, block.value, past, literals, now, output.Length);
    var decoder := new BlockWorkspace();
    var used, length;
    ok, used, length := decoder.DecodeBlockSequence(compressed, output, NO_HISTORY);
    SizeStart(0);
  }

  lemma Lengths(past: seq<byte>, literals: seq<byte>)
    requires Suits(past, literals)
    ensures var input := LostInput(past, literals);
            && input != [] && PAST_LENGTH == 524288 < |input| <= PAST_LENGTH + 131072
            && |input| == PAST_LENGTH + |literals| + 32774
            && |past| == PAST_LENGTH && input[..PAST_LENGTH] == past
  {
    hide LostInput;
  }

  lemma FoundNothing(past: seq<byte>, literals: seq<byte>, start: nat, end: nat, offsets: R.History)
    requires Suits(past, literals) && start < PAST_LENGTH && start <= end <= |LostInput(past, literals)|
    ensures LostFinder(past, literals)(start, end, offsets).records == []
  {
    hide LostInput;
  }

  lemma FoundRecords(past: seq<byte>, literals: seq<byte>, offsets: R.History)
    requires Suits(past, literals)
    ensures var found := LostFinder(past, literals)(PAST_LENGTH, |LostInput(past, literals)|, offsets);
            found.records == [EARLY, LAST] && found.literals == literals
  {
    hide LostInput, R.After;
  }

  /** Behind blocks that decode, the lost block makes the whole run mean nothing. */
  lemma LostBehind(front: seq<byte>, block: seq<byte>, past: seq<byte>, literals: seq<byte>, now: History,
                   capacity: nat)
    requires BlocksCarry(front, false, [], past, NO_HISTORY, now) && |past| <= capacity
    requires Alone(block, true, literals, [EARLY, LAST], now)
    ensures ValidHistory(NO_HISTORY) && RunOf(front + block, capacity, [], NO_HISTORY).None?
  {
    hide *;
    FreshDecoder();
    var next := CarryOne(front, false, [], past, NO_HISTORY, now, block, capacity, NO_HISTORY);
    ContinuesWith(front, block, capacity, past, next);
    AloneLost(block, true, literals, now, [], capacity, past, next);
    assert block + [] == block;
  }

  lemma ContinuesWith(front: seq<byte>, block: seq<byte>, capacity: nat, past: seq<byte>, next: History)
    requires ValidHistory(NO_HISTORY) && Continues(front, block, capacity, [], past, false, NO_HISTORY, next)
    ensures ValidHistory(next)
    ensures RunOf(block, capacity, past, next).None? ==> RunOf(front + block, capacity, [], NO_HISTORY).None?
  {
    hide ValidHistory, RunOf;
  }
}
