/** Writing blocks: raw, one repeated byte, compressed, or in several compressed pieces, with
    everything undone when a compressed block does not pay. For any finder output that is a valid
    parse and any estimates, the blocks cost at most three bytes more than their content, every
    sequences section in them holds records that were found, and if the first passes of these fitted
    the blocks decode to the input. */
module BlockWriter {
  import opened Bits
  import opened BitReader
  import opened FseTables
  import opened HuffmanCodes
  import opened SectionHeaders
  import opened LiteralsSection
  import opened LiteralsChoice
  import opened LiteralsWriter
  import opened SequenceBits
  import opened SequenceExecution
  import opened SequencesSection
  import opened SequencesWriter
  import opened ParsePieces
  import opened ValidParse
  import opened BlockReader
  import R = RepeatOffsets
  import Fse

  // ---------------------------------------------------------------- what written blocks promise

  /** What the encoder may rely on the decoder holds, and both have the same repeat offsets. */
  ghost predicate InSync(encoder: History, decoder: History) {
    && Agree(encoder.huffman, decoder.huffman) && TablesAgree(encoder.tables, decoder.tables)
    && encoder.offsets == decoder.offsets
  }

  /** The outcome of a run that starts with these blocks. */
  ghost predicate Continues(bytes: seq<byte>, rest: seq<byte>, capacity: nat, before: seq<byte>, after: seq<byte>,
                            isLast: bool, h: History, next: History)
    requires ValidHistory(h)
  {
    && ValidHistory(next)
    && RunOf(bytes + rest, capacity, before, h)
       == if isLast then Some((Written(after, next), |bytes|)) else Shifted(|bytes|, RunOf(rest, capacity, after, next))
  }

  /** Such a run leaves a decoder in step with `to`. */
  ghost predicate Leads(bytes: seq<byte>, rest: seq<byte>, capacity: nat, before: seq<byte>, after: seq<byte>,
                        isLast: bool, h: History, to: History)
    requires ValidHistory(h)
  {
    exists next: History :: InSync(to, next) && Continues(bytes, rest, capacity, before, after, isLast, h, next)
  }

  /** For every decoder in step, whatever follows, the blocks take the output from `before` to
      `after` and leave the decoder in step with the encoder. */
  ghost predicate BlocksCarry(bytes: seq<byte>, isLast: bool, before: seq<byte>, after: seq<byte>, from: History,
                              to: History) {
    forall rest: seq<byte>, capacity: nat, h: History :: ValidHistory(h) && InSync(from, h) && |after| <= capacity ==>
      Leads(bytes, rest, capacity, before, after, isLast, h, to)
  }

  lemma CarryOne(bytes: seq<byte>, isLast: bool, before: seq<byte>, after: seq<byte>, from: History, to: History,
                 rest: seq<byte>, capacity: nat, h: History) returns (next: History)
    requires BlocksCarry(bytes, isLast, before, after, from, to)
    requires ValidHistory(h) && InSync(from, h) && |after| <= capacity
    ensures InSync(to, next) && Continues(bytes, rest, capacity, before, after, isLast, h, next)
  {
    hide InSync, Continues, ValidHistory;
    assert Leads(bytes, rest, capacity, before, after, isLast, h, to);
    next :| InSync(to, next) && Continues(bytes, rest, capacity, before, after, isLast, h, next);
  }

  /** Blocks one behind the other. */
  lemma CarryBoth(a: seq<byte>, b: seq<byte>, isLast: bool, before: seq<byte>, middle: seq<byte>, after: seq<byte>,
                  from: History, between: History, to: History)
    requires BlocksCarry(a, false, before, middle, from, between) && BlocksCarry(b, isLast, middle, after, between, to)
    requires |middle| <= |after|
    ensures BlocksCarry(a + b, isLast, before, after, from, to)
  {
    hide BlocksCarry, InSync, ValidHistory, Continues, Leads;
    forall rest: seq<byte>, capacity: nat, h: History | ValidHistory(h) && InSync(from, h) && |after| <= capacity
      ensures Leads(a + b, rest, capacity, before, after, isLast, h, to)
    {
      var one := CarryOne(a, false, before, middle, from, between, b + rest, capacity, h);
      ContinuesIs(a, b + rest, capacity, before, middle, false, h, one);
      var two := CarryOne(b, isLast, middle, after, between, to, rest, capacity, one);
      ContinueOn(a, b, rest, capacity, before, middle, after, isLast, h, one, two);
      LeadsTo(a + b, rest, capacity, before, after, isLast, h, to, two);
    }
    CarryWhen(a + b, isLast, before, after, from, to);
  }

  lemma ContinuesIs(bytes: seq<byte>, rest: seq<byte>, capacity: nat, before: seq<byte>, after: seq<byte>, isLast: bool,
                    h: History, next: History)
    requires ValidHistory(h) && Continues(bytes, rest, capacity, before, after, isLast, h, next)
    ensures ValidHistory(next)
  {
    hide ValidHistory, RunOf;
  }

  lemma ContinueOn(a: seq<byte>, b: seq<byte>, rest: seq<byte>, capacity: nat, before: seq<byte>, middle: seq<byte>,
                   after: seq<byte>, isLast: bool, h: History, one: History, two: History)
    requires ValidHistory(h) && ValidHistory(one) && Continues(a, b + rest, capacity, before, middle, false, h, one)
    requires Continues(b, rest, capacity, middle, after, isLast, one, two)
    ensures Continues(a + b, rest, capacity, before, after, isLast, h, two)
  {
    hide ValidHistory, RunOf, Shifted;
    assert a + b + rest == a + (b + rest);
    if isLast {
      ShiftedIs(|a|, 0, Some((Written(after, two), |b|)));
    } else {
      ShiftedIs(|a|, |b|, RunOf(rest, capacity, after, two));
    }
  }

  lemma LeadsTo(bytes: seq<byte>, rest: seq<byte>, capacity: nat, before: seq<byte>, after: seq<byte>, isLast: bool,
                h: History, to: History, next: History)
    requires ValidHistory(h) && InSync(to, next) && Continues(bytes, rest, capacity, before, after, isLast, h, next)
    ensures Leads(bytes, rest, capacity, before, after, isLast, h, to)
  {
    hide ValidHistory, InSync, Continues;
  }

  lemma CarryWhen(bytes: seq<byte>, isLast: bool, before: seq<byte>, after: seq<byte>, from: History, to: History)
    requires forall rest: seq<byte>, capacity: nat, h: History ::
               ValidHistory(h) && InSync(from, h) && |after| <= capacity ==>
               Leads(bytes, rest, capacity, before, after, isLast, h, to)
    ensures BlocksCarry(bytes, isLast, before, after, from, to)
  {
    hide InSync, ValidHistory, Leads;
  }

  // ---------------------------------------------------------------- the sequence sections in the blocks

  /** A sequences section that stands in the output: its records, the tables picked for them, what the
      encoder could rely on before it, and its bytes. */
  datatype SectionWritten = SectionWritten(records: seq<SequenceRecord>, tables: SequenceBits.Tables,
                                           before: HeldTables, bytes: seq<byte>)

  /** Its bytes announce those tables, which cover the records, and hold the stream written for them. */
  ghost predicate Standing(s: SectionWritten) {
    && s.records != [] && ValidTables(s.tables) && CoversAll(s.tables, s.records) && ValidTablesHeld(s.before)
    && SectionHolds(s.bytes, s.records, s.tables, s.before)
  }

  ghost predicate StartsAt(part: seq<byte>, bytes: seq<byte>, i: nat) {
    i + |part| <= |bytes| && bytes[i..i + |part|] == part
  }

  ghost predicate Inside(part: seq<byte>, bytes: seq<byte>) {
    exists i: nat :: StartsAt(part, bytes, i)
  }

  ghost predicate SectionsIn(sections: seq<SectionWritten>, bytes: seq<byte>) {
    forall k :: 0 <= k < |sections| ==> Standing(sections[k]) && Inside(sections[k].bytes, bytes)
  }

  /** The first pass of every section's stream fitted the tables picked for it. */
  ghost predicate AllFit(sections: seq<SectionWritten>) {
    forall k :: 0 <= k < |sections| ==> SectionFits(sections[k].records, sections[k].tables)
  }

  ghost function SectionOf(records: seq<SequenceRecord>, t: SequenceBits.Tables, before: HeldTables,
                           bytes: seq<byte>): seq<SectionWritten> {
    if records == [] then [] else [SectionWritten(records, t, before, bytes)]
  }

  lemma OneFits(records: seq<SequenceRecord>, t: SequenceBits.Tables, before: HeldTables, bytes: seq<byte>)
    ensures AllFit(SectionOf(records, t, before, bytes)) <==> SectionFits(records, t)
  {
    hide ValidTables, CoversAll, FirstPassFits;
    var sections := SectionOf(records, t, before, bytes);
    if AllFit(sections) && records != [] {
      assert SectionFits(sections[0].records, sections[0].tables);
    }
  }

  lemma OneInside(records: seq<SequenceRecord>, t: SequenceBits.Tables, e: EncodeTables, before: HeldTables,
                  front: seq<byte>, bytes: seq<byte>)
    requires EncodersHold(e, before)
    requires records != [] ==> ValidTables(t) && CoversAll(t, records) && SectionHolds(bytes, records, t, before)
    ensures SectionsIn(SectionOf(records, t, before, bytes), front + bytes)
  {
    hide ValidTables, CoversAll, SectionHolds, FitsKind, FseEncodeTable.Encodes, FseEncodeTable.MarksAbsent;
    assert StartsAt(bytes, front + bytes, |front|);
  }

  lemma NoSections(bytes: seq<byte>)
    ensures SectionsIn([], bytes) && AllFit([])
  {
  }

  lemma FitBoth(a: seq<SectionWritten>, b: seq<SectionWritten>)
    ensures AllFit(a + b) <==> AllFit(a) && AllFit(b)
  {
    hide SectionFits;
    if AllFit(a + b) {
      forall k | 0 <= k < |a| ensures SectionFits(a[k].records, a[k].tables) { assert (a + b)[k] == a[k]; }
      forall k | 0 <= k < |b| ensures SectionFits(b[k].records, b[k].tables) { assert (a + b)[|a| + k] == b[k]; }
    }
  }

  lemma InsideMore(part: seq<byte>, before: seq<byte>, bytes: seq<byte>, after: seq<byte>)
    requires Inside(part, bytes)
    ensures Inside(part, before + bytes + after)
  {
    var i: nat :| StartsAt(part, bytes, i);
    assert StartsAt(part, before + bytes + after, |before| + i);
  }

  /** Sections whose last record has at most 38 extra bits fit, whatever tables were picked. */
  lemma RoomySectionsFit(sections: seq<SectionWritten>, bytes: seq<byte>)
    requires SectionsIn(sections, bytes)
    requires forall k :: 0 <= k < |sections| ==> LastIsShort(sections[k].records)
    ensures AllFit(sections)
  {
    hide ValidTables, CoversAll, SectionHolds, Inside, SectionFits, LastIsShort;
    forall k | 0 <= k < |sections|
      ensures SectionFits(sections[k].records, sections[k].tables)
    {
      assert Standing(sections[k]);
      ShortFits(sections[k].tables, sections[k].records);
    }
  }

  ghost predicate LastIsShort(records: seq<SequenceRecord>) {
    |records| >= 2 ==> Short(records[|records| - 1])
  }

  lemma ShortFits(t: SequenceBits.Tables, records: seq<SequenceRecord>)
    requires ValidTables(t) && CoversAll(t, records) && LastIsShort(records)
    ensures SectionFits(records, t)
  {
    hide ValidTables, CoversAll, Extras, SectionFits;
    RoomIsEnough(t, records);
  }

  // ---------------------------------------------------------------- whose records the sections hold

  /** Records `a` to `b` of a block, `b` being one of the places where its pieces end. */
  ghost predicate Slice(part: seq<SequenceRecord>, records: seq<SequenceRecord>, ends: seq<nat>, a: nat, b: nat) {
    a < b <= |records| && b in ends && part == records[a..b]
  }

  ghost predicate PieceOf(part: seq<SequenceRecord>, records: seq<SequenceRecord>, ends: seq<nat>) {
    exists a: nat, b: nat :: Slice(part, records, ends, a, b)
  }

  /** Every section holds a piece of these records. */
  ghost predicate PiecesOf(sections: seq<SectionWritten>, records: seq<SequenceRecord>, ends: seq<nat>) {
    forall k :: 0 <= k < |sections| ==> PieceOf(sections[k].records, records, ends)
  }

  /** The record before every end is short. */
  ghost predicate EndsShort(records: seq<SequenceRecord>, ends: seq<nat>) {
    forall i :: 0 <= i < |ends| && 0 < ends[i] <= |records| ==> Short(records[ends[i] - 1])
  }

  lemma OnePiece(part: seq<SequenceRecord>, t: SequenceBits.Tables, before: HeldTables, bytes: seq<byte>,
                 records: seq<SequenceRecord>, ends: seq<nat>, a: nat, b: nat)
    requires a <= b <= |records| && b in ends && part == records[a..b]
    ensures PiecesOf(SectionOf(part, t, before, bytes), records, ends)
  {
    if part != [] {
      assert Slice(part, records, ends, a, b);
    }
  }

  lemma NoPieces(records: seq<SequenceRecord>, ends: seq<nat>)
    ensures PiecesOf([], records, ends)
  {
  }

  lemma PiecesBoth(a: seq<SectionWritten>, b: seq<SectionWritten>, records: seq<SequenceRecord>, ends: seq<nat>)
    requires PiecesOf(a, records, ends) && PiecesOf(b, records, ends)
    ensures PiecesOf(a + b, records, ends)
  {
    hide PieceOf;
  }

  lemma MoreEnds(sections: seq<SectionWritten>, records: seq<SequenceRecord>, ends: seq<nat>, more: seq<nat>)
    requires PiecesOf(sections, records, ends) && forall b :: b in ends ==> b in more
    ensures PiecesOf(sections, records, more)
  {
    forall k | 0 <= k < |sections|
      ensures PieceOf(sections[k].records, records, more)
    {
      assert PieceOf(sections[k].records, records, ends);
      var a: nat, b: nat :| Slice(sections[k].records, records, ends, a, b);
      assert Slice(sections[k].records, records, more, a, b);
    }
  }

  lemma PieceIsShort(part: seq<SequenceRecord>, records: seq<SequenceRecord>, ends: seq<nat>)
    requires PieceOf(part, records, ends) && EndsShort(records, ends)
    ensures LastIsShort(part)
  {
    hide Short;
    var a: nat, b: nat :| Slice(part, records, ends, a, b);
    var i :| 0 <= i < |ends| && ends[i] == b;
    assert part[|part| - 1] == records[ends[i] - 1];
  }

  /** If the records at the ends of a block's pieces are short, everything written for it fits. */
  lemma PiecesFit(sections: seq<SectionWritten>, bytes: seq<byte>, records: seq<SequenceRecord>, ends: seq<nat>)
    requires SectionsIn(sections, bytes) && PiecesOf(sections, records, ends) && EndsShort(records, ends)
    ensures AllFit(sections)
  {
    hide SectionsIn, AllFit, EndsShort, LastIsShort, PieceOf;
    forall k | 0 <= k < |sections|
      ensures LastIsShort(sections[k].records)
    {
      PieceIsShort(sections[k].records, records, ends);
    }
    RoomySectionsFit(sections, bytes);
  }

  /** Sections of two outputs one behind the other. */
  lemma InBoth(a: seq<SectionWritten>, x: seq<byte>, b: seq<SectionWritten>, y: seq<byte>)
    requires SectionsIn(a, x) && SectionsIn(b, y)
    ensures SectionsIn(a + b, x + y)
  {
    hide Standing, Inside;
    forall k | 0 <= k < |a + b|
      ensures Standing((a + b)[k]) && Inside((a + b)[k].bytes, x + y)
    {
      if k < |a| {
        InsideMore(a[k].bytes, [], x, y);
        assert [] + x + y == x + y;
      } else {
        InsideMore(b[k - |a|].bytes, x, y, []);
        assert x + y + [] == x + y;
      }
    }
  }

  // ---------------------------------------------------------------- one block

  /** A block with a header and payload that mean `after` for every decoder in step. */
  lemma BlockCarries(header: BlockHeader, payload: seq<byte>, before: seq<byte>, after: seq<byte>, from: History,
                     to: History)
    requires header.blockSize <= MAX_BLOCK_SIZE && |payload| == PayloadLength(header)
    requires forall capacity: nat, h: History :: ValidHistory(h) && InSync(from, h) && |after| <= capacity ==>
               Decodes(header, payload, capacity, before, after, h, to)
    ensures BlocksCarry(WriteBlockHeader(header) + payload, header.isLast, before, after, from, to)
  {
    hide InSync, ValidHistory, Decodes, WriteBlockHeader, ReadBlockHeader, Leads, Continues;
    var bytes := WriteBlockHeader(header) + payload;
    forall rest: seq<byte>, capacity: nat, h: History | ValidHistory(h) && InSync(from, h) && |after| <= capacity
      ensures Leads(bytes, rest, capacity, before, after, header.isLast, h, to)
    {
      assert Decodes(header, payload, capacity, before, after, h, to);
      var next := DecodesTo(header, payload, capacity, before, after, h, to);
      BlockInFront(header, payload, rest);
      RunOfBlock(header, payload, rest, capacity, before, after, h, next);
      LeadsTo(bytes, rest, capacity, before, after, header.isLast, h, to, next);
    }
  }

  /** The payload decodes to `after` and leaves a decoder in step with `to`. */
  ghost predicate Decodes(header: BlockHeader, payload: seq<byte>, capacity: nat, before: seq<byte>, after: seq<byte>,
                          h: History, to: History)
    requires ValidHistory(h) && |payload| == PayloadLength(header)
  {
    && BlockOf(header, payload, capacity, before, h).Some?
    && BlockOf(header, payload, capacity, before, h).value.out == after
    && InSync(to, BlockOf(header, payload, capacity, before, h).value.history)
  }

  lemma DecodesTo(header: BlockHeader, payload: seq<byte>, capacity: nat, before: seq<byte>, after: seq<byte>,
                  h: History, to: History)
    returns (next: History)
    requires ValidHistory(h) && |payload| == PayloadLength(header)
    requires Decodes(header, payload, capacity, before, after, h, to)
    ensures InSync(to, next) && ValidHistory(next)
    ensures BlockOf(header, payload, capacity, before, h) == Some(Written(after, next))
  {
    hide InSync, ValidHistory;
    next := BlockOf(header, payload, capacity, before, h).value.history;
  }

  /** A written block is the next block. */
  lemma BlockInFront(header: BlockHeader, payload: seq<byte>, rest: seq<byte>)
    requires header.blockSize <= MAX_BLOCK_SIZE && |payload| == PayloadLength(header)
    ensures NextBlock(WriteBlockHeader(header) + payload + rest) == Some((header, payload))
    ensures |WriteBlockHeader(header)| == BLOCK_HEADER_LENGTH
    ensures (WriteBlockHeader(header) + payload + rest)[BLOCK_HEADER_LENGTH + |payload|..] == rest
  {
    hide ReadBlockHeader;
    var front := WriteBlockHeader(header);
    hide WriteBlockHeader;
    BlockHeaderRoundTrip(header, payload + rest);
    assert front + payload + rest == front + (payload + rest);
    assert (front + payload + rest)[BLOCK_HEADER_LENGTH..BLOCK_HEADER_LENGTH + |payload|] == payload;
  }

  lemma RunOfBlock(header: BlockHeader, payload: seq<byte>, rest: seq<byte>, capacity: nat, before: seq<byte>,
                   after: seq<byte>, h: History, next: History)
    requires ValidHistory(h) && ValidHistory(next) && |payload| == PayloadLength(header)
    requires BlockOf(header, payload, capacity, before, h) == Some(Written(after, next))
    requires NextBlock(WriteBlockHeader(header) + payload + rest) == Some((header, payload))
    requires |WriteBlockHeader(header)| == BLOCK_HEADER_LENGTH
    requires (WriteBlockHeader(header) + payload + rest)[BLOCK_HEADER_LENGTH + |payload|..] == rest
    ensures Continues(WriteBlockHeader(header) + payload, rest, capacity, before, after, header.isLast, h, next)
  {
    hide WriteBlockHeader, NextBlock, BlockOf, ValidHistory, RunOf, Shifted;
    RunStep(WriteBlockHeader(header) + payload + rest, capacity, before, h);
  }

  /** `write_raw_block`: always decodes to its content and changes no history. */
  lemma RawCarry(content: seq<byte>, isLast: bool, before: seq<byte>, from: History)
    requires |content| <= MAX_BLOCK_SIZE
    ensures BlocksCarry(WriteBlockHeader(BlockHeader(RawBlock, |content|, isLast)) + content, isLast, before,
                        before + content, from, from)
  {
    hide InSync, ValidHistory, BlocksCarry, WriteBlockHeader;
    BlockCarries(BlockHeader(RawBlock, |content|, isLast), content, before, before + content, from, from);
  }

  /** `write_rle_block`. */
  lemma RleCarry(value: byte, n: nat, isLast: bool, before: seq<byte>, from: History)
    requires n <= MAX_BLOCK_SIZE
    ensures BlocksCarry(WriteBlockHeader(BlockHeader(RleBlock, n, isLast)) + [value], isLast, before,
                        before + seq(n, _ => value), from, from)
  {
    hide InSync, ValidHistory, BlocksCarry, WriteBlockHeader;
    BlockCarries(BlockHeader(RleBlock, n, isLast), [value], before, before + seq(n, _ => value), from, from);
  }

  /** A compressed body means `after` for every decoder in step. */
  ghost predicate BodyMeans(body: seq<byte>, before: seq<byte>, after: seq<byte>, from: History, to: History) {
    forall capacity: nat, h: History :: ValidHistory(h) && InSync(from, h) && |after| <= capacity ==>
      BodyDecodes(body, capacity, before, after, h, to)
  }

  ghost predicate BodyDecodes(body: seq<byte>, capacity: nat, before: seq<byte>, after: seq<byte>, h: History,
                              to: History)
    requires ValidHistory(h)
  {
    var r := CompressedOf(body, capacity, before, h);
    r.Some? && r.value.out == after && InSync(to, r.value.history)
  }

  lemma CompressedCarry(body: seq<byte>, isLast: bool, before: seq<byte>, after: seq<byte>, from: History, to: History)
    requires |body| <= MAX_BLOCK_SIZE && BodyMeans(body, before, after, from, to)
    ensures BlocksCarry(WriteBlockHeader(BlockHeader(CompressedBlock, |body|, isLast)) + body, isLast, before, after,
                        from, to)
  {
    hide InSync, ValidHistory, BlocksCarry, WriteBlockHeader, CompressedOf, Decodes, BodyDecodes;
    var header := BlockHeader(CompressedBlock, |body|, isLast);
    forall capacity: nat, h: History | ValidHistory(h) && InSync(from, h) && |after| <= capacity
      ensures Decodes(header, body, capacity, before, after, h, to)
    {
      assert BodyDecodes(body, capacity, before, after, h, to);
      CompressedDecodes(header, body, capacity, before, after, h, to);
    }
    BlockCarries(header, body, before, after, from, to);
  }

  lemma CompressedDecodes(header: BlockHeader, body: seq<byte>, capacity: nat, before: seq<byte>, after: seq<byte>,
                          h: History, to: History)
    requires ValidHistory(h) && header.blockType.CompressedBlock? && |body| == header.blockSize
    requires BodyDecodes(body, capacity, before, after, h, to)
    ensures Decodes(header, body, capacity, before, after, h, to)
  {
    hide InSync, ValidHistory, CompressedOf;
  }

  // ---------------------------------------------------------------- what a body's two sections give

  /** The encoder's history after a body. */
  ghost function After(p: Parse, a: nat, b: nat, from: History, huffman: Option<HuffmanTable>, e: EncodeTables,
                       t: SequenceBits.Tables): History
    requires ValidParseOf(p) && a <= b <= |p.records|
  {
    History(huffman, HeldAfter(p.records[a..b], e, from.tables, t), Mark(p, b).history)
  }

  function PieceLiterals(p: Parse, a: nat, b: nat): seq<byte>
    requires a <= b <= |p.records|
  {
    LiteralsBetween(p.literals, p.records, a, b)
  }

  /** The literals of some of the records; the last of them take the literals behind them too. */
  function LiteralsBetween(literals: seq<byte>, records: seq<SequenceRecord>, a: nat, b: nat): seq<byte> {
    if a <= b <= |records| then
      var from, end := LiteralSum(records[..a]), if b == |records| then |literals| else LiteralSum(records[..b]);
      if from <= end <= |literals| then literals[from..end] else []
    else []
  }

  function RecordsBetween(records: seq<SequenceRecord>, a: nat, b: nat): seq<SequenceRecord> {
    if a <= b <= |records| then records[a..b] else []
  }

  /** Literals and records of one piece, written with their own contracts, are a body of the piece. */
  lemma BodyOf(p: Parse, a: nat, b: nat, literals: seq<byte>, sequences: seq<byte>, from: History,
               huffman: Option<HuffmanTable>, e: EncodeTables, t: SequenceBits.Tables)
    requires ValidParseOf(p) && a <= b <= |p.records| && (a < b || |p.records| == 0)
    requires from.offsets == Mark(p, a).history
    requires Carries(literals, PieceLiterals(p, a, b), from.huffman, huffman)
    requires CarriesRecords(sequences, p.records[a..b], t, from.tables)
    ensures StartAt(p, a) <= EndAt(p, b) <= |p.input|
    ensures BodyMeans(literals + sequences, p.input[..StartAt(p, a)], p.input[..EndAt(p, b)], from,
                      After(p, a, b, from, huffman, e, t))
  {
    hide *;
    PieceMeans(p, a, b, EndAt(p, b));
    PieceLiteralsAre(p, a, b);
    var to := After(p, a, b, from, huffman, e, t);
    forall capacity: nat, h: History | ValidHistory(h) && InSync(from, h) && EndAt(p, b) <= capacity
      ensures BodyDecodes(literals + sequences, capacity, p.input[..StartAt(p, a)], p.input[..EndAt(p, b)], h, to)
    {
      BodyDecodesOne(p, a, b, literals, sequences, from, huffman, e, t, capacity, h);
    }
    BodyMeansWhen(literals + sequences, p.input[..StartAt(p, a)], p.input[..EndAt(p, b)], from, to);
  }

  lemma BodyMeansWhen(body: seq<byte>, before: seq<byte>, after: seq<byte>, from: History, to: History)
    requires forall capacity: nat, h: History :: ValidHistory(h) && InSync(from, h) && |after| <= capacity ==>
               BodyDecodes(body, capacity, before, after, h, to)
    ensures BodyMeans(body, before, after, from, to)
  {
    hide ValidHistory, InSync, BodyDecodes;
  }

  lemma PieceLiteralsAre(p: Parse, a: nat, b: nat)
    requires a <= b <= |p.records| && LiteralSum(p.records[..a]) <= LiteralEnd(p, b) <= |p.literals|
    ensures PieceLiterals(p, a, b) == p.literals[LiteralSum(p.records[..a])..LiteralEnd(p, b)]
  {
  }

  lemma BodyDecodesOne(p: Parse, a: nat, b: nat, literals: seq<byte>, sequences: seq<byte>, from: History,
                       huffman: Option<HuffmanTable>, e: EncodeTables, t: SequenceBits.Tables, capacity: nat,
                       h: History)
    requires ValidParseOf(p) && a <= b <= |p.records| && (a < b || |p.records| == 0) && EndAt(p, b) <= capacity
    requires from.offsets == Mark(p, a).history && ValidHistory(h) && InSync(from, h)
    requires Carries(literals, PieceLiterals(p, a, b), from.huffman, huffman)
    requires CarriesRecords(sequences, p.records[a..b], t, from.tables)
    ensures StartAt(p, a) <= EndAt(p, b) <= |p.input|
    ensures BodyDecodes(literals + sequences, capacity, p.input[..StartAt(p, a)], p.input[..EndAt(p, b)], h,
                        After(p, a, b, from, huffman, e, t))
  {
    hide *;
    PieceMeans(p, a, b, capacity);
    PieceLiteralsAre(p, a, b);
    var piece, before, after := PieceLiterals(p, a, b), p.input[..StartAt(p, a)], p.input[..EndAt(p, b)];
    var records, body := p.records[a..b], literals + sequences;
    SyncParts(from, h);
    LiteralsCarried(literals, piece, from.huffman, huffman, sequences, h.huffman);
    RecordsCarried(sequences, records, t, from.tables, piece, capacity, before, h.offsets, h.tables);
    assert body[|literals|..] == sequences;
    CompressedParts(body, capacity, before, h);
    ExpectedPiece(records, t, piece, capacity, before, h.offsets, h.tables, after, Mark(p, b).history);
    StillAgree(h.huffman, from.huffman, huffman);
    InSyncAfter(p, a, b, from, huffman, e, t, h);
    BodyDecodesWhen(body, capacity, before, after, h, After(p, a, b, from, huffman, e, t));
  }

  lemma SyncParts(from: History, h: History)
    requires ValidHistory(h) && InSync(from, h)
    ensures Agree(from.huffman, h.huffman) && TablesAgree(from.tables, h.tables) && from.offsets == h.offsets
    ensures ValidHeld(h.huffman) && ValidTablesHeld(h.tables)
  {
    hide Agree, TablesAgree, ValidHeld, ValidTablesHeld;
  }

  lemma LiteralsCarried(bytes: seq<byte>, literals: seq<byte>, from: Option<HuffmanTable>, to: Option<HuffmanTable>,
                        rest: seq<byte>, decoder: Option<HuffmanTable>)
    requires Carries(bytes, literals, from, to) && ValidHeld(decoder) && Agree(from, decoder)
    ensures LiteralsOf(bytes + rest, decoder) == Some(LiteralsRead(literals, |bytes|, Replaced(decoder, from, to)))
  {
    hide LiteralsOf, ValidHeld, Agree, Replaced;
  }

  lemma RecordsCarried(bytes: seq<byte>, records: seq<SequenceRecord>, t: SequenceBits.Tables, from: HeldTables,
                       literals: seq<byte>, capacity: nat, out: seq<byte>, history: R.History, decoder: HeldTables)
    requires CarriesRecords(bytes, records, t, from) && ValidTablesHeld(decoder) && TablesAgree(from, decoder)
    ensures SequencesOf(bytes, literals, capacity, out, history, decoder)
          == Expected(records, t, literals, capacity, out, history, decoder)
  {
    hide SequencesOf, Expected, ValidTablesHeld, TablesAgree;
  }

  /** The tables a decoder holds after a section of these records. */
  ghost function DecoderTables(records: seq<SequenceRecord>, t: SequenceBits.Tables, decoder: HeldTables): HeldTables {
    if records == [] then decoder else HeldTables(Some(t.ll), Some(t.of), Some(t.ml))
  }

  lemma ExpectedPiece(records: seq<SequenceRecord>, t: SequenceBits.Tables, literals: seq<byte>, capacity: nat,
                      out: seq<byte>, history: R.History, decoder: HeldTables, after: seq<byte>, to: R.History)
    requires var env := Env(literals, |out|, capacity);
             var all := ExecuteAll(env, Machine(out, 0, history), records);
             && all.Some? && TakeRest(env, all.value) == Some(Machine(after, |literals|, to))
    ensures Expected(records, t, literals, capacity, out, history, decoder)
          == Some(SequencesRead(after, to, DecoderTables(records, t, decoder)))
  {
    hide ExecuteOne, TakeRest;
  }

  lemma InSyncAfter(p: Parse, a: nat, b: nat, from: History, huffman: Option<HuffmanTable>, e: EncodeTables,
                    t: SequenceBits.Tables, h: History)
    requires ValidParseOf(p) && a <= b <= |p.records| && TablesAgree(from.tables, h.tables)
    requires Agree(huffman, Replaced(h.huffman, from.huffman, huffman))
    ensures InSync(After(p, a, b, from, huffman, e, t),
                   History(Replaced(h.huffman, from.huffman, huffman), DecoderTables(p.records[a..b], t, h.tables),
                           Mark(p, b).history))
  {
    hide Agree, Replaced, Mark, ValidParseOf;
  }

  lemma BodyDecodesWhen(body: seq<byte>, capacity: nat, before: seq<byte>, after: seq<byte>, h: History, to: History)
    requires ValidHistory(h) && CompressedOf(body, capacity, before, h).Some?
    requires CompressedOf(body, capacity, before, h).value.out == after
    requires InSync(to, CompressedOf(body, capacity, before, h).value.history)
    ensures BodyDecodes(body, capacity, before, after, h, to)
  {
    hide CompressedOf, InSync, ValidHistory;
  }

  // ---------------------------------------------------------------- the body of a compressed block

  /** What the finder and the splitter hand over for a block. */
  datatype Found = Found(literals: seq<byte>, records: seq<SequenceRecord>, offsets: R.History, splitPoints: seq<nat>)

  /** Estimated costs, by piece and kind of table. */
  type CostEstimates = nat -> (TableKind -> Estimates)

  /** What is known of a body: it is made wherever there is room for any and the tables settle, and only
      where they settle; and its literals take the form that their terms give them. */
  ghost predicate BodyMade(literals: seq<byte>, records: seq<SequenceRecord>, terms: Terms, body: Option<seq<byte>>,
                           after: Option<HuffmanTable>) {
    && (forall i :: 0 <= i < |records| ==> ValidRecord(records[i]))
    && (body.Some? && records != [] ==> AllSettle(records, terms.quick))
    && (RoomForBody(|literals|, records, terms.capacity) && (records == [] || AllSettle(records, terms.quick)) ==>
          body.Some?)
    && (body.Some? ==> LiteralsTaken(terms, literals, |records|, body.value, after))
  }

  lemma BodyMadeWhen(literals: seq<byte>, records: seq<SequenceRecord>, terms: Terms, body: Option<seq<byte>>,
                     after: Option<HuffmanTable>)
    requires forall i :: 0 <= i < |records| ==> ValidRecord(records[i])
    requires body.Some? && records != [] ==> AllSettle(records, terms.quick)
    requires RoomForBody(|literals|, records, terms.capacity) && (records == [] || AllSettle(records, terms.quick)) ==>
               body.Some?
    requires body.Some? ==> LiteralsTaken(terms, literals, |records|, body.value, after)
    ensures BodyMade(literals, records, terms, body, after)
  {
    hide AllSettle, RoomForBody, ValidRecord, LiteralsTaken;
  }

  /** `write_compressed_block_body`: literals, then sequences; the tables move on even if the
      sequences fail, which is why callers keep the old ones. */
  method WriteCompressedBlockBody(literals: seq<byte>, records: seq<SequenceRecord>, scratchLength: nat,
                                  huffmanTable: HuffmanEncodeTable, tables: EncodeTables, tableReuseAllowed: bool,
                                  allowQuickRaw: bool, estimates: TableKind -> Estimates, ghost h: History)
    returns (body: Option<seq<byte>>, newHuffman: HuffmanEncodeTable, newTables: EncodeTables,
             ghost huffman: Option<HuffmanTable>, ghost t: SequenceBits.Tables, ghost cut: nat)
    requires |literals| <= MAX_BLOCK_SIZE && |records| <= MAX_BLOCK_SIZE
    requires forall i :: 0 <= i < |records| ==> ValidRecord(records[i])
    requires Stands(huffmanTable, h.huffman) && EncodersHold(tables, h.tables)
    ensures BodyMade(literals, records, Terms(scratchLength, tableReuseAllowed, allowQuickRaw, h.huffman), body,
                     huffman)
    ensures body.Some? && records != [] ==>
              AllChosen(records, allowQuickRaw, estimates, tables, h.tables, newTables, t)
    ensures newHuffman == huffmanTable || fresh(newHuffman)
    ensures newTables.ll.table == tables.ll.table || fresh(newTables.ll.table)
    ensures newTables.of.table == tables.of.table || fresh(newTables.of.table)
    ensures newTables.ml.table == tables.ml.table || fresh(newTables.ml.table)
    ensures body.Some? ==> |body.value| <= scratchLength && cut <= |body.value|
    ensures body.Some? ==> Carries(body.value[..cut], literals, h.huffman, huffman) && Stands(newHuffman, huffman)
    ensures body.Some? ==> TablesAfter(records, newTables, tables, h.tables, t)
    ensures body.Some? && records != [] ==>
              ValidTables(t) && CoversAll(t, records) && SectionHolds(body.value[cut..], records, t, h.tables)
    ensures body.Some? && SectionFits(records, t) ==> CarriesRecords(body.value[cut..], records, t, h.tables)
    ensures allowQuickRaw && QuickRoom(|literals|, records, scratchLength) ==>
              body.Some? && t == DefaultTables() && records != [] && QuickSize(|literals|, records, |body.value|)
  {
    hide *;
    body, newTables, t, cut := None, tables, SequenceBits.Tables(Fse.Tans(0, []), Fse.Tans(0, []), Fse.Tans(0, [])), 0;
    var literalBytes;
    ghost var c;
    assert allocated(tables.ll.table) && allocated(tables.of.table) && allocated(tables.ml.table);
    literalBytes, newHuffman, huffman, c := WriteLiterals(literals, scratchLength, huffmanTable, tableReuseAllowed,
                                                          |records|, allowQuickRaw, h.huffman);
    if allowQuickRaw && QuickRoom(|literals|, records, scratchLength) {
      QuickRoomAfter(|literals|, records, scratchLength, if literalBytes.Some? then |literalBytes.value| else 0);
    }
    if RoomForBody(|literals|, records, scratchLength) {
      RoomForBodyParts(|literals|, records, scratchLength, if literalBytes.Some? then |literalBytes.value| else 0);
    }
    ghost var terms := Terms(scratchLength, tableReuseAllowed, allowQuickRaw, h.huffman);
    if literalBytes.None? {
      BodyMadeWhen(literals, records, terms, body, huffman);
      return;
    }
    var sequenceBytes;
    sequenceBytes, newTables, t := WriteSequences(records, scratchLength - |literalBytes.value|, tables, allowQuickRaw,
                                                  estimates, h.tables);
    if sequenceBytes.None? {
      BodyMadeWhen(literals, records, terms, body, huffman);
      return;
    }
    cut := |literalBytes.value|;
    body := Some(literalBytes.value + sequenceBytes.value);
    assert body.value[..cut] == literalBytes.value && body.value[cut..] == sequenceBytes.value;
    TakenWhen(terms, literals, |records|, body.value, huffman, cut, c, newHuffman == huffmanTable);
    BodyMadeWhen(literals, records, terms, body, huffman);
  }

  /** The literals section in front of a body takes the form its terms give it; the table held next. */
  ghost predicate LiteralsTaken(terms: Terms, literals: seq<byte>, recordCount: nat, body: seq<byte>,
                                after: Option<HuffmanTable>) {
    exists cut: nat, c: Candidate, kept: bool :: TakenAt(terms, literals, recordCount, body, after, cut, c, kept)
  }

  ghost predicate TakenAt(terms: Terms, literals: seq<byte>, recordCount: nat, body: seq<byte>,
                          after: Option<HuffmanTable>, cut: nat, c: Candidate, kept: bool) {
    && cut <= |body| && |literals| <= E.MAX_BLOCK_SIZE
    && terms.Takes(literals, recordCount, c, Some(body[..cut]), kept)
    && after == if kept then terms.held else Some(c.h)
  }

  lemma TakenWhen(terms: Terms, literals: seq<byte>, recordCount: nat, body: seq<byte>, after: Option<HuffmanTable>,
                  cut: nat, c: Candidate, kept: bool)
    requires cut <= |body| && |literals| <= E.MAX_BLOCK_SIZE
    requires terms.Takes(literals, recordCount, c, Some(body[..cut]), kept)
    requires after == if kept then terms.held else Some(c.h)
    ensures LiteralsTaken(terms, literals, recordCount, body, after)
  {
    hide Terms.Takes;
    assert TakenAt(terms, literals, recordCount, body, after, cut, c, kept);
  }

  /** Room for the literals raw and any section of the records. */
  ghost predicate RoomForBody(literalCount: nat, records: seq<SequenceRecord>, scratchLength: nat) {
    && literalCount <= MAX_BLOCK_SIZE && RawSize(literalCount) <= scratchLength
    && RoomForSection(records, scratchLength - RawSize(literalCount))
  }

  lemma RoomForBodyParts(literalCount: nat, records: seq<SequenceRecord>, scratchLength: nat, used: nat)
    requires RoomForBody(literalCount, records, scratchLength)
    ensures literalCount <= MAX_BLOCK_SIZE && RawSize(literalCount) <= scratchLength
    ensures used <= RawSize(literalCount) ==> RoomForSection(records, scratchLength - used)
  {
    hide RawSize;
    if used <= RawSize(literalCount) {
      RoomForSectionIs(records, scratchLength - RawSize(literalCount));
      RoomForSectionIs(records, scratchLength - used);
    }
  }

  // ---------------------------------------------------------------- when the quick choice commits a block

  /** The scratch buffer takes the literals raw and the records with the default tables. */
  ghost predicate QuickRoom(literalCount: nat, records: seq<SequenceRecord>, scratchLength: nat) {
    && literalCount <= MAX_BLOCK_SIZE && RawSize(literalCount) <= scratchLength
    && RoomWithDefaults(records, scratchLength - RawSize(literalCount))
  }

  /** A body of at most that size. */
  ghost predicate QuickSize(literalCount: nat, records: seq<SequenceRecord>, size: nat) {
    literalCount <= MAX_BLOCK_SIZE && SizeWithDefaults(records, size - RawSize(literalCount))
  }

  /** Any such body is smaller than the content. */
  ghost predicate QuickPays(literalCount: nat, records: seq<SequenceRecord>, scratchLength: nat, contentLength: nat) {
    && QuickRoom(literalCount, records, scratchLength)
    && forall size: nat :: QuickSize(literalCount, records, size) ==> size < contentLength
  }

  /** One compressed block whose sequences section has the default tables. */
  ghost predicate Alone(bytes: seq<byte>, isLast: bool, literals: seq<byte>, records: seq<SequenceRecord>, h: History) {
    exists body: seq<byte>, cut: nat, huffman: Option<HuffmanTable> ::
      AloneAt(bytes, isLast, literals, records, h, body, cut, huffman)
  }

  ghost predicate AloneAt(bytes: seq<byte>, isLast: bool, literals: seq<byte>, records: seq<SequenceRecord>, h: History,
                          body: seq<byte>, cut: nat, huffman: Option<HuffmanTable>) {
    && bytes == WriteBlockHeader(BlockHeader(CompressedBlock, |body|, isLast)) + body
    && cut <= |body| <= MAX_BLOCK_SIZE && Carries(body[..cut], literals, h.huffman, huffman)
    && records != [] && ValidTables(DefaultTables()) && CoversAll(DefaultTables(), records)
    && SectionHolds(body[cut..], records, DefaultTables(), h.tables)
  }

  lemma QuickPaysParts(literalCount: nat, records: seq<SequenceRecord>, scratchLength: nat, contentLength: nat)
    requires QuickPays(literalCount, records, scratchLength, contentLength)
    ensures QuickRoom(literalCount, records, scratchLength)
    ensures forall size: nat :: QuickSize(literalCount, records, size) ==> size < contentLength
  {
    hide QuickRoom, QuickSize;
  }

  lemma AloneWhen(bytes: seq<byte>, isLast: bool, literals: seq<byte>, records: seq<SequenceRecord>, h: History,
                  body: seq<byte>, cut: nat, huffman: Option<HuffmanTable>)
    requires bytes == WriteBlockHeader(BlockHeader(CompressedBlock, |body|, isLast)) + body
    requires cut <= |body| <= MAX_BLOCK_SIZE && Carries(body[..cut], literals, h.huffman, huffman)
    requires records != [] && ValidTables(DefaultTables()) && CoversAll(DefaultTables(), records)
    requires SectionHolds(body[cut..], records, DefaultTables(), h.tables)
    ensures Alone(bytes, isLast, literals, records, h)
  {
    hide WriteBlockHeader, Carries, DefaultTables, ValidTables, CoversAll, SectionHolds;
    assert AloneAt(bytes, isLast, literals, records, h, body, cut, huffman);
  }

  lemma QuickRoomAfter(literalCount: nat, records: seq<SequenceRecord>, scratchLength: nat, used: nat)
    requires QuickRoom(literalCount, records, scratchLength)
    ensures RawSize(literalCount) <= scratchLength
    ensures used <= RawSize(literalCount) ==>
              RoomWithDefaults(records, scratchLength - used) && DefaultsServe(records) && records != []
    ensures forall size: nat :: used <= RawSize(literalCount) && SizeWithDefaults(records, size) ==>
                                  QuickSize(literalCount, records, used + size)
  {
    hide DefaultTables, ValidTables, CoversAll, WholeStream, DefaultsServe, RawSize;
  }

  lemma PieceCarries(p: Parse, a: nat, b: nat, body: seq<byte>, cut: nat, from: History, huffman: Option<HuffmanTable>,
                     e: EncodeTables, t: SequenceBits.Tables, isLast: bool)
    requires ValidParseOf(p) && a <= b <= |p.records| && (a < b || |p.records| == 0) && cut <= |body| <= MAX_BLOCK_SIZE
    requires from.offsets == Mark(p, a).history
    requires Carries(body[..cut], PieceLiterals(p, a, b), from.huffman, huffman)
    requires CarriesRecords(body[cut..], p.records[a..b], t, from.tables)
    ensures StartAt(p, a) <= EndAt(p, b) <= |p.input|
    ensures BlocksCarry(WriteBlockHeader(BlockHeader(CompressedBlock, |body|, isLast)) + body, isLast,
                        p.input[..StartAt(p, a)],
                        p.input[..EndAt(p, b)], from, After(p, a, b, from, huffman, e, t))
  {
    hide *;
    BodyOf(p, a, b, body[..cut], body[cut..], from, huffman, e, t);
    assert body[..cut] + body[cut..] == body;
    CompressedCarry(body, isLast, p.input[..StartAt(p, a)], p.input[..EndAt(p, b)], from,
                    After(p, a, b, from, huffman, e, t));
  }

  lemma TablesHeld(p: Parse, a: nat, b: nat, from: History, huffman: Option<HuffmanTable>, e: EncodeTables,
                   previous: EncodeTables, t: SequenceBits.Tables)
    requires ValidParseOf(p) && a <= b <= |p.records| && TablesAfter(p.records[a..b], e, previous, from.tables, t)
    ensures var to := After(p, a, b, from, huffman, e, t);
            EncodersHold(e, to.tables) && to.huffman == huffman && to.offsets == Mark(p, b).history
  {
    hide EncodersHold, Mark, ValidParseOf;
  }

  lemma CarryNothing(before: seq<byte>, h: History)
    ensures BlocksCarry([], false, before, before, h, h)
  {
    hide InSync, ValidHistory, RunOf;
    forall rest: seq<byte>, capacity: nat, d: History | ValidHistory(d) && InSync(h, d)
      ensures Leads([], rest, capacity, before, before, false, d, h)
    {
      assert [] + rest == rest;
      assert Continues([], rest, capacity, before, before, false, d, d);
    }
  }

  /** An encoder that relies on less stays in step. */
  lemma CarryFromLess(bytes: seq<byte>, isLast: bool, before: seq<byte>, after: seq<byte>, from: History, less: History,
                      to: History)
    requires BlocksCarry(bytes, isLast, before, after, less, to)
    requires less.offsets == from.offsets && less.huffman.None? && less.tables == HeldTables(None, None, None)
    ensures BlocksCarry(bytes, isLast, before, after, from, to)
  {
    hide ValidHistory, Leads;
  }

  // ---------------------------------------------------------------- the encoder's workspace

  datatype LevelSettings = LevelSettings(allowQuickRaw: bool, splitsBlocks: bool, scratchLength: nat)

  datatype SplitResult = SplitFailed | SplitAbandoned | SplitWritten(bytes: seq<byte>)

  /** A piece that was tried: the outcome of its body, how much of the content it stands for, and the
      history before it and, if there is a body, after it. */
  datatype Piece = Piece(body: Option<seq<byte>>, length: nat, before: History, after: History)

  /** A piece behind what is written: given up unless its body is smaller than its content and all so far
      costs no more than the content so far and one header. */
  function PieceResult(output: seq<byte>, consumed: nat, piece: Piece, isLast: bool, room: nat): SplitResult {
    if piece.body.None? || |piece.body.value| >= piece.length then SplitAbandoned
    else if |output| + 3 + |piece.body.value| > consumed + piece.length + 3 then SplitAbandoned
    else if |output| + 3 + |piece.body.value| > room then SplitFailed
    else
      SplitWritten(output + (WriteBlockHeader(BlockHeader(CompressedBlock, |piece.body.value|, isLast))
                             + piece.body.value))
  }

  function LengthsOf(pieces: seq<Piece>): nat {
    if pieces == [] then 0 else LengthsOf(pieces[..|pieces| - 1]) + pieces[|pieces| - 1].length
  }

  /** Piece after piece, of `count` in all; the last of them ends the block. */
  function PiecesResult(pieces: seq<Piece>, count: nat, isLast: bool, room: nat): SplitResult {
    if pieces == [] then SplitWritten([])
    else
      var before, n := pieces[..|pieces| - 1], |pieces|;
      match PiecesResult(before, count, isLast, room)
      case SplitWritten(output) =>
        PieceResult(output, LengthsOf(before), pieces[n - 1], n == count && isLast, room)
      case other => other
  }

  /** The bytes of the first `k` records. */
  function BytesBefore(records: seq<SequenceRecord>, k: nat): nat {
    ByteSum(records[..Min(k, |records|)])
  }

  /** What the piece between two boundaries stands for; the last one takes the rest of the content. */
  function PieceLength(boundaries: seq<nat>, records: seq<SequenceRecord>, contentLength: nat, i: nat): int
    requires i + 1 < |boundaries|
  {
    (if boundaries[i + 1] == |records| then contentLength else BytesBefore(records, boundaries[i + 1]))
    - BytesBefore(records, boundaries[i])
  }

  /** The body of a piece, under the settings and the table held. */
  ghost predicate PieceMade(settings: LevelSettings, literals: seq<byte>, records: seq<SequenceRecord>, reuse: bool,
                            piece: Piece) {
    BodyMade(literals, records, Terms(settings.scratchLength, reuse, settings.allowQuickRaw, piece.before.huffman),
             piece.body, piece.after.huffman)
  }

  lemma PieceMadeWhen(settings: LevelSettings, literals: seq<byte>, records: seq<SequenceRecord>, reuse: bool,
                      piece: Piece)
    requires BodyMade(literals, records, Terms(settings.scratchLength, reuse, settings.allowQuickRaw,
                                                piece.before.huffman), piece.body, piece.after.huffman)
    ensures PieceMade(settings, literals, records, reuse, piece)
  {
    hide BodyMade;
  }

  /** The history in front of a piece: what the one before it leaves. */
  function HistoryBefore(pieces: seq<Piece>, i: nat, h: History): History
    requires i <= |pieces|
  {
    if i == 0 then h else pieces[i - 1].after
  }

  lemma HistoryNext(pieces: seq<Piece>, piece: Piece, h: History)
    ensures HistoryBefore([], 0, h) == h
    ensures HistoryBefore(pieces + [piece], |pieces| + 1, h) == piece.after
  {
  }

  /** The pieces tried are those between the boundaries, in order; each continues from the history the one
      before it leaves, and from the second on a table held may be used. */
  ghost predicate PiecesTried(settings: LevelSettings, pieces: seq<Piece>, boundaries: seq<nat>, literals: seq<byte>,
                              records: seq<SequenceRecord>, contentLength: nat, reuse: bool, h: History) {
    && |pieces| < |boundaries|
    && forall i :: 0 <= i < |pieces| ==>
         && pieces[i].length == PieceLength(boundaries, records, contentLength, i)
         && pieces[i].before == HistoryBefore(pieces, i, h)
         && PieceMade(settings, LiteralsBetween(literals, records, boundaries[i], boundaries[i + 1]),
                      RecordsBetween(records, boundaries[i], boundaries[i + 1]), i != 0 || reuse, pieces[i])
  }

  lemma LengthIs(boundaries: seq<nat>, records: seq<SequenceRecord>, contentLength: nat, i: nat)
    requires i + 1 < |boundaries| && boundaries[i] <= |records| && boundaries[i + 1] <= |records|
    ensures PieceLength(boundaries, records, contentLength, i)
         == (if boundaries[i + 1] == |records| then contentLength else ByteSum(records[..boundaries[i + 1]]))
            - ByteSum(records[..boundaries[i]])
  {
    hide ByteSum;
  }

  lemma TriedMore(settings: LevelSettings, pieces: seq<Piece>, piece: Piece, boundaries: seq<nat>,
                  literals: seq<byte>, records: seq<SequenceRecord>, contentLength: nat, reuse: bool, h: History)
    requires PiecesTried(settings, pieces, boundaries, literals, records, contentLength, reuse, h)
    requires var n := |pieces|;
             && n + 1 < |boundaries| && piece.length == PieceLength(boundaries, records, contentLength, n)
             && piece.before == HistoryBefore(pieces, n, h)
             && PieceMade(settings, LiteralsBetween(literals, records, boundaries[n], boundaries[n + 1]),
                          RecordsBetween(records, boundaries[n], boundaries[n + 1]), n != 0 || reuse, piece)
    ensures PiecesTried(settings, pieces + [piece], boundaries, literals, records, contentLength, reuse, h)
  {
    hide PieceLength, PieceMade, LiteralsBetween, RecordsBetween;
    var more := pieces + [piece];
    forall i | 0 <= i < |more|
      ensures more[i].length == PieceLength(boundaries, records, contentLength, i)
      ensures more[i].before == HistoryBefore(more, i, h)
      ensures PieceMade(settings, LiteralsBetween(literals, records, boundaries[i], boundaries[i + 1]),
                        RecordsBetween(records, boundaries[i], boundaries[i + 1]), i != 0 || reuse, more[i])
    {
      if i < |pieces| {
        assert more[i] == pieces[i];
      }
      if i > 0 {
        assert more[i - 1] == pieces[i - 1];
      }
    }
  }

  lemma NoneTried(settings: LevelSettings, boundaries: seq<nat>, literals: seq<byte>, records: seq<SequenceRecord>,
                  contentLength: nat, reuse: bool, h: History)
    requires boundaries != []
    ensures PiecesTried(settings, [], boundaries, literals, records, contentLength, reuse, h)
  {
  }

  lemma BetweenIs(p: Parse, a: nat, b: nat)
    requires a <= b <= |p.records|
    ensures LiteralsBetween(p.literals, p.records, a, b) == PieceLiterals(p, a, b)
    ensures RecordsBetween(p.records, a, b) == p.records[a..b]
  {
    hide LiteralsBetween;
  }

  lemma OnePieceMore(pieces: seq<Piece>, piece: Piece, count: nat, isLast: bool, room: nat, output: seq<byte>)
    requires PiecesResult(pieces, count, isLast, room) == SplitWritten(output)
    ensures PiecesResult(pieces + [piece], count, isLast, room)
         == PieceResult(output, LengthsOf(pieces), piece, |pieces| + 1 == count && isLast, room)
    ensures LengthsOf(pieces + [piece]) == LengthsOf(pieces) + piece.length
  {
    hide PieceResult;
    assert (pieces + [piece])[..|pieces|] == pieces;
  }

  lemma NoPiecesTried(count: nat, isLast: bool, room: nat)
    ensures PiecesResult([], count, isLast, room) == SplitWritten([]) && LengthsOf([]) == 0
  {
  }

  lemma PieceResultIs(output: seq<byte>, consumed: nat, piece: Piece, isLast: bool, room: nat)
    ensures PieceResult(output, consumed, piece, isLast, room)
         == if piece.body.None? || |piece.body.value| >= piece.length then SplitAbandoned
            else if |output| + 3 + |piece.body.value| > consumed + piece.length + 3 then SplitAbandoned
            else if |output| + 3 + |piece.body.value| > room then SplitFailed
            else
              SplitWritten(output + (WriteBlockHeader(BlockHeader(CompressedBlock, |piece.body.value|, isLast))
                                     + piece.body.value))
  {
  }

  class EncodeWorkspace {
    const settings: LevelSettings
    const repeatOffsets: R.RepeatOffsets
    var huffmanTable: HuffmanEncodeTable
    var sequenceTables: EncodeTables

    /** The tables at hand are those the encoder may rely on. */
    ghost predicate TablesHold(h: History)
      reads `huffmanTable, `sequenceTables, huffmanTable, sequenceTables.ll.table, sequenceTables.of.table
      reads sequenceTables.ml.table
    {
      Stands(huffmanTable, h.huffman) && EncodersHold(sequenceTables, h.tables)
    }

    ghost predicate Holds(h: History)
      reads this, huffmanTable, sequenceTables.ll.table, sequenceTables.of.table, sequenceTables.ml.table, repeatOffsets
    {
      TablesHold(h) && repeatOffsets.State() == h.offsets
    }

    constructor (settings: LevelSettings)
      ensures this.settings == settings && fresh(repeatOffsets)
      ensures Holds(History(None, HeldTables(None, None, None), R.INITIAL))
    {
      this.settings := settings;
      repeatOffsets := new R.RepeatOffsets();
      var ll := new FseEncodeTable();
      var of := new FseEncodeTable();
      var ml := new FseEncodeTable();
      huffmanTable := new HuffmanEncodeTable();
      sequenceTables := EncodeTables(KindState(ll, PredefinedMode), KindState(of, PredefinedMode),
                                     KindState(ml, PredefinedMode));
    }

    /** A new segment starts without tables. */
    method ForgetTables(ghost h: History)
      modifies `huffmanTable, `sequenceTables
      ensures TablesHold(History(None, HeldTables(None, None, None), h.offsets))
    {
      var ll := new FseEncodeTable();
      var of := new FseEncodeTable();
      var ml := new FseEncodeTable();
      huffmanTable := new HuffmanEncodeTable();
      sequenceTables := EncodeTables(KindState(ll, PredefinedMode), KindState(of, PredefinedMode),
                                     KindState(ml, PredefinedMode));
    }

    /** The finder's effect on the repeat offsets, and the way back. */
    method SetOffsets(offsets: R.History)
      modifies repeatOffsets
      ensures repeatOffsets.State() == offsets
    {
      repeatOffsets.first, repeatOffsets.second, repeatOffsets.third := offsets.first, offsets.second, offsets.third;
    }

    /** `write_raw_block` after undoing what the finder and the body have changed. */
    method RollBack(content: seq<byte>, isLast: bool, room: nat, savedOffsets: R.History,
                    savedHuffman: HuffmanEncodeTable, savedTables: EncodeTables, ghost before: seq<byte>,
                    ghost h: History)
      returns (bytes: Option<seq<byte>>)
      requires |content| <= MAX_BLOCK_SIZE && savedOffsets == h.offsets
      requires Stands(savedHuffman, h.huffman) && EncodersHold(savedTables, h.tables)
      modifies `huffmanTable, `sequenceTables, repeatOffsets
      ensures Holds(h) && (room >= |content| + 3 <==> bytes.Some?)
      ensures bytes.Some? ==> bytes.value == WriteBlockHeader(BlockHeader(RawBlock, |content|, isLast)) + content
      ensures |WriteBlockHeader(BlockHeader(RawBlock, |content|, isLast)) + content| == |content| + 3
      ensures bytes.Some? ==>
                |bytes.value| == |content| + 3 && BlocksCarry(bytes.value, isLast, before, before + content, h, h)
    {
      hide *;
      assert allocated(savedTables.ll.table) && allocated(savedTables.of.table) && allocated(savedTables.ml.table);
      SetOffsets(savedOffsets);
      huffmanTable, sequenceTables := savedHuffman, savedTables;
      HoldsWhen(h);
      var front := WriteBlockHeader(BlockHeader(RawBlock, |content|, isLast));
      FrontSize(BlockHeader(RawBlock, |content|, isLast));
      if |front| + |content| > room {
        return None;
      }
      RawCarry(content, isLast, before, h);
      return Some(front + content);
    }

    lemma HoldsWhen(h: History)
      requires Stands(huffmanTable, h.huffman) && EncodersHold(sequenceTables, h.tables)
      requires repeatOffsets.State() == h.offsets
      ensures Holds(h) && TablesHold(h)
    {
      hide Stands, EncodersHold, R.RepeatOffsets.State;
    }

    lemma TablesHoldParts(h: History)
      requires TablesHold(h)
      ensures Stands(huffmanTable, h.huffman) && EncodersHold(sequenceTables, h.tables)
    {
      hide Stands, EncodersHold;
    }

    /** Where the quick choice pays, the block written is the compressed one. */
    ghost predicate CommitsAlone(bytes: Option<seq<byte>>, isLast: bool, contentLength: nat, literals: seq<byte>,
                                 records: seq<SequenceRecord>, h: History) {
      (&& bytes.Some? && settings.allowQuickRaw
       && QuickPays(|literals|, records, settings.scratchLength, contentLength)) ==>
        Alone(bytes.value, isLast, literals, records, h)
    }

    lemma CommitsAloneIs(bytes: Option<seq<byte>>, isLast: bool, contentLength: nat, literals: seq<byte>,
                         records: seq<SequenceRecord>, h: History)
      ensures CommitsAlone(bytes, isLast, contentLength, literals, records, h)
         <==> ((&& bytes.Some? && settings.allowQuickRaw
                && QuickPays(|literals|, records, settings.scratchLength, contentLength)) ==>
                 Alone(bytes.value, isLast, literals, records, h))
    {
      hide QuickPays, Alone;
    }

    /** The block for a content and the outcome of its body: compressed exactly if there is a body and it is
        smaller than the content, raw otherwise; nothing only where that does not fit. */
    ghost predicate Commits(bytes: Option<seq<byte>>, isLast: bool, room: nat, content: seq<byte>,
                            body: Option<seq<byte>>) {
      var block := if body.Some? && |body.value| < |content|
                   then WriteBlockHeader(BlockHeader(CompressedBlock, |body.value|, isLast)) + body.value
                   else WriteBlockHeader(BlockHeader(RawBlock, |content|, isLast)) + content;
      bytes == if |block| <= room then Some(block) else None
    }

    lemma CommitsIs(bytes: Option<seq<byte>>, isLast: bool, room: nat, content: seq<byte>, body: Option<seq<byte>>)
      ensures body.Some? && |body.value| < |content| ==>
                var block := WriteBlockHeader(BlockHeader(CompressedBlock, |body.value|, isLast)) + body.value;
                Commits(bytes, isLast, room, content, body) <==> bytes == if |block| <= room then Some(block) else None
      ensures !(body.Some? && |body.value| < |content|) ==>
                var block := WriteBlockHeader(BlockHeader(RawBlock, |content|, isLast)) + content;
                Commits(bytes, isLast, room, content, body) <==> bytes == if |block| <= room then Some(block) else None
    {
      hide WriteBlockHeader;
    }

    /** `commit_single_block`: one compressed block if that is smaller than the content, or
        everything undone and the content raw. */
    method CommitSingleBlock(content: seq<byte>, literals: seq<byte>, records: seq<SequenceRecord>, isLast: bool,
                             room: nat, tableReuseAllowed: bool, estimates: TableKind -> Estimates,
                             savedOffsets: R.History, ghost p: Parse, ghost h: History)
      returns (bytes: Option<seq<byte>>, ghost next: History, ghost sections: seq<SectionWritten>, ghost whole: Piece)
      requires TablesHold(h) && repeatOffsets.State() == p.to && savedOffsets == h.offsets
      requires ValidParseOf(p) && p.from == h.offsets && p.literals == literals && p.records == records
      requires p.blockStart <= |p.input| && content == p.input[p.blockStart..] && |content| <= MAX_BLOCK_SIZE
      requires |literals| <= MAX_BLOCK_SIZE && |records| <= MAX_BLOCK_SIZE
      requires forall i :: 0 <= i < |records| ==> ValidRecord(records[i])
      modifies `huffmanTable, `sequenceTables, repeatOffsets
      ensures Holds(next) && (room >= |content| + 3 ==> bytes.Some?)
      ensures next.offsets == p.to || next.offsets == h.offsets
      ensures bytes.Some? ==> |bytes.value| <= |content| + 3 && |bytes.value| <= room
      ensures bytes.Some? ==> SectionsIn(sections, bytes.value) && PiecesOf(sections, records, [|records|])
      ensures bytes.Some? && AllFit(sections) ==>
                BlocksCarry(bytes.value, isLast, p.input[..p.blockStart], p.input, h, next)
      ensures CommitsAlone(bytes, isLast, |content|, literals, records, h)
      ensures Commits(bytes, isLast, room, content, whole.body) && whole.before == h
      ensures next == if whole.body.Some? && |whole.body.value| < |content| then whole.after else h
      ensures PieceMade(settings, literals, records, tableReuseAllowed, whole)
    {
      hide *;
      if settings.allowQuickRaw && QuickPays(|literals|, records, settings.scratchLength, |content|) {
        QuickPaysParts(|literals|, records, settings.scratchLength, |content|);
      }
      TablesHoldParts(h);
      next, sections := h, [];
      NoPieces(records, [|records|]);
      var savedHuffman, savedTables := huffmanTable, sequenceTables;
      assert allocated(savedTables.ll.table) && allocated(savedTables.of.table) && allocated(savedTables.ml.table);
      WholePiece(p);
      var made, newHuffman, newTables;
      ghost var huffman, t, cut;
      made, newHuffman, newTables, huffman, t, cut := WriteCompressedBlockBody(literals, records,
          settings.scratchLength, savedHuffman, savedTables, tableReuseAllowed, settings.allowQuickRaw, estimates, h);
      huffmanTable, sequenceTables := newHuffman, newTables;
      whole := Piece(made, |content|, h, After(p, 0, |records|, h, huffman, newTables, t));
      AfterHolds(p, 0, |records|, h, huffman, newTables, t);
      PieceMadeWhen(settings, literals, records, tableReuseAllowed, whole);
      if made.Some? && |made.value| < |content| {
        sections := SectionOf(records, t, h.tables, made.value[cut..]);
        OneFits(records, t, h.tables, made.value[cut..]);
        OnePiece(records, t, h.tables, made.value[cut..], records, [|records|], 0, |records|);
        if AllFit(sections) {
          PieceCarries(p, 0, |records|, made.value, cut, h, huffman, newTables, t, isLast);
        }
        TablesHeld(p, 0, |records|, h, huffman, newTables, savedTables, t);
        next := After(p, 0, |records|, h, huffman, newTables, t);
        HoldsWhen(next);
        var front := WriteBlockHeader(BlockHeader(CompressedBlock, |made.value|, isLast));
        FrontSize(BlockHeader(CompressedBlock, |made.value|, isLast));
        if |front| + |made.value| > room {
          CommitsAloneIs(None, isLast, |content|, literals, records, h);
          CommitsIs(None, isLast, room, content, whole.body);
          return None, next, sections, whole;
        }
        OneInside(records, t, savedTables, h.tables, front + made.value[..cut], made.value[cut..]);
        assert front + made.value[..cut] + made.value[cut..] == front + made.value;
        if t == DefaultTables() && records != [] {
          AloneWhen(front + made.value, isLast, literals, records, h, made.value, cut, huffman);
        }
        CommitsAloneIs(Some(front + made.value), isLast, |content|, literals, records, h);
        CommitsIs(Some(front + made.value), isLast, room, content, whole.body);
        return Some(front + made.value), next, sections, whole;
      }
      bytes := RollBack(content, isLast, room, savedOffsets, savedHuffman, savedTables, p.input[..p.blockStart], h);
      if bytes.Some? {
        NoSections(bytes.value);
      }
      assert p.input[..p.blockStart] + content == p.input;
      CommitsAloneIs(bytes, isLast, |content|, literals, records, h);
      CommitsIs(bytes, isLast, room, content, whole.body);
    }

    /** One piece of a split block, behind what is written already. It is given up when it is not
        smaller than its content or no longer pays for its header. */
    method WritePiece(literals: seq<byte>, records: seq<SequenceRecord>, output: seq<byte>, contentPosition: nat,
                      pieceByteLength: nat, isLastBlock: bool, room: nat, tableReuseAllowed: bool,
                      estimates: TableKind -> Estimates, ghost p: Parse, ghost a: nat, ghost b: nat,
                      ghost ends: seq<nat>, ghost h: History, ghost g: History, ghost sections: seq<SectionWritten>)
      returns (r: SplitResult, ghost next: History, ghost newSections: seq<SectionWritten>, ghost piece: Piece)
      requires ValidParseOf(p) && a < b <= |p.records| && literals == PieceLiterals(p, a, b)
      requires records == p.records[a..b]
      requires p.blockStart + contentPosition == StartAt(p, a)
      requires StartAt(p, a) + pieceByteLength == EndAt(p, b) <= |p.input|
      requires pieceByteLength <= MAX_BLOCK_SIZE && |literals| <= MAX_BLOCK_SIZE && |records| <= MAX_BLOCK_SIZE
      requires forall i :: 0 <= i < |records| ==> ValidRecord(records[i])
      requires TablesHold(g) && g.offsets == Mark(p, a).history && |output| <= contentPosition + 3
      requires SectionsIn(sections, output) && PiecesOf(sections, p.records, ends) && b in ends
      requires AllFit(sections) ==> BlocksCarry(output, false, p.input[..p.blockStart], p.input[..StartAt(p, a)], h, g)
      modifies `huffmanTable, `sequenceTables
      ensures r == PieceResult(output, contentPosition, piece, isLastBlock, room)
      ensures piece.length == pieceByteLength && piece.before == g
      ensures PieceMade(settings, literals, records, tableReuseAllowed, piece)
      ensures r.SplitWritten? ==> next == piece.after
      ensures r.SplitFailed? ==> room < contentPosition + pieceByteLength + 3
      ensures r.SplitWritten? ==> && TablesHold(next) && next.offsets == Mark(p, b).history
                                  && |r.bytes| <= contentPosition + pieceByteLength + 3 && |r.bytes| <= room
                                  && SectionsIn(newSections, r.bytes) && PiecesOf(newSections, p.records, ends)
      ensures r.SplitWritten? && AllFit(newSections) ==>
                BlocksCarry(r.bytes, isLastBlock, p.input[..p.blockStart], p.input[..EndAt(p, b)], h, next)
    {
      hide *;
      TablesHoldParts(g);
      next, newSections := g, sections;
      var savedTables := sequenceTables;
      assert allocated(savedTables.ll.table) && allocated(savedTables.of.table) && allocated(savedTables.ml.table);
      var made, newHuffman, newTables;
      ghost var huffman, t, cut;
      made, newHuffman, newTables, huffman, t, cut := WriteCompressedBlockBody(literals, records,
          settings.scratchLength, huffmanTable, savedTables, tableReuseAllowed, settings.allowQuickRaw, estimates, g);
      huffmanTable, sequenceTables := newHuffman, newTables;
      piece := Piece(made, pieceByteLength, g, After(p, a, b, g, huffman, newTables, t));
      AfterHolds(p, a, b, g, huffman, newTables, t);
      PieceMadeWhen(settings, literals, records, tableReuseAllowed, piece);
      PieceResultIs(output, contentPosition, piece, isLastBlock, room);
      if made.None? || |made.value| >= pieceByteLength {
        return SplitAbandoned, next, newSections, piece;
      }
      if |output| + 3 + |made.value| > contentPosition + pieceByteLength + 3 {
        return SplitAbandoned, next, newSections, piece;
      }
      var front := WriteBlockHeader(BlockHeader(CompressedBlock, |made.value|, isLastBlock));
      FrontSize(BlockHeader(CompressedBlock, |made.value|, isLastBlock));
      if |output| + |front| + |made.value| > room {
        return SplitFailed, next, newSections, piece;
      }
      ghost var added := SectionOf(records, t, g.tables, made.value[cut..]);
      newSections := sections + added;
      OneFits(records, t, g.tables, made.value[cut..]);
      OnePiece(records, t, g.tables, made.value[cut..], p.records, ends, a, b);
      PiecesBoth(sections, added, p.records, ends);
      FitBoth(sections, added);
      OneInside(records, t, savedTables, g.tables, front + made.value[..cut], made.value[cut..]);
      assert front + made.value[..cut] + made.value[cut..] == front + made.value;
      InBoth(sections, output, added, front + made.value);
      TablesHeld(p, a, b, g, huffman, newTables, savedTables, t);
      next := After(p, a, b, g, huffman, newTables, t);
      TablesHoldWhen(next);
      if AllFit(newSections) {
        PieceCarries(p, a, b, made.value, cut, g, huffman, newTables, t, isLastBlock);
        CarryBoth(output, front + made.value, isLastBlock, p.input[..p.blockStart], p.input[..StartAt(p, a)],
                  p.input[..EndAt(p, b)], h, g, next);
      }
      return SplitWritten(output + (front + made.value)), next, newSections, piece;
    }

    lemma AfterHolds(p: Parse, a: nat, b: nat, g: History, huffman: Option<HuffmanTable>, e: EncodeTables,
                     t: SequenceBits.Tables)
      requires ValidParseOf(p) && a <= b <= |p.records|
      ensures After(p, a, b, g, huffman, e, t).huffman == huffman
    {
      hide ValidParseOf, Mark;
    }

    lemma TablesHoldWhen(h: History)
      requires Stands(huffmanTable, h.huffman) && EncodersHold(sequenceTables, h.tables)
      ensures TablesHold(h)
    {
      hide Stands, EncodersHold;
    }

    /** `write_block_as_split_pieces`: given up at the first piece that does not pay; complete, it
        costs at most three bytes more than the content. */
    method WriteBlockAsSplitPieces(content: seq<byte>, literals: seq<byte>, records: seq<SequenceRecord>, isLast: bool,
                                   room: nat, boundaries: seq<nat>, tableReuseAllowed: bool, estimates: CostEstimates,
                                   ghost p: Parse, ghost h: History)
      returns (r: SplitResult, ghost next: History, ghost sections: seq<SectionWritten>, ghost pieces: seq<Piece>)
      requires TablesHold(h) && ValidParseOf(p) && p.from == h.offsets && p.literals == literals && p.records == records
      requires p.blockStart <= |p.input| && content == p.input[p.blockStart..] && |content| <= MAX_BLOCK_SIZE
      requires |literals| <= MAX_BLOCK_SIZE && |records| <= MAX_BLOCK_SIZE && |boundaries| > 0
      requires Boundaries(boundaries, records)
      requires forall i :: 0 <= i < |records| ==> ValidRecord(records[i])
      modifies `huffmanTable, `sequenceTables
      ensures r == PiecesResult(pieces, |boundaries| - 1, isLast, room)
      ensures PiecesTried(settings, pieces, boundaries, literals, records, |content|, tableReuseAllowed, h)
      ensures r.SplitWritten? ==> |pieces| == |boundaries| - 1 && next == HistoryBefore(pieces, |pieces|, h)
      ensures r.SplitFailed? ==> room < |content| + 3
      ensures r.SplitWritten? ==>
                && TablesHold(next) && next.offsets == p.to && |r.bytes| <= |content| + 3 && |r.bytes| <= room
                && SectionsIn(sections, r.bytes) && PiecesOf(sections, records, boundaries[1..])
      ensures r.SplitWritten? && AllFit(sections) ==>
                BlocksCarry(r.bytes, isLast, p.input[..p.blockStart], p.input, h, next)
    {
      hide *;
      BoundariesAre(boundaries, records);
      assert allocated(sequenceTables.ll.table) && allocated(sequenceTables.of.table)
             && allocated(sequenceTables.ml.table);
      var literalPrefix, bytePrefix := PrefixSums(records);
      var output, contentPosition, i := [], 0, 0;
      next, sections, pieces := h, [], [];
      NoPiecesTried(|boundaries| - 1, isLast, room);
      HistoryNext([], Piece(None, 0, h, h), h);
      NoneTried(settings, boundaries, literals, records, |content|, tableReuseAllowed, h);
      WholePiece(p);
      NoSections(output);
      NoPieces(records, boundaries[1..]);
      CarryNothing(p.input[..p.blockStart], h);
      while i + 1 < |boundaries|
        modifies `huffmanTable, `sequenceTables
        invariant i < |boundaries| && TablesHold(next) && next.offsets == Mark(p, boundaries[i]).history
        invariant contentPosition <= |content| && |output| <= contentPosition + 3
        invariant p.blockStart + contentPosition
                == if i + 1 == |boundaries| then |p.input| else StartAt(p, boundaries[i])
        invariant |output| <= room
        invariant PiecesResult(pieces, |boundaries| - 1, isLast, room) == SplitWritten(output) && |pieces| == i
        invariant LengthsOf(pieces) == contentPosition
        invariant PiecesTried(settings, pieces, boundaries, literals, records, |content|, tableReuseAllowed, h)
        invariant next == HistoryBefore(pieces, i, h)
        invariant SectionsIn(sections, output) && PiecesOf(sections, records, boundaries[1..])
        invariant AllFit(sections) ==>
                    BlocksCarry(output, i + 1 == |boundaries| && isLast, p.input[..p.blockStart],
                                p.input[..p.blockStart + contentPosition], h, next)
      {
        var start, end := boundaries[i], boundaries[i + 1];
        BoundaryAt(boundaries, records, i);
        PieceMeans(p, start, end, EndAt(p, end));
        EndsAre(p, start, end);
        PieceLiteralsAre(p, start, end);
        var isLastPiece := end == |records|;
        var literalEnd := if isLastPiece then |literals| else literalPrefix[end];
        var pieceByteLength := if isLastPiece then |content| - contentPosition else bytePrefix[end] - bytePrefix[start];
        assert boundaries[1..][i] == end;
        var written;
        ghost var piece;
        LengthIs(boundaries, records, |content|, i);
        BetweenIs(p, start, end);
        written, next, sections, piece := WritePiece(literals[literalPrefix[start]..literalEnd], records[start..end],
                                                     output, contentPosition, pieceByteLength, isLastPiece && isLast,
                                                     room, i != 0 || tableReuseAllowed, estimates(i), p, start, end,
                                                     boundaries[1..], h, next, sections);
        OnePieceMore(pieces, piece, |boundaries| - 1, isLast, room, output);
        TriedMore(settings, pieces, piece, boundaries, literals, records, |content|, tableReuseAllowed, h);
        HistoryNext(pieces, piece, h);
        pieces := pieces + [piece];
        if !written.SplitWritten? {
          return written, next, sections, pieces;
        }
        output := written.bytes;
        contentPosition := contentPosition + pieceByteLength;
        i := i + 1;
      }
      return SplitWritten(output), next, sections, pieces;
    }

    /** Not empty, not one repeated byte, not split, and the quick choice pays. */
    ghost predicate QuickCommits(content: seq<byte>, found: Found) {
      && content != [] && content != seq(|content|, _ => content[0]) && found.splitPoints == []
      && settings.allowQuickRaw
      && QuickPays(|found.literals|, found.records, settings.scratchLength, |content|)
    }

    lemma QuickCommitsParts(content: seq<byte>, found: Found)
      requires QuickCommits(content, found)
      ensures content != [] && content != seq(|content|, _ => content[0]) && found.splitPoints == []
      ensures settings.allowQuickRaw
      ensures QuickPays(|found.literals|, found.records, settings.scratchLength, |content|)
    {
      hide QuickPays;
    }

    /** The blocks for a content: none but a header for nothing; one byte for a byte repeated; the pieces, where
        the block is split and they pay; else a compressed block if that is smaller, and the content raw if
        it is not. Nothing is written only where that does not fit. */
    ghost predicate WrittenAs(bytes: Option<seq<byte>>, isLast: bool, room: nat, content: seq<byte>, found: Found,
                              reuse: bool, whole: Piece, pieces: seq<Piece>, h: History) {
      var boundaries := [0] + found.splitPoints + [|found.records|];
      if content == [] then
        bytes == if room < 3 then None else Some(WriteBlockHeader(BlockHeader(RawBlock, 0, isLast)))
      else if content == seq(|content|, _ => content[0]) then
        bytes == if room < 4 then None
                 else Some(WriteBlockHeader(BlockHeader(RleBlock, |content|, isLast)) + [content[0]])
      else
        var result := PiecesResult(pieces, |found.splitPoints| + 1, isLast, room);
        if settings.splitsBlocks && found.splitPoints != [] && !result.SplitAbandoned? then
          && bytes == (if result.SplitWritten? then Some(result.bytes) else None)
          && PiecesTried(settings, pieces, boundaries, found.literals, found.records, |content|, reuse, h)
          && (result.SplitWritten? ==> |pieces| == |found.splitPoints| + 1)
        else
          && (settings.splitsBlocks && found.splitPoints != [] ==>
                PiecesTried(settings, pieces, boundaries, found.literals, found.records, |content|, reuse, h))
          && Commits(bytes, isLast, room, content, whole.body) && whole.before == h
          && PieceMade(settings, found.literals, found.records, reuse, whole)
    }

    /** The history a block leaves: that of its last piece, or of its one body, where that is what is
        written; otherwise the one before it. */
    ghost function HistoryLeft(isLast: bool, room: nat, content: seq<byte>, found: Found, whole: Piece,
                               pieces: seq<Piece>, h: History): History {
      if content == [] || content == seq(|content|, _ => content[0]) then h
      else if settings.splitsBlocks && found.splitPoints != []
              && !PiecesResult(pieces, |found.splitPoints| + 1, isLast, room).SplitAbandoned? then
        HistoryBefore(pieces, |pieces|, h)
      else if whole.body.Some? && |whole.body.value| < |content| then whole.after
      else h
    }

    lemma LeavesNone(isLast: bool, room: nat, content: seq<byte>, found: Found, whole: Piece, pieces: seq<Piece>,
                     h: History)
      requires content == [] || content == seq(|content|, _ => content[0])
      ensures HistoryLeft(isLast, room, content, found, whole, pieces, h) == h
    {
      hide PiecesResult;
    }

    lemma LeavesPieces(isLast: bool, room: nat, content: seq<byte>, found: Found, whole: Piece, pieces: seq<Piece>,
                       h: History)
      requires content != [] && content != seq(|content|, _ => content[0])
      requires settings.splitsBlocks && found.splitPoints != []
      requires PiecesResult(pieces, |found.splitPoints| + 1, isLast, room).SplitWritten?
      ensures HistoryLeft(isLast, room, content, found, whole, pieces, h) == HistoryBefore(pieces, |pieces|, h)
    {
      hide PiecesResult;
    }

    lemma LeavesWhole(isLast: bool, room: nat, content: seq<byte>, found: Found, whole: Piece, pieces: seq<Piece>,
                      h: History)
      requires content != [] && content != seq(|content|, _ => content[0])
      requires settings.splitsBlocks && found.splitPoints != [] ==>
                 PiecesResult(pieces, |found.splitPoints| + 1, isLast, room).SplitAbandoned?
      ensures HistoryLeft(isLast, room, content, found, whole, pieces, h)
           == if whole.body.Some? && |whole.body.value| < |content| then whole.after else h
    {
      hide PiecesResult;
    }

    /** An unsplit block is of the type its content and its body call for, and its size follows. */
    lemma UnsplitBlock(bytes: seq<byte>, isLast: bool, room: nat, content: seq<byte>, found: Found, reuse: bool,
                       whole: Piece, pieces: seq<Piece>, h: History)
      requires WrittenAs(Some(bytes), isLast, room, content, found, reuse, whole, pieces, h)
      requires 0 < |content| <= MAX_BLOCK_SIZE && !(settings.splitsBlocks && found.splitPoints != [])
      ensures var repeated := content == seq(|content|, _ => content[0]);
              var compressed := !repeated && whole.body.Some? && |whole.body.value| < |content|;
              var read := ReadBlockHeader(bytes);
              && read.Some? && read.value.isLast == isLast
              && (read.value.blockType.RleBlock? <==> repeated)
              && (read.value.blockType.CompressedBlock? <==> compressed)
              && |bytes| == 3 + if repeated then 1 else if compressed then |whole.body.value| else |content|
    {
      hide WriteBlockHeader, ReadBlockHeader, PieceMade, PiecesTried, PiecesResult;
      if content == seq(|content|, _ => content[0]) {
        BlockHeaderRoundTrip(BlockHeader(RleBlock, |content|, isLast), [content[0]]);
        FrontSize(BlockHeader(RleBlock, |content|, isLast));
      } else if whole.body.Some? && |whole.body.value| < |content| {
        BlockHeaderRoundTrip(BlockHeader(CompressedBlock, |whole.body.value|, isLast), whole.body.value);
        FrontSize(BlockHeader(CompressedBlock, |whole.body.value|, isLast));
      } else {
        BlockHeaderRoundTrip(BlockHeader(RawBlock, |content|, isLast), content);
        FrontSize(BlockHeader(RawBlock, |content|, isLast));
      }
    }

    lemma WrittenNothing(bytes: Option<seq<byte>>, isLast: bool, room: nat, content: seq<byte>, found: Found,
                         reuse: bool, whole: Piece, pieces: seq<Piece>, h: History)
      requires content == [] && WrittenAs(bytes, isLast, room, content, found, reuse, whole, pieces, h)
      ensures bytes == if room < 3 then None else Some(WriteBlockHeader(BlockHeader(RawBlock, 0, isLast)))
    {
      hide Commits, PieceMade, PiecesTried, PiecesResult, WriteBlockHeader;
    }

    lemma WrittenWhole(bytes: Option<seq<byte>>, isLast: bool, room: nat, content: seq<byte>, found: Found,
                       reuse: bool, whole: Piece, pieces: seq<Piece>, h: History)
      requires content != [] && content != seq(|content|, _ => content[0])
      requires settings.splitsBlocks && found.splitPoints != [] ==>
                 && PiecesResult(pieces, |found.splitPoints| + 1, isLast, room).SplitAbandoned?
                 && PiecesTried(settings, pieces, [0] + found.splitPoints + [|found.records|], found.literals,
                           found.records, |content|, reuse, h)
      requires Commits(bytes, isLast, room, content, whole.body) && whole.before == h
      requires PieceMade(settings, found.literals, found.records, reuse, whole)
      ensures WrittenAs(bytes, isLast, room, content, found, reuse, whole, pieces, h)
    {
      hide Commits, PieceMade, PiecesTried, PiecesResult, WriteBlockHeader;
    }

    lemma WrittenInPieces(bytes: Option<seq<byte>>, isLast: bool, room: nat, content: seq<byte>, found: Found,
                          reuse: bool, whole: Piece, pieces: seq<Piece>, h: History)
      requires content != [] && content != seq(|content|, _ => content[0])
      requires settings.splitsBlocks && found.splitPoints != []
      requires var result := PiecesResult(pieces, |found.splitPoints| + 1, isLast, room);
               && !result.SplitAbandoned? && bytes == (if result.SplitWritten? then Some(result.bytes) else None)
               && (result.SplitWritten? ==> |pieces| == |found.splitPoints| + 1)
      requires PiecesTried(settings, pieces, [0] + found.splitPoints + [|found.records|], found.literals,
                           found.records, |content|, reuse, h)
      ensures WrittenAs(bytes, isLast, room, content, found, reuse, whole, pieces, h)
    {
      hide Commits, PieceMade, PiecesTried, PiecesResult, WriteBlockHeader;
    }

    lemma WrittenPlain(bytes: Option<seq<byte>>, isLast: bool, room: nat, content: seq<byte>, found: Found,
                       reuse: bool, whole: Piece, pieces: seq<Piece>, h: History)
      requires content == [] || content == seq(|content|, _ => content[0])
      requires bytes == if content == [] then
                 if room < 3 then None else Some(WriteBlockHeader(BlockHeader(RawBlock, 0, isLast)))
               else
                 if room < 4 then None
                 else Some(WriteBlockHeader(BlockHeader(RleBlock, |content|, isLast)) + [content[0]])
      ensures WrittenAs(bytes, isLast, room, content, found, reuse, whole, pieces, h)
    {
      hide Commits, PieceMade, PiecesTried, PiecesResult, WriteBlockHeader;
    }

    /** `write_block`: for any finder output that parses the block, the blocks written cost at most
        three bytes more than the content, never fail for lack of room when there is that much, and
        decode to the block for every decoder in step, if the first pass of every sequences section
        among them fitted the tables picked. */
    method WriteBlock(input: seq<byte>, blockStart: nat, isLast: bool, room: nat, found: Found,
                      estimates: CostEstimates, ghost window: nat, ghost h: History)
      returns (bytes: Option<seq<byte>>, ghost next: History, ghost sections: seq<SectionWritten>,
               ghost whole: Piece, ghost pieces: seq<Piece>)
      requires Holds(h) && blockStart <= |input| && |input| - blockStart <= MAX_BLOCK_SIZE
      requires FoundFits(input, blockStart, window, found, h.offsets)
      modifies `huffmanTable, `sequenceTables, repeatOffsets
      ensures bytes.Some? ==> Holds(next) && (next.offsets == h.offsets || next.offsets == found.offsets)
      ensures room >= |input| - blockStart + 3 ==> bytes.Some?
      ensures bytes.Some? ==> |bytes.value| <= |input| - blockStart + 3 && |bytes.value| <= room
      ensures bytes.Some? ==> SectionsIn(sections, bytes.value) && PiecesOf(sections, found.records, Ends(found))
      ensures bytes.Some? && EndsShort(found.records, Ends(found)) ==> AllFit(sections)
      ensures bytes.Some? && AllFit(sections) ==> BlocksCarry(bytes.value, isLast, input[..blockStart], input, h, next)
      ensures bytes.Some? && blockStart > 0 && QuickCommits(input[blockStart..], found) ==>
                Alone(bytes.value, isLast, found.literals, found.records, h)
      ensures var from := if blockStart == 0 then History(None, HeldTables(None, None, None), h.offsets) else h;
              && WrittenAs(bytes, isLast, room, input[blockStart..], found, blockStart != 0, whole, pieces, from)
              && (bytes.Some? ==>
                    next == HistoryLeft(isLast, room, input[blockStart..], found, whole, pieces, from))
    {
      hide *;
      HoldsParts(h);
      ghost var start := h;
      if blockStart == 0 {
        ForgetTables(h);
        start := History(None, HeldTables(None, None, None), h.offsets);
      }
      HoldsFrom(start);
      next := start;
      var content := input[blockStart..];
      ghost var before := input[..blockStart];
      assert before + content == input;
      bytes, next, sections, whole, pieces := WriteContent(input, blockStart, content, isLast, room, found, estimates,
                                                          window, start);
      if bytes.Some? && EndsShort(found.records, Ends(found)) {
        PiecesFit(sections, bytes.value, found.records, Ends(found));
      }
      if bytes.Some? && blockStart == 0 && AllFit(sections) {
        CarryFromLess(bytes.value, isLast, before, input, h, start, next);
      }
    }

    lemma HoldsParts(h: History)
      requires Holds(h)
      ensures TablesHold(h) && repeatOffsets.State() == h.offsets
    {
      hide TablesHold, R.RepeatOffsets.State;
    }

    lemma HoldsFrom(h: History)
      requires TablesHold(h) && repeatOffsets.State() == h.offsets
      ensures Holds(h)
    {
      hide TablesHold, R.RepeatOffsets.State;
    }

    /** The block itself: empty, one repeated byte, in pieces, or as one. */
    method WriteContent(input: seq<byte>, blockStart: nat, content: seq<byte>, isLast: bool, room: nat, found: Found,
                        estimates: CostEstimates, ghost window: nat, ghost h: History)
      returns (bytes: Option<seq<byte>>, ghost next: History, ghost sections: seq<SectionWritten>,
               ghost whole: Piece, ghost pieces: seq<Piece>)
      requires Holds(h) && blockStart <= |input| && content == input[blockStart..] && |content| <= MAX_BLOCK_SIZE
      requires FoundFits(input, blockStart, window, found, h.offsets)
      modifies `huffmanTable, `sequenceTables, repeatOffsets
      ensures bytes.Some? ==> Holds(next) && (next.offsets == h.offsets || next.offsets == found.offsets)
      ensures room >= |content| + 3 ==> bytes.Some?
      ensures bytes.Some? ==> |bytes.value| <= |content| + 3 && |bytes.value| <= room
      ensures bytes.Some? ==> SectionsIn(sections, bytes.value) && PiecesOf(sections, found.records, Ends(found))
      ensures bytes.Some? && AllFit(sections) ==> BlocksCarry(bytes.value, isLast, input[..blockStart], input, h, next)
      ensures bytes.Some? && blockStart > 0 && QuickCommits(input[blockStart..], found) ==>
                Alone(bytes.value, isLast, found.literals, found.records, h)
      ensures WrittenAs(bytes, isLast, room, content, found, blockStart != 0, whole, pieces, h)
      ensures bytes.Some? ==> next == HistoryLeft(isLast, room, content, found, whole, pieces, h)
    {
      hide *;
      HoldsParts(h);
      if QuickCommits(content, found) {
        QuickCommitsParts(content, found);
      }
      next, sections, whole, pieces := h, [], Piece(None, 0, h, h), [];
      NoPieces(found.records, Ends(found));
      assert allocated(sequenceTables.ll.table) && allocated(sequenceTables.of.table)
             && allocated(sequenceTables.ml.table);
      ghost var before := input[..blockStart];
      assert before + content == input;
      if content == [] {
        FrontSize(BlockHeader(RawBlock, 0, isLast));
        if room < 3 {
          WrittenPlain(None, isLast, room, content, found, blockStart != 0, whole, pieces, h);
          return None, next, sections, whole, pieces;
        }
        RawCarry(content, isLast, before, h);
        bytes := Some(WriteBlockHeader(BlockHeader(RawBlock, 0, isLast)) + content);
        assert bytes.value == WriteBlockHeader(BlockHeader(RawBlock, 0, isLast));
        WrittenPlain(bytes, isLast, room, content, found, blockStart != 0, whole, pieces, h);
        LeavesNone(isLast, room, content, found, whole, pieces, h);
        NoSections(bytes.value);
        return;
      }
      var uniform := IsUniform(content);
      if uniform {
        FrontSize(BlockHeader(RleBlock, |content|, isLast));
        if room < 4 {
          WrittenPlain(None, isLast, room, content, found, blockStart != 0, whole, pieces, h);
          return None, next, sections, whole, pieces;
        }
        RleCarry(content[0], |content|, isLast, before, h);
        assert before + seq(|content|, _ => content[0]) == input;
        bytes := Some(WriteBlockHeader(BlockHeader(RleBlock, |content|, isLast)) + [content[0]]);
        WrittenPlain(bytes, isLast, room, content, found, blockStart != 0, whole, pieces, h);
        LeavesNone(isLast, room, content, found, whole, pieces, h);
        NoSections(bytes.value);
        return;
      }
      var savedOffsets := R.History(repeatOffsets.first, repeatOffsets.second, repeatOffsets.third);
      OffsetsAre(repeatOffsets);
      var savedHuffman, savedTables := huffmanTable, sequenceTables;
      assert allocated(savedTables.ll.table) && allocated(savedTables.of.table) && allocated(savedTables.ml.table);
      SetOffsets(found.offsets);
      ghost var p := Parse(input, blockStart, window, found.literals, found.records, h.offsets, found.offsets);
      FoundParts(input, blockStart, window, found, h.offsets);
      var tableReuseAllowed := blockStart != 0;
      if settings.splitsBlocks && found.splitPoints != [] {
        TablesHoldParts(h);
        var split;
        ghost var after;
        split, after, sections, pieces := WriteBlockAsSplitPieces(content, found.literals, found.records, isLast, room,
                                                          [0] + found.splitPoints + [|found.records|],
                                                          tableReuseAllowed, estimates, p, h);
        if split.SplitWritten? {
          HoldsFrom(after);
          EndsOf(found);
          WrittenInPieces(Some(split.bytes), isLast, room, content, found, blockStart != 0, whole, pieces, h);
          LeavesPieces(isLast, room, content, found, whole, pieces, h);
          return Some(split.bytes), after, sections, whole, pieces;
        }
        if split.SplitFailed? {
          WrittenInPieces(None, isLast, room, content, found, blockStart != 0, whole, pieces, h);
          return None, h, sections, whole, pieces;
        }
        huffmanTable, sequenceTables := savedHuffman, savedTables;
        TablesHoldWhen(h);
      }
      bytes, next, sections, whole := CommitSingleBlock(content, found.literals, found.records, isLast, room,
                                                 tableReuseAllowed, estimates(0), savedOffsets, p, h);
      EndsOf(found);
      CommitsAloneIs(bytes, isLast, |content|, found.literals, found.records, h);
      WrittenWhole(bytes, isLast, room, content, found, blockStart != 0, whole, pieces, h);
      LeavesWhole(isLast, room, content, found, whole, pieces, h);
      if bytes.Some? {
        MoreEnds(sections, found.records, [|found.records|], Ends(found));
      }
    }
  }

  lemma FrontSize(header: BlockHeader)
    ensures |WriteBlockHeader(header)| == 3
  {
  }

  /** The whole block as one piece. */
  lemma WholePiece(p: Parse)
    requires ValidParseOf(p)
    ensures StartAt(p, 0) == p.blockStart && EndAt(p, |p.records|) == |p.input|
    ensures PieceLiterals(p, 0, |p.records|) == p.literals
    ensures p.records[0..|p.records|] == p.records && Mark(p, 0).history == p.from
    ensures Mark(p, |p.records|).history == p.to
    ensures p.input[..|p.input|] == p.input
  {
    hide Parses, ExecuteAll, ValidParseOf, Mark;
    assert p.records[..0] == [];
    MarkIs(p, |p.records|);
    FirstMark(p);
  }

  lemma FirstMark(p: Parse)
    requires ValidParseOf(p)
    ensures Mark(p, 0).history == p.from
  {
    hide Reaches, TakeRest;
    assert p.records[..0] == [];
  }

  /** Split points with both ends, strictly increasing. */
  ghost predicate Boundaries(boundaries: seq<nat>, records: seq<SequenceRecord>) {
    && |boundaries| >= 2 && boundaries[0] == 0 && boundaries[|boundaries| - 1] == |records|
    && (forall i, j :: 0 <= i < j < |boundaries| ==> boundaries[i] < boundaries[j])
  }

  lemma BoundariesAre(boundaries: seq<nat>, records: seq<SequenceRecord>)
    requires Boundaries(boundaries, records)
    ensures |boundaries| >= 2 && boundaries[0] == 0 && boundaries[|boundaries| - 1] == |records|
    ensures forall i :: 0 <= i < |boundaries| ==> boundaries[i] <= |records|
  {
  }

  lemma BoundaryAt(boundaries: seq<nat>, records: seq<SequenceRecord>, i: nat)
    requires Boundaries(boundaries, records) && i + 1 < |boundaries|
    ensures boundaries[i] < boundaries[i + 1] <= |records|
    ensures boundaries[i + 1] == |records| <==> i + 2 == |boundaries|
  {
  }

  /** The running sums of literal and byte lengths. */
  method PrefixSums(records: seq<SequenceRecord>) returns (literalPrefix: array<nat>, bytePrefix: array<nat>)
    ensures literalPrefix.Length == bytePrefix.Length == |records| + 1
    ensures forall k :: 0 <= k <= |records| ==>
              literalPrefix[k] == LiteralSum(records[..k]) && bytePrefix[k] == ByteSum(records[..k])
  {
    hide LiteralSum, ByteSum;
    literalPrefix := new nat[|records| + 1](_ => 0);
    bytePrefix := new nat[|records| + 1](_ => 0);
    var literalAccumulator: nat, byteAccumulator: nat := 0, 0;
    NoSums(records);
    for index := 0 to |records|
      invariant literalAccumulator == LiteralSum(records[..index]) && byteAccumulator == ByteSum(records[..index])
      invariant forall k :: 0 <= k <= index ==>
                  literalPrefix[k] == LiteralSum(records[..k]) && bytePrefix[k] == ByteSum(records[..k])
    {
      SumStep(records, index);
      literalAccumulator := literalAccumulator + records[index].literalLength;
      byteAccumulator := byteAccumulator + records[index].literalLength + records[index].matchLength;
      literalPrefix[index + 1] := literalAccumulator;
      bytePrefix[index + 1] := byteAccumulator;
    }
  }

  lemma NoSums(records: seq<SequenceRecord>)
    ensures LiteralSum(records[..0]) == 0 && ByteSum(records[..0]) == 0
  {
  }

  /** Where the pieces of a block end, whether or not it is split. */
  function Ends(found: Found): seq<nat> {
    found.splitPoints + [|found.records|]
  }

  lemma EndsOf(found: Found)
    ensures ([0] + found.splitPoints + [|found.records|])[1..] == Ends(found)
    ensures |found.records| in Ends(found)
  {
    assert Ends(found)[|found.splitPoints|] == |found.records|;
  }

  /** What `write_block` needs of its finder and splitter. */
  ghost predicate FoundFits(input: seq<byte>, blockStart: nat, window: nat, found: Found, from: R.History) {
    && ValidParseOf(Parse(input, blockStart, window, found.literals, found.records, from, found.offsets))
    && (found.splitPoints != [] ==> Boundaries([0] + found.splitPoints + [|found.records|], found.records))
  }

  lemma FoundParts(input: seq<byte>, blockStart: nat, window: nat, found: Found, from: R.History)
    requires FoundFits(input, blockStart, window, found, from) && blockStart <= |input|
    requires |input| - blockStart <= MAX_BLOCK_SIZE
    ensures ValidParseOf(Parse(input, blockStart, window, found.literals, found.records, from, found.offsets))
    ensures forall i :: 0 <= i < |found.records| ==> ValidRecord(found.records[i])
    ensures |found.literals| <= MAX_BLOCK_SIZE && |found.records| <= MAX_BLOCK_SIZE
    ensures found.splitPoints != [] ==> Boundaries([0] + found.splitPoints + [|found.records|], found.records)
  {
    hide ValidParseOf, Boundaries, ValidRecord;
    RecordsValid(Parse(input, blockStart, window, found.literals, found.records, from, found.offsets));
    ParseSmall(Parse(input, blockStart, window, found.literals, found.records, from, found.offsets));
  }

  /** A parse has valid records only. */
  lemma RecordsValid(p: Parse)
    requires ValidParseOf(p)
    ensures forall i :: 0 <= i < |p.records| ==> ValidRecord(p.records[i])
  {
    hide ExecuteAll, TakeRest, Reaches, ValidRecord;
    var env, start := Env(p.literals, p.blockStart, |p.input|), Machine(p.input[..p.blockStart], 0, p.from);
    ReachedRecordsValid(env, start, p.records, ExecuteAll(env, start, p.records).value, p.window);
  }

  lemma {:induction false} ReachedRecordsValid(env: Env, from: Machine, records: seq<SequenceRecord>, to: Machine,
                                               window: nat)
    requires Reaches(env, from, records, to, window)
    ensures forall i :: 0 <= i < |records| ==> ValidRecord(records[i])
    decreases |records|
  {
    hide ExecuteOne, R.OffsetOf, ValidRecord;
    if records != [] {
      ReachedRecordsValid(env, ExecuteOne(env, from, records[0]).value, records[1..], to, window);
      forall i | 0 <= i < |records|
        ensures ValidRecord(records[i])
      {
        assert i > 0 ==> records[i] == records[1..][i - 1];
      }
    }
  }

  /** A block has no more literals, and no more records, than bytes. */
  lemma ParseSmall(p: Parse)
    requires ValidParseOf(p) && forall i :: 0 <= i < |p.records| ==> ValidRecord(p.records[i])
    ensures p.blockStart <= |p.input| && |p.literals| <= |p.input| - p.blockStart
    ensures |p.records| <= |p.input| - p.blockStart
  {
    hide ValidParseOf, TakeRest, Mark, LiteralSum, ByteSum;
    var n := |p.records|;
    PartsOf(p);
    MarkIs(p, n);
    LastMark(p);
    RestLength(BlockEnv(p), Mark(p, n));
    assert p.records[..n] == p.records;
    SumsCount(p.records);
  }

  lemma RestLength(env: Env, m: Machine)
    requires m.cursor <= |env.literals| && TakeRest(env, m).Some?
    ensures |TakeRest(env, m).value.out| == |m.out| + |env.literals| - m.cursor
  {
  }

  lemma {:induction false} SumsCount(records: seq<SequenceRecord>)
    requires forall i :: 0 <= i < |records| ==> ValidRecord(records[i])
    ensures LiteralSum(records) + |records| <= ByteSum(records)
  {
    if records != [] {
      SumsCount(records[..|records| - 1]);
    }
  }

  lemma OffsetsAre(repeatOffsets: R.RepeatOffsets)
    ensures repeatOffsets.State() == R.History(repeatOffsets.first, repeatOffsets.second, repeatOffsets.third)
  {
  }

  method IsUniform(content: seq<byte>) returns (uniform: bool)
    requires content != []
    ensures uniform <==> content == seq(|content|, _ => content[0])
  {
    var i := 0;
    while i < |content| && content[i] == content[0]
      invariant i <= |content| && forall k :: 0 <= k < i ==> content[k] == content[0]
    {
      i := i + 1;
    }
    uniform := i == |content|;
    if !uniform {
      assert seq(|content|, _ => content[0])[i] == content[0];
    }
  }
}
