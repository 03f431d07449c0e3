/** Two compressed blocks decoded together: their eight literal streams in lockstep, the second
    block's literals waiting further on in the output while the first block is executed. */
module PairedBlocks {
  import opened Bits
  import opened BitReader
  import opened HuffmanCodes
  import opened HuffmanStream
  import opened FourStreams
  import opened HuffmanFast
  import opened SectionHeaders
  import opened LiteralsSection
  import opened SequenceBits
  import opened SequenceExecution
  import opened SequencesSection
  import opened FastSequences
  import opened BlockDecoder
  import opened MatchCopy
  import R = RepeatOffsets

  const LITERALS_READ_SLACK := 16
  const PAIRED_LITERALS_DISTANCE := 2 * MAX_BLOCK_SIZE + 2 * FAST_PATH_SLACK
  const PAIRED_OUTPUT_ROOM := PAIRED_LITERALS_DISTANCE + MAX_BLOCK_SIZE + LITERALS_READ_SLACK

  lemma Distances()
    ensures MAX_BLOCK_SIZE == 131072 && PAIRED_LITERALS_DISTANCE == 262208 && PAIRED_OUTPUT_ROOM == 393296
    ensures FAST_PATH_SLACK == 32
  {
  }

  // ---------------------------------------------------------------- both literal sections

  datatype PairRead =
    | NotPaired
    | PairFailed
    | Paired(firstLiterals: seq<byte>, firstUsed: nat, secondLiterals: seq<byte>, secondUsed: nat, inOther: bool)

  /** `is_four_stream_huffman`. */
  predicate IsFourStreamHuffman(header: LiteralsHeader) {
    header.streamCount == 4 && (header.literalsType.Compressed? || header.literalsType.Treeless?)
  }

  lemma FourStreamIs(header: LiteralsHeader)
    ensures IsFourStreamHuffman(header) ==>
              header.streamCount == 4 && (header.literalsType.Compressed? || header.literalsType.Treeless?)
  {
  }

  /** The eight jobs of two sections over one stretch of output. */
  lemma EightJobs(one: seq<StreamJob>, two: seq<StreamJob>, n: nat, size: nat)
    requires |one| == |two| == 4 && JobsApart(one) && JobsApart(two) && n <= size
    requires forall i :: 0 <= i < 4 ==> Decodable(one[i], n)
    requires forall i :: 0 <= i < 4 ==> Decodable(two[i], size) && n <= two[i].output
    ensures JobsApart(one + two) && forall i :: 0 <= i < 8 ==> Decodable((one + two)[i], size)
  {
    hide Usable;
  }

  lemma EightSplit(one: seq<StreamJob>, two: seq<StreamJob>, output: seq<byte>, ok: bool)
    requires |one| == |two| == 4
    requires ok <==> forall i :: 0 <= i < |one + two| ==> Accepted((one + two)[i])
    requires ok ==> forall i :: 0 <= i < |one + two| ==> Delivered((one + two)[i], output)
    ensures ok <==> (forall i :: 0 <= i < 4 ==> Accepted(one[i])) && forall i :: 0 <= i < 4 ==> Accepted(two[i])
    ensures ok ==>
              && (forall i :: 0 <= i < 4 ==> Delivered(one[i], output))
              && forall i :: 0 <= i < 4 ==> Delivered(two[i], output)
  {
    hide Accepted, Delivered;
    var all := one + two;
    forall i | 0 <= i < 4
      ensures all[i] == one[i] && all[i + 4] == two[i]
    {
    }
    if ok {
      forall i | 0 <= i < 4
        ensures Accepted(one[i]) && Accepted(two[i]) && Delivered(one[i], output) && Delivered(two[i], output)
      {
        assert Accepted(all[i]) && Accepted(all[i + 4]) && Delivered(all[i], output) && Delivered(all[i + 4], output);
      }
    } else {
      var i :| 0 <= i < 8 && !Accepted(all[i]);
      assert i < 4 ==> !Accepted(one[i]);
      assert i >= 4 ==> all[i - 4 + 4] == two[i - 4];
    }
  }

  /** `decode_two_sections_unchecked` with its two splits: both sections' literals, or a failure
      exactly when one of them has none. */
  method DecodeTwoSections(first: seq<byte>, firstTable: HuffmanDecodeTable, n1: nat, second: seq<byte>,
                           secondTable: HuffmanDecodeTable, n2: nat, ghost h1: HuffmanTable, ghost h2: HuffmanTable)
    returns (ok: bool, firstLiterals: seq<byte>, secondLiterals: seq<byte>)
    requires firstTable.DecodesBy(h1.weights) && firstTable.maxBits == h1.maxBits && |first| <= 262144
    requires secondTable.DecodesBy(h2.weights) && secondTable.maxBits == h2.maxBits && |second| <= 262144
    ensures ValidTable(h1) && ValidTable(h2)
    ensures ok <==> SymbolsOf(h1, first, 4, n1).Some? && SymbolsOf(h2, second, 4, n2).Some?
    ensures ok ==>
              SymbolsOf(h1, first, 4, n1) == Some(firstLiterals) && SymbolsOf(h2, second, 4, n2) == Some(secondLiterals)
  {
    hide *;
    TableStream(firstTable, h1, first, n1);
    TableStream(secondTable, h2, second, n2);
    SymbolsWhen(h1, first, 4, n1);
    SymbolsWhen(h2, second, 4, n2);
    firstLiterals, secondLiterals := [], [];
    ghost var expected1 := if StreamsIn(first).Some? then StreamsIn(first).value else [];
    ghost var expected2 := if StreamsIn(second).Some? then StreamsIn(second).value else [];
    var streams1, lengths1, streams2, lengths2;
    ok, streams1, lengths1 := SplitFourStreams(first, n1, expected1);
    if !ok {
      NotSplit(first, n1, expected1);
      return;
    }
    SplitGives(first, streams1, n1);
    ok, streams2, lengths2 := SplitFourStreams(second, n2, expected2);
    if !ok {
      NotSplit(second, n2, expected2);
      return;
    }
    SplitGives(second, streams2, n2);
    LayoutFour(first, streams1);
    LayoutFour(second, streams2);
    var jobs1 := SectionJobs(streams1, firstTable.entries, firstTable.maxBits, 0, n1);
    var jobs2 := SectionJobs(streams2, secondTable.entries, secondTable.maxBits, n1, n2);
    JobsFit(jobs1, first, streams1, firstTable.entries, firstTable.maxBits, 0, n1);
    JobsFit(jobs2, second, streams2, secondTable.entries, secondTable.maxBits, n1, n2);
    EightJobs(jobs1, jobs2, n1, n1 + n2);
    var output := new byte[n1 + n2];
    ok := DecodeInGroups(jobs1 + jobs2, 4, output);
    EightSplit(jobs1, jobs2, output[..], ok);
    JobsDeliver(jobs1, streams1, firstTable, h1, output[..], 0, n1);
    JobsDeliver(jobs2, streams2, secondTable, h2, output[..], n1, n2);
    return ok, output[..][0..n1], output[..][n1..n1 + n2];
  }

  /** `decode_literal_sections_pair_unchecked`: when both sections have four streams, the same
      literals and the same table afterwards as one section after the other. A second table of its
      own goes into the other slot, so that the first stays in use. */
  method DecodeLiteralSectionsPair(first: seq<byte>, second: seq<byte>, table: HuffmanDecodeTable,
                                   other: HuffmanDecodeTable, ghost held: Option<HuffmanTable>)
    returns (r: PairRead)
    requires Holds(table, held) && ValidHeld(held) && table != other && |other.entries| == MAX_HUFFMAN_TABLE_SIZE
    modifies table, other
    ensures r.NotPaired? ==> unchanged(table) && unchanged(other)
    ensures var one := LiteralsOf(first, held);
            && (r.PairFailed? ==> one.None? || LiteralsOf(second, one.value.table).None?)
            && (r.Paired? ==>
                  && one.Some? && LiteralsOf(second, one.value.table).Some?
                  && var two := LiteralsOf(second, one.value.table).value;
                  && r.firstLiterals == one.value.literals && r.firstUsed == one.value.used
                  && r.secondLiterals == two.literals && r.secondUsed == two.used
                  && Holds(if r.inOther then other else table, two.table)
                  && |table.entries| == MAX_HUFFMAN_TABLE_SIZE && |other.entries| == MAX_HUFFMAN_TABLE_SIZE)
  {
    hide *;
    HeldReady(table, held);
    PlainIs(first, held);
    var one, two := ReadLiteralsHeader(first), ReadLiteralsHeader(second);
    if one.None? {
      return PairFailed;
    }
    SecondUnreadable(first, second, held);
    if two.None? {
      return PairFailed;
    }
    FourStreamIs(one.value);
    FourStreamIs(two.value);
    if !IsFourStreamHuffman(one.value) || !IsFourStreamHuffman(two.value) {
      return NotPaired;
    }
    if one.value.regeneratedSize > MAX_BLOCK_SIZE {
      return PairFailed;
    }
    var ok, streams1, streams2;
    ghost var h1, h2;
    ok, streams1, h1 := ReadSectionTable(first, one.value, table, held);
    if !ok {
      return PairFailed;
    }
    HeldReady(table, Some(h1));
    CodedLiteralsIs(h1, streams1, one.value);
    SecondHeld(first, held, h1, streams1, one.value);
    SecondPlain(second, Some(h1));
    if two.value.regeneratedSize > MAX_BLOCK_SIZE {
      return PairFailed;
    }
    var inOther := two.value.literalsType.Compressed?;
    var secondTable := if inOther then other else table;
    ok, streams2, h2 := ReadSectionTable(second, two.value, secondTable, Some(h1));
    if !ok {
      return PairFailed;
    }
    HeldReady(secondTable, Some(h2));
    HeldReady(table, Some(h1));
    CodedLiteralsIs(h2, streams2, two.value);
    var literals1, literals2;
    ok, literals1, literals2 := DecodeTwoSections(streams1, table, one.value.regeneratedSize, streams2, secondTable,
                                                  two.value.regeneratedSize, h1, h2);
    if !ok {
      return PairFailed;
    }
    return Paired(literals1, one.value.headerLength + one.value.compressedSize,
                  literals2, two.value.headerLength + two.value.compressedSize, inOther);
  }

  lemma SecondUnreadable(first: seq<byte>, second: seq<byte>, held: Option<HuffmanTable>)
    requires ValidHeld(held)
    ensures ReadLiteralsHeader(second).None? && LiteralsOf(first, held).Some? ==>
              LiteralsOf(second, LiteralsOf(first, held).value.table).None?
  {
    hide ReadLiteralsHeader, ValidTable;
    if LiteralsOf(first, held).Some? {
      PlainIs(second, LiteralsOf(first, held).value.table);
    }
  }

  lemma SecondHeld(first: seq<byte>, held: Option<HuffmanTable>, h: HuffmanTable, streams: seq<byte>,
                   header: LiteralsHeader)
    requires ValidHeld(held) && ValidTable(h) && LiteralsOf(first, held) == CodedLiterals(h, streams, header)
    ensures LiteralsOf(first, held).Some? ==> LiteralsOf(first, held).value.table == Some(h)
    ensures ValidHeld(Some(h))
  {
    hide LiteralsOf, CodedLiterals, ValidTable;
  }

  lemma SecondPlain(second: seq<byte>, held: Option<HuffmanTable>)
    requires ValidHeld(held)
    ensures ReadLiteralsHeader(second).Some? && ReadLiteralsHeader(second).value.regeneratedSize > MAX_BLOCK_SIZE ==>
              LiteralsOf(second, held).None?
  {
    hide ReadLiteralsHeader, ValidTable;
    PlainIs(second, held);
  }

  // ---------------------------------------------------------------- how far a block reaches

  lemma {:induction false} RunLength(t: Tables, c: Cells, rest: seq<bool>, overran: bool, n: nat, env: Env, m: Machine)
    requires ValidTables(t) && ValidCells(t, c)
    requires env.start <= |m.out| <= env.start + MAX_BLOCK_SIZE && |m.out| <= env.capacity
    ensures RunSection(t, c, rest, overran, n, env, m).Some? ==>
              && env.start <= |RunSection(t, c, rest, overran, n, env, m).value.0.out| <= env.start + MAX_BLOCK_SIZE
              && |RunSection(t, c, rest, overran, n, env, m).value.0.out| <= env.capacity
    decreases n
  {
    hide ReadRecord, AfterReading, ValidTables, ValidCells, ExecuteOne, RunSection;
    if n == 0 {
      RunNone(t, c, rest, overran, env, m);
    } else {
      RunOne(t, c, rest, overran, n, env, m);
      var reading := ReadRecord(t, c, rest, overran);
      if reading.Some? {
        var moved := AfterReading(t, c, reading.value, n);
        var next := ExecuteOne(env, m, reading.value.record);
        ExecuteWhen(env, m, reading.value.record);
        if !moved.overran && next.Some? {
          RunLength(t, moved.cells, moved.rest, false, n - 1, env, next.value);
        }
      }
    }
  }

  /** A decoded block is longer than its start by at most a block. */
  lemma SequencesLength(input: seq<byte>, literals: seq<byte>, capacity: nat, out: seq<byte>, history: R.History,
                        held: HeldTables)
    requires ValidTablesHeld(held) && |out| <= capacity
    ensures var r := SequencesOf(input, literals, capacity, out, history, held);
            r.Some? ==> |out| <= |r.value.out| <= |out| + MAX_BLOCK_SIZE && |r.value.out| <= capacity
  {
    hide ReadSequencesHeader, TablesFor, JustLiterals, Executed, ValidTables, ValidTablesHeld;
    var header := ReadSequencesHeader(input);
    var env, m := Env(literals, |out|, capacity), Machine(out, 0, history);
    SequencesIs(input, literals, capacity, out, history, held);
    JustLiteralsIs(literals, capacity, out, history, held);
    if header.Some? && header.value.sequenceCount != 0 {
      var body := input[header.value.headerLength..];
      var tables := TablesFor(header.value, body, held);
      if tables.Some? {
        var bitstream := body[tables.value.1..];
        ExecutedIs(tables.value.0, bitstream, header.value.sequenceCount, literals, capacity, out, history);
        SectionLength(tables.value.0, bitstream, header.value.sequenceCount, env, m);
      }
    }
  }

  lemma SectionLength(t: Tables, bitstream: seq<byte>, n: nat, env: Env, m: Machine)
    requires ValidTables(t) && m.cursor <= |env.literals| && |m.out| == env.start <= env.capacity
    ensures Section(t, bitstream, n, env, m).Some? ==>
              && env.start <= |Section(t, bitstream, n, env, m).value.out| <= env.start + MAX_BLOCK_SIZE
              && |Section(t, bitstream, n, env, m).value.out| <= env.capacity
  {
    hide Opened, RunSection, MarkedBits, ValidTables;
    if MarkedBits(bitstream).Some? {
      var started := Opened(t, MarkedBits(bitstream).value);
      RunLength(t, started.cells, started.rest, started.overran, n, env, m);
    }
  }

  // ---------------------------------------------------------------- parked literals

  /** The second block's literals, further on than both blocks can reach. */
  ghost predicate ParkedLiterals(output: seq<byte>, parked: nat, literals: seq<byte>) {
    parked + |literals| <= |output| && output[parked..parked + |literals|] == literals
  }

  lemma ParkedStay(before: seq<byte>, after: seq<byte>, low: nat, high: nat, parked: nat, literals: seq<byte>)
    requires ParkedLiterals(before, parked, literals) && KeptOutside(before, after, low, high) && high <= parked
    ensures ParkedLiterals(after, parked, literals)
  {
  }

  lemma BytesParked(bytes: seq<byte>, blockStart: nat, size: nat)
    ensures Parked(Bytes(bytes), blockStart, size)
  {
  }

  lemma OutputParked(start: nat, count: nat, blockStart: nat, size: nat)
    requires blockStart + MAX_BLOCK_SIZE + 15 <= start && start + count <= size
    ensures Parked(InOutput(start, count), blockStart, size)
  {
  }

  lemma ParkedBytes(output: seq<byte>, parked: nat, literals: seq<byte>)
    requires ParkedLiterals(output, parked, literals)
    ensures Parked(InOutput(parked, |literals|), 0, |output|) ==>
              LiteralBytes(InOutput(parked, |literals|), output) == literals
  {
  }

  lemma BufferBytes(bytes: seq<byte>, output: seq<byte>)
    ensures LiteralBytes(Bytes(bytes), output) == bytes
  {
  }
}
