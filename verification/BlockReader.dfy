/** The block run of a frame (section 3.1.1.2 of RFC 8878): what its bytes mean, and the loop that
    decodes it, two compressed blocks at a time where it can. */
module BlockReader {
  import opened Bits
  import opened BitReader
  import opened HuffmanCodes
  import opened SectionHeaders
  import opened LiteralsSection
  import opened SequenceExecution
  import opened SequencesSection
  import opened BlockDecoder
  import opened PairedBlocks
  import R = RepeatOffsets

  // ---------------------------------------------------------------- what a run of blocks means

  /** What one block leaves for the next: the Huffman table, the three sequence tables, the repeat
      offsets. */
  datatype History = History(huffman: Option<HuffmanTable>, tables: HeldTables, offsets: R.History)

  const NO_HISTORY := History(None, HeldTables(None, None, None), R.INITIAL)

  ghost predicate ValidHistory(h: History) {
    ValidHeld(h.huffman) && ValidTablesHeld(h.tables)
  }

  datatype Written = Written(out: seq<byte>, history: History)

  ghost function CompressedOf(payload: seq<byte>, capacity: nat, out: seq<byte>, h: History): (r: Option<Written>)
    requires ValidHistory(h)
    ensures r.Some? ==> ValidHistory(r.value.history)
  {
    var literals := LiteralsOf(payload, h.huffman);
    if literals.None? then None
    else
      var sequences := SequencesOf(payload[literals.value.used..], literals.value.literals, capacity, out, h.offsets,
                                   h.tables);
      if sequences.None? then None
      else Some(Written(sequences.value.out,
                        History(literals.value.table, sequences.value.held, sequences.value.history)))
  }

  function PayloadLength(header: BlockHeader): nat {
    if header.blockType.RleBlock? then 1 else header.blockSize
  }

  ghost function BlockOf(header: BlockHeader, payload: seq<byte>, capacity: nat, out: seq<byte>,
                         h: History): (r: Option<Written>)
    requires ValidHistory(h) && |payload| == PayloadLength(header)
    ensures r.Some? ==> ValidHistory(r.value.history)
  {
    match header.blockType
    case RawBlock => if |out| + |payload| > capacity then None else Some(Written(out + payload, h))
    case RleBlock =>
      if |out| + header.blockSize > capacity then None
      else Some(Written(out + seq(header.blockSize, _ => payload[0]), h))
    case CompressedBlock => CompressedOf(payload, capacity, out, h)
  }

  /** A header, and the payload behind it. */
  function NextBlock(input: seq<byte>): (b: Option<(BlockHeader, seq<byte>)>)
    ensures b.Some? ==> && |b.value.1| == PayloadLength(b.value.0) && BLOCK_HEADER_LENGTH + |b.value.1| <= |input|
  {
    var header := ReadBlockHeader(input);
    if header.None? || BLOCK_HEADER_LENGTH + PayloadLength(header.value) > |input| then None
    else Some((header.value, input[BLOCK_HEADER_LENGTH..BLOCK_HEADER_LENGTH + PayloadLength(header.value)]))
  }

  /** A result reached after `size` more bytes. */
  ghost function Shifted(size: nat, r: Option<(Written, nat)>): Option<(Written, nat)> {
    if r.None? then None else Some((r.value.0, size + r.value.1))
  }

  lemma ShiftedIs(a: nat, b: nat, r: Option<(Written, nat)>)
    ensures r.None? ==> Shifted(a, r).None?
    ensures r.Some? ==> Shifted(a, r) == Some((r.value.0, a + r.value.1))
    ensures Shifted(a, Shifted(b, r)) == Shifted(a + b, r)
    ensures Shifted(0, r) == r
  {
  }

  /** Block after block until the last one; the output, what is left behind, and the bytes read. */
  ghost function RunOf(input: seq<byte>, capacity: nat, out: seq<byte>, h: History): (r: Option<(Written, nat)>)
    requires ValidHistory(h)
    ensures r.Some? ==> r.value.1 <= |input|
    decreases |input|
  {
    var next := NextBlock(input);
    if next.None? then None
    else
      var (header, payload) := next.value;
      var size := BLOCK_HEADER_LENGTH + |payload|;
      var block := BlockOf(header, payload, capacity, out, h);
      if block.None? then None
      else if header.isLast then Some((block.value, size))
      else
        Shifted(size, RunOf(input[size..], capacity, block.value.out, block.value.history))
  }

  lemma RunStep(input: seq<byte>, capacity: nat, out: seq<byte>, h: History)
    requires ValidHistory(h)
    ensures var next := NextBlock(input);
            && (next.None? ==> RunOf(input, capacity, out, h).None?)
            && (next.Some? ==>
                  var (header, payload) := next.value;
                  var size := BLOCK_HEADER_LENGTH + |payload|;
                  var block := BlockOf(header, payload, capacity, out, h);
                  && (block.None? ==> RunOf(input, capacity, out, h).None?)
                  && (block.Some? && header.isLast ==> RunOf(input, capacity, out, h) == Some((block.value, size)))
                  && (block.Some? && !header.isLast ==>
                        RunOf(input, capacity, out, h)
                        == Shifted(size, RunOf(input[size..], capacity, block.value.out, block.value.history))))
  {
    hide BlockOf, ValidHistory, ReadBlockHeader;
  }

  // ---------------------------------------------------------------- the workspace

  class BlockWorkspace {
    const huffmanTable0: HuffmanDecodeTable
    const huffmanTable1: HuffmanDecodeTable
    const sequences: SequenceState
    var currentHuffmanTable: nat

    function Current(): HuffmanDecodeTable
      reads `currentHuffmanTable
    {
      if currentHuffmanTable == 0 then huffmanTable0 else huffmanTable1
    }

    function Other(): HuffmanDecodeTable
      reads `currentHuffmanTable
    {
      if currentHuffmanTable == 0 then huffmanTable1 else huffmanTable0
    }

    /** The workspace holds what the blocks so far have left. */
    ghost predicate Holds(h: History)
      reads this, huffmanTable0, huffmanTable1, sequences, sequences.repeatOffsets
      reads sequences.tables.literalLength, sequences.tables.offset, sequences.tables.matchLength
      reads sequences.fastTables, sequences.fastTables.literalLength, sequences.fastTables.offset
      reads sequences.fastTables.matchLength
    {
      && huffmanTable0 != huffmanTable1 && ValidHistory(h) && LiteralsSection.Holds(Current(), h.huffman)
      && |Other().entries| == MAX_HUFFMAN_TABLE_SIZE
      && sequences.Holds(h.tables) && sequences.repeatOffsets.State() == h.offsets
    }

    constructor ()
      ensures Holds(NO_HISTORY)
      ensures fresh(huffmanTable0) && fresh(huffmanTable1) && fresh(sequences) && fresh(sequences.repeatOffsets)
      ensures fresh(sequences.tables.literalLength) && fresh(sequences.tables.offset)
      ensures fresh(sequences.tables.matchLength)
      ensures fresh(sequences.fastTables) && fresh(sequences.fastTables.literalLength)
      ensures fresh(sequences.fastTables.offset) && fresh(sequences.fastTables.matchLength)
    {
      huffmanTable0 := new HuffmanDecodeTable();
      huffmanTable1 := new HuffmanDecodeTable();
      sequences := new SequenceState();
      currentHuffmanTable := 0;
    }

    lemma HoldsParts(h: History)
      requires Holds(h)
      ensures huffmanTable0 != huffmanTable1 && Current() != Other() && Current() in {huffmanTable0, huffmanTable1}
      ensures Other() in {huffmanTable0, huffmanTable1}
      ensures ValidHistory(h) && ValidHeld(h.huffman) && ValidTablesHeld(h.tables)
      ensures LiteralsSection.Holds(Current(), h.huffman) && |Other().entries| == MAX_HUFFMAN_TABLE_SIZE
      ensures sequences.Holds(h.tables) && sequences.repeatOffsets.State() == h.offsets
    {
      hide LiteralsSection.Holds, SequenceState.Holds, ValidHeld, ValidTablesHeld, R.RepeatOffsets.State;
    }

    lemma HoldsWhen(h: History)
      requires huffmanTable0 != huffmanTable1 && ValidHistory(h)
      requires LiteralsSection.Holds(Current(), h.huffman) && |Other().entries| == MAX_HUFFMAN_TABLE_SIZE
      requires sequences.Holds(h.tables) && sequences.repeatOffsets.State() == h.offsets
      ensures Holds(h)
    {
      hide LiteralsSection.Holds, SequenceState.Holds, ValidHistory, R.RepeatOffsets.State;
    }

    /** `decode_compressed_block`. */
    method DecodeCompressedBlock(payload: seq<byte>, output: array<byte>, outputPosition: nat, ghost h: History)
      returns (ok: bool, newPosition: nat)
      requires Holds(h) && outputPosition <= output.Length
      modifies this, huffmanTable0, huffmanTable1, sequences, sequences.repeatOffsets, output
      modifies sequences.tables.literalLength, sequences.tables.offset, sequences.tables.matchLength
      modifies sequences.fastTables, sequences.fastTables.literalLength, sequences.fastTables.offset
      modifies sequences.fastTables.matchLength
      ensures var r := CompressedOf(payload, output.Length, old(output[..outputPosition]), h);
              && (ok <==> r.Some?)
              && (ok ==> newPosition <= output.Length && output[..newPosition] == r.value.out && Holds(r.value.history))
    {
      hide *;
      HoldsParts(h);
      newPosition := 0;
      ghost var out := output[..outputPosition];
      CompressedParts(payload, output.Length, out, h);
      var table := Current();
      ghost var other := Other();
      var source, after, used;
      ok, source, after, used := DecodeLiterals(payload, table, h.huffman);
      if !ok {
        return;
      }
      LiteralsFit(payload, h.huffman);
      NotInOutput(source, outputPosition, output.Length, output[..]);
      ok, newPosition := sequences.DecodeSequencesSection(payload[used..], source, after, output, outputPosition,
                                                          h.tables);
      if ok {
        assert table == Current() && other == Other();
        HoldsWhen(CompressedOf(payload, output.Length, out, h).value.history);
      }
    }

    /** `decode_compressed_block_pair`: skipped without a trace, or the outcome of one block after the
        other. */
    method DecodeCompressedBlockPair(first: seq<byte>, second: seq<byte>, output: array<byte>, outputPosition: nat,
                                     ghost h: History)
      returns (r: PairResult)
      requires Holds(h) && outputPosition <= output.Length
      modifies this, huffmanTable0, huffmanTable1, sequences, sequences.repeatOffsets, output
      modifies sequences.tables.literalLength, sequences.tables.offset, sequences.tables.matchLength
      modifies sequences.fastTables, sequences.fastTables.literalLength, sequences.fastTables.offset
      modifies sequences.fastTables.matchLength
      ensures r.PairSkipped? ==> Holds(h) && output[..] == old(output[..])
      ensures var one := CompressedOf(first, output.Length, old(output[..outputPosition]), h);
              && (r.PairError? ==>
                    one.None? || CompressedOf(second, output.Length, one.value.out, one.value.history).None?)
              && (r.PairDone? ==>
                    && one.Some?
                    && var two := CompressedOf(second, output.Length, one.value.out, one.value.history);
                    && two.Some? && r.position <= output.Length && output[..r.position] == two.value.out
                    && Holds(two.value.history))
    {
      hide *;
      Distances();
      HoldsParts(h);
      ghost var out := output[..outputPosition];
      if output.Length < outputPosition + PAIRED_OUTPUT_ROOM {
        return PairSkipped;
      }
      PairParts(first, second, output.Length, out, h);
      var pair := DecodeLiteralSectionsPair(first, second, Current(), Other(), h.huffman);
      if pair.NotPaired? {
        HoldsWhen(h);
        return PairSkipped;
      }
      if pair.PairFailed? {
        return PairError;
      }
      LiteralsFit(first, h.huffman);
      ghost var held1 := LiteralsOf(first, h.huffman).value.table;
      LiteralsFit(second, held1);
      LiteralsSmall(second, held1);
      if pair.inOther {
        SwapTables();
      }
      var parked := outputPosition + PAIRED_LITERALS_DISTANCE;
      ParkLiterals(output, parked, pair.secondLiterals, outputPosition);
      var ok, endPosition := ExecutePair(first[pair.firstUsed..], pair.firstLiterals, second[pair.secondUsed..],
                                         |pair.secondLiterals|, output, outputPosition, h.tables, pair.secondLiterals);
      if !ok {
        return PairError;
      }
      ghost var one := CompressedOf(first, output.Length, out, h).value;
      HoldsWhen(CompressedOf(second, output.Length, one.out, one.history).value.history);
      return PairDone(endPosition);
    }

    /** Both sequence sections in turn; the second one's literals stay where they are parked. */
    method ExecutePair(first: seq<byte>, firstLiterals: seq<byte>, second: seq<byte>, secondCount: nat,
                       output: array<byte>, outputPosition: nat, ghost held: HeldTables,
                       ghost secondLiterals: seq<byte>)
      returns (ok: bool, endPosition: nat)
      requires sequences.Holds(held) && secondCount == |secondLiterals| <= MAX_BLOCK_SIZE
      requires outputPosition + PAIRED_OUTPUT_ROOM <= output.Length
      requires ParkedLiterals(output[..], outputPosition + PAIRED_LITERALS_DISTANCE, secondLiterals)
      modifies sequences, sequences.repeatOffsets, output
      modifies sequences.tables.literalLength, sequences.tables.offset, sequences.tables.matchLength
      modifies sequences.fastTables, sequences.fastTables.literalLength, sequences.fastTables.offset
      modifies sequences.fastTables.matchLength
      ensures ValidTablesHeld(held)
      ensures var one := SequencesOf(first, firstLiterals, output.Length, old(output[..outputPosition]),
                                     old(sequences.repeatOffsets.State()), held);
              && (one.None? ==> !ok)
              && (one.Some? ==>
                    && ValidTablesHeld(one.value.held)
                    && var two := SequencesOf(second, secondLiterals, output.Length, one.value.out, one.value.history,
                                              one.value.held);
                    && (ok <==> two.Some?)
                    && (ok ==> && endPosition <= output.Length && output[..endPosition] == two.value.out
                               && sequences.repeatOffsets.State() == two.value.history
                               && sequences.Holds(two.value.held)))
    {
      hide *;
      Distances();
      sequences.HoldsParts(held);
      endPosition := 0;
      var parked := outputPosition + PAIRED_LITERALS_DISTANCE;
      ghost var before, history := output[..], sequences.repeatOffsets.State();
      BytesParked(firstLiterals, outputPosition, output.Length);
      BufferBytes(firstLiterals, before);
      SequencesLength(first, firstLiterals, output.Length, output[..outputPosition], history, held);
      StillValid(first, firstLiterals, output.Length, output[..outputPosition], history, held);
      var middlePosition;
      ok, middlePosition := sequences.DecodeSequencesSection(first, Bytes(firstLiterals), seq(32, _ => 0), output,
                                                             outputPosition, held);
      if !ok {
        return;
      }
      ghost var one := SequencesOf(first, firstLiterals, output.Length, before[..outputPosition], history, held).value;
      ParkedStay(before, output[..], outputPosition, outputPosition + MAX_BLOCK_SIZE + 15, parked, secondLiterals);
      OutputParked(parked, secondCount, middlePosition, output.Length);
      ParkedFromStart(InOutput(parked, secondCount), middlePosition, output.Length);
      ParkedBytes(output[..], parked, secondLiterals);
      ok, endPosition := sequences.DecodeSequencesSection(second, InOutput(parked, secondCount), [], output,
                                                          middlePosition, one.held);
    }

    /** The second block's table becomes the current one. */
    method SwapTables()
      requires huffmanTable0 != huffmanTable1
      modifies `currentHuffmanTable
      ensures Current() == old(Other()) && Other() == old(Current()) && Current() != Other()
    {
      currentHuffmanTable := if currentHuffmanTable == 0 then 1 else 0;
    }

    /** `decode_block`. */
    method DecodeBlock(header: BlockHeader, payload: seq<byte>, output: array<byte>, outputPosition: nat,
                       ghost h: History)
      returns (ok: bool, newPosition: nat)
      requires Holds(h) && outputPosition <= output.Length && |payload| == PayloadLength(header)
      modifies this, huffmanTable0, huffmanTable1, sequences, sequences.repeatOffsets, output
      modifies sequences.tables.literalLength, sequences.tables.offset, sequences.tables.matchLength
      modifies sequences.fastTables, sequences.fastTables.literalLength, sequences.fastTables.offset
      modifies sequences.fastTables.matchLength
      ensures var r := BlockOf(header, payload, output.Length, old(output[..outputPosition]), h);
              && (ok <==> r.Some?)
              && (ok ==> newPosition <= output.Length && output[..newPosition] == r.value.out && Holds(r.value.history))
    {
      hide *;
      HoldsParts(h);
      BlockParts(header, payload, output.Length, output[..outputPosition], h);
      newPosition := 0;
      match header.blockType {
        case RawBlock =>
          newPosition := outputPosition + |payload|;
          if newPosition > output.Length {
            return false, 0;
          }
          StoreBytes(output, outputPosition, payload);
          ok := true;
        case RleBlock =>
          newPosition := outputPosition + header.blockSize;
          if newPosition > output.Length {
            return false, 0;
          }
          StoreBytes(output, outputPosition, seq(header.blockSize, _ => payload[0]));
          ok := true;
        case CompressedBlock =>
          ok, newPosition := DecodeCompressedBlock(payload, output, outputPosition, h);
      }
      if ok && !header.blockType.CompressedBlock? {
        HoldsWhen(h);
      }
    }

    /** A round of the loop that decodes two blocks, if the next one is compressed and both can be
        paired. */
    method DecodeTwo(rest: seq<byte>, payload: seq<byte>, output: array<byte>, outputPosition: nat, ghost h: History)
      returns (r: Round, ghost after: History)
      requires Holds(h) && outputPosition <= output.Length && NextBlock(rest).Some?
      requires NextBlock(rest).value.1 == payload
      requires !NextBlock(rest).value.0.isLast && NextBlock(rest).value.0.blockType.CompressedBlock?
      modifies this, huffmanTable0, huffmanTable1, sequences, sequences.repeatOffsets, output
      modifies sequences.tables.literalLength, sequences.tables.offset, sequences.tables.matchLength
      modifies sequences.fastTables, sequences.fastTables.literalLength, sequences.fastTables.offset
      modifies sequences.fastTables.matchLength
      ensures ValidHistory(h)
      ensures r.SingleNext? ==> Holds(h) && output[..] == old(output[..])
      ensures r.RoundFailed? ==> RunOf(rest, output.Length, old(output[..outputPosition]), h).None?
      ensures r.RoundDone? ==>
                Holds(after) && ValidHistory(after) && r.position <= output.Length && 0 < r.consumed <= |rest|
      ensures r.RoundDone? ==>
                RunOf(rest, output.Length, old(output[..outputPosition]), h)
                == if r.isLast then Some((Written(output[..r.position], after), r.consumed))
                   else Shifted(r.consumed, RunOf(rest[r.consumed..], output.Length, output[..r.position], after))
    {
      hide *;
      HoldsParts(h);
      NextFits(rest);
      after := h;
      var size := 3 + |payload|;
      ghost var out := output[..outputPosition];
      var following := ReadNextCompressedBlock(rest, size);
      if following.Unreadable? {
        NothingFollows(rest, output.Length, out, h);
        return RoundFailed, after;
      }
      if following.NotCompressed? {
        return SingleNext, after;
      }
      var pair := DecodeCompressedBlockPair(payload, following.payload, output, outputPosition, h);
      TwoBlocks(rest, output.Length, out, h, following.header, following.payload);
      if pair.PairSkipped? {
        return SingleNext, after;
      }
      if pair.PairError? {
        return RoundFailed, after;
      }
      ghost var one := CompressedOf(payload, output.Length, out, h).value;
      ghost var two := CompressedOf(following.payload, output.Length, one.out, one.history).value;
      after := two.history;
      HoldsParts(after);
      NextFits(rest[size..]);
      Rests(rest, size, 3 + |following.payload|, 0);
      WrittenIs(two);
      return RoundDone(pair.position, size + 3 + |following.payload|, following.header.isLast), after;
    }

    /** `decode_block_sequence`: it accepts exactly the runs that mean something, whether blocks are
        decoded one at a time or in pairs, and leaves what they leave. */
    method DecodeBlockSequence(input: seq<byte>, output: array<byte>, ghost h: History)
      returns (ok: bool, inputPosition: nat, outputPosition: nat)
      requires Holds(h)
      modifies this, huffmanTable0, huffmanTable1, sequences, sequences.repeatOffsets, output
      modifies sequences.tables.literalLength, sequences.tables.offset, sequences.tables.matchLength
      modifies sequences.fastTables, sequences.fastTables.literalLength, sequences.fastTables.offset
      modifies sequences.fastTables.matchLength
      ensures ValidHistory(h)
      ensures var r := RunOf(input, output.Length, [], h);
              && (ok <==> r.Some?)
              && (ok ==> && inputPosition == r.value.1 && outputPosition <= output.Length
                         && output[..outputPosition] == r.value.0.out && Holds(r.value.0.history))
    {
      hide *;
      HoldsParts(h);
      inputPosition, outputPosition := 0, 0;
      ghost var now, total := h, RunOf(input, output.Length, [], h);
      assert input[0..] == input && output[..0] == [];
      ShiftedIs(0, 0, total);
      while true
        invariant inputPosition <= |input| && outputPosition <= output.Length && Holds(now) && ValidHistory(now)
        invariant total
                == Shifted(inputPosition, RunOf(input[inputPosition..], output.Length, output[..outputPosition], now))
        decreases |input| - inputPosition
      {
        var rest := input[inputPosition..];
        var next := NextBlock(rest);
        ghost var out := output[..outputPosition];
        RunStep(rest, output.Length, out, now);
        ShiftedIs(inputPosition, 0, RunOf(rest, output.Length, out, now));
        if next.None? {
          return false, 0, 0;
        }
        var (header, payload) := next.value;
        var size := 3 + |payload|;
        NextFits(rest);
        if header.blockType.CompressedBlock? && !header.isLast {
          var round;
          ghost var afterwards;
          round, afterwards := DecodeTwo(rest, payload, output, outputPosition, now);
          if round.RoundFailed? {
            return false, 0, 0;
          }
          if round.RoundDone? {
            now := afterwards;
            outputPosition := round.position;
            ShiftedIs(inputPosition, round.consumed,
                      RunOf(rest[round.consumed..], output.Length, output[..outputPosition], now));
            Rests(input, inputPosition, round.consumed, 0);
            inputPosition := inputPosition + round.consumed;
            if round.isLast {
              return true, inputPosition, outputPosition;
            }
            continue;
          }
          assert output[..outputPosition] == out;
        }
        ok, outputPosition := DecodeBlock(header, payload, output, outputPosition, now);
        if !ok {
          return false, 0, 0;
        }
        now := BlockOf(header, payload, output.Length, out, now).value.history;
        HoldsParts(now);
        ShiftedIs(inputPosition, size, RunOf(rest[size..], output.Length, output[..outputPosition], now));
        Rests(input, inputPosition, size, 0);
        inputPosition := inputPosition + size;
        if header.isLast {
          return true, inputPosition, outputPosition;
        }
      }
    }
  }

  lemma CompressedParts(payload: seq<byte>, capacity: nat, out: seq<byte>, h: History)
    requires ValidHistory(h)
    ensures ValidHeld(h.huffman) && ValidTablesHeld(h.tables)
    ensures var literals := LiteralsOf(payload, h.huffman);
            && (literals.None? ==> CompressedOf(payload, capacity, out, h).None?)
            && (literals.Some? ==>
                  && literals.value.used <= |payload|
                  && var sequences := SequencesOf(payload[literals.value.used..], literals.value.literals, capacity,
                                                  out, h.offsets, h.tables);
                  && (sequences.None? ==> CompressedOf(payload, capacity, out, h).None?)
                  && (sequences.Some? ==>
                        var history := History(literals.value.table, sequences.value.held, sequences.value.history);
                        && ValidHistory(history)
                        && CompressedOf(payload, capacity, out, h) == Some(Written(sequences.value.out, history))))
  {
    hide LiteralsOf, SequencesOf, ValidHeld, ValidTablesHeld;
  }

  lemma LiteralsFit(payload: seq<byte>, held: Option<HuffmanTable>)
    requires ValidHeld(held)
    ensures LiteralsOf(payload, held).Some? ==>
              LiteralsOf(payload, held).value.used <= |payload| && ValidHeld(LiteralsOf(payload, held).value.table)
  {
  }

  lemma NotInOutput(source: LiteralSource, position: nat, size: nat, output: seq<byte>)
    requires !source.InOutput?
    ensures Parked(source, position, size) && Parked(source, 0, |output|)
    ensures LiteralBytes(source, output) == SourceBytes(source)
  {
  }

  datatype Round = SingleNext | RoundFailed | RoundDone(position: nat, consumed: nat, isLast: bool)

  lemma WrittenIs(w: Written)
    ensures w == Written(w.out, w.history)
  {
  }

  datatype PairResult = PairSkipped | PairError | PairDone(position: nat)

  /** The second block starts where the first ends, in what it leaves. */
  lemma PairParts(first: seq<byte>, second: seq<byte>, capacity: nat, out: seq<byte>, h: History)
    requires ValidHistory(h)
    ensures ValidHeld(h.huffman) && ValidTablesHeld(h.tables)
    ensures var l1 := LiteralsOf(first, h.huffman);
            && (l1.None? ==> CompressedOf(first, capacity, out, h).None?)
            && (l1.Some? ==>
                  && ValidHeld(l1.value.table) && l1.value.used <= |first|
                  && var s1 := SequencesOf(first[l1.value.used..], l1.value.literals, capacity, out, h.offsets,
                                           h.tables);
                  && (s1.None? ==> CompressedOf(first, capacity, out, h).None?)
                  && (s1.Some? ==>
                        var after := History(l1.value.table, s1.value.held, s1.value.history);
                        && ValidHistory(after) && ValidTablesHeld(after.tables)
                        && CompressedOf(first, capacity, out, h) == Some(Written(s1.value.out, after))
                        && var l2 := LiteralsOf(second, l1.value.table);
                        && (l2.None? ==> CompressedOf(second, capacity, s1.value.out, after).None?)
                        && (l2.Some? ==>
                              && l2.value.used <= |second|
                              && var s2 := SequencesOf(second[l2.value.used..], l2.value.literals, capacity,
                                                       s1.value.out, after.offsets, after.tables);
                              && (s2.None? ==> CompressedOf(second, capacity, s1.value.out, after).None?)
                              && (s2.Some? ==>
                                    && ValidHistory(History(l2.value.table, s2.value.held, s2.value.history))
                                    && CompressedOf(second, capacity, s1.value.out, after)
                                       == Some(Written(s2.value.out,
                                                       History(l2.value.table, s2.value.held, s2.value.history)))))))
  {
    hide *;
    CompressedParts(first, capacity, out, h);
    LiteralsFit(first, h.huffman);
    var l1 := LiteralsOf(first, h.huffman);
    if l1.Some? {
      var s1 := SequencesOf(first[l1.value.used..], l1.value.literals, capacity, out, h.offsets, h.tables);
      if s1.Some? {
        CompressedParts(second, capacity, s1.value.out, History(l1.value.table, s1.value.held, s1.value.history));
      }
    }
  }

  lemma LiteralsSmall(payload: seq<byte>, held: Option<HuffmanTable>)
    requires ValidHeld(held)
    ensures LiteralsOf(payload, held).Some? ==> |LiteralsOf(payload, held).value.literals| <= MAX_BLOCK_SIZE
  {
    hide ReadLiteralsHeader, ValidTable, DescribedTable, SymbolsOf;
    if LiteralsOf(payload, held).Some? {
      PlainIs(payload, held);
      var header := ReadLiteralsHeader(payload).value;
      if header.literalsType.Compressed? || header.literalsType.Treeless? {
        CodedIs(payload, header, held);
        CodedLength(payload, header, held);
      }
    }
  }

  lemma CodedLength(payload: seq<byte>, header: LiteralsHeader, held: Option<HuffmanTable>)
    requires ValidHeld(held) && ReadLiteralsHeader(payload) == Some(header) && header.regeneratedSize <= MAX_BLOCK_SIZE
    requires header.literalsType.Compressed? || header.literalsType.Treeless?
    ensures LiteralsOf(payload, held).Some? ==> |LiteralsOf(payload, held).value.literals| == header.regeneratedSize
  {
    hide *;
    CodedIs(payload, header, held);
    ValidIs(held);
    var end := header.headerLength + header.compressedSize;
    if end <= |payload| {
      var section := payload[header.headerLength..end];
      if header.literalsType.Treeless? {
        if held.Some? {
          CodedLiteralsIs(held.value, section, header);
          SymbolsLength(held.value, section, header.streamCount, header.regeneratedSize);
        }
      } else {
        var table := DescribedTable(section);
        if table.Some? {
          CodedLiteralsIs(table.value.0, section[table.value.1..], header);
          SymbolsLength(table.value.0, section[table.value.1..], header.streamCount, header.regeneratedSize);
        }
      }
    }
  }

  /** Literals copied far behind what is decoded. */
  method ParkLiterals(output: array<byte>, parked: nat, literals: seq<byte>, position: nat)
    requires position <= parked && parked + |literals| <= output.Length
    modifies output
    ensures output[..position] == old(output[..position]) && ParkedLiterals(output[..], parked, literals)
  {
    forall i | 0 <= i < |literals| {
      output[parked + i] := literals[i];
    }
  }

  lemma StillValid(input: seq<byte>, literals: seq<byte>, capacity: nat, out: seq<byte>, history: R.History,
                   held: HeldTables)
    requires ValidTablesHeld(held)
    ensures var r := SequencesOf(input, literals, capacity, out, history, held);
            r.Some? ==> ValidTablesHeld(r.value.held)
  {
    hide ValidTablesHeld;
  }

  lemma BlockParts(header: BlockHeader, payload: seq<byte>, capacity: nat, out: seq<byte>, h: History)
    requires ValidHistory(h) && |payload| == PayloadLength(header)
    ensures header.blockType.RawBlock? ==>
              BlockOf(header, payload, capacity, out, h)
              == if |out| + |payload| > capacity then None else Some(Written(out + payload, h))
    ensures header.blockType.RleBlock? ==>
              && |payload| == 1
              && BlockOf(header, payload, capacity, out, h)
                 == if |out| + header.blockSize > capacity then None
                    else Some(Written(out + seq(header.blockSize, _ => payload[0]), h))
    ensures header.blockType.CompressedBlock? ==>
              BlockOf(header, payload, capacity, out, h) == CompressedOf(payload, capacity, out, h)
  {
    hide CompressedOf, ValidHistory;
  }

  // ---------------------------------------------------------------- the loop over blocks

  datatype FollowingBlock = Unreadable | NotCompressed | Following(header: BlockHeader, payload: seq<byte>)

  /** `read_next_compressed_block`: the header must be there; a payload cut short is left to the
      next round. */
  method ReadNextCompressedBlock(input: seq<byte>, position: nat) returns (r: FollowingBlock)
    requires position <= |input|
    ensures r.Unreadable? <==> ReadBlockHeader(input[position..]).None?
    ensures r.Following?
          <==> NextBlock(input[position..]).Some? && NextBlock(input[position..]).value.0.blockType.CompressedBlock?
    ensures r.Following? ==>
              NextBlock(input[position..]) == Some((r.header, r.payload)) && r.header.blockType.CompressedBlock?
  {
    hide ReadBlockHeader;
    var header := ReadBlockHeader(input[position..]);
    if header.None? {
      return Unreadable;
    }
    if !header.value.blockType.CompressedBlock? {
      return NotCompressed;
    }
    var payloadStart := position + BLOCK_HEADER_LENGTH;
    if payloadStart + header.value.blockSize > |input| {
      return NotCompressed;
    }
    SameSlice(input, position, payloadStart, payloadStart + header.value.blockSize);
    return Following(header.value, input[payloadStart..payloadStart + header.value.blockSize]);
  }

  lemma SameSlice(input: seq<byte>, position: nat, from: nat, to: nat)
    requires position <= from <= to <= |input|
    ensures input[position..][from - position..to - position] == input[from..to]
  {
  }

  lemma NextFits(input: seq<byte>)
    ensures NextBlock(input).Some? ==>
              var (header, payload) := NextBlock(input).value;
              |payload| == PayloadLength(header) && 3 + |payload| <= |input| && BLOCK_HEADER_LENGTH == 3
  {
    hide ReadBlockHeader;
  }

  /** Without a readable header the run fails. */
  lemma NothingFollows(rest: seq<byte>, capacity: nat, out: seq<byte>, h: History)
    requires ValidHistory(h) && NextBlock(rest).Some? && !NextBlock(rest).value.0.isLast
    requires var size := BLOCK_HEADER_LENGTH + |NextBlock(rest).value.1|;
             size <= |rest| && ReadBlockHeader(rest[size..]).None?
    ensures RunOf(rest, capacity, out, h).None?
  {
    hide ReadBlockHeader, BlockOf, RunOf, ValidHistory;
    var (header, payload) := NextBlock(rest).value;
    RunStep(rest, capacity, out, h);
    var block := BlockOf(header, payload, capacity, out, h);
    if block.Some? {
      RunStep(rest[BLOCK_HEADER_LENGTH + |payload|..], capacity, block.value.out, block.value.history);
    }
  }

  /** Two compressed blocks at the front of a run. */
  lemma TwoBlocks(rest: seq<byte>, capacity: nat, out: seq<byte>, h: History, nextHeader: BlockHeader,
                  nextPayload: seq<byte>)
    requires ValidHistory(h) && NextBlock(rest).Some?
    requires !NextBlock(rest).value.0.isLast && NextBlock(rest).value.0.blockType.CompressedBlock?
    requires nextHeader.blockType.CompressedBlock?
    requires BLOCK_HEADER_LENGTH + |NextBlock(rest).value.1| <= |rest|
    requires NextBlock(rest[BLOCK_HEADER_LENGTH + |NextBlock(rest).value.1|..]) == Some((nextHeader, nextPayload))
    ensures var payload := NextBlock(rest).value.1;
            var size := BLOCK_HEADER_LENGTH + |payload|;
            var one := CompressedOf(payload, capacity, out, h);
            && (one.None? ==> RunOf(rest, capacity, out, h).None?)
            && (one.Some? ==>
                  && ValidHistory(one.value.history)
                  && var two := CompressedOf(nextPayload, capacity, one.value.out, one.value.history);
                  && (two.None? ==> RunOf(rest, capacity, out, h).None?)
                  && (two.Some? && nextHeader.isLast ==>
                        RunOf(rest, capacity, out, h) == Some((two.value, size + BLOCK_HEADER_LENGTH + |nextPayload|)))
                  && (two.Some? && !nextHeader.isLast ==>
                        && ValidHistory(two.value.history) && BLOCK_HEADER_LENGTH + |nextPayload| <= |rest[size..]|
                        && RunOf(rest, capacity, out, h)
                           == Shifted(size + BLOCK_HEADER_LENGTH + |nextPayload|,
                                      RunOf(rest[size..][BLOCK_HEADER_LENGTH + |nextPayload|..], capacity,
                                            two.value.out, two.value.history))))
  {
    hide ReadBlockHeader, BlockOf, RunOf, ValidHistory, CompressedOf, NextBlock;
    var (header, payload) := NextBlock(rest).value;
    NextFits(rest);
    RunStep(rest, capacity, out, h);
    BlockParts(header, payload, capacity, out, h);
    var one := CompressedOf(payload, capacity, out, h);
    if one.Some? {
      var after := rest[BLOCK_HEADER_LENGTH + |payload|..];
      NextFits(after);
      RunStep(after, capacity, one.value.out, one.value.history);
      BlockParts(nextHeader, nextPayload, capacity, one.value.out, one.value.history);
    }
  }

  lemma Rests(input: seq<byte>, position: nat, a: nat, b: nat)
    requires position + a + b <= |input|
    ensures input[position..][a..] == input[position + a..] && input[position..][a..][b..] == input[position + a + b..]
  {
  }
}
