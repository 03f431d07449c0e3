/** The checked sequence loop of the block decoder: one record at a time from the checked bit
    reader, executed as soon as it is read. */
module SequenceDecoder {
  import opened Bits
  import opened BitReader
  import opened Fse
  import opened FseTables
  import opened SequenceCodes
  import opened SequenceBits
  import opened SequenceExecution
  import R = RepeatOffsets

  class SequenceTables {
    const literalLength: FseDecodeTable
    const offset: FseDecodeTable
    const matchLength: FseDecodeTable

    constructor (literalLength: FseDecodeTable, offset: FseDecodeTable, matchLength: FseDecodeTable)
      ensures this.literalLength == literalLength && this.offset == offset && this.matchLength == matchLength
    {
      this.literalLength, this.offset, this.matchLength := literalLength, offset, matchLength;
    }

    ghost predicate Decode(t: Tables)
      reads literalLength, offset, matchLength
    {
      && literalLength.Decodes(t.ll) && offset.Decodes(t.of) && matchLength.Decodes(t.ml) && ValidTables(t)
    }
  }

  /** A record with its offset resolved. */
  datatype Sequence = Sequence(literalLength: nat, matchLength: nat, offset: nat)

  datatype Next = Failed | Read(sequence: Sequence)

  class SequenceStream {
    const reader: BackwardBitReader
    const literalLengthState: FseDecodeState
    const offsetState: FseDecodeState
    const matchLengthState: FseDecodeState
    var sequencesLeft: nat

    ghost predicate Apart() {
      literalLengthState != offsetState && offsetState != matchLengthState && literalLengthState != matchLengthState
    }

    /** The stream stands on these cells, with these bits to come. */
    ghost predicate At(t: Tables, c: Cells, rest: seq<bool>, overran: bool)
      reads reader, literalLengthState, offsetState, matchLengthState
    {
      && Apart() && ValidCells(t, c)
      && literalLengthState.state == c.ll && offsetState.state == c.of && matchLengthState.state == c.ml
      && reader.Valid() && reader.Rest() == rest && reader.hasOverflowed == overran
    }

    constructor (reader: BackwardBitReader, tables: SequenceTables, sequenceCount: nat, ghost t: Tables)
      requires reader.Valid() && !reader.hasOverflowed && tables.Decode(t)
      modifies reader
      ensures this.reader == reader && sequencesLeft == sequenceCount
      ensures fresh(literalLengthState) && fresh(offsetState) && fresh(matchLengthState)
      ensures var m := Opened(t, old(reader.Rest())); At(t, m.cells, m.rest, m.overran)
    {
      hide PeekEnd, DropEnd, FseDecodeTable.Decodes, BytesToBits, ValidTans;
      this.reader := reader;
      sequencesLeft := sequenceCount;
      literalLengthState := new FseDecodeState(reader, tables.literalLength, t.ll);
      offsetState := new FseDecodeState(reader, tables.offset, t.of);
      matchLengthState := new FseDecodeState(reader, tables.matchLength, t.ml);
    }

    /** The three states move: literal length, match length, offset. */
    method MoveAll(tables: SequenceTables, ghost t: Tables, ghost c: Cells, ghost rest: seq<bool>, ghost overran: bool)
      requires At(t, c, rest, overran) && tables.Decode(t)
      modifies reader, literalLengthState, offsetState, matchLengthState
      ensures var m := MoveStates(t, c, rest, overran); At(t, m.cells, m.rest, m.overran)
    {
      hide PeekEnd, DropEnd, CellBits, CellBase, DecodeStep, FseDecodeTable.Decodes, BackwardBitReader.Valid,
        BackwardBitReader.Rest, ValidTans;
      literalLengthState.Update(reader, tables.literalLength, t.ll);
      matchLengthState.Update(reader, tables.matchLength, t.ml);
      offsetState.Update(reader, tables.offset, t.of);
    }

    /** The extra bits of one record. */
    method ReadExtras(tables: SequenceTables, ghost t: Tables, ghost c: Cells, ghost rest: seq<bool>,
                      ghost overran: bool)
      returns (ok: bool, record: SequenceRecord)
      requires At(t, c, rest, overran) && tables.Decode(t)
      modifies reader
      ensures ok <==> ReadRecord(t, c, rest, overran).Some?
      ensures ok ==> var reading := ReadRecord(t, c, rest, overran).value;
                     record == reading.record && At(t, c, reading.rest, reading.overran)
    {
      hide PeekEnd, DropEnd, FseDecodeTable.Decodes, BackwardBitReader.Valid, BackwardBitReader.Rest, ValidTans, Pow2,
        LiteralLengthRange, MatchLengthRange;
      var offsetCode := offsetState.GetSymbol(tables.offset, t.of);
      if offsetCode > 31 {
        return false, SequenceRecord(0, 0, 0);
      }
      var offsetExtra := reader.ReadBits(offsetCode);
      var matchLength := MatchLengthRange(matchLengthState.GetSymbol(tables.matchLength, t.ml));
      var matchExtra := reader.ReadBits(matchLength.bits);
      var literalLength := LiteralLengthRange(literalLengthState.GetSymbol(tables.literalLength, t.ll));
      var literalExtra := reader.ReadBits(literalLength.bits);
      record := SequenceRecord(literalLength.base + literalExtra, matchLength.base + matchExtra,
                               Pow2(offsetCode) + offsetExtra);
      ok := true;
    }

    /** `next_sequence` when one is left: the record read and resolved, the states moved. */
    method NextSequence(tables: SequenceTables, repeatOffsets: R.RepeatOffsets, ghost t: Tables, ghost c: Cells,
                        ghost rest: seq<bool>, ghost overran: bool)
      returns (next: Next)
      requires At(t, c, rest, overran) && tables.Decode(t) && sequencesLeft > 0
      modifies this, reader, literalLengthState, offsetState, matchLengthState, repeatOffsets
      ensures var reading := ReadRecord(t, c, rest, overran);
              && (reading.None? ==> next == Failed)
              && (reading.Some? ==>
                    var r := reading.value.record;
                    var m := AfterReading(t, c, reading.value, old(sequencesLeft));
                    var offset := R.OffsetOf(old(repeatOffsets.State()), r.offsetValue, r.literalLength);
                    && (next == Failed <==> offset == 0 || m.overran)
                    && (next != Failed ==>
                          && next == Read(Sequence(r.literalLength, r.matchLength, offset))
                          && sequencesLeft == old(sequencesLeft) - 1 && At(t, m.cells, m.rest, m.overran)
                          && repeatOffsets.State()
                             == R.After(old(repeatOffsets.State()), r.offsetValue, r.literalLength)))
    {
      hide PeekEnd, DropEnd, ReadRecord, MoveStates, FseDecodeTable.Decodes, BackwardBitReader.Valid,
        BackwardBitReader.Rest, ValidTables, R.OffsetOf, R.After;
      var ok, record := ReadExtras(tables, t, c, rest, overran);
      if !ok {
        return Failed;
      }
      ghost var reading := ReadRecord(t, c, rest, overran).value;
      RecordPositive(t, c, rest, overran);
      var offset := repeatOffsets.GetOffset(record.offsetValue, record.literalLength);
      if offset == 0 {
        return Failed;
      }
      if sequencesLeft > 1 {
        MoveAll(tables, t, c, reading.rest, reading.overran);
      }
      if reader.hasOverflowed {
        return Failed;
      }
      sequencesLeft := sequencesLeft - 1;
      return Read(Sequence(record.literalLength, record.matchLength, offset));
    }
  }

  lemma RecordPositive(t: Tables, c: Cells, rest: seq<bool>, overran: bool)
    requires ValidCells(t, c) && ReadRecord(t, c, rest, overran).Some?
    ensures ReadRecord(t, c, rest, overran).value.record.offsetValue > 0
  {
    hide PeekEnd, DropEnd;
  }
}
