/** The fast sequence path: expanded table entries, the fast bit reader with at most one refill in
    the middle of a sequence, and copies that overshoot. It is proved against the same `Section`
    as the checked loop. */
module FastSequences {
  import opened Bits
  import opened BitReader
  import opened Fse
  import opened FseTables
  import opened SequenceCodes
  import opened SequenceBits
  import opened SequenceExecution
  import opened SequenceDecoder
  import opened BlockDecoder
  import opened MatchCopy
  import R = RepeatOffsets

  // ---------------------------------------------------------------- expanded tables

  datatype FastSequenceEntry = FastSequenceEntry(nextStateBase: nat, stateBits: nat, extraBits: nat, baseValue: nat)

  class FastSequenceTable {
    var entries: seq<FastSequenceEntry>
    var accuracyLog: nat

    constructor ()
      ensures entries == [] && accuracyLog == 0
    {
      entries, accuracyLog := [], 0;
    }

    /** Every cell of `t` with its next state and the range of its symbol. */
    ghost predicate Expands(t: Tans, ranges: nat -> Range)
      reads this
    {
      && ValidTans(t) && accuracyLog == t.log && |entries| == |t.cells|
      && forall c: nat :: c < |t.cells| ==>
           entries[c]
           == FastSequenceEntry(CellBase(t, c), CellBits(t, c), ranges(t.cells[c]).bits, ranges(t.cells[c]).base)
    }

    /** `build_literal_length`, `build_offset` and `build_match_length`, by the ranges of the symbols. */
    method Build(table: FseDecodeTable, ranges: nat -> Range, ghost t: Tans)
      requires table.Decodes(t)
      modifies this
      ensures Expands(t, ranges)
    {
      hide CellBase, CellBits, Pow2;
      var tableSize := Pow2(table.accuracyLog);
      entries := [];
      for cell := 0 to tableSize
        invariant |entries| == cell
        invariant forall c: nat :: c < cell ==>
                    entries[c]
                    == FastSequenceEntry(CellBase(t, c), CellBits(t, c),
                                         ranges(t.cells[c]).bits, ranges(t.cells[c]).base)
      {
        var source := table.entries[cell];
        entries := entries + [FastSequenceEntry(source.nextStateBase, source.bitCount,
                                                ranges(source.symbol).bits, ranges(source.symbol).base)];
      }
      accuracyLog := table.accuracyLog;
    }
  }

  function OffsetRange(code: nat): Range {
    Range(Pow2(code), code)
  }

  class FastSequenceTables {
    const literalLength: FastSequenceTable
    const offset: FastSequenceTable
    const matchLength: FastSequenceTable
    var literalLengthDirty: bool
    var offsetDirty: bool
    var matchLengthDirty: bool

    constructor ()
      ensures fresh(literalLength) && fresh(offset) && fresh(matchLength)
      ensures literalLength != offset && offset != matchLength && literalLength != matchLength
      ensures literalLengthDirty && offsetDirty && matchLengthDirty
    {
      literalLength := new FastSequenceTable();
      offset := new FastSequenceTable();
      matchLength := new FastSequenceTable();
      literalLengthDirty, offsetDirty, matchLengthDirty := true, true, true;
    }

    ghost predicate Expand(t: Tables)
      reads literalLength, offset, matchLength
    {
      && literalLength.Expands(t.ll, LiteralLengthRange) && offset.Expands(t.of, OffsetRange)
      && matchLength.Expands(t.ml, MatchLengthRange) && ValidTables(t)
    }

    /** A clean table still expands the table in use. */
    ghost predicate CleanIsCurrent(t: Tables)
      reads this, literalLength, offset, matchLength
    {
      && literalLength != offset && offset != matchLength && literalLength != matchLength
      && (!literalLengthDirty ==> literalLength.Expands(t.ll, LiteralLengthRange))
      && (!offsetDirty ==> offset.Expands(t.of, OffsetRange))
      && (!matchLengthDirty ==> matchLength.Expands(t.ml, MatchLengthRange))
    }

    /** `build_all`: only what is dirty is built again. */
    method BuildAll(tables: SequenceTables, ghost t: Tables)
      requires tables.Decode(t) && CleanIsCurrent(t)
      modifies this, literalLength, offset, matchLength
      ensures Expand(t) && CleanIsCurrent(t)
    {
      hide FastSequenceTable.Expands, FseDecodeTable.Decodes, ValidTables;
      if literalLengthDirty {
        literalLength.Build(tables.literalLength, LiteralLengthRange, t.ll);
        literalLengthDirty := false;
      }
      if offsetDirty {
        offset.Build(tables.offset, OffsetRange, t.of);
        offsetDirty := false;
      }
      if matchLengthDirty {
        matchLength.Build(tables.matchLength, MatchLengthRange, t.ml);
        matchLengthDirty := false;
      }
    }
  }

  // ---------------------------------------------------------------- reading within the window

  /** The reader after some reads since a refill. Overrun reads leave it overdrawn; away from the
      stream start at most `used` bits of the window are gone. */
  ghost predicate InStep(reader: FastBitReader, rest: seq<bool>, overran: bool, used: nat)
    reads reader
  {
    && reader.Valid()
    && (if overran then reader.bitsConsumed > 64 else reader.bitsConsumed <= 64 && reader.Rest() == rest)
    && (reader.position > 0 ==> reader.bitsConsumed <= used)
  }

  method ReadStep(reader: FastBitReader, count: nat, ghost rest: seq<bool>, ghost overran: bool, ghost used: nat)
    returns (value: nat)
    requires InStep(reader, rest, overran, used) && used + count <= 64 && count <= 56
    modifies reader`bitsConsumed
    ensures InStep(reader, DropEnd(rest, count), overran || count > |rest|, used + count)
    ensures value < Pow2(count) && (!overran && count <= |rest| ==> value == PeekEnd(rest, count))
  {
    hide PeekEnd, BytesToBits, WordFrom, Pow2;
    value := reader.Read(count);
  }

  /** A refill reports an overdrawn reader and otherwise leaves a nearly full window. */
  method RefillStep(reader: FastBitReader, ghost rest: seq<bool>, ghost overran: bool, ghost used: nat)
    returns (status: ReloadStatus)
    requires InStep(reader, rest, overran, used)
    modifies reader
    ensures status == Overflow <==> overran
    ensures !overran ==> InStep(reader, rest, false, 7)
  {
    hide PeekEnd, BytesToBits, WordFrom, Pow2;
    status := reader.Refill();
  }

  // ---------------------------------------------------------------- one sequence

  ghost predicate OffsetsSmall(t: Tables) {
    forall c: nat :: c < |t.of.cells| ==> t.of.cells[c] <= 31
  }

  lemma EntryIs(table: FastSequenceTable, t: Tans, ranges: nat -> Range, c: nat)
    requires table.Expands(t, ranges) && c < |t.cells|
    ensures |table.entries| == |t.cells| && ValidTans(t)
    ensures table.entries[c]
          == FastSequenceEntry(CellBase(t, c), CellBits(t, c), ranges(t.cells[c]).bits, ranges(t.cells[c]).base)
  {
    hide CellBase, CellBits;
  }

  /** The parts of a record reading, in the fast path's order. */
  lemma RecordParts(t: Tables, c: Cells, rest: seq<bool>)
    requires ValidCells(t, c) && t.of.cells[c.of] <= 31
    ensures var of, ml := OffsetRange(t.of.cells[c.of]), MatchLengthRange(t.ml.cells[c.ml]);
            var ll := LiteralLengthRange(t.ll.cells[c.ll]);
            var r1 := DropEnd(rest, of.bits);
            var r2 := DropEnd(r1, ml.bits);
            ReadRecord(t, c, rest, false)
            == Some(Reading(SequenceRecord(ll.base + PeekEnd(r2, ll.bits), ml.base + PeekEnd(r1, ml.bits),
                                           of.base + PeekEnd(rest, of.bits)),
                            DropEnd(r2, ll.bits), of.bits > |rest| || ml.bits > |r1| || ll.bits > |r2|))
  {
    hide PeekEnd, DropEnd, LiteralLengthRange, MatchLengthRange, Pow2;
  }

  /** Only whether the base is zero matters to the repeat codes. */
  lemma ZeroBase(code: nat)
    ensures LiteralLengthRange(code).base == 0 ==> LiteralLengthRange(code).bits == 0
  {
  }

  lemma NoBits(rest: seq<bool>)
    ensures PeekEnd(rest, 0) == 0
  {
    EmptyPeek(rest);
  }

  /** The repeat codes by hand are the general rule. */
  lemma RepeatRule(h: R.History, value: nat, bit: nat, literalLength: nat)
    requires bit < 2 && value == 2 + bit
    ensures var index := 1 + (if literalLength == 0 then 1 else 0) + bit;
            var offset := if index == 1 then h.second
                          else if index == 2 then h.third else (h.first + (R.U32 - 1)) % R.U32;
            && R.OffsetOf(h, value, literalLength) == offset
            && R.After(h, value, literalLength) == R.History(offset, h.first, if index != 1 then h.second else h.third)
  {
  }

  /** The extra bits of an offset code of 0 or 1. */
  lemma SmallOffsetCodes()
    ensures OffsetRange(0) == Range(1, 0) && OffsetRange(1) == Range(2, 1)
    ensures Pow2(1) == 2
    ensures forall code: nat :: code >= 2 ==> OffsetRange(code).base >= 4
  {
    forall code: nat | code >= 2
      ensures Pow2(code) >= 4
    {
      Pow2Mono(2, code);
      assert Pow2(2) == 4;
    }
    assert Pow2(1) == 2;
  }

  class FastStream {
    const reader: FastBitReader
    var literalLengthState: nat
    var matchLengthState: nat
    var offsetState: nat
    var sequencesLeft: nat

    ghost function Standing(): Cells
      reads this
    {
      Cells(literalLengthState, offsetState, matchLengthState)
    }

    /** `SequenceStreamState::new_unchecked`; the fast path only takes streams of eight bytes or more. */
    constructor (reader: FastBitReader, tables: FastSequenceTables, sequenceCount: nat, ghost t: Tables)
      requires reader.Valid() && reader.bitsConsumed <= 8 && tables.Expand(t)
      modifies reader
      ensures this.reader == reader && sequencesLeft == sequenceCount
      ensures var m := Opened(t, old(reader.Rest()));
              && !m.overran && Standing() == m.cells && InStep(reader, m.rest, false, 64)
    {
      hide PeekEnd, DropEnd, BytesToBits, WordFrom, FastSequenceTable.Expands, FastBitReader.Valid, FastBitReader.Rest;
      Logs(tables, t);
      this.reader := reader;
      sequencesLeft := sequenceCount;
      new;
      ghost var rest := reader.Rest();
      StepStarts(reader);
      Dropped(rest, t.ll.log);
      Dropped(DropEnd(rest, t.ll.log), t.of.log);
      literalLengthState := ReadStep(reader, tables.literalLength.accuracyLog, rest, false, 8);
      offsetState := ReadStep(reader, tables.offset.accuracyLog, DropEnd(rest, t.ll.log), false, 8 + t.ll.log);
      matchLengthState := ReadStep(reader, tables.matchLength.accuracyLog, DropEnd(DropEnd(rest, t.ll.log), t.of.log),
                                   false, 8 + t.ll.log + t.of.log);
      OpenedIs(t, rest);
      StepWidens(reader, DropEnd(DropEnd(DropEnd(rest, t.ll.log), t.of.log), t.ml.log),
                 8 + t.ll.log + t.of.log + t.ml.log, 64);
    }

    /** `read_repeat_offset_unchecked`: offset codes 0 and 1 by hand. */
    method ReadRepeatOffset(offsetCode: nat, literalLengthIsZero: bool, repeatOffsets: R.RepeatOffsets,
                            ghost rest: seq<bool>, ghost literalLength: nat)
      returns (offset: nat)
      requires InStep(reader, rest, false, 7) && offsetCode <= 1 && (literalLengthIsZero <==> literalLength == 0)
      modifies reader`bitsConsumed, repeatOffsets
      ensures InStep(reader, DropEnd(rest, offsetCode), offsetCode > |rest|, 7 + offsetCode)
      ensures offsetCode <= |rest| ==>
                var value := OffsetRange(offsetCode).base + PeekEnd(rest, offsetCode);
                && offset == R.OffsetOf(old(repeatOffsets.State()), value, literalLength)
                && repeatOffsets.State() == R.After(old(repeatOffsets.State()), value, literalLength)
    {
      hide PeekEnd, DropEnd, BytesToBits, WordFrom, FastBitReader.Valid, FastBitReader.Rest, R.OffsetOf, R.After,
        OffsetRange, Pow2;
      SmallOffsetCodes();
      if offsetCode == 0 {
        NoDrop(rest);
        NoBits(rest);
        FirstRule(repeatOffsets.State(), literalLength);
        if literalLengthIsZero {
          repeatOffsets.first, repeatOffsets.second := repeatOffsets.second, repeatOffsets.first;
        }
        return repeatOffsets.first;
      }
      var bit := ReadStep(reader, 1, rest, false, 7);
      ghost var h := repeatOffsets.State();
      RepeatRule(h, 2 + bit, bit, literalLength);
      var repeatIndex := 1 + (if literalLengthIsZero then 1 else 0) + bit;
      offset := if repeatIndex == 1 then repeatOffsets.second else if repeatIndex == 2 then repeatOffsets.third
                else (repeatOffsets.first + (R.U32 - 1)) % R.U32;
      if repeatIndex != 1 {
        repeatOffsets.third := repeatOffsets.second;
      }
      repeatOffsets.second := repeatOffsets.first;
      repeatOffsets.first := offset;
    }

    /** Offset and match length: at most 7 + 31 + 16 bits of the window. */
    method ReadOffsetAndMatch(offsetEntry: FastSequenceEntry, matchEntry: FastSequenceEntry, literalLengthIsZero: bool,
                              repeatOffsets: R.RepeatOffsets, ghost rest: seq<bool>, ghost literalLength: nat)
      returns (ok: bool, offset: nat, matchLength: nat)
      requires InStep(reader, rest, false, 7) && offsetEntry.extraBits <= 31 && matchEntry.extraBits <= 16
      requires offsetEntry.baseValue == OffsetRange(offsetEntry.extraBits).base
      requires literalLengthIsZero <==> literalLength == 0
      modifies reader`bitsConsumed, repeatOffsets
      ensures var of, ml := offsetEntry.extraBits, matchEntry.extraBits;
              var r1 := DropEnd(rest, of);
              && (of <= |rest| ==>
                    var value := offsetEntry.baseValue + PeekEnd(rest, of);
                    && (ok <==> R.OffsetOf(old(repeatOffsets.State()), value, literalLength) != 0)
                    && (ok ==> offset == R.OffsetOf(old(repeatOffsets.State()), value, literalLength)
                               && repeatOffsets.State() == R.After(old(repeatOffsets.State()), value, literalLength)))
              && (ok ==> InStep(reader, DropEnd(r1, ml), of > |rest| || ml > |r1|, 7 + of + ml))
              && (ok && of <= |rest| && ml <= |r1| ==> matchLength == matchEntry.baseValue + PeekEnd(r1, ml))
    {
      hide PeekEnd, DropEnd, BytesToBits, WordFrom, FastBitReader.Valid, FastBitReader.Rest, R.OffsetOf, R.After,
        OffsetRange, Pow2, InStep;
      SmallOffsetCodes();
      ghost var of := offsetEntry.extraBits;
      if offsetEntry.extraBits > 1 {
        var extra := ReadStep(reader, offsetEntry.extraBits, rest, false, 7);
        ghost var h := repeatOffsets.State();
        LargeRule(h, offsetEntry.baseValue + extra, literalLength);
        offset := offsetEntry.baseValue + extra - 3;
        repeatOffsets.third := repeatOffsets.second;
        repeatOffsets.second := repeatOffsets.first;
        repeatOffsets.first := offset;
      } else {
        offset := ReadRepeatOffset(offsetEntry.extraBits, literalLengthIsZero, repeatOffsets, rest, literalLength);
        if offset == 0 {
          return false, 0, 0;
        }
      }
      var matchExtra := ReadStep(reader, matchEntry.extraBits, DropEnd(rest, of), of > |rest|, 7 + of);
      return true, offset, matchEntry.baseValue + matchExtra;
    }

    /** The three states, with 26 bits at most. */
    method MoveFast(llEntry: FastSequenceEntry, mlEntry: FastSequenceEntry, ofEntry: FastSequenceEntry,
                    ghost t: Tables, ghost c: Cells, ghost rest: seq<bool>, ghost overran: bool, ghost used: nat)
      requires ValidTables(t) && ValidCells(t, c) && InStep(reader, rest, overran, used) && used + 26 <= 64
      requires llEntry.nextStateBase == CellBase(t.ll, c.ll) && llEntry.stateBits == CellBits(t.ll, c.ll)
      requires mlEntry.nextStateBase == CellBase(t.ml, c.ml) && mlEntry.stateBits == CellBits(t.ml, c.ml)
      requires ofEntry.nextStateBase == CellBase(t.of, c.of) && ofEntry.stateBits == CellBits(t.of, c.of)
      modifies reader`bitsConsumed, this`literalLengthState, this`matchLengthState, this`offsetState
      ensures ValidCells(t, Standing())
      ensures var m := MoveStates(t, c, rest, overran);
              InStep(reader, m.rest, m.overran, 64) && (!m.overran ==> Standing() == m.cells)
    {
      hide PeekEnd, DropEnd, BytesToBits, WordFrom, FastBitReader.Valid, FastBitReader.Rest, Pow2, InStep, CellBase,
        CellBits;
      MoveIs(t, c, rest, overran);
      ghost var r1 := DropEnd(rest, llEntry.stateBits);
      ghost var o1 := overran || llEntry.stateBits > |rest|;
      ghost var r2 := DropEnd(r1, mlEntry.stateBits);
      ghost var o2 := o1 || mlEntry.stateBits > |r1|;
      var ll := ReadStep(reader, llEntry.stateBits, rest, overran, used);
      literalLengthState := llEntry.nextStateBase + ll;
      var ml := ReadStep(reader, mlEntry.stateBits, r1, o1, used + llEntry.stateBits);
      matchLengthState := mlEntry.nextStateBase + ml;
      var of := ReadStep(reader, ofEntry.stateBits, r2, o2, used + llEntry.stateBits + mlEntry.stateBits);
      offsetState := ofEntry.nextStateBase + of;
      UsedWidens(reader, DropEnd(r2, ofEntry.stateBits), o2 || ofEntry.stateBits > |r2|,
                 used + llEntry.stateBits + mlEntry.stateBits + ofEntry.stateBits, 64);
    }

    /** `decode_one_sequence_unchecked`. With enough bits it is the checked reading; without, it fails
        or leaves the reader overdrawn, which the next refill or the final check reports. */
    method DecodeOneSequence(tables: FastSequenceTables, repeatOffsets: R.RepeatOffsets, ghost t: Tables,
                             ghost rest: seq<bool>, ghost overran: bool)
      returns (next: Next)
      requires tables.Expand(t) && OffsetsSmall(t) && ValidCells(t, Standing()) && sequencesLeft > 0
      requires InStep(reader, rest, overran, 64)
      modifies this, reader, repeatOffsets
      ensures overran ==> next == Failed
      ensures next != Failed ==> ValidCells(t, Standing()) && sequencesLeft == old(sequencesLeft) - 1
      ensures !overran ==>
                var reading := ReadRecord(t, old(Standing()), rest, false);
                && reading.Some?
                && var r := reading.value.record;
                   var m := AfterReading(t, old(Standing()), reading.value, old(sequencesLeft));
                   var offset := R.OffsetOf(old(repeatOffsets.State()), r.offsetValue, r.literalLength);
                   && (next != Failed ==> InStep(reader, m.rest, m.overran, 64))
                   && (!m.overran ==> (next == Failed <==> offset == 0))
                   && (!m.overran && next != Failed ==>
                         && next == Read(Sequence(r.literalLength, r.matchLength, offset))
                         && Standing() == m.cells
                         && repeatOffsets.State()
                            == R.After(old(repeatOffsets.State()), r.offsetValue, r.literalLength))
    {
      hide PeekEnd, DropEnd, BytesToBits, WordFrom, FastBitReader.Valid, FastBitReader.Rest, Pow2, InStep, CellBase,
        CellBits, R.OffsetOf, R.After, OffsetRange, LiteralLengthRange, MatchLengthRange, FastSequenceTable.Expands,
        MoveStates, ReadRecord, ValidTables;
      var status := RefillStep(reader, rest, overran, 64);
      if status == Overflow {
        return Failed;
      }
      ghost var c := Standing();
      Logs(tables, t);
      EntryIs(tables.literalLength, t.ll, LiteralLengthRange, c.ll);
      EntryIs(tables.matchLength, t.ml, MatchLengthRange, c.ml);
      EntryIs(tables.offset, t.of, OffsetRange, c.of);
      OffsetBits(t.of.cells[c.of]);
      RecordParts(t, c, rest);
      var llEntry := tables.literalLength.entries[literalLengthState];
      var mlEntry := tables.matchLength.entries[matchLengthState];
      var ofEntry := tables.offset.entries[offsetState];
      ghost var r1 := DropEnd(rest, ofEntry.extraBits);
      ghost var r2 := DropEnd(r1, mlEntry.extraBits);
      ghost var literalLength := llEntry.baseValue + PeekEnd(r2, llEntry.extraBits);
      ghost var r3 := DropEnd(r2, llEntry.extraBits);
      ghost var o2 := ofEntry.extraBits > |rest| || mlEntry.extraBits > |r1|;
      ghost var o3 := o2 || llEntry.extraBits > |r2|;
      MoveOverran(t, c, r3, o3);
      ZeroBase(t.ll.cells[c.ll]);
      NoBits(r2);
      var ok, offset, matchLength := ReadOffsetAndMatch(ofEntry, mlEntry, llEntry.baseValue == 0, repeatOffsets, rest,
                                                        literalLength);
      if !ok {
        return Failed;
      }
      ghost var used := 7 + ofEntry.extraBits + mlEntry.extraBits;
      if ofEntry.extraBits + mlEntry.extraBits + llEntry.extraBits > 30 {
        status := RefillStep(reader, r2, o2, used);
        if status == Overflow {
          return Failed;
        }
        used := 7;
      }
      var literalExtra := ReadStep(reader, llEntry.extraBits, r2, o2, used);
      used := used + llEntry.extraBits;
      if sequencesLeft > 1 {
        MoveFast(llEntry, mlEntry, ofEntry, t, c, r3, o3, used);
      } else {
        UsedWidens(reader, r3, o3, used, 64);
      }
      sequencesLeft := sequencesLeft - 1;
      return Read(Sequence(llEntry.baseValue + literalExtra, matchLength, offset));
    }
  }

  lemma MoveOverran(t: Tables, c: Cells, rest: seq<bool>, overran: bool)
    requires ValidTables(t) && ValidCells(t, c)
    ensures overran ==> MoveStates(t, c, rest, overran).overran
  {
    hide DecodeStep, CellBits;
  }

  lemma OffsetBits(code: nat)
    ensures OffsetRange(code).bits == code
  {
  }

  lemma LargeRule(h: R.History, value: nat, literalLength: nat)
    requires value > 3
    ensures R.OffsetOf(h, value, literalLength) == value - 3
    ensures R.After(h, value, literalLength) == R.History(value - 3, h.first, h.second)
  {
  }

  lemma UsedWidens(reader: FastBitReader, rest: seq<bool>, overran: bool, used: nat, wider: nat)
    requires InStep(reader, rest, overran, used) && used <= wider
    ensures InStep(reader, rest, overran, wider)
  {
    hide BytesToBits, WordFrom;
  }

  lemma MoveIs(t: Tables, c: Cells, rest: seq<bool>, overran: bool)
    requires ValidTables(t) && ValidCells(t, c)
    ensures CellBits(t.ll, c.ll) <= 9 && CellBits(t.ml, c.ml) <= 9 && CellBits(t.of, c.of) <= 8
    ensures CellBase(t.ll, c.ll) + Pow2(CellBits(t.ll, c.ll)) <= |t.ll.cells|
    ensures CellBase(t.ml, c.ml) + Pow2(CellBits(t.ml, c.ml)) <= |t.ml.cells|
    ensures CellBase(t.of, c.of) + Pow2(CellBits(t.of, c.of)) <= |t.of.cells|
    ensures var r1 := DropEnd(rest, CellBits(t.ll, c.ll));
            var r2 := DropEnd(r1, CellBits(t.ml, c.ml));
            MoveStates(t, c, rest, overran)
            == Moved(Cells(CellBase(t.ll, c.ll) + PeekEnd(rest, CellBits(t.ll, c.ll)),
                           CellBase(t.of, c.of) + PeekEnd(r2, CellBits(t.of, c.of)),
                           CellBase(t.ml, c.ml) + PeekEnd(r1, CellBits(t.ml, c.ml))),
                     DropEnd(r2, CellBits(t.of, c.of)),
                     overran || CellBits(t.ll, c.ll) > |rest|
                     || CellBits(t.ml, c.ml) > |r1| || CellBits(t.of, c.of) > |r2|)
  {
    hide PeekEnd, DropEnd, CellBase, CellBits, Pow2;
  }

  lemma FirstRule(h: R.History, literalLength: nat)
    ensures R.OffsetOf(h, 1, literalLength) == if literalLength == 0 then h.second else h.first
    ensures R.After(h, 1, literalLength) == if literalLength == 0 then R.History(h.second, h.first, h.third) else h
  {
  }

  lemma NoDrop(rest: seq<bool>)
    ensures DropEnd(rest, 0) == rest
  {
  }

  lemma Dropped(rest: seq<bool>, n: nat)
    ensures n <= |rest| ==> |DropEnd(rest, n)| == |rest| - n
  {
  }

  lemma Logs(tables: FastSequenceTables, t: Tables)
    requires tables.Expand(t)
    ensures ValidTables(t) && t.ll.log <= 9 && t.of.log <= 8 && t.ml.log <= 9
    ensures tables.literalLength.accuracyLog == t.ll.log && tables.offset.accuracyLog == t.of.log
            && tables.matchLength.accuracyLog == t.ml.log
    ensures tables.literalLength.Expands(t.ll, LiteralLengthRange) && tables.offset.Expands(t.of, OffsetRange)
            && tables.matchLength.Expands(t.ml, MatchLengthRange)
  {
    hide ValidTans, CellBase, CellBits;
  }

  /** A window of 56 or more unread bits. */
  lemma StepStarts(reader: FastBitReader)
    requires reader.Valid() && reader.bitsConsumed <= 8
    ensures InStep(reader, reader.Rest(), false, 8) && |reader.Rest()| >= 56
  {
    hide BytesToBits, WordFrom;
  }

  lemma StepWidens(reader: FastBitReader, rest: seq<bool>, used: nat, wider: nat)
    requires InStep(reader, rest, false, used) && used <= wider
    ensures InStep(reader, rest, false, wider)
  {
    hide BytesToBits, WordFrom;
  }

  lemma OpenedIs(t: Tables, bits: seq<bool>)
    requires ValidTables(t)
    ensures var r1 := DropEnd(bits, t.ll.log);
            var r2 := DropEnd(r1, t.of.log);
            Opened(t, bits) == Moved(Cells(PeekEnd(bits, t.ll.log), PeekEnd(r1, t.of.log), PeekEnd(r2, t.ml.log)),
                                     DropEnd(r2, t.ml.log), t.ll.log > |bits| || t.of.log > |r1| || t.ml.log > |r2|)
  {
    hide PeekEnd, DropEnd, ValidTans;
  }

  // ---------------------------------------------------------------- execution with overshooting copies

  /** What the fast path may read past the literals: fifteen bytes after them. */
  ghost predicate Readable(source: LiteralSource, padding: seq<byte>, blockStart: nat, size: nat) {
    && !source.Rle? && |padding| >= 15 && Parked(source, blockStart, size)
    && (source.InOutput? ==> source.start + source.count + 15 <= size)
  }

  /** Sixteen bytes from the literals on; past them anything. */
  method LoadVector(source: LiteralSource, padding: seq<byte>, at: nat, output: array<byte>, ghost k: nat)
    returns (chunk: seq<byte>)
    requires Readable(source, padding, 0, output.Length) && at < SourceLength(source)
    requires k <= 16 && at + k <= SourceLength(source)
    ensures |chunk| == 16 && chunk[..k] == LiteralBytes(source, output[..])[at..at + k]
  {
    match source {
      case Bytes(bytes) =>
        chunk := (bytes + padding)[at..at + 16];
        assert chunk[..k] == bytes[at..at + k];
      case InOutput(start, count) =>
        chunk := output[start + at..start + at + 16];
        SliceOfSlice(output[..], start, start + count, at, at + k);
        assert chunk[..k] == output[..][start + at..start + at + k];
    }
  }

  lemma SliceGrows(bytes: seq<byte>, from: nat, middle: nat, to: nat)
    requires from <= middle <= to <= |bytes|
    ensures bytes[from..to] == bytes[from..middle] + bytes[middle..to]
  {
  }

  /** `copy_literals_unchecked`. */
  method CopyLiterals(source: LiteralSource, padding: seq<byte>, cursor: nat, length: nat, output: array<byte>,
                      position: nat, exact: bool)
    requires length > 0 && cursor + length <= SourceLength(source) && position + length <= output.Length
    requires Readable(source, padding, 0, output.Length)
    requires !exact ==> position + length + 15 <= output.Length
    requires source.InOutput? ==> position + length + 15 <= source.start
    modifies output
    ensures output[..position + length]
          == old(output[..position]) + LiteralBytes(source, old(output[..]))[cursor..cursor + length]
    ensures KeptOutside(old(output[..]), output[..], position, position + length + (if exact then 0 else 15))
  {
    if exact {
      var taken := LoadLiterals(source, cursor, cursor + length, output);
      StoreBytes(output, position, taken);
    } else {
      CopyLiteralVectors(source, padding, cursor, length, output, position);
    }
  }

  method CopyLiteralVectors(source: LiteralSource, padding: seq<byte>, cursor: nat, length: nat, output: array<byte>,
                            position: nat)
    requires length > 0 && cursor + length <= SourceLength(source) && position + length + 15 <= output.Length
    requires Readable(source, padding, 0, output.Length)
    requires source.InOutput? ==> position + length + 15 <= source.start
    modifies output
    ensures output[..position + length]
          == old(output[..position]) + LiteralBytes(source, old(output[..]))[cursor..cursor + length]
    ensures KeptOutside(old(output[..]), output[..], position, position + length + 15)
  {
    hide LiteralBytes, Parked, KeptOutside;
    ghost var first := output[..];
    ghost var bytes := LiteralBytes(source, first);
    var done: nat := 0;
    Unmoved(first, position, position + length + 15);
    assert output[..position] == first[..position] + bytes[cursor..cursor];
    while done < length
      invariant done <= length + 15
      invariant KeptOutside(first, output[..], position, position + length + 15)
      invariant done <= length ==> output[..position + done] == first[..position] + bytes[cursor..cursor + done]
      invariant done >= length ==> output[..position + length] == first[..position] + bytes[cursor..cursor + length]
    {
      CopyVector(source, padding, cursor, length, done, output, position, first);
      done := done + 16;
    }
  }

  /** One load and store of 16 bytes, of which the last may be too many. */
  method CopyVector(source: LiteralSource, padding: seq<byte>, cursor: nat, length: nat, done: nat, output: array<byte>,
                    position: nat, ghost first: seq<byte>)
    requires done < length && cursor + length <= SourceLength(source)
    requires position + length + 15 <= output.Length == |first|
    requires Readable(source, padding, 0, output.Length)
    requires source.InOutput? ==> position + length + 15 <= source.start
    requires KeptOutside(first, output[..], position, position + length + 15)
    requires output[..position + done] == first[..position] + LiteralBytes(source, first)[cursor..cursor + done]
    modifies output
    ensures KeptOutside(first, output[..], position, position + length + 15)
    ensures var k := if done + 16 <= length then 16 else length - done;
            output[..position + done + k] == first[..position] + LiteralBytes(source, first)[cursor..cursor + done + k]
  {
    hide LiteralBytes, Parked, KeptOutside;
    ghost var before, bytes := output[..], LiteralBytes(source, first);
    SameLiterals(source, first, before, position, position + length + 15);
    ghost var k := if done + 16 <= length then 16 else length - done;
    var chunk := LoadVector(source, padding, cursor + done, output, k);
    assert chunk[..k] == bytes[cursor + done..cursor + done + k];
    StoreBytes(output, position + done, chunk);
    StoredPart(before[..position + done], chunk, output[..position + done + 16], k);
    SliceGrows(bytes, cursor, cursor + done, cursor + done + k);
    assert output[..position + done + 16][..position + done + k] == output[..position + done + k];
    KeptInside(first, before, output[..], position, position + length + 15, position + done, position + done + 16);
  }

  lemma StoredPart(prefix: seq<byte>, chunk: seq<byte>, all: seq<byte>, k: nat)
    requires all == prefix + chunk && k <= |chunk|
    ensures all[..|prefix| + k] == prefix + chunk[..k]
  {
  }

  lemma KeptInside(first: seq<byte>, before: seq<byte>, after: seq<byte>, low: nat, high: nat, from: nat, to: nat)
    requires KeptOutside(first, before, low, high) && KeptOutside(before, after, from, to) && low <= from && to <= high
    ensures KeptOutside(first, after, low, high)
  {
  }

  lemma SameLiterals(source: LiteralSource, first: seq<byte>, before: seq<byte>, low: nat, high: nat)
    requires KeptOutside(first, before, low, high) && Parked(source, 0, |first|)
    requires source.InOutput? ==> high <= source.start
    ensures Parked(source, 0, |before|) && LiteralBytes(source, before) == LiteralBytes(source, first)
  {
  }

  /** `execute_sequence_unchecked`: all limits are checked before anything is written. */
  method ExecuteSequenceFast(source: LiteralSource, padding: seq<byte>, cursor: nat, sequence: Sequence,
                             output: array<byte>, position: nat, blockStart: nat)
    returns (ok: bool, newPosition: nat, newCursor: nat)
    requires Readable(source, padding, blockStart, output.Length) && cursor <= SourceLength(source)
    requires blockStart <= position <= output.Length
    modifies output
    ensures ok <==> && cursor + sequence.literalLength <= SourceLength(source)
                    && position + sequence.literalLength + sequence.matchLength - blockStart <= MAX_BLOCK_SIZE
                    && position + sequence.literalLength + sequence.matchLength <= output.Length
                    && 1 <= sequence.offset <= position + sequence.literalLength
    ensures ok ==> && newCursor == cursor + sequence.literalLength
                   && newPosition == position + sequence.literalLength + sequence.matchLength
                   && Parked(source, 0, output.Length)
                   && output[..newPosition] == CopyMatch(
                        old(output[..position]) + LiteralBytes(source, old(output[..]))[cursor..newCursor],
                        sequence.offset, sequence.matchLength)
                   && KeptOutside(old(output[..]), output[..], position, newPosition + 15)
  {
    hide CopyMatch, LiteralBytes, KeptOutside;
    ok, newPosition, newCursor := false, 0, cursor + sequence.literalLength;
    if newCursor > SourceLength(source) {
      return;
    }
    var afterPosition := position + sequence.literalLength + sequence.matchLength;
    if afterPosition - blockStart > MAX_BLOCK_SIZE {
      return;
    }
    if afterPosition > output.Length {
      return;
    }
    var exact := output.Length - afterPosition < FAST_PATH_SLACK;
    ghost var first := output[..];
    ghost var taken := LiteralBytes(source, first)[cursor..newCursor];
    var literalEnd := position + sequence.literalLength;
    Unmoved(first, position, afterPosition + 15);
    if sequence.literalLength > 0 {
      CopyLiterals(source, padding, cursor, sequence.literalLength, output, position, exact);
      KeptInside(first, first, output[..], position, literalEnd + 15, position, literalEnd + (if exact then 0 else 15));
    } else {
      assert output[..literalEnd] == first[..position] + taken;
      Unmoved(first, position, literalEnd + 15);
    }
    if sequence.offset == 0 || sequence.offset > literalEnd {
      return;
    }
    ghost var middle := output[..];
    if exact {
      var copied, _ := CopyMatchInto(output, literalEnd, sequence.offset, sequence.matchLength);
    } else if sequence.matchLength > 0 {
      CopyMatchOvershoot(output, literalEnd, sequence.offset, sequence.matchLength);
    } else {
      NoMatch(output[..literalEnd], sequence.offset);
      Unmoved(middle, literalEnd, afterPosition + 15);
    }
    KeptBoth(first, middle, output[..], position, literalEnd, literalEnd + 15, afterPosition + 15);
    return true, afterPosition, newCursor;
  }

  lemma KeptShort(before: seq<byte>, after: seq<byte>, low: nat, high: nat, higher: nat)
    requires KeptOutside(before, after, low, high) && high <= higher
    ensures KeptOutside(before, after, low, higher)
  {
  }

  lemma NoMatch(out: seq<byte>, offset: nat)
    requires 1 <= offset <= |out|
    ensures CopyMatch(out, offset, 0) == out
  {
  }

  lemma KeptBoth(first: seq<byte>, middle: seq<byte>, after: seq<byte>, low: nat, mid: nat, midHigh: nat, high: nat)
    requires KeptOutside(first, middle, low, midHigh) && KeptOutside(middle, after, mid, high) && low <= mid
    requires midHigh <= high
    ensures KeptOutside(first, after, low, high)
  {
  }

  // ---------------------------------------------------------------- the fast loop

  /** One sequence executed as the abstract machine does. */
  lemma FastIsExecute(env: Env, m: Machine, record: SequenceRecord, source: LiteralSource, output: array<byte>,
                      before: seq<byte>, position: nat, cursor: nat, blockStart: nat, offset: nat, newPosition: nat,
                      newCursor: nat)
    requires blockStart <= position <= |before| == output.Length && before[..position] == m.out
    requires Parked(source, blockStart, output.Length) && LiteralBytes(source, before) == env.literals
    requires cursor == m.cursor <= |env.literals| && env.start == blockStart && env.capacity == output.Length
    requires offset == R.OffsetOf(m.history, record.offsetValue, record.literalLength) > 0
    requires cursor + record.literalLength <= |env.literals| && offset <= position + record.literalLength
    requires position + record.literalLength + record.matchLength - blockStart <= MAX_BLOCK_SIZE
    requires newCursor == cursor + record.literalLength
    requires newPosition == position + record.literalLength + record.matchLength <= output.Length
    requires output[..newPosition]
           == CopyMatch(before[..position] + env.literals[cursor..newCursor], offset, record.matchLength)
    requires KeptOutside(before, output[..], position, newPosition + 15)
    ensures ExecuteOne(env, m, record).Some?
    ensures Matches(env, ExecuteOne(env, m, record).value, source, output, newPosition, newCursor, blockStart)
  {
    hide CopyMatch, R.OffsetOf, R.After, LiteralBytes, KeptOutside, Parked;
    StillParked(source, before, output[..], blockStart, position, newPosition + 15);
  }

  lemma ExecuteWhen(env: Env, m: Machine, record: SequenceRecord)
    ensures ExecuteOne(env, m, record).Some? <==>
              var offset := R.OffsetOf(m.history, record.offsetValue, record.literalLength);
              && m.cursor + record.literalLength <= |env.literals| && 1 <= offset <= |m.out| + record.literalLength
              && |m.out| + record.literalLength + record.matchLength <= env.capacity
              && |m.out| + record.literalLength + record.matchLength - env.start <= MAX_BLOCK_SIZE
  {
    hide CopyMatch, R.OffsetOf, R.After;
  }

  /** The loop's state: as the abstract run has it, or overdrawn in a run that has failed. */
  ghost predicate Tracks(t: Tables, whole: Option<(Machine, seq<bool>)>, stream: FastStream, rest: seq<bool>,
                         overran: bool, env: Env, m: Machine, source: LiteralSource, output: array<byte>, position: nat,
                         cursor: nat, blockStart: nat, history: R.History)
    reads stream, stream.reader, output
  {
    && ValidTables(t) && ValidCells(t, stream.Standing()) && InStep(stream.reader, rest, overran, 64)
    && (if overran then whole.None?
        else
          && Matches(env, m, source, output, position, cursor, blockStart) && m.history == history
          && whole == RunSection(t, stream.Standing(), rest, false, stream.sequencesLeft, env, m))
  }

  /** The fast execution; on a sequence that was really read it is the abstract machine's. */
  method ExecuteTracked(source: LiteralSource, padding: seq<byte>, cursor: nat, sequence: Sequence, output: array<byte>,
                        position: nat, blockStart: nat, ghost live: bool, ghost env: Env, ghost m: Machine,
                        ghost record: SequenceRecord)
    returns (ok: bool, newPosition: nat, newCursor: nat)
    requires Readable(source, padding, blockStart, output.Length) && cursor <= SourceLength(source)
    requires blockStart <= position <= output.Length
    requires live ==> Matches(env, m, source, output, position, cursor, blockStart) && sequence.offset > 0
                      && sequence == Sequence(record.literalLength, record.matchLength,
                                              R.OffsetOf(m.history, record.offsetValue, record.literalLength))
    modifies output
    ensures ok ==> newCursor <= SourceLength(source) && blockStart <= newPosition <= output.Length
                   && KeptOutside(old(output[..]), output[..], position, blockStart + MAX_BLOCK_SIZE + 15)
    ensures live ==> (ok <==> ExecuteOne(env, m, record).Some?)
    ensures live && ok ==>
              Matches(env, ExecuteOne(env, m, record).value, source, output, newPosition, newCursor, blockStart)
  {
    hide ExecuteOne, CopyMatch, KeptOutside, LiteralBytes, R.OffsetOf, R.After, Parked;
    ghost var before := output[..];
    ExecuteWhen(env, m, record);
    ok, newPosition, newCursor := ExecuteSequenceFast(source, padding, cursor, sequence, output, position, blockStart);
    if ok {
      KeptShort(before, output[..], position, newPosition + 15, blockStart + MAX_BLOCK_SIZE + 15);
      if live {
        FastIsExecute(env, m, record, source, output, before, position, cursor, blockStart, sequence.offset,
                      newPosition, newCursor);
      }
    }
  }

  /** One pass of the fast loop: it fails only in a run that fails. */
  method FastStep(stream: FastStream, tables: FastSequenceTables, repeatOffsets: R.RepeatOffsets, source: LiteralSource,
                  padding: seq<byte>, output: array<byte>, position: nat, cursor: nat, blockStart: nat, ghost t: Tables,
                  ghost whole: Option<(Machine, seq<bool>)>, ghost rest: seq<bool>, ghost overran: bool, ghost env: Env,
                  ghost m: Machine)
    returns (ok: bool, newPosition: nat, newCursor: nat, ghost rest': seq<bool>, ghost overran': bool,
             ghost m': Machine)
    requires tables.Expand(t) && OffsetsSmall(t) && stream.sequencesLeft > 0
    requires Readable(source, padding, blockStart, output.Length) && cursor <= SourceLength(source)
    requires blockStart <= position <= output.Length
    requires Tracks(t, whole, stream, rest, overran, env, m, source, output, position, cursor, blockStart,
                    repeatOffsets.State())
    modifies stream, stream.reader, repeatOffsets, output
    ensures !ok ==> whole.None?
    ensures ok ==> && stream.sequencesLeft == old(stream.sequencesLeft) - 1 && newCursor <= SourceLength(source)
                   && blockStart <= newPosition <= output.Length
                   && Tracks(t, whole, stream, rest', overran', env, m', source, output, newPosition, newCursor,
                             blockStart, repeatOffsets.State())
    ensures ok ==> KeptOutside(old(output[..]), output[..], position, blockStart + MAX_BLOCK_SIZE + 15)
  {
    hide RunSection, ReadRecord, MoveStates, ExecuteOne, InStep, CopyMatch, KeptOutside, LiteralBytes, R.OffsetOf,
      R.After, FastSequenceTables.Expand, OffsetsSmall, ValidTables, Parked, Matches, Readable, ValidCells;
    ghost var c, left := stream.Standing(), stream.sequencesLeft;
    newPosition, newCursor, rest', overran', m' := 0, 0, rest, overran, m;
    if !overran {
      RunOne(t, c, rest, overran, left, env, m);
    }
    ok := false;
    var next := stream.DecodeOneSequence(tables, repeatOffsets, t, rest, overran);
    ghost var reading := ReadRecord(t, c, rest, false);
    ghost var r := SequenceRecord(0, 0, 0);
    if !overran {
      r := reading.value.record;
      ZeroOffsetFails(env, m, r);
      ghost var moved := AfterReading(t, c, reading.value, left);
      rest', overran' := moved.rest, moved.overran;
      if ExecuteOne(env, m, r).Some? {
        m' := ExecuteOne(env, m, r).value;
      }
    }
    if next == Failed {
      return;
    }
    ok, newPosition, newCursor := ExecuteTracked(source, padding, cursor, next.sequence, output, position, blockStart,
                                                 !overran', env, m, r);
  }

  /** The last literals. */
  method FinishFast(source: LiteralSource, padding: seq<byte>, cursor: nat, output: array<byte>, position: nat,
                    blockStart: nat, ghost env: Env, ghost m: Machine)
    returns (ok: bool, newPosition: nat)
    requires Matches(env, m, source, output, position, cursor, blockStart)
    requires Readable(source, padding, blockStart, output.Length)
    modifies output
    ensures ok <==> TakeRest(env, m).Some?
    ensures ok ==> newPosition <= output.Length && output[..newPosition] == TakeRest(env, m).value.out
    ensures ok ==> KeptOutside(old(output[..]), output[..], position, blockStart + MAX_BLOCK_SIZE + 15)
  {
    hide LiteralBytes, KeptOutside;
    ghost var before := output[..];
    Unmoved(before, position, blockStart + MAX_BLOCK_SIZE + 15);
    ok, newPosition := true, position;
    var count := SourceLength(source);
    if cursor < count {
      var remaining := count - cursor;
      newPosition := position + remaining;
      if newPosition - blockStart > MAX_BLOCK_SIZE {
        return false, 0;
      }
      if newPosition > output.Length {
        return false, 0;
      }
      CopyLiterals(source, padding, cursor, remaining, output, position, output.Length - newPosition < FAST_PATH_SLACK);
      KeptShort(before, output[..], position,
                newPosition + (if output.Length - newPosition < FAST_PATH_SLACK then 0 else 15),
                blockStart + MAX_BLOCK_SIZE + 15);
      assert env.literals[cursor..|env.literals|] == env.literals[cursor..];
    }
  }

  /** `decode_sequences_unchecked`: `Ok` exactly when the checked loop is, with the same bytes, end
      position and repeat offsets. */
  method DecodeSequencesFast(bitstream: seq<byte>, tables: FastSequenceTables, sequenceCount: nat,
                             source: LiteralSource, padding: seq<byte>, output: array<byte>, outputPosition: nat,
                             repeatOffsets: R.RepeatOffsets, ghost t: Tables, ghost env: Env, ghost m: Machine)
    returns (ok: bool, newPosition: nat)
    requires |bitstream| >= 8 && sequenceCount > 0 && tables.Expand(t) && OffsetsSmall(t)
    requires Readable(source, padding, outputPosition, output.Length)
    requires Matches(env, m, source, output, outputPosition, 0, outputPosition) && m.history == repeatOffsets.State()
    modifies output, repeatOffsets
    ensures ok <==> Section(t, bitstream, sequenceCount, env, m).Some?
    ensures ok ==> var r := Section(t, bitstream, sequenceCount, env, m).value;
                   && newPosition <= output.Length && output[..newPosition] == r.out
                   && repeatOffsets.State() == r.history
    ensures ok ==> KeptOutside(old(output[..]), output[..], outputPosition, outputPosition + MAX_BLOCK_SIZE + 15)
  {
    hide *;
    FastTablesValid(tables, t);
    MatchesCursor(env, m, source, output, outputPosition, 0, outputPosition);
    SectionParts(t, bitstream, sequenceCount, env, m);
    MarkedWhen(bitstream);
    if bitstream[|bitstream| - 1] == 0 {
      return false, 0;
    }
    var reader := new FastBitReader(bitstream);
    ghost var first := Opened(t, reader.Rest());
    var stream := new FastStream(reader, tables, sequenceCount, t);
    ghost var rest, overran, machine := first.rest, false, m;
    ghost var whole := RunSection(t, first.cells, first.rest, first.overran, sequenceCount, env, m);
    var position: nat, cursor: nat := outputPosition, 0;
    TracksStart(t, whole, stream, rest, env, m, source, output, outputPosition, repeatOffsets.State());
    BlockLimit();
    ghost var before, limit := output[..], outputPosition + MAX_BLOCK_SIZE + 15;
    Unmoved(before, outputPosition, limit);
    while stream.sequencesLeft > 0
      modifies output, repeatOffsets, stream, reader
      invariant KeptOutside(before, output[..], outputPosition, limit)
      invariant tables.Expand(t) && cursor <= SourceLength(source) && outputPosition <= position <= output.Length
      invariant Tracks(t, whole, stream, rest, overran, env, machine, source, output, position, cursor, outputPosition,
                       repeatOffsets.State())
      decreases stream.sequencesLeft
    {
      ghost var middle := output[..];
      var stepped, newPosition', newCursor, rest', overran', machine' :=
        FastStep(stream, tables, repeatOffsets, source, padding, output, position, cursor, outputPosition, t, whole,
                 rest, overran, env, machine);
      if !stepped {
        return false, 0;
      }
      KeptWider(before, middle, output[..], outputPosition, limit, position);
      position, cursor := newPosition', newCursor;
      rest, overran, machine := rest', overran', machine';
    }
    TracksEnd(t, whole, stream, rest, overran, env, machine, source, output, position, cursor, outputPosition,
              repeatOffsets.State());
    if !reader.IsFinished() {
      return false, 0;
    }
    ghost var middle := output[..];
    ok, newPosition := FinishFast(source, padding, cursor, output, position, outputPosition, env, machine);
    if ok {
      KeptWider(before, middle, output[..], outputPosition, limit, position);
    }
  }

  lemma FastTablesValid(tables: FastSequenceTables, t: Tables)
    requires tables.Expand(t)
    ensures ValidTables(t)
  {
    hide ValidTables;
  }

  lemma MarkedWhen(stream: seq<byte>)
    requires stream != []
    ensures MarkedBits(stream).Some? <==> stream[|stream| - 1] != 0
  {
  }

  lemma TracksStart(t: Tables, whole: Option<(Machine, seq<bool>)>, stream: FastStream, rest: seq<bool>, env: Env,
                    m: Machine, source: LiteralSource, output: array<byte>, position: nat, history: R.History)
    requires ValidTables(t) && ValidCells(t, stream.Standing()) && InStep(stream.reader, rest, false, 64)
    requires Matches(env, m, source, output, position, 0, position) && m.history == history
    requires whole == RunSection(t, stream.Standing(), rest, false, stream.sequencesLeft, env, m)
    ensures Tracks(t, whole, stream, rest, false, env, m, source, output, position, 0, position, history)
    ensures position <= output.Length
  {
    hide ValidTables, ValidCells, InStep, RunSection;
  }

  lemma TracksEnd(t: Tables, whole: Option<(Machine, seq<bool>)>, stream: FastStream, rest: seq<bool>, overran: bool,
                  env: Env, m: Machine, source: LiteralSource, output: array<byte>, position: nat, cursor: nat,
                  blockStart: nat, history: R.History)
    requires Tracks(t, whole, stream, rest, overran, env, m, source, output, position, cursor, blockStart, history)
    requires stream.sequencesLeft == 0
    ensures stream.reader.Valid()
    ensures !stream.reader.IsFinished() ==> whole.None? || whole.value.1 != []
    ensures stream.reader.IsFinished() ==>
              && !overran && whole == Some((m, [])) && m.history == history
              && Matches(env, m, source, output, position, cursor, blockStart)
  {
    hide ValidTables, ValidCells, ReadRecord, AfterReading, ExecuteOne, Matches;
  }

  /** `decode_sequences_section` once its tables are read: the fast path where the stream has eight
      bytes and the literals can be read past their end, else the checked loop. `after` is what
      follows the literals in their buffer. */
  method DecodeSequences(bitstream: seq<byte>, tables: SequenceTables, fastTables: FastSequenceTables,
                         sequenceCount: nat, source: LiteralSource, after: seq<byte>, output: array<byte>,
                         outputPosition: nat, repeatOffsets: R.RepeatOffsets, ghost t: Tables, ghost env: Env,
                         ghost m: Machine)
    returns (ok: bool, newPosition: nat)
    requires sequenceCount > 0 && tables.Decode(t) && fastTables.CleanIsCurrent(t) && OffsetsSmall(t)
    requires source.InOutput? ==> source.start + source.count + 15 <= output.Length
    requires Matches(env, m, source, output, outputPosition, 0, outputPosition) && m.history == repeatOffsets.State()
    modifies output, repeatOffsets, fastTables, fastTables.literalLength, fastTables.offset, fastTables.matchLength
    ensures ok <==> Section(t, bitstream, sequenceCount, env, m).Some?
    ensures ok ==> var r := Section(t, bitstream, sequenceCount, env, m).value;
                   && newPosition <= output.Length && output[..newPosition] == r.out
                   && repeatOffsets.State() == r.history
    ensures ok ==> KeptOutside(old(output[..]), output[..], outputPosition, outputPosition + MAX_BLOCK_SIZE + 15)
    ensures fastTables.CleanIsCurrent(t)
  {
    hide Section, KeptOutside, OffsetsSmall, SequenceTables.Decode, FastSequenceTables.CleanIsCurrent,
      FastSequenceTables.Expand, LiteralBytes;
    fastTables.BuildAll(tables, t);
    if |bitstream| >= 8 && (source.InOutput? || (source.Bytes? && |after| >= 16)) {
      ok, newPosition := DecodeSequencesFast(bitstream, fastTables, sequenceCount, source,
                                             if source.InOutput? then seq(16, _ => 0) else after, output,
                                             outputPosition, repeatOffsets, t, env, m);
    } else {
      ok, newPosition := DecodeSequencesChecked(bitstream, tables, sequenceCount, source, output, outputPosition,
                                                repeatOffsets, t, env, m);
    }
  }
}
