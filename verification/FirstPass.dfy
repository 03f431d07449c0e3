/** What the missing flush of the sequence writer costs. Nothing is flushed between the last
    record's extra bits and the first state bits; when exactly the stream survives that is stated for
    all records. For two records that the section writer sends with the default tables they exceed
    the container, three bits are lost, and the decoder rejects the section. */
module FirstPass {
  import opened Bits
  import opened BitReader
  import opened BitWriter
  import opened FseSpread
  import opened Fse
  import opened FseTables
  import opened SequenceCodes
  import opened SequenceBits
  import opened SequenceExecution
  import opened SequencesSection
  import opened SequencesWriter

  // ---------------------------------------------------------------- when the stream written is the records' stream

  /** The last record's extra bits and the state bits of the first pass: the first bits of the stream. */
  ghost function FirstPassBits(t: Tables, records: seq<SequenceRecord>): seq<bool>
    requires ValidTables(t) && CoversAll(t, records) && |records| >= 2
  {
    hide *;
    var n := |records|;
    LastEncoded(t, records);
    EncodeSuffix(t, records, n - 2);
    CoveredIsValid(t, records[n - 1]);
    StateSteps(t, FirstCells(t, records[n - 1]), records[n - 2], Extras(records[n - 1])).1
  }

  lemma StepsExtend(t: Tables, c: Cells, r: SequenceRecord, stream: seq<bool>)
    requires ValidTables(t) && ValidCells(t, c) && Covers(t, r)
    ensures stream <= StateSteps(t, c, r, stream).1
  {
    hide StateSteps, Covers, ValidTables, StepBits;
    StepsAppend(t, c, r, stream, stream);
    assert Overlaid(stream, stream) == stream;
    var more := StateSteps(t, c, r, stream).1;
    assert more == stream + more[|stream|..];
  }

  lemma {:induction false} FirstPassFirst(t: Tables, records: seq<SequenceRecord>, k: nat)
    requires ValidTables(t) && CoversAll(t, records) && k + 2 <= |records|
    ensures CoversAll(t, records[k..]) && FirstPassBits(t, records) <= EncodeRecords(t, records[k..]).1
    decreases |records| - k
  {
    hide StateSteps, Extras, ValidTables, Covers, EncodeRecords, FirstCells;
    EncodeSuffix(t, records, k);
    LastEncoded(t, records);
    if k + 2 < |records| {
      FirstPassFirst(t, records, k + 1);
      var (c, stream) := EncodeRecords(t, records[k + 1..]);
      StepsExtend(t, c, records[k], stream);
    }
  }

  lemma HeadLength(t: Tables, records: seq<SequenceRecord>, before: seq<byte>)
    requires ValidTables(t) && CoversAll(t, records)
    ensures FirstPassFits(t, records) ==> Head(t, records, before) == []
    ensures !FirstPassFits(t, records) ==> |records| >= 2 && |Head(t, records, before)| == |FirstPassBits(t, records)|
  {
    hide StateSteps, Extras, ValidTables, Covers, FirstCells, StepWord, StoredWord, FromBits, Pow2, FirstPassFits,
      StepBits;
    if !FirstPassFits(t, records) {
      Overflows(t, records);
      var n := |records|;
      StepsAppend(t, FirstCells(t, records[n - 1]), records[n - 2], Extras(records[n - 1]), []);
    }
  }

  lemma StatesAppended(t: Tables, c: Cells, stream: seq<bool>)
    ensures stream <= FlushState(t.ll, c.ll, FlushState(t.of, c.of, FlushState(t.ml, c.ml, stream)))
  {
    hide ToBits;
  }

  lemma OverlaidSame(stream: seq<bool>, head: seq<bool>, first: seq<bool>)
    requires first <= stream && |head| == |first|
    ensures Overlaid(stream, head) == stream <==> head == first
  {
    var overlaid := Overlaid(stream, head);
    assert overlaid[..|head|] == head && stream[..|head|] == first;
    assert stream == first + stream[|head|..];
  }

  /** Exactly when the stream written is the records' stream: the first pass fits, or what the
      over-full container leaves of its bits happens to be those bits. */
  lemma StreamKept(t: Tables, records: seq<SequenceRecord>, before: seq<byte>)
    requires ValidTables(t) && CoversAll(t, records) && |records| >= 2
    ensures StreamWritten(t, records, before) == WholeStream(t, records)
       <==> FirstPassFits(t, records) || Head(t, records, before) == FirstPassBits(t, records)
  {
    hide StateSteps, Extras, ValidTables, Covers, FirstCells, Head, FirstPassFits, FirstPassBits, EncodeRecords,
      Overlaid, FlushState;
    var whole, head := WholeStream(t, records), Head(t, records, before);
    HeadLength(t, records, before);
    FirstPassFirst(t, records, 0);
    assert records[0..] == records;
    var (c, stream) := EncodeRecords(t, records);
    StatesAppended(t, c, stream);
    if FirstPassFits(t, records) {
      OverlaidSame(whole, [], []);
    } else {
      OverlaidSame(whole, head, FirstPassBits(t, records));
    }
  }

  // ---------------------------------------------------------------- what an over-full container leaves

  /** A field that does not fit: the container takes the bits it has room for. */
  lemma AddPastTop(word: nat, used: nat, value: nat, count: nat)
    requires word < Pow2(used) && used < 64 && word < Pow2(64)
    ensures var kept := Min(count, 64 - used);
            && AddedWord(word, used, value, count) < Pow2(used + kept)
            && ToBits(AddedWord(word, used, value, count), used + kept)
               == ToBits(word, used) + ToBits(value, count)[..kept]
  {
    hide *;
    var kept := Min(count, 64 - used);
    KeptBits(count, used);
    ToBitsConcat(value, kept, count - kept);
    assert ToBits(value, count)[..kept] == ToBits(value, kept);
    AddedIs(word, used, value, count);
    if kept < count {
      Shl64Def(LowBits(value, count), used);
      Shl64Def(LowBits(value, kept), used);
      MaskedShift(LowBits(value, count), 64, used);
      MaskedShift(LowBits(value, kept), 64, used);
      LowLow(value, count, kept);
      LowLow(value, kept, kept);
    }
    ContainerAdd(word, used, value, kept);
  }

  lemma KeptBits(count: nat, used: nat)
    requires used < 64
    ensures var kept := Min(count, 64 - used);
            kept <= count && used + kept <= 64 && (kept < count ==> used + kept == 64)
  {
  }

  lemma AddedIs(word: nat, used: nat, value: nat, count: nat)
    requires word < Pow2(64) && used < 64
    ensures AddedWord(word, used, value, count) == Or(word, Shl64(LowBits(value, count), used))
  {
    hide Pow2, Or, Shl64, LowBits;
  }

  /** When only the literal-length state does not fit, the container holds the first 64 bits. */
  lemma StepsPastTop(t: Tables, c: Cells, r: SequenceRecord, stream: seq<bool>)
    requires ValidTables(t) && ValidCells(t, c) && Covers(t, r)
    requires |stream| + EncodeBits(t.of, c.of, OffsetCode(r.offsetValue).code)
             + EncodeBits(t.ml, c.ml, MatchLengthCode(r.matchLength).code) < 64 < |stream| + StepBits(t, c, r)
    ensures FromBits(stream) < Pow2(64) && |StateSteps(t, c, r, stream).1| == |stream| + StepBits(t, c, r)
    ensures ToBits(StepWord(t, c, r, FromBits(stream), |stream|), 64) == StateSteps(t, c, r, stream).1[..64]
  {
    hide ToBits, FromBits, EncodeBits, EncodeNext, Count, LiteralLengthCode, MatchLengthCode, OffsetCode, Pow2,
      AddedWord, ValidTans;
    var of := EncodeBits(t.of, c.of, OffsetCode(r.offsetValue).code);
    var ml := EncodeBits(t.ml, c.ml, MatchLengthCode(r.matchLength).code);
    var ll := EncodeBits(t.ll, c.ll, LiteralLengthCode(r.literalLength).code);
    var n, word := |stream|, FromBits(stream);
    Pow2Mono(n, 64);
    ToFromBits(stream);
    AddPastTop(word, n, Pow2(t.of.log) + c.of, of);
    var w1 := AddedWord(word, n, Pow2(t.of.log) + c.of, of);
    AddPastTop(w1, n + of, Pow2(t.ml.log) + c.ml, ml);
    var w2 := AddedWord(w1, n + of, Pow2(t.ml.log) + c.ml, ml);
    AddPastTop(w2, n + of + ml, Pow2(t.ll.log) + c.ll, ll);
    var kept := 64 - (n + of + ml);
    var ofBits, mlBits, llBits := ToBits(Pow2(t.of.log) + c.of,
                                         of), ToBits(Pow2(t.ml.log) + c.ml, ml), ToBits(Pow2(t.ll.log) + c.ll, ll);
    assert ofBits[..of] == ofBits && mlBits[..ml] == mlBits;
    assert StateSteps(t, c, r, stream).1 == stream + ofBits + mlBits + llBits;
    assert (stream + ofBits + mlBits + llBits)[..64] == stream + ofBits + mlBits + llBits[..kept];
  }

  /** Then the bits past the 64th come back as zeros, as far as the same byte. */
  lemma HeadIs(t: Tables, records: seq<SequenceRecord>, before: seq<byte>)
    requires ValidTables(t) && CoversAll(t, records) && !FirstPassFits(t, records)
    requires OnlyLastStepPast(t, records)
    ensures |records| >= 2 && 64 < |FirstPassBits(t, records)| < 72
    ensures Head(t, records, before) == FirstPassBits(t, records)[..64] + Zeros(|FirstPassBits(t, records)| - 64)
  {
    hide StateSteps, Extras, ValidTables, Covers, FirstCells, StepWord, FromBits, Pow2, FirstPassFits, StepBits, ToBits,
      EncodeBits, LiteralLengthCode, MatchLengthCode, OffsetCode, BytesToBits;
    Overflows(t, records);
    var n := |records|;
    var last, c := Extras(records[n - 1]), FirstCells(t, records[n - 1]);
    StepsPastTop(t, c, records[n - 2], last);
    var total := |last| + StepBits(t, c, records[n - 2]);
    var word := StepWord(t, c, records[n - 2], FromBits(last), |last|);
    assert Head(t, records, before) == StoredWord(word, total, before);
    assert total / 8 == 8 && total % 8 == total - 64;
    NothingPassed(before);
    assert StoredWord(word, total, before) == ToBits(word, 64) + [] + Zeros(total - 64);
  }

  lemma NothingPassed(before: seq<byte>)
    ensures PassedOver(before, 8, 8) == []
  {
  }

  /** The extra bits, the offset's and the match length's state bits fit with room to spare, and what
      does not fit of the literal length's is less than a byte. */
  ghost predicate OnlyLastStepPast(t: Tables, records: seq<SequenceRecord>)
    requires ValidTables(t) && CoversAll(t, records)
  {
    |records| >= 2 &&
    var n := |records|;
    var early, last := records[n - 2], records[n - 1];
    var c := FirstCells(t, last);
    && |Extras(last)| + EncodeBits(t.of, c.of, OffsetCode(early.offsetValue).code)
       + EncodeBits(t.ml, c.ml, MatchLengthCode(early.matchLength).code) < 64
    && |Extras(last)| + StepBits(t, c, early) < 72
  }

  /** So there the stream survives exactly if the bits that fall out are zeros anyway. */
  lemma StreamKeptWhere(t: Tables, records: seq<SequenceRecord>, before: seq<byte>)
    requires ValidTables(t) && CoversAll(t, records) && !FirstPassFits(t, records) && OnlyLastStepPast(t, records)
    ensures |records| >= 2 && 64 < |FirstPassBits(t, records)|
    ensures StreamWritten(t, records, before) == WholeStream(t, records)
       <==> FirstPassBits(t, records)[64..] == Zeros(|FirstPassBits(t, records)| - 64)
  {
    hide FirstPassFits, FirstPassBits, Head, StreamWritten, WholeStream, ValidTables, CoversAll, OnlyLastStepPast;
    HeadIs(t, records, before);
    StreamKept(t, records, before);
    var first := FirstPassBits(t, records);
    assert first == first[..64] + first[64..];
    assert (first[..64] + Zeros(|first| - 64))[64..] == Zeros(|first| - 64);
  }

  // ---------------------------------------------------------------- rare symbols

  /** A symbol with a single cell costs all the state's bits. */
  lemma RareCostsAll(t: Tans, c: nat, s: nat)
    requires ValidTans(t) && c < |t.cells| && Count(t, s) == 1
    ensures EncodeBits(t, c, s) == t.log
  {
    hide Count, Shl, Shr, LowBits, Pow2, BitsOut;
    ShlPow2(0, t.log);
    Pow2Zero();
    SplitUnique(c, 1, t.log);
    BitsOutUnique(Pow2(t.log) + c, 1, t.log);
  }

  lemma {:induction false} RepeatedPositive(counts: seq<int>, s: nat)
    requires s in Repeated(counts)
    ensures s < |counts| && counts[s] > 0
  {
    var last := |counts| - 1;
    if s in Repeated(counts[..last]) {
      RepeatedPositive(counts[..last], s);
    }
  }

  lemma {:induction false} LowProbabilityFew(counts: seq<int>)
    ensures |LowProbability(counts)| <= |counts|
  {
    if counts != [] {
      LowProbabilityFew(counts[..|counts| - 1]);
    }
  }

  /** Symbols of low probability own no cell below the top ones. */
  lemma RareCellsHigh(counts: seq<int>, log: nat, c: nat)
    requires ValidCounts(counts, log) && !Stuck(log) && c < Pow2(log)
    requires SpreadCells(counts, log)[c] < |counts| && counts[SpreadCells(counts, log)[c]] == -1
    ensures c + |counts| >= Pow2(log)
  {
    hide Repeated, LowProbability, LowCells, EffectiveSum, Pow2;
    SymbolListLengths(counts);
    LowProbabilityFew(counts);
    var free := |Repeated(counts)|;
    if c < free {
      StepOdd(log);
      FullCycle(log, free);
      RepeatedPositive(counts, SpreadCells(counts, log)[c]);
    }
  }

  // ---------------------------------------------------------------- two records of one block

  const EARLY := SequenceRecord(13, 3, 4)
  const LAST := SequenceRecord(65536, 32771, 524288)

  lemma RecordCodes()
    ensures ValidRecord(EARLY) && ValidRecord(LAST)
    ensures LiteralLengthCode(13).code == 13 && MatchLengthCode(3).code == 0 && OffsetCode(4).code == 2
    ensures LiteralLengthCode(65536).code == 35 && MatchLengthCode(32771).code == 51 && OffsetCode(524288).code == 19
  {
    hide HighestBit, Pow2;
    SmallPowers();
    LargePowers();
    assert Pow2(19) == 524288 && Pow2(20) == 1048576 by { BigPowers(); }
    HighestBitUnique(4, 2);
    HighestBitUnique(65536, 16);
    HighestBitUnique(32768, 15);
    HighestBitUnique(524288, 19);
  }

  lemma BigPowers()
    ensures Pow2(19) == 524288 && Pow2(20) == 1048576
  {
    LargePowers();
    assert Pow2(17) == 131072;
  }

  lemma LastRanges()
    ensures LiteralLengthRange(35).bits == 16 && MatchLengthRange(51).bits == 15
    ensures LiteralLengthRange(13).bits == 0 && MatchLengthRange(0).bits == 0
  {
  }

  lemma DefaultCounts()
    ensures PredefinedCounts(LiteralLengths)[13] == 1 && PredefinedCounts(LiteralLengths)[35] == -1
    ensures |PredefinedCounts(LiteralLengths)| == 36
    ensures PredefinedCounts(Offsets)[2] == 1 && PredefinedCounts(Offsets)[19] == 1 && |PredefinedCounts(Offsets)| == 29
    ensures PredefinedCounts(MatchLengths)[0] == 1 && PredefinedCounts(MatchLengths)[51] == -1
    ensures |PredefinedCounts(MatchLengths)| == 53
  {
  }

  /** The default tables, and how often they have the codes of the two records. */
  lemma DefaultTablesAre()
    ensures var t := DefaultTables();
            && ValidTables(t) && t.ll.log == 6 && t.of.log == 5 && t.ml.log == 6
            && Count(t.ll, 13) == 1 && Count(t.ll, 35) == 1 && Count(t.of, 2) == 1 && Count(t.of, 19) == 1
            && Count(t.ml, 0) == 1 && Count(t.ml, 51) == 1
    ensures forall c :: 0 <= c < |DefaultTables().ll.cells| ==>
              && DefaultTables().ll.cells[c] < 36 && (DefaultTables().ll.cells[c] == 35 ==> c >= 28)
  {
    DefaultCounts();
    hide PredefinedCounts, EffectiveSum, Count, SpreadCells;
    PredefinedValid(LiteralLengths);
    PredefinedValid(Offsets);
    PredefinedValid(MatchLengths);
    var counts := PredefinedCounts(LiteralLengths);
    SpreadGivesCounts(counts, 6);
    assert Pow2(6) == 64;
    forall c | 0 <= c < |DefaultTables().ll.cells|
      ensures DefaultTables().ll.cells[c] < 36 && (DefaultTables().ll.cells[c] == 35 ==> c >= 28)
    {
      if SpreadCells(counts, 6)[c] == 35 {
        RareCellsHigh(counts, 6, c);
      }
    }
  }

  lemma Covered()
    ensures ValidTables(DefaultTables()) && CoversAll(DefaultTables(), [EARLY, LAST])
    ensures Covers(DefaultTables(), EARLY) && Covers(DefaultTables(), LAST)
  {
    hide LiteralLengthCode, MatchLengthCode, OffsetCode, Count, ValidTans, ValidRecord, DefaultTables;
    RecordCodes();
    DefaultTablesAre();
  }

  /** The last record's 50 extra bits and the first 17 state bits do not fit 64. */
  lemma FirstPassOverflows()
    ensures ValidTables(DefaultTables()) && CoversAll(DefaultTables(), [EARLY, LAST])
    ensures !FirstPassFits(DefaultTables(), [EARLY, LAST])
    ensures ValidRecord(LAST) && ValidRecord(EARLY) && |Extras(LAST)| == 50 && |Extras(EARLY)| == 2
    ensures Covers(DefaultTables(), EARLY) && Covers(DefaultTables(), LAST)
    ensures StepBits(DefaultTables(), FirstCells(DefaultTables(), LAST), EARLY) == 17
    ensures EARLY.literalLength + EARLY.matchLength + LAST.literalLength + LAST.matchLength <= 131072
  {
    hide LiteralLengthCode, MatchLengthCode, OffsetCode, Count, ValidTans, ValidRecord, DefaultTables, Extras,
      EncodeBits, FirstCell, Covers, LiteralLengthRange, MatchLengthRange;
    var t := DefaultTables();
    Covered();
    RecordCodes();
    DefaultTablesAre();
    LastRanges();
    ExtrasLength(LAST);
    ExtrasLength(EARLY);
    var c := FirstCells(t, LAST);
    assert ValidCells(t, c);
    StepsAre(t, c);
  }

  lemma StepsAre(t: Tables, c: Cells)
    requires ValidTables(t) && ValidCells(t, c) && Covers(t, EARLY) && t.ll.log == 6 && t.of.log == 5 && t.ml.log == 6
    requires Count(t.ll, 13) == 1 && Count(t.of, 2) == 1 && Count(t.ml, 0) == 1
    ensures LiteralLengthCode(13).code == 13 && MatchLengthCode(3).code == 0 && OffsetCode(4).code == 2
    ensures EncodeBits(t.of, c.of, 2) == 5 && EncodeBits(t.ml, c.ml, 0) == 6 && EncodeBits(t.ll, c.ll, 13) == 6
    ensures StepBits(t, c, EARLY) == 17
  {
    hide LiteralLengthCode, MatchLengthCode, OffsetCode, Count, EncodeBits;
    RecordCodes();
    RareCostsAll(t.of, c.of, 2);
    RareCostsAll(t.ml, c.ml, 0);
    RareCostsAll(t.ll, c.ll, 13);
  }

  // ---------------------------------------------------------------- what the writer leaves

  /** The stream up to its first flush ends with the six bits of the last record's first
      literal-length cell. */
  lemma FirstBits()
    ensures var t, records := DefaultTables(), [EARLY, LAST];
            && ValidTables(t) && CoversAll(t, records) && Covers(t, LAST) && Covers(t, EARLY) && ValidRecord(LAST)
            && ValidRecord(EARLY)
            && var c := FirstCells(t, LAST);
            && var more := StateSteps(t, c, EARLY, Extras(LAST)).1;
            && |more| == 67 && more[61..67] == ToBits(c.ll, 6) && 28 <= c.ll < 64
            && |WholeStream(t, records)| == 86 && WholeStream(t, records)[..67] == more
  {
    FirstPassOverflows();
    DefaultTablesAre();
    RecordCodes();
    var t, records := DefaultTables(), [EARLY, LAST];
    hide LiteralLengthCode, MatchLengthCode, OffsetCode, Count, ValidTans, ValidRecord, DefaultTables, Extras,
      EncodeBits, EncodeNext, FirstCell, Covers, Pow2, ToBits;
    var c := FirstCells(t, LAST);
    StepsAre(t, c);
    FirstOf(t);
    var of, ml, ll := ToBits(Pow2(5) + c.of, 5), ToBits(Pow2(6) + c.ml, 6), ToBits(Pow2(6) + c.ll, 6);
    var more := StateSteps(t, c, EARLY, Extras(LAST)).1;
    assert more == Extras(LAST) + of + ml + ll;
    StateBits(t.ll, c.ll);
    assert records[1..] == [LAST];
    LastEncoded(t, [LAST]);
    assert [LAST][0..] == [LAST];
    var d := StateSteps(t, c, EARLY, Extras(LAST)).0;
    assert EncodeRecords(t, records) == (d, more + Extras(EARLY));
    assert WholeStream(t, records) == more + Extras(EARLY) + ToBits(d.ml, 6) + ToBits(d.of, 5) + ToBits(d.ll, 6);
  }

  lemma FirstOf(t: Tables)
    requires t == DefaultTables() && ValidTables(t) && Covers(t, LAST) && LiteralLengthCode(65536).code == 35
    ensures 28 <= FirstCells(t, LAST).ll < 64
  {
    hide Count, DefaultTables, LiteralLengthCode, OffsetCode, MatchLengthCode;
    DefaultTablesAre();
    assert Pow2(6) == 64;
  }

  /** The three highest of those bits fall out of the container and come back as zeros. */
  lemma LostBits(past: seq<byte>)
    ensures var t, records := DefaultTables(), [EARLY, LAST];
            && ValidTables(t) && CoversAll(t, records)
            && |Head(t, records, past)| == 67 && Head(t, records, past)[64..67] == Zeros(3)
  {
    FirstPassOverflows();
    hide FirstPassFits, Extras, StepBits, FirstCells, StepWord, ToBits, Covers, ValidTables, FromBits, Pow2,
      DefaultTables, BytesToBits;
    var t, records := DefaultTables(), [EARLY, LAST];
    Overflows(t, records);
    var word := StepWord(t, FirstCells(t, LAST), EARLY, FromBits(Extras(LAST)), |Extras(LAST)|);
    assert Head(t, records, past) == StoredWord(word, 67, past);
    assert PassedOver(past, 8, 67 / 8) == [];
    assert 67 % 8 == 3;
    assert StoredWord(word, 67, past) == ToBits(word, 64) + [] + Zeros(3);
  }

  lemma HighBits(c: nat)
    requires 8 <= c < 64
    ensures ToBits(c, 6)[3..] != Zeros(3)
  {
    assert Pow2(6) == 64 && Pow2(3) == 8;
    hide Shr, LowBits, ToBits, Pow2;
    ToBitsConcat(c, 3, 3);
    assert ToBits(c, 6)[3..] == ToBits(Shr(c, 3), 3);
    if ToBits(c, 6)[3..] == Zeros(3) {
      ToBitsZero(3);
      FromToBits(Shr(c, 3), 3);
      ShrBound(c, 6, 3);
      LowBitsId(Shr(c, 3), 3);
      SplitBits(c, 3);
      ShlZero(3);
    }
  }

  /** Whatever the output held before, what is written is not the stream of these records. */
  lemma StreamDamaged(past: seq<byte>)
    ensures ValidTables(DefaultTables()) && CoversAll(DefaultTables(), [EARLY, LAST])
    ensures StreamWritten(DefaultTables(), [EARLY, LAST], past) != WholeStream(DefaultTables(), [EARLY, LAST])
  {
    hide *;
    var t, records := DefaultTables(), [EARLY, LAST];
    FirstBits();
    LostBits(past);
    var c := FirstCells(t, LAST);
    HighBits(c.ll);
    DamagedAt(t, records, past, StateSteps(t, c, EARLY, Extras(LAST)).1, c.ll);
  }

  lemma DamagedAt(t: Tables, records: seq<SequenceRecord>, past: seq<byte>, more: seq<bool>, c: nat)
    requires ValidTables(t) && records != [] && CoversAll(t, records)
    requires |more| == 67 && more[61..67] == ToBits(c, 6) && ToBits(c, 6)[3..] != Zeros(3)
    requires |WholeStream(t, records)| == 86 && WholeStream(t, records)[..67] == more
    requires |Head(t, records, past)| == 67 && Head(t, records, past)[64..67] == Zeros(3)
    ensures StreamWritten(t, records, past) != WholeStream(t, records)
  {
    hide WholeStream, Head, ToBits, CoversAll, ValidTables;
    assert StreamWritten(t, records, past)[64..67] == Head(t, records, past)[64..67];
    assert WholeStream(t, records)[64..67] == more[64..67] == ToBits(c, 6)[3..];
  }

  // ---------------------------------------------------------------- what the decoder reads

  lemma {:induction false} OtherLengths(code: nat)
    requires code < 35
    ensures LiteralLengthRange(code).base + Pow2(LiteralLengthRange(code).bits) <= 65536
  {
    SmallPowers();
    LargePowers();
    assert Pow2(0) == 1;
  }

  /** What three state flushes leave on top is read first. */
  lemma StatesRead(t: Tables, d: Cells, stream: seq<bool>)
    requires ValidTables(t) && ValidCells(t, d)
    ensures var whole := FlushState(t.ll, d.ll, FlushState(t.of, d.of, FlushState(t.ml, d.ml, stream)));
            var (ll, r1) := ReadState(t.ll, whole);
            var (of, r2) := ReadState(t.of, r1);
            var (ml, r3) := ReadState(t.ml, r2);
            Cells(ll, of, ml) == d && r3 == stream
  {
    hide ReadState, FlushState, ValidTans;
    StateReadBack(t.ml, d.ml, stream);
    StateReadBack(t.of, d.of, FlushState(t.ml, d.ml, stream));
    StateReadBack(t.ll, d.ll, FlushState(t.of, d.of, FlushState(t.ml, d.ml, stream)));
  }

  /** The written stream is the head, the early record's extra bits and the three final states. */
  lemma WrittenParts(past: seq<byte>) returns (d: Cells, head: seq<bool>)
    ensures var t, records := DefaultTables(), [EARLY, LAST];
            && ValidTables(t) && CoversAll(t, records) && ValidRecord(EARLY) && ValidRecord(LAST) && Covers(t, LAST)
            && Covers(t, EARLY)
            && d == StateSteps(t, FirstCells(t, LAST), EARLY, Extras(LAST)).0 && ValidCells(t, d)
            && head == Head(t, records, past) && |head| == 67 && head[64..67] == Zeros(3)
            && StreamWritten(t, records, past)
               == FlushState(t.ll, d.ll, FlushState(t.of, d.of, FlushState(t.ml, d.ml, head + Extras(EARLY))))
  {
    hide *;
    var t, records := DefaultTables(), [EARLY, LAST];
    FirstBits();
    LostBits(past);
    CoveredIsValid(t, EARLY);
    head := Head(t, records, past);
    var c := FirstCells(t, LAST);
    var more := StateSteps(t, c, EARLY, Extras(LAST)).1;
    d := StateSteps(t, c, EARLY, Extras(LAST)).0;
    TwoEncoded(t);
    StreamGrows(t, records, d, more + Extras(EARLY), head);
    AllOverlaid(more, Extras(EARLY), head);
    WrittenIs(t, records, past);
  }

  lemma TwoEncoded(t: Tables)
    requires ValidTables(t) && CoversAll(t, [EARLY, LAST]) && Covers(t, LAST) && Covers(t, EARLY) && ValidRecord(EARLY)
    requires ValidRecord(LAST)
    ensures var (d, more) := StateSteps(t, FirstCells(t, LAST), EARLY, Extras(LAST));
            EncodeRecords(t, [EARLY, LAST]) == (d, more + Extras(EARLY))
  {
    hide StateSteps, FirstCells, Extras, Covers, ValidTables;
    var records := [EARLY, LAST];
    assert records[1..] == [LAST];
    LastEncoded(t, [LAST]);
    assert [LAST][0..] == [LAST];
  }

  lemma AllOverlaid(stream: seq<bool>, more: seq<bool>, head: seq<bool>)
    requires |head| == |stream|
    ensures Overlaid(stream + more, head) == head + more && |head| <= |stream + more|
  {
  }

  /** The literal-length state lands on a cell below 8, which does not have the code of the last
      record's length. */
  lemma WrongCell(t: Tables, c: Cells, d: Cells, head: seq<bool>)
    requires t == DefaultTables() && ValidTables(t) && ValidCells(t, c) && Covers(t, EARLY) && Count(t.ll, 13) == 1
    requires t.ll.log == 6
    requires d == StateSteps(t, c, EARLY, []).0 && ValidCells(t, d) && LiteralLengthCode(13).code == 13
    requires |head| == 67 && head[64..67] == Zeros(3)
    ensures MoveStates(t, d, head, false).cells.ll < 8
  {
    hide Count, EncodeNext, EncodeBits, CellBits, CellBase, LowBits, PeekEnd, DropEnd, DefaultTables, LiteralLengthCode,
      OffsetCode, MatchLengthCode, FromBits, Pow2, ValidTans;
    EncodeStepUndone(t.ll, c.ll, 13);
    RareCostsAll(t.ll, c.ll, 13);
    BaseIsZero(t.ll, c.ll);
    PeekSix(head);
  }

  /** Reading all six bits starts from cell 0. */
  lemma BaseIsZero(t: Tans, c: nat)
    requires ValidTans(t) && t.log == 6 && c < |t.cells|
    ensures LowBits(Pow2(6) + c, 6) == c
  {
    hide LowBits, Pow2, Shl;
    ShlPow2(0, 6);
    Pow2Zero();
    SplitUnique(c, 1, 6);
  }

  lemma PeekSix(head: seq<bool>)
    requires |head| == 67 && head[64..67] == Zeros(3)
    ensures PeekEnd(head, 6) < 8
  {
    assert Pow2(3) == 8;
    hide FromBits, Pow2, Shl;
    assert head[61..67] == head[61..64] + head[64..67];
    assert head[|head| - 6..] == head[61..67];
    FromBitsConcat(head[61..64], head[64..67]);
    ToBitsZero(3);
    ShlZero(3);
  }

  /** As the decoder reads: three states, then `n` records. */
  ghost function ReadBack(t: Tables, stream: seq<bool>, n: nat): Option<(seq<SequenceRecord>, seq<bool>)>
    requires ValidTables(t)
  {
    hide ValidTans, DecodeRecords, ReadState;
    var (ll, r1) := ReadState(t.ll, stream);
    var (of, r2) := ReadState(t.of, r1);
    var (ml, r3) := ReadState(t.ml, r2);
    DecodeRecords(t, Cells(ll, of, ml), r3, n)
  }

  /** The written stream does not give the records back. */
  lemma RecordsMisread(past: seq<byte>)
    ensures ValidTables(DefaultTables()) && CoversAll(DefaultTables(), [EARLY, LAST])
    ensures ReadBack(DefaultTables(), StreamWritten(DefaultTables(), [EARLY, LAST], past),
                     2) != Some(([EARLY, LAST], []))
  {
    hide *;
    var t := DefaultTables();
    var d, head := WrittenParts(past);
    FlushedReadBack(t, d, head + Extras(EARLY));
    var c := FirstCells(t, LAST);
    EarlyReadBack(t, c, d, head);
    RecordCodes();
    DefaultTablesAre();
    CellsOnly(t, c, EARLY, Extras(LAST), []);
    WrongCell(t, c, d, head);
    var m := MoveStates(t, d, head, false);
    LowCell(t, m.cells);
    SecondMisread(t, d, head, m);
  }

  lemma FlushedReadBack(t: Tables, d: Cells, stream: seq<bool>)
    requires ValidTables(t) && ValidCells(t, d)
    ensures ReadBack(t, FlushState(t.ll, d.ll, FlushState(t.of, d.of, FlushState(t.ml, d.ml, stream))), 2)
          == DecodeRecords(t, d, stream, 2)
  {
    hide ReadState, DecodeRecords, FlushState, ValidTans;
    StatesRead(t, d, stream);
  }

  lemma CellsOnly(t: Tables, c: Cells, r: SequenceRecord, a: seq<bool>, b: seq<bool>)
    requires ValidTables(t) && ValidCells(t, c) && Covers(t, r)
    ensures StateSteps(t, c, r, a).0 == StateSteps(t, c, r, b).0
  {
    hide EncodeBits, EncodeNext, Count, LiteralLengthCode, OffsetCode, MatchLengthCode, ToBits;
  }

  lemma EarlyReadBack(t: Tables, c: Cells, d: Cells, head: seq<bool>)
    requires ValidTables(t) && ValidCells(t, c) && Covers(t, EARLY) && ValidRecord(EARLY) && Covers(t, LAST)
    requires c == FirstCells(t, LAST)
    requires ValidRecord(LAST) && d == StateSteps(t, c, EARLY, Extras(LAST)).0 && ValidCells(t, d)
    ensures ReadRecord(t, d, head + Extras(EARLY), false) == Some(Reading(EARLY, head, false))
  {
    hide *;
    StepsUndone(t, c, EARLY, Extras(LAST));
    RecordReadBack(t, d, EARLY, head);
  }

  lemma LowCell(t: Tables, c: Cells)
    requires t == DefaultTables() && ValidCells(t, c) && c.ll < 8
    ensures t.ll.cells[c.ll] < 35
  {
    hide DefaultTables, Count;
    DefaultTablesAre();
  }

  lemma SecondMisread(t: Tables, d: Cells, head: seq<bool>, m: Moved)
    requires ValidTables(t) && ValidCells(t, d) && m == MoveStates(t, d, head, false) && ValidCells(t, m.cells)
    requires ReadRecord(t, d, head + Extras(EARLY), false) == Some(Reading(EARLY, head, false)) && ValidRecord(EARLY)
    requires t.ll.cells[m.cells.ll] < 35
    ensures DecodeRecords(t, d, head + Extras(EARLY), 2) != Some(([EARLY, LAST], []))
  {
    hide Extras, MoveStates, ValidTables, PeekEnd, DropEnd, Pow2, LiteralLengthRange, MatchLengthRange, ValidRecord;
    OtherLengths(t.ll.cells[m.cells.ll]);
    OneDecoded(t, m.cells, m.rest);
    var r, tail := DecodeRecords(t, d, head + Extras(EARLY), 2), DecodeRecords(t, m.cells, m.rest, 1);
    if r.Some? {
      assert r.value.0 == [EARLY] + tail.value.0;
      assert r.value.0[1] == tail.value.0[0];
    }
  }

  lemma OneDecoded(t: Tables, c: Cells, rest: seq<bool>)
    requires ValidTables(t) && ValidCells(t, c)
    requires LiteralLengthRange(t.ll.cells[c.ll]).base + Pow2(LiteralLengthRange(t.ll.cells[c.ll]).bits) <= 65536
    ensures var r := DecodeRecords(t, c, rest, 1);
            r.Some? ==> |r.value.0| == 1 && r.value.0[0].literalLength < 65536
  {
    hide ValidTables, PeekEnd, DropEnd, Pow2, LiteralLengthRange, MatchLengthRange;
  }

  // ---------------------------------------------------------------- what the decoder makes of it

  lemma OnlyLengthPast()
    ensures ValidTables(DefaultTables()) && CoversAll(DefaultTables(), [EARLY, LAST])
    ensures !FirstPassFits(DefaultTables(), [EARLY, LAST]) && OnlyLastStepPast(DefaultTables(), [EARLY, LAST])
  {
    FirstPassOverflows();
    DefaultTablesAre();
    var t := DefaultTables();
    hide LiteralLengthCode, MatchLengthCode, OffsetCode, Count, ValidTans, ValidRecord, DefaultTables, Extras,
      EncodeBits, FirstCell, Covers, FirstPassFits;
    StepsAre(t, FirstCells(t, LAST));
  }

  /** All bits but the highest of the literal-length state are those of the stream. */
  lemma RestKept(past: seq<byte>)
    ensures var t, records := DefaultTables(), [EARLY, LAST];
            && ValidTables(t) && CoversAll(t, records) && Covers(t, LAST) && Covers(t, EARLY) && ValidRecord(LAST)
            && |Head(t, records, past)| == 67
            && var more := StateSteps(t, FirstCells(t, LAST), EARLY, Extras(LAST)).1;
            |more| == 67 && Head(t, records, past)[..61] == more[..61]
  {
    hide *;
    var t, records := DefaultTables(), [EARLY, LAST];
    FirstBits();
    OnlyLengthPast();
    HeadIs(t, records, past);
    TwoFirst(t);
    var first := FirstPassBits(t, records);
    assert (first[..64] + Zeros(3))[..61] == first[..61];
  }

  lemma TwoFirst(t: Tables)
    requires ValidTables(t) && CoversAll(t, [EARLY, LAST]) && Covers(t, LAST) && Covers(t, EARLY) && ValidRecord(LAST)
    ensures FirstPassBits(t, [EARLY, LAST]) == StateSteps(t, FirstCells(t, LAST), EARLY, Extras(LAST)).1
  {
    hide StateSteps, FirstCells, Extras, Covers, ValidTables;
  }

  /** So the other two states, and where the extra bits start, are right. */
  lemma OthersRight(t: Tables, c: Cells, d: Cells, more: seq<bool>, head: seq<bool>)
    requires ValidTables(t) && ValidCells(t, c) && ValidCells(t, d) && Covers(t, EARLY) && ValidRecord(LAST)
    requires Count(t.ll, 13) == 1 && t.ll.log == 6 && LiteralLengthCode(13).code == 13
    requires (d, more) == StateSteps(t, c, EARLY, Extras(LAST))
    requires |head| == |more| == 67 && head[..61] == more[..61]
    ensures var m := MoveStates(t, d, head, false);
            m.cells.of == c.of && m.cells.ml == c.ml && m.rest == Extras(LAST)
  {
    hide Count, EncodeNext, EncodeBits, CellBits, CellBase, LowBits, PeekEnd, LiteralLengthCode, OffsetCode,
      MatchLengthCode, ValidTans, Extras, ValidRecord;
    StepsUndone(t, c, EARLY, Extras(LAST));
    EncodeStepUndone(t.ll, c.ll, 13);
    RareCostsAll(t.ll, c.ll, 13);
    assert CellBits(t.ll, d.ll) == 6;
    assert DropEnd(head, 6) == head[..61] && DropEnd(more, 6) == more[..61];
  }

  /** A shorter literal length leaves extra bits unread. */
  lemma BitsLeftOver(t: Tables, c: Cells, rest: seq<bool>, overran: bool)
    requires ValidCells(t, c) && |rest| == 50
    requires t.of.cells[c.of] == 19 && t.ml.cells[c.ml] == 51 && t.ll.cells[c.ll] < 35
    ensures ReadRecord(t, c, rest, overran).Some? && ReadRecord(t, c, rest, overran).value.rest != []
  {
    hide PeekEnd, Pow2;
    LastRanges();
    ShortLengths(t.ll.cells[c.ll]);
  }

  lemma ShortLengths(code: nat)
    requires code < 35
    ensures LiteralLengthRange(code).bits <= 15
  {
  }

  /** Two records decoded, bits left: no section. */
  lemma RunRejected(t: Tables, d: Cells, stream: seq<bool>, head: seq<bool>, env: Env, m: Machine)
    requires ValidTables(t) && ValidCells(t, d) && m.cursor <= |env.literals|
    requires ReadRecord(t, d, stream, false) == Some(Reading(EARLY, head, false))
    requires var moved := MoveStates(t, d, head, false);
             && ReadRecord(t, moved.cells, moved.rest, false).Some?
             && ReadRecord(t, moved.cells, moved.rest, false).value.rest != []
    ensures var run := RunSection(t, d, stream, false, 2, env, m);
            run.None? || run.value.1 != []
  {
    hide ReadRecord, MoveStates, ExecuteOne, ValidTables;
    RunOne(t, d, stream, false, 2, env, m);
    var moved := MoveStates(t, d, head, false);
    var next := ExecuteOne(env, m, EARLY);
    if !moved.overran && next.Some? {
      RunOne(t, moved.cells, moved.rest, false, 1, env, next.value);
    }
  }

  /** For every block and output: a section with this stream means nothing, the decoder rejects it. */
  lemma SectionRejected(bytes: seq<byte>, past: seq<byte>, env: Env, m: Machine)
    requires ValidTables(DefaultTables()) && CoversAll(DefaultTables(), [EARLY, LAST]) && m.cursor <= |env.literals|
    requires MarkedBits(bytes) == Some(StreamWritten(DefaultTables(), [EARLY, LAST], past))
    ensures Section(DefaultTables(), bytes, 2, env, m).None?
  {
    hide *;
    var t := DefaultTables();
    var d, head := WrittenParts(past);
    var stream := head + Extras(EARLY);
    var c := FirstCells(t, LAST);
    RestKept(past);
    EarlyReadBack(t, c, d, head);
    RecordCodes();
    DefaultTablesAre();
    FirstPassOverflows();
    CellsOnly(t, c, EARLY, Extras(LAST), []);
    WrongCell(t, c, d, head);
    OthersRight(t, c, d, StateSteps(t, c, EARLY, Extras(LAST)).1, head);
    var moved := MoveStates(t, d, head, false);
    LowCell(t, moved.cells);
    LastCells(t, c);
    BitsLeftOver(t, moved.cells, moved.rest, false);
    RunRejected(t, d, stream, head, env, m);
    OpenedAt(t, d, stream);
    SectionParts(t, bytes, 2, env, m);
  }

  lemma LastCells(t: Tables, c: Cells)
    requires ValidTables(t) && Covers(t, LAST) && c == FirstCells(t, LAST)
    requires OffsetCode(524288).code == 19 && MatchLengthCode(32771).code == 51
    ensures ValidCells(t, c) && t.of.cells[c.of] == 19 && t.ml.cells[c.ml] == 51
  {
    hide LiteralLengthCode, MatchLengthCode, OffsetCode, Count;
  }

  /** The initial states are there and are those that were flushed. */
  lemma OpenedAt(t: Tables, d: Cells, stream: seq<bool>)
    requires ValidTables(t) && ValidCells(t, d)
    ensures Opened(t, FlushState(t.ll, d.ll, FlushState(t.of, d.of, FlushState(t.ml, d.ml, stream))))
          == Moved(d, stream, false)
  {
    hide *;
    StatesRead(t, d, stream);
    FlushedLength(t, d, stream);
    var bits := FlushState(t.ll, d.ll, FlushState(t.of, d.of, FlushState(t.ml, d.ml, stream)));
    StatesThere(t, bits);
    OpenedIs(t, bits);
  }

  lemma FlushedLength(t: Tables, d: Cells, stream: seq<bool>)
    ensures |FlushState(t.ll, d.ll, FlushState(t.of, d.of, FlushState(t.ml, d.ml, stream)))|
         == |stream| + t.ml.log + t.of.log + t.ll.log
  {
    hide ToBits;
  }

  lemma OpenedIs(t: Tables, bits: seq<bool>)
    requires ValidTables(t)
    ensures var (ll, r1) := ReadState(t.ll, bits);
            var (of, r2) := ReadState(t.of, r1);
            var (ml, r3) := ReadState(t.ml, r2);
            Opened(t, bits).cells == Cells(ll, of, ml) && Opened(t, bits).rest == r3
  {
    hide ReadState;
  }

  // ---------------------------------------------------------------- the writers at these records

  lemma ServedByDefaults()
    ensures DefaultsServe([EARLY, LAST])
  {
    hide LiteralLengthCode, MatchLengthCode, OffsetCode, PredefinedCounts, ValidRecord;
    RecordCodes();
    DefaultCounts();
    var records := [EARLY, LAST];
    assert CodeFor(LiteralLengths, records[0]) < CodeFor(LiteralLengths, records[1]);
    assert CodeFor(Offsets, records[0]) < CodeFor(Offsets, records[1]);
    assert CodeFor(MatchLengths, records[0]) < CodeFor(MatchLengths, records[1]);
  }

  /** The stream writer, with the default tables, in any output of eleven bytes or more: Ok, past the
      budget, and not the stream of the records. */
  method WriteDamaged(output: array<byte>) returns (ok: bool, size: nat)
    requires output.Length >= 11
    modifies output
    ensures ok && size <= output.Length && ValidTables(DefaultTables()) && CoversAll(DefaultTables(), [EARLY, LAST])
    ensures MarkedBits(output[..size]).Some?
    ensures MarkedBits(output[..size]).value != WholeStream(DefaultTables(), [EARLY, LAST])
    ensures ReadBack(DefaultTables(), MarkedBits(output[..size]).value, 2) != Some(([EARLY, LAST], []))
  {
    hide *;
    var ll := BuildDefault(LiteralLengths);
    var of := BuildDefault(Offsets);
    var ml := BuildDefault(MatchLengths);
    ghost var t, past := DefaultTables(), output[..];
    DefaultsAre(t);
    var tables := new SequenceEncodeTables(ll, of, ml);
    TablesEncode(tables, t);
    FirstPassOverflows();
    FirstBits();
    StreamDamaged(past);
    RecordsMisread(past);
    ghost var within;
    ok, size, within := WriteOneStream([EARLY, LAST], tables, output, t);
  }

  method BuildDefault(kind: TableKind) returns (table: FseEncodeTable)
    ensures fresh(table) && table.Encodes(PredefinedTans(kind))
  {
    hide ValidCounts, PredefinedCounts, TansOf, FseEncodeTable.Encodes, FseEncodeTable.MarksAbsent;
    PredefinedValid(kind);
    table := new FseEncodeTable();
    var ok := table.Build(PredefinedCounts(kind), PredefinedLog(kind));
  }

  /** The section writer, on its quick path, at any table state: it picks the default tables, and the
      stream in its section is not the stream of the records. */
  method WriteDamagedSection(capacity: nat, previous: EncodeTables, estimates: TableKind -> Estimates,
                             ghost held: HeldTables)
    returns (bytes: Option<seq<byte>>, e: EncodeTables, ghost k: nat)
    requires EncodersHold(previous, held)
    ensures ValidTables(DefaultTables()) && CoversAll(DefaultTables(), [EARLY, LAST])
    ensures capacity >= 13 ==> bytes.Some?
    ensures bytes.Some? ==> && Announces(bytes.value, 2, DefaultTables(), held, k) && k <= |bytes.value|
                            && MarkedBits(bytes.value[k..]).Some?
                            && MarkedBits(bytes.value[k..]).value != WholeStream(DefaultTables(), [EARLY, LAST])
                            && ReadBack(DefaultTables(), MarkedBits(bytes.value[k..]).value,
                                        2) != Some(([EARLY, LAST], []))
  {
    hide *;
    ghost var t;
    ServedByDefaults();
    FirstPassOverflows();
    Small();
    FirstBits();
    RoomFor(capacity);
    bytes, e, t := WriteSequences([EARLY, LAST], capacity, previous, true, estimates, held);
    k := 0;
    if bytes.Some? {
      ghost var past;
      k, past := HoldsAt(bytes.value, [EARLY, LAST], t, held);
      StreamDamaged(past);
      RecordsMisread(past);
    }
  }

  lemma RoomFor(capacity: nat)
    requires ValidTables(DefaultTables()) && CoversAll(DefaultTables(), [EARLY, LAST]) && DefaultsServe([EARLY, LAST])
    requires |WholeStream(DefaultTables(), [EARLY, LAST])| == 86
    ensures capacity >= 13 ==> RoomWithDefaults([EARLY, LAST], capacity)
  {
    hide DefaultTables, ValidTables, CoversAll, WholeStream, DefaultsServe;
  }

  lemma Small()
    ensures 2 <= MAX_BLOCK_SIZE
  {
  }
}
