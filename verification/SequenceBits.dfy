/** The sequence bitstream (section 3.1.1.3.2.1.2 of RFC 8878): three interleaved state machines and
    the extra bits between their steps, written from the last record to the first. */
module SequenceBits {
  import opened Bits
  import opened BitReader
  import opened BitWriter
  import opened Fse
  import opened FseSpread
  import opened FseTables
  import opened SequenceCodes

  datatype SequenceRecord = SequenceRecord(literalLength: nat, matchLength: nat, offsetValue: nat)

  predicate ValidRecord(r: SequenceRecord) {
    && r.literalLength <= MAX_LITERAL_LENGTH && MIN_MATCH_LENGTH <= r.matchLength <= MAX_MATCH_LENGTH
    && 1 <= r.offsetValue < 0x1_0000_0000
  }

  /** The three tables, as cell sequences: literal lengths, offsets, match lengths. */
  datatype Tables = Tables(ll: Tans, of: Tans, ml: Tans)

  datatype Cells = Cells(ll: nat, of: nat, ml: nat)

  ghost predicate ValidTables(t: Tables) {
    ValidTans(t.ll) && ValidTans(t.of) && ValidTans(t.ml) && t.ll.log <= 9 && t.of.log <= 8 && t.ml.log <= 9
  }

  ghost predicate ValidCells(t: Tables, c: Cells) {
    c.ll < |t.ll.cells| && c.of < |t.of.cells| && c.ml < |t.ml.cells|
  }

  /** Every record's three codes have cells. */
  ghost predicate Covers(t: Tables, r: SequenceRecord) {
    && ValidRecord(r)
    && Count(t.ll, LiteralLengthCode(r.literalLength).code) > 0
    && Count(t.of, OffsetCode(r.offsetValue).code) > 0
    && Count(t.ml, MatchLengthCode(r.matchLength).code) > 0
  }

  ghost predicate CoversAll(t: Tables, records: seq<SequenceRecord>) {
    forall i :: 0 <= i < |records| ==> Covers(t, records[i])
  }

  // ---------------------------------------------------------------- the stream as a list of bits

  /** Extra bits: literal length, match length, offset. */
  ghost function Extras(r: SequenceRecord): seq<bool>
    requires ValidRecord(r)
  {
    var ll, ml, of := LiteralLengthCode(r.literalLength), MatchLengthCode(r.matchLength), OffsetCode(r.offsetValue);
    ToBits(ll.extra, LiteralLengthRange(ll.code).bits) + ToBits(ml.extra, MatchLengthRange(ml.code).bits)
    + ToBits(of.extra, of.code)
  }

  /** The cells the last record starts from. */
  ghost function FirstCells(t: Tables, r: SequenceRecord): (c: Cells)
    requires Covers(t, r)
    ensures ValidCells(t, c)
  {
    Cells(FirstCell(t.ll, LiteralLengthCode(r.literalLength).code),
          FirstCell(t.of, OffsetCode(r.offsetValue).code),
          FirstCell(t.ml, MatchLengthCode(r.matchLength).code))
  }

  /** The three state steps before a record: offset, match length, literal length. */
  ghost function StateSteps(t: Tables, c: Cells, r: SequenceRecord, stream: seq<bool>): (result: (Cells, seq<bool>))
    requires ValidTables(t) && ValidCells(t, c) && Covers(t, r)
    ensures ValidCells(t, result.0)
  {
    var (of, s1) := EncodeStep(t.of, c.of, OffsetCode(r.offsetValue).code, stream);
    var (ml, s2) := EncodeStep(t.ml, c.ml, MatchLengthCode(r.matchLength).code, s1);
    var (ll, s3) := EncodeStep(t.ll, c.ll, LiteralLengthCode(r.literalLength).code, s2);
    (Cells(ll, of, ml), s3)
  }

  ghost function EncodeRecords(t: Tables, records: seq<SequenceRecord>): (result: (Cells, seq<bool>))
    requires ValidTables(t) && records != [] && CoversAll(t, records)
    ensures ValidCells(t, result.0)
  {
    if |records| == 1 then (FirstCells(t, records[0]), Extras(records[0]))
    else
      var (c, stream) := EncodeRecords(t, records[1..]);
      var (d, more) := StateSteps(t, c, records[0], stream);
      (d, more + Extras(records[0]))
  }

  /** The whole stream: at its end the three states, as the decoder reads them first. */
  ghost function WholeStream(t: Tables, records: seq<SequenceRecord>): seq<bool>
    requires ValidTables(t) && records != [] && CoversAll(t, records)
  {
    var (c, stream) := EncodeRecords(t, records);
    FlushState(t.ll, c.ll, FlushState(t.of, c.of, FlushState(t.ml, c.ml, stream)))
  }

  // ---------------------------------------------------------------- reading one record

  /** Values read from the end, whether or not enough bits are left, and the bits then left. */
  datatype Reading = Reading(record: SequenceRecord, rest: seq<bool>, overran: bool)

  /** The record the three cells and the next extra bits describe; `None` for an offset code past 31. */
  ghost function ReadRecord(t: Tables, c: Cells, rest: seq<bool>, overran: bool): Option<Reading>
    requires ValidCells(t, c)
  {
    var code := t.of.cells[c.of];
    if code > 31 then None
    else
      var ml, ll := MatchLengthRange(t.ml.cells[c.ml]), LiteralLengthRange(t.ll.cells[c.ll]);
      var r1 := DropEnd(rest, code);
      var r2 := DropEnd(r1, ml.bits);
      var r3 := DropEnd(r2, ll.bits);
      Some(Reading(SequenceRecord(ll.base + PeekEnd(r2, ll.bits), ml.base + PeekEnd(r1, ml.bits),
                                  Pow2(code) + PeekEnd(rest, code)),
                   r3, overran || code > |rest| || ml.bits > |r1| || ll.bits > |r2|))
  }

  datatype Moved = Moved(cells: Cells, rest: seq<bool>, overran: bool)

  /** The three states read their next cells: literal length, match length, offset. */
  ghost function MoveStates(t: Tables, c: Cells, rest: seq<bool>, overran: bool): (m: Moved)
    requires ValidTables(t) && ValidCells(t, c)
    ensures ValidCells(t, m.cells)
  {
    var (ll, r1) := DecodeStep(t.ll, c.ll, rest);
    var (ml, r2) := DecodeStep(t.ml, c.ml, r1);
    var (of, r3) := DecodeStep(t.of, c.of, r2);
    Moved(Cells(ll, of, ml), r3,
          overran || CellBits(t.ll, c.ll) > |rest| || CellBits(t.ml, c.ml) > |r1| || CellBits(t.of, c.of) > |r2|)
  }

  /** `n` records: `None` on a bad offset code or an overrun, else the records and what is left. */
  ghost function DecodeRecords(t: Tables, c: Cells, rest: seq<bool>, n: nat): Option<(seq<SequenceRecord>, seq<bool>)>
    requires ValidTables(t) && ValidCells(t, c)
    decreases n
  {
    if n == 0 then Some(([], rest))
    else
      var reading := ReadRecord(t, c, rest, false);
      if reading.None? then None
      else
        var m := if n > 1 then MoveStates(t, c, reading.value.rest, reading.value.overran)
                 else Moved(c, reading.value.rest, reading.value.overran);
        if m.overran then None
        else
          var tail := DecodeRecords(t, m.cells, m.rest, n - 1);
          if tail.None? then None else Some(([reading.value.record] + tail.value.0, tail.value.1))
  }

  // ---------------------------------------------------------------- round trip

  /** The extra bits of a record, read back by its own cells. */
  lemma RecordReadBack(t: Tables, c: Cells, r: SequenceRecord, stream: seq<bool>)
    requires ValidCells(t, c) && ValidRecord(r)
    requires t.ll.cells[c.ll] == LiteralLengthCode(r.literalLength).code
    requires t.of.cells[c.of] == OffsetCode(r.offsetValue).code
    requires t.ml.cells[c.ml] == MatchLengthCode(r.matchLength).code
    ensures ReadRecord(t, c, stream + Extras(r), false) == Some(Reading(r, stream, false))
  {
    hide ToBits, PeekEnd, DropEnd, LowBits, LiteralLengthCode, MatchLengthCode, OffsetCode, LiteralLengthRange,
      MatchLengthRange, Pow2;
    var ll, ml, of := LiteralLengthCode(r.literalLength), MatchLengthCode(r.matchLength), OffsetCode(r.offsetValue);
    var llRange, mlRange := LiteralLengthRange(ll.code), MatchLengthRange(ml.code);
    LiteralLengthInverts(r.literalLength);
    MatchLengthInverts(r.matchLength);
    OffsetInverts(r.offsetValue);
    var s1 := stream + ToBits(ll.extra, llRange.bits);
    var s2 := s1 + ToBits(ml.extra, mlRange.bits);
    assert stream + Extras(r) == s2 + ToBits(of.extra, of.code);
    PeekPushed(s2, of.extra, of.code);
    PeekPushed(s1, ml.extra, mlRange.bits);
    PeekPushed(stream, ll.extra, llRange.bits);
    LowBitsId(of.extra, of.code);
    LowBitsId(ml.extra, mlRange.bits);
    LowBitsId(ll.extra, llRange.bits);
  }

  /** The three decode steps undo the three encode steps. */
  lemma StepsUndone(t: Tables, c: Cells, r: SequenceRecord, stream: seq<bool>)
    requires ValidTables(t) && ValidCells(t, c) && Covers(t, r)
    ensures var (d, more) := StateSteps(t, c, r, stream);
            && MoveStates(t, d, more, false) == Moved(c, stream, false)
            && t.ll.cells[d.ll] == LiteralLengthCode(r.literalLength).code
            && t.of.cells[d.of] == OffsetCode(r.offsetValue).code
            && t.ml.cells[d.ml] == MatchLengthCode(r.matchLength).code
  {
    hide EncodeStep, DecodeStep, CellBits, Count, LiteralLengthCode, MatchLengthCode, OffsetCode, ValidTans;
    var (of, s1) := EncodeStep(t.of, c.of, OffsetCode(r.offsetValue).code, stream);
    var (ml, s2) := EncodeStep(t.ml, c.ml, MatchLengthCode(r.matchLength).code, s1);
    DecodeUndoesEncode(t.of, c.of, OffsetCode(r.offsetValue).code, stream);
    DecodeUndoesEncode(t.ml, c.ml, MatchLengthCode(r.matchLength).code, s1);
    DecodeUndoesEncode(t.ll, c.ll, LiteralLengthCode(r.literalLength).code, s2);
  }

  /** Written back to front, read front to back: every non-empty list of records comes back, and the
      reader has used exactly the stream. */
  lemma {:induction false} RecordsRoundTrip(t: Tables, records: seq<SequenceRecord>)
    requires ValidTables(t) && records != [] && CoversAll(t, records)
    ensures var (c, stream) := EncodeRecords(t, records);
            DecodeRecords(t, c, stream, |records|) == Some((records, []))
  {
    hide StateSteps, MoveStates, ReadRecord, Extras, FirstCells, Covers, ValidTables;
    var r := records[0];
    if |records| == 1 {
      LastReadBack(t, r);
      CoveredIsValid(t, r);
      assert [] + Extras(r) == Extras(r);
      assert records == [r] + [];
    } else {
      var (c, stream) := EncodeRecords(t, records[1..]);
      RecordsRoundTrip(t, records[1..]);
      StepsUndone(t, c, r, stream);
      var (d, more) := StateSteps(t, c, r, stream);
      CoveredIsValid(t, r);
      RecordReadBack(t, d, r, more);
      assert records == [r] + records[1..];
    }
  }

  lemma CoveredIsValid(t: Tables, r: SequenceRecord)
    requires Covers(t, r)
    ensures ValidRecord(r)
  {
  }

  lemma LastReadBack(t: Tables, r: SequenceRecord)
    requires Covers(t, r)
    ensures ReadRecord(t, FirstCells(t, r), [] + Extras(r), false) == Some(Reading(r, [], false))
  {
    hide Extras, ReadRecord, LiteralLengthCode, MatchLengthCode, OffsetCode, Count;
    RecordReadBack(t, FirstCells(t, r), r, []);
  }

  /** Including the states, which the decoder reads first. */
  lemma WholeRoundTrip(t: Tables, records: seq<SequenceRecord>)
    requires ValidTables(t) && records != [] && CoversAll(t, records)
    ensures var (ll, r1) := ReadState(t.ll, WholeStream(t, records));
            var (of, r2) := ReadState(t.of, r1);
            var (ml, r3) := ReadState(t.ml, r2);
            DecodeRecords(t, Cells(ll, of, ml), r3, |records|) == Some((records, []))
    ensures |WholeStream(t, records)| >= t.ll.log + t.of.log + t.ml.log
  {
    hide ReadState, EncodeRecords, DecodeRecords, CoversAll, ValidTans;
    var (c, stream) := EncodeRecords(t, records);
    RecordsRoundTrip(t, records);
    StateReadBack(t.ml, c.ml, stream);
    StateReadBack(t.of, c.of, FlushState(t.ml, c.ml, stream));
    StateReadBack(t.ll, c.ll, FlushState(t.of, c.of, FlushState(t.ml, c.ml, stream)));
  }

  // ---------------------------------------------------------------- the writer's budget

  /** Bits the three states drop before a record. */
  ghost function StepBits(t: Tables, c: Cells, r: SequenceRecord): nat
    requires ValidTables(t) && ValidCells(t, c) && Covers(t, r)
  {
    EncodeBits(t.of, c.of, OffsetCode(r.offsetValue).code)
    + EncodeBits(t.ml, c.ml, MatchLengthCode(r.matchLength).code)
    + EncodeBits(t.ll, c.ll, LiteralLengthCode(r.literalLength).code)
  }

  /** At most 8 + 9 + 9. */
  lemma StepBitsBound(t: Tables, c: Cells, r: SequenceRecord)
    requires ValidTables(t) && ValidCells(t, c) && Covers(t, r)
    ensures StepBits(t, c, r) <= t.of.log + t.ml.log + t.ll.log <= 26
  {
    hide EncodeBits, Count, CellBits, CellBase, EncodeNext, LiteralLengthCode, MatchLengthCode, OffsetCode, LowBits;
    EncodeStepUndone(t.of, c.of, OffsetCode(r.offsetValue).code);
    EncodeStepUndone(t.ml, c.ml, MatchLengthCode(r.matchLength).code);
    EncodeStepUndone(t.ll, c.ll, LiteralLengthCode(r.literalLength).code);
  }

  /** Before the first state bits nothing has been flushed: the last record's extra bits and the
      first three state outputs must fit the container together. */
  ghost predicate FirstPassFits(t: Tables, records: seq<SequenceRecord>)
    requires ValidTables(t) && CoversAll(t, records)
  {
    |records| >= 2 ==>
      var n := |records|;
      |Extras(records[n - 1])| + StepBits(t, FirstCells(t, records[n - 1]), records[n - 2]) <= 64
  }

  /** Extra bits that leave the first pass room under any tables. */
  ghost predicate Short(r: SequenceRecord) {
    ValidRecord(r) && |Extras(r)| <= 38
  }

  lemma ExtrasLength(r: SequenceRecord)
    requires ValidRecord(r)
    ensures |Extras(r)| == LiteralLengthRange(LiteralLengthCode(r.literalLength).code).bits
                         + MatchLengthRange(MatchLengthCode(r.matchLength).code).bits + OffsetCode(r.offsetValue).code
    ensures OffsetCode(r.offsetValue).code <= 31
    ensures |Extras(r)| <= 63
  {
    hide ToBits, LiteralLengthCode, MatchLengthCode, OffsetCode;
    OffsetInverts(r.offsetValue);
  }

  // ---------------------------------------------------------------- what is written in any case

  /** The container word after the three state steps, whether or not they fit. */
  ghost function StepWord(t: Tables, c: Cells, r: SequenceRecord, word: nat, used: nat): nat
    requires ValidTables(t) && ValidCells(t, c) && Covers(t, r) && word < Pow2(64)
  {
    var of := EncodeBits(t.of, c.of, OffsetCode(r.offsetValue).code);
    var ml := EncodeBits(t.ml, c.ml, MatchLengthCode(r.matchLength).code);
    var ll := EncodeBits(t.ll, c.ll, LiteralLengthCode(r.literalLength).code);
    var w1 := AddedWord(word, used, Pow2(t.of.log) + c.of, of);
    var w2 := AddedWord(w1, used + of, Pow2(t.ml.log) + c.ml, ml);
    AddedWord(w2, used + of + ml, Pow2(t.ll.log) + c.ll, ll)
  }

  /** Bytes the writer passes over without storing anything: they stay as they were. */
  ghost function PassedOver(before: seq<byte>, from: nat, to: nat): (s: seq<bool>)
    requires from <= to
    ensures |s| == 8 * (to - from)
  {
    if to <= |before| then BytesToBits(before[from..to]) else Zeros(8 * (to - from))
  }

  /** What one eight-byte store leaves of `total` pending bits. */
  ghost function StoredWord(word: nat, total: nat, before: seq<byte>): (s: seq<bool>)
    requires total >= 64
    ensures |s| == total
  {
    ToBits(word, 64) + PassedOver(before, 8, total / 8) + Zeros(total % 8)
  }

  /** What stands for the first bits of the stream: nothing else when the first pass fits, otherwise
      what is left of the over-full container. */
  ghost function Head(t: Tables, records: seq<SequenceRecord>, before: seq<byte>): seq<bool>
    requires ValidTables(t) && CoversAll(t, records)
  {
    hide *;
    if FirstPassFits(t, records) then []
    else
      Overflows(t, records);
      var n := |records|;
      var last, c := Extras(records[n - 1]), FirstCells(t, records[n - 1]);
      StoredWord(StepWord(t, c, records[n - 2], FromBits(last), |last|), |last| + StepBits(t, c, records[n - 2]),
                 before)
  }

  lemma Overflows(t: Tables, records: seq<SequenceRecord>)
    requires ValidTables(t) && CoversAll(t, records) && !FirstPassFits(t, records)
    ensures var n := |records|;
            && n >= 2 && Covers(t, records[n - 1]) && Covers(t, records[n - 2]) && ValidRecord(records[n - 1])
            && ValidCells(t, FirstCells(t, records[n - 1])) && FromBits(Extras(records[n - 1])) < Pow2(64)
            && |Extras(records[n - 1])| + StepBits(t, FirstCells(t, records[n - 1]), records[n - 2]) > 64
  {
    hide Covers, Extras, FirstCells, StepBits, Pow2, FromBits, ValidTables;
    var r := records[|records| - 1];
    CoveredIsValid(t, r);
    ExtrasLength(r);
    Pow2Mono(|Extras(r)|, 64);
  }

  /** `stream` with its first bits replaced. */
  function Overlaid(stream: seq<bool>, head: seq<bool>): (r: seq<bool>)
    ensures |r| == |stream|
  {
    if |head| <= |stream| then head + stream[|head|..] else stream
  }

  /** The stream the writer leaves in an output that held `before`. */
  ghost function StreamWritten(t: Tables, records: seq<SequenceRecord>, before: seq<byte>): seq<bool>
    requires ValidTables(t) && records != [] && CoversAll(t, records)
  {
    Overlaid(WholeStream(t, records), Head(t, records, before))
  }

  /** Steps and final states only append. */
  lemma StepsAppend(t: Tables, c: Cells, r: SequenceRecord, stream: seq<bool>, head: seq<bool>)
    requires ValidTables(t) && ValidCells(t, c) && Covers(t, r) && |head| <= |stream|
    ensures var (d, more) := StateSteps(t, c, r, stream);
            && |more| == |stream| + StepBits(t, c, r)
            && StateSteps(t, c, r, Overlaid(stream, head)) == (d, Overlaid(more, head))
  {
    hide ToBits, EncodeBits, EncodeNext, Count, LiteralLengthCode, MatchLengthCode, OffsetCode, Pow2;
    var s := Overlaid(stream, head);
    var of := ToBits(Pow2(t.of.log) + c.of, EncodeBits(t.of, c.of, OffsetCode(r.offsetValue).code));
    var ml := ToBits(Pow2(t.ml.log) + c.ml, EncodeBits(t.ml, c.ml, MatchLengthCode(r.matchLength).code));
    var ll := ToBits(Pow2(t.ll.log) + c.ll, EncodeBits(t.ll, c.ll, LiteralLengthCode(r.literalLength).code));
    assert StateSteps(t, c, r, stream).1 == stream + of + ml + ll;
    assert StateSteps(t, c, r, s).1 == s + of + ml + ll;
    OverlaidAppend(stream, head, of);
    OverlaidAppend(stream + of, head, ml);
    OverlaidAppend(stream + of + ml, head, ll);
  }

  /** No stream is longer than 89 bits a record and the final states: 63 extra bits and 26 of the states. */
  lemma StreamBound(t: Tables, records: seq<SequenceRecord>)
    requires ValidTables(t) && records != [] && CoversAll(t, records)
    ensures |WholeStream(t, records)| <= 89 * |records| + 26
  {
    hide EncodeRecords, ToBits, Covers;
    RecordsBound(t, records);
    LogBounds(t);
  }

  lemma {:induction false} RecordsBound(t: Tables, records: seq<SequenceRecord>)
    requires ValidTables(t) && records != [] && CoversAll(t, records)
    ensures |EncodeRecords(t, records).1| <= 89 * |records|
    decreases |records|
  {
    hide Extras, StateSteps, StepBits, Covers, ValidTables;
    CoveredIsValid(t, records[0]);
    ExtrasLength(records[0]);
    if |records| > 1 {
      RecordsBound(t, records[1..]);
      var (c, stream) := EncodeRecords(t, records[1..]);
      StepsAppend(t, c, records[0], stream, []);
      StepBitsBound(t, c, records[0]);
    }
  }

  lemma OverlaidAppend(stream: seq<bool>, head: seq<bool>, more: seq<bool>)
    requires |head| <= |stream|
    ensures Overlaid(stream + more, head) == Overlaid(stream, head) + more
  {
  }

  /** The output can no longer take the stream. */
  predicate Lost(w: ForwardBitWriter)
    reads w
  {
    w.hasOverflowed || w.position > w.output.Length
  }

  /** What the writer holds: the stream, or a loss the stream explains. */
  ghost predicate Written(w: ForwardBitWriter, stream: seq<bool>)
    reads w, w.output
  {
    && w.Valid()
    && if Lost(w) then |stream| > 8 * w.output.Length else w.Clean() && w.Contents() == stream
  }

  method PutBits(w: ForwardBitWriter, value: nat, count: nat, ghost stream: seq<bool>)
    requires Written(w, stream) && count < 64 && (w.hasOverflowed || w.bitsInContainer + count <= 64)
    modifies w
    ensures Written(w, stream + ToBits(value, count)) && w.hasOverflowed == old(w.hasOverflowed)
    ensures w.bitsInContainer == old(w.bitsInContainer) + count && w.withinBudget == old(w.withinBudget)
  {
    hide ToBits, BytesToBits, Pow2, AddedWord;
    w.AddBitsWithoutFlush(value, count);
  }

  method Flush(w: ForwardBitWriter, ghost stream: seq<bool>)
    requires Written(w, stream)
    modifies w, w.output
    ensures Written(w, stream) && (w.hasOverflowed || w.bitsInContainer < 8) && w.withinBudget == old(w.withinBudget)
  {
    hide ToBits, BytesToBits, Pow2, LeBytes;
    w.FlushWholeBytes();
  }

  /** Flushing the over-full container of the first pass. */
  method FlushOverfull(w: ForwardBitWriter)
    requires w.Valid() && !w.hasOverflowed && w.position == 0 && w.bitsInContainer > 64
    modifies w, w.output
    ensures Written(w, StoredWord(old(w.container), old(w.bitsInContainer), old(w.output[..])))
    ensures (w.hasOverflowed || w.bitsInContainer < 8) && w.withinBudget == old(w.withinBudget)
  {
    hide ToBits, BytesToBits, LeBytes, Pow2;
    ghost var word, total, before := w.container, w.bitsInContainer, w.output[..];
    w.FlushWholeBytes();
    if !Lost(w) {
      PositivePow(w.bitsInContainer);
      ghost var k := total / 8;
      assert w.output[..k] == LeBytes(word, 8) + before[8..k];
      BytesToBitsConcat(LeBytes(word, 8), before[8..k]);
      LeBytesBits(word, 8);
      ToBitsZero(total % 8);
    }
  }

  lemma PositivePow(n: nat)
    ensures 0 < Pow2(n)
  {
  }

  method PutState(state: FseEncodeState, writer: BackwardBitWriter, table: FseEncodeTable, symbol: nat,
                  ghost t: Tans, ghost c: nat, ghost stream: seq<bool>)
    requires writer.Valid() && table.Encodes(t) && symbol < MAX_SYMBOL_COUNT && Count(t, symbol) > 0 && state.At(t, c)
    modifies state, writer.bitWriter
    ensures writer.Valid() && state.At(t, EncodeNext(t, c, symbol))
    ensures writer.bitWriter.hasOverflowed == old(writer.bitWriter.hasOverflowed)
    ensures writer.bitWriter.position == old(writer.bitWriter.position)
    ensures writer.bitWriter.bitsInContainer == old(writer.bitWriter.bitsInContainer) + EncodeBits(t, c, symbol)
    ensures writer.bitWriter.container
         == AddedWord(old(writer.bitWriter.container), old(writer.bitWriter.bitsInContainer), Pow2(t.log) + c,
                      EncodeBits(t, c, symbol))
    ensures writer.bitWriter.withinBudget <==>
              old(writer.bitWriter.withinBudget)
              && (|| writer.bitWriter.hasOverflowed
                  || old(writer.bitWriter.bitsInContainer) + EncodeBits(t, c, symbol) <= 64)
    ensures (&& old(Written(writer.bitWriter, stream))
             && (|| writer.bitWriter.hasOverflowed
                 || old(writer.bitWriter.bitsInContainer) + EncodeBits(t, c, symbol) <= 64)) ==>
              Written(writer.bitWriter, EncodeStep(t, c, symbol, stream).1)
  {
    hide ToBits, BytesToBits, Pow2, EncodeBits, EncodeNext, Count, FseEncodeTable.Encodes, FseEncodeState.At, AddedWord;
    state.EncodeSymbolWithoutFlush(writer, table, symbol, t, c);
  }

  // ---------------------------------------------------------------- the writer

  class SequenceEncodeTables {
    const literalLength: FseEncodeTable
    const offset: FseEncodeTable
    const matchLength: FseEncodeTable

    constructor (literalLength: FseEncodeTable, offset: FseEncodeTable, matchLength: FseEncodeTable)
      ensures this.literalLength == literalLength && this.offset == offset && this.matchLength == matchLength
    {
      this.literalLength, this.offset, this.matchLength := literalLength, offset, matchLength;
    }

    ghost predicate Encode(t: Tables)
      reads literalLength, offset, matchLength
    {
      literalLength.Encodes(t.ll) && offset.Encodes(t.of) && matchLength.Encodes(t.ml)
    }
  }

  /** The three states of one stream. */
  class SequenceEncodeStates {
    const literalLength: FseEncodeState
    const offset: FseEncodeState
    const matchLength: FseEncodeState

    ghost predicate At(t: Tables, c: Cells)
      reads literalLength, offset, matchLength
    {
      literalLength.At(t.ll, c.ll) && offset.At(t.of, c.of) && matchLength.At(t.ml, c.ml)
    }

    constructor (tables: SequenceEncodeTables, last: SequenceRecord, ghost t: Tables)
      requires tables.Encode(t) && Covers(t, last)
      ensures fresh(literalLength) && fresh(offset) && fresh(matchLength)
      ensures literalLength != offset && offset != matchLength && literalLength != matchLength
      ensures At(t, FirstCells(t, last))
    {
      hide Count, LiteralLengthCode, MatchLengthCode, OffsetCode, FirstCell, FseEncodeTable.Encodes, FseEncodeState.At;
      CodesSmall(last);
      matchLength := new FseEncodeState(tables.matchLength, MatchLengthCode(last.matchLength).code, t.ml);
      offset := new FseEncodeState(tables.offset, OffsetCode(last.offsetValue).code, t.of);
      literalLength := new FseEncodeState(tables.literalLength, LiteralLengthCode(last.literalLength).code, t.ll);
    }
  }

  lemma CodesSmall(r: SequenceRecord)
    requires ValidRecord(r)
    ensures LiteralLengthCode(r.literalLength).code < MAX_SYMBOL_COUNT
    ensures MatchLengthCode(r.matchLength).code < MAX_SYMBOL_COUNT
    ensures OffsetCode(r.offsetValue).code <= 31 < MAX_SYMBOL_COUNT
    ensures LiteralLengthRange(LiteralLengthCode(r.literalLength).code).bits <= 16
    ensures MatchLengthRange(MatchLengthCode(r.matchLength).code).bits <= 16
  {
    hide LiteralLengthCode, MatchLengthCode, OffsetCode, Pow2;
    LiteralLengthInverts(r.literalLength);
    MatchLengthInverts(r.matchLength);
    OffsetInverts(r.offsetValue);
  }

  /** Masking at the width of the extra bits writes the extra bits. */
  lemma MaskedExtras(r: SequenceRecord)
    requires ValidRecord(r)
    ensures FindLiteralLengthCode(r.literalLength) == LiteralLengthCode(r.literalLength).code
    ensures FindMatchLengthCode(r.matchLength) == MatchLengthCode(r.matchLength).code
    ensures Extras(r) == ToBits(r.literalLength, LiteralLengthRange(LiteralLengthCode(r.literalLength).code).bits)
                       + ToBits(r.matchLength - 3, MatchLengthRange(MatchLengthCode(r.matchLength).code).bits)
                       + ToBits(r.offsetValue, OffsetCode(r.offsetValue).code)
  {
    hide ToBits, LowBits, LiteralLengthCode, MatchLengthCode, OffsetCode, LiteralLengthRange, MatchLengthRange,
      FindLiteralLengthCode, FindMatchLengthCode;
    QuickLiteralAgrees(r.literalLength);
    QuickMatchAgrees(r.matchLength);
    QuickOffsetAgrees(r.offsetValue);
    ToBitsMasked(r.literalLength, LiteralLengthRange(LiteralLengthCode(r.literalLength).code).bits);
    ToBitsMasked(r.matchLength - 3, MatchLengthRange(MatchLengthCode(r.matchLength).code).bits);
    ToBitsMasked(r.offsetValue, OffsetCode(r.offsetValue).code);
  }

  /** Extra bits of one record, the offset's after a flush. */
  method PutExtras(writer: BackwardBitWriter, record: SequenceRecord, literalLengthCode: nat, matchLengthCode: nat,
                   ghost stream: seq<bool>)
    requires Written(writer.bitWriter, stream) && ValidRecord(record)
    requires literalLengthCode == LiteralLengthCode(record.literalLength).code
    requires matchLengthCode == MatchLengthCode(record.matchLength).code
    requires writer.bitWriter.hasOverflowed || writer.bitWriter.bitsInContainer < 8
    modifies writer.bitWriter, writer.bitWriter.output
    ensures Written(writer.bitWriter, stream + Extras(record))
    ensures writer.bitWriter.withinBudget == old(writer.bitWriter.withinBudget)
    ensures writer.bitWriter.hasOverflowed || writer.bitWriter.bitsInContainer <= 7 + 31
  {
    hide *;
    CodesSmall(record);
    MaskedExtras(record);
    var w := writer.bitWriter;
    var llBits, mlBits := LiteralLengthRange(literalLengthCode).bits, MatchLengthRange(matchLengthCode).bits;
    ghost var s1 := stream + ToBits(record.literalLength, llBits);
    PutBits(w, record.literalLength, llBits, stream);
    AtLeastThree(record);
    ghost var s2 := s1 + ToBits(record.matchLength - MIN_MATCH_LENGTH, mlBits);
    PutBits(w, record.matchLength - MIN_MATCH_LENGTH, mlBits, s1);
    Flush(w, s2);
    PutBits(w, record.offsetValue, OffsetCode(record.offsetValue).code, s2);
    assert stream + Extras(record) == s2 + ToBits(record.offsetValue, OffsetCode(record.offsetValue).code);
  }

  lemma AtLeastThree(r: SequenceRecord)
    requires ValidRecord(r)
    ensures r.matchLength >= MIN_MATCH_LENGTH == 3 && r.offsetValue >= 1
  {
  }

  ghost predicate Distinct3(s: SequenceEncodeStates) {
    s.literalLength != s.offset && s.offset != s.matchLength && s.literalLength != s.matchLength
  }

  /** The three state steps without a flush between them: they extend the stream when they fit. */
  method PutStates(writer: BackwardBitWriter, tables: SequenceEncodeTables, states: SequenceEncodeStates,
                   record: SequenceRecord, ghost t: Tables, ghost c: Cells, ghost stream: seq<bool>)
    requires writer.Valid() && states.At(t, c) && Distinct3(states)
    requires tables.Encode(t) && ValidTables(t) && ValidCells(t, c) && Covers(t, record)
    modifies states.literalLength, states.offset, states.matchLength, writer.bitWriter
    ensures writer.Valid() && states.At(t, StateSteps(t, c, record, stream).0)
    ensures writer.bitWriter.hasOverflowed == old(writer.bitWriter.hasOverflowed)
    ensures writer.bitWriter.position == old(writer.bitWriter.position)
    ensures writer.bitWriter.bitsInContainer == old(writer.bitWriter.bitsInContainer) + StepBits(t, c, record)
    ensures old(writer.bitWriter.container) < Pow2(64)
            && writer.bitWriter.container
               == StepWord(t, c, record, old(writer.bitWriter.container), old(writer.bitWriter.bitsInContainer))
    ensures writer.bitWriter.withinBudget <==>
              old(writer.bitWriter.withinBudget)
              && (|| writer.bitWriter.hasOverflowed
                  || old(writer.bitWriter.bitsInContainer) + StepBits(t, c, record) <= 64)
    ensures (&& old(Written(writer.bitWriter, stream))
             && (|| writer.bitWriter.hasOverflowed
                 || old(writer.bitWriter.bitsInContainer) + StepBits(t, c, record) <= 64)) ==>
              Written(writer.bitWriter, StateSteps(t, c, record, stream).1)
  {
    hide LiteralLengthCode, MatchLengthCode, OffsetCode, EncodeBits, EncodeNext, Count, Written, ValidTans, AddedWord,
      Pow2, FseEncodeTable.Encodes, FseEncodeState.At, FindLiteralLengthCode, FindMatchLengthCode, ToBits;
    CodesSmall(record);
    MaskedExtras(record);
    var offsetCode := OffsetCode(record.offsetValue).code;
    var matchLengthCode := FindMatchLengthCode(record.matchLength);
    var literalLengthCode := FindLiteralLengthCode(record.literalLength);
    ghost var s1 := EncodeStep(t.of, c.of, offsetCode, stream).1;
    ghost var s2 := EncodeStep(t.ml, c.ml, matchLengthCode, s1).1;
    PutState(states.offset, writer, tables.offset, offsetCode, t.of, c.of, stream);
    PutState(states.matchLength, writer, tables.matchLength, matchLengthCode, t.ml, c.ml, s1);
    PutState(states.literalLength, writer, tables.literalLength, literalLengthCode, t.ll, c.ll, s2);
  }

  lemma {:induction false} EncodeSuffix(t: Tables, records: seq<SequenceRecord>, k: nat)
    requires ValidTables(t) && CoversAll(t, records) && k + 1 < |records|
    ensures CoversAll(t, records[k..]) && CoversAll(t, records[k + 1..]) && Covers(t, records[k])
    ensures var (c, stream) := EncodeRecords(t, records[k + 1..]);
            var (d, more) := StateSteps(t, c, records[k], stream);
            EncodeRecords(t, records[k..]) == (d, more + Extras(records[k]))
  {
    hide StateSteps, Extras, ValidTables, Covers;
    assert records[k..][1..] == records[k + 1..];
    CoveredIsValid(t, records[k]);
  }

  lemma LastEncoded(t: Tables, records: seq<SequenceRecord>)
    requires ValidTables(t) && CoversAll(t, records) && records != []
    ensures var n := |records| - 1;
            && Covers(t, records[n]) && CoversAll(t, records[n..])
            && EncodeRecords(t, records[n..]) == (FirstCells(t, records[n]), Extras(records[n]))
  {
    hide StateSteps, Extras, ValidTables, Covers;
    CoveredIsValid(t, records[|records| - 1]);
  }

  /** The records from `i` on are written, with `head` in place of the stream's first bits. */
  ghost predicate Progress(w: ForwardBitWriter, states: SequenceEncodeStates, t: Tables, records: seq<SequenceRecord>,
                           i: nat, head: seq<bool>)
    reads w, w.output, states.literalLength, states.offset, states.matchLength
  {
    && i < |records| && ValidTables(t) && CoversAll(t, records[i..])
    && states.At(t, EncodeRecords(t, records[i..]).0)
    && |head| <= |EncodeRecords(t, records[i..]).1|
    && Written(w, Overlaid(EncodeRecords(t, records[i..]).1, head))
  }

  /** Nothing is flushed yet: the container holds the last record's extra bits. */
  ghost predicate JustExtras(w: ForwardBitWriter, r: SequenceRecord)
    reads w, w.output
  {
    && ValidRecord(r) && w.Valid() && w.Clean() && w.position == 0
    && w.bitsInContainer == |Extras(r)| && w.container == FromBits(Extras(r))
  }

  /** The last record: extra bits only, nothing flushed. */
  method PutLast(writer: BackwardBitWriter, tables: SequenceEncodeTables, records: seq<SequenceRecord>, ghost t: Tables)
    returns (ok: bool, states: SequenceEncodeStates)
    requires writer.Valid() && writer.bitWriter.Clean() && writer.bitWriter.Contents() == []
    requires writer.bitWriter.position == 0
    requires records != [] && ValidTables(t) && CoversAll(t, records) && tables.Encode(t)
    modifies writer.bitWriter, writer.bitWriter.output
    ensures ok && Distinct3(states) && fresh(states.literalLength) && fresh(states.offset) && fresh(states.matchLength)
    ensures Progress(writer.bitWriter, states, t, records, |records| - 1, [])
    ensures JustExtras(writer.bitWriter, records[|records| - 1])
    ensures writer.bitWriter.output[..] == old(writer.bitWriter.output[..])
    ensures writer.bitWriter.withinBudget == old(writer.bitWriter.withinBudget)
  {
    hide LiteralLengthCode, MatchLengthCode, OffsetCode, LiteralLengthRange, MatchLengthRange, ToBits, FromBits,
      BytesToBits, Pow2, Covers, ValidTables, FseEncodeTable.Encodes, FseEncodeState.At, SequenceEncodeTables.Encode,
      FirstCells;
    LastEncoded(t, records);
    var last := records[|records| - 1];
    CoveredIsValid(t, last);
    CodesSmall(last);
    ExtrasLength(last);
    var ll, ml := LiteralLengthCode(last.literalLength), MatchLengthCode(last.matchLength);
    var of := OffsetCode(last.offsetValue);
    states := new SequenceEncodeStates(tables, last, t);
    var w := writer.bitWriter;
    ok := w.AddBits(ll.extra, LiteralLengthRange(ll.code).bits);
    var ok2 := w.AddBits(ml.extra, MatchLengthRange(ml.code).bits);
    var ok3 := w.AddBits(of.extra, of.code);
    ok := ok && ok2 && ok3;
    assert w.Contents() == Extras(last);
    ContainerIs(w.output, w.container, w.bitsInContainer, Extras(last));
  }

  lemma ContainerIs(output: array<byte>, container: nat, used: nat, stream: seq<bool>)
    requires container < Pow2(used) && BytesToBits(output[..0]) + ToBits(container, used) == stream
    ensures container == FromBits(stream)
  {
    assert BytesToBits([]) == [];
    hide BytesToBits, ToBits, FromBits, Pow2;
    assert output[..0] == [];
    assert stream == ToBits(container, used);
    FromToBits(container, used);
    LowBitsId(container, used);
  }

  lemma StreamGrows(t: Tables, records: seq<SequenceRecord>, c: Cells, stream: seq<bool>, head: seq<bool>)
    requires ValidTables(t) && records != [] && CoversAll(t, records) && EncodeRecords(t, records) == (c, stream)
    requires |head| <= |stream|
    ensures FlushState(t.ll, c.ll, FlushState(t.of, c.of, FlushState(t.ml, c.ml, Overlaid(stream, head))))
          == Overlaid(WholeStream(t, records), head)
    ensures |WholeStream(t, records)| == |stream| + t.ml.log + t.of.log + t.ll.log
  {
    hide EncodeRecords, ToBits, Overlaid;
    var ml, of, ll := ToBits(c.ml, t.ml.log), ToBits(c.of, t.of.log), ToBits(c.ll, t.ll.log);
    OverlaidAppend(stream, head, ml);
    OverlaidAppend(stream + ml, head, of);
    OverlaidAppend(stream + ml + of, head, ll);
  }

  /** Between two records: what one flushed byte and an offset leave is pending, or, before the first
      pass, all of the last record's extra bits. */
  ghost predicate Pending(w: ForwardBitWriter, records: seq<SequenceRecord>, i: nat)
    reads w, w.output
  {
    && i < |records|
    && if i + 1 == |records| then JustExtras(w, records[i]) else w.hasOverflowed || w.bitsInContainer <= 7 + 31
  }

  /** The first pass: the last record's extra bits and the first state steps, then a flush. */
  method PutFirstStates(writer: BackwardBitWriter, tables: SequenceEncodeTables, states: SequenceEncodeStates,
                        records: seq<SequenceRecord>, ghost t: Tables)
    requires |records| >= 2 && ValidTables(t) && CoversAll(t, records) && tables.Encode(t) && Distinct3(states)
    requires Progress(writer.bitWriter, states, t, records, |records| - 1, [])
    requires JustExtras(writer.bitWriter, records[|records| - 1])
    modifies states.literalLength, states.offset, states.matchLength, writer.bitWriter, writer.bitWriter.output
    ensures var n := |records|;
            && Covers(t, records[n - 1]) && Covers(t, records[n - 2]) && ValidTables(t)
            && var more := StateSteps(t, FirstCells(t, records[n - 1]), records[n - 2], Extras(records[n - 1]));
            && states.At(t, more.0) && |Head(t, records, old(writer.bitWriter.output[..]))| <= |more.1|
            && Written(writer.bitWriter, Overlaid(more.1, Head(t, records, old(writer.bitWriter.output[..]))))
    ensures writer.bitWriter.hasOverflowed || writer.bitWriter.bitsInContainer < 8
    ensures writer.bitWriter.withinBudget <==> old(writer.bitWriter.withinBudget) && FirstPassFits(t, records)
  {
    hide *;
    var n := |records|;
    LastEncoded(t, records);
    CoveredIsValid(t, records[n - 1]);
    CoveredAt(t, records, n - 1);
    CoveredAt(t, records, n - 2);
    JustExtrasIs(writer.bitWriter, records[n - 1]);
    ProgressIs(writer.bitWriter, states, t, records, n - 1, []);
    ghost var c, stream := FirstCells(t, records[n - 1]), Extras(records[n - 1]);
    ghost var before := writer.bitWriter.output[..];
    OverlaidNone(stream);
    StepsAppend(t, c, records[n - 2], stream, []);
    ghost var more := StateSteps(t, c, records[n - 2], stream).1;
    WrittenIsValid(writer, stream);
    PutStates(writer, tables, states, records[n - 2], t, c, stream);
    BitsValid(writer);
    HeadIs(t, records, before, stream, writer.bitWriter.container, writer.bitWriter.bitsInContainer);
    if writer.bitWriter.bitsInContainer <= 64 {
      Flush(writer.bitWriter, more);
      OverlaidNone(more);
    } else {
      FlushOverfull(writer.bitWriter);
      OverlaidAll(more, Head(t, records, before));
    }
  }

  lemma CoveredAt(t: Tables, records: seq<SequenceRecord>, i: nat)
    requires CoversAll(t, records) && i < |records|
    ensures Covers(t, records[i])
  {
    hide Covers;
  }

  lemma BitsValid(writer: BackwardBitWriter)
    requires writer.Valid()
    ensures writer.bitWriter.Valid()
  {
  }

  lemma JustExtrasIs(w: ForwardBitWriter, r: SequenceRecord)
    requires JustExtras(w, r)
    ensures w.Valid() && !w.hasOverflowed && w.position == 0
    ensures w.bitsInContainer == |Extras(r)| && w.container == FromBits(Extras(r)) < Pow2(64)
  {
    hide Extras, FromBits, BytesToBits, ToBits;
  }

  lemma OverlaidNone(stream: seq<bool>)
    ensures Overlaid(stream, []) == stream
  {
  }

  lemma OverlaidAll(stream: seq<bool>, head: seq<bool>)
    requires |head| == |stream|
    ensures Overlaid(stream, head) == head
  {
  }

  lemma FitsIs(t: Tables, records: seq<SequenceRecord>)
    requires |records| >= 2 && ValidTables(t) && CoversAll(t, records) && Covers(t, records[|records| - 1])
    requires Covers(t, records[|records| - 2]) && ValidRecord(records[|records| - 1])
    requires ValidCells(t, FirstCells(t, records[|records| - 1]))
    ensures FirstPassFits(t, records)
        <==> |Extras(records[|records| - 1])|
             + StepBits(t, FirstCells(t, records[|records| - 1]), records[|records| - 2]) <= 64
  {
    hide Covers, Extras, FirstCells, StepBits, ValidTables, CoversAll, ValidCells, ValidRecord;
  }

  /** What the over-full container leaves is the head of the stream. */
  lemma HeadIs(t: Tables, records: seq<SequenceRecord>, before: seq<byte>, last: seq<bool>, word: nat, total: nat)
    requires ValidTables(t) && CoversAll(t, records)
    requires |records| >= 2 && ValidRecord(records[|records| - 1]) && last == Extras(records[|records| - 1])
    requires Covers(t, records[|records| - 1]) && Covers(t, records[|records| - 2])
    requires FromBits(last) < Pow2(64) && ValidCells(t, FirstCells(t, records[|records| - 1]))
    requires word == StepWord(t, FirstCells(t, records[|records| - 1]), records[|records| - 2], FromBits(last), |last|)
    requires total == |last| + StepBits(t, FirstCells(t, records[|records| - 1]), records[|records| - 2])
    ensures FirstPassFits(t, records) <==> total <= 64
    ensures Head(t, records, before) == if total <= 64 then [] else StoredWord(word, total, before)
  {
    hide Covers, Extras, FirstCells, StepBits, Pow2, FromBits, ValidTables, CoversAll, StepWord, StoredWord, ValidCells,
      ValidRecord;
    FitsIs(t, records);
    if !FirstPassFits(t, records) {
      Overflows(t, records);
    }
  }

  lemma WrittenIsValid(writer: BackwardBitWriter, stream: seq<bool>)
    requires Written(writer.bitWriter, stream)
    ensures writer.Valid() && writer.bitWriter.Valid()
  {
  }

  /** One record before the ones already written. */
  method PutRecord(writer: BackwardBitWriter, tables: SequenceEncodeTables, states: SequenceEncodeStates,
                   records: seq<SequenceRecord>, i: nat, ghost t: Tables, ghost head: seq<bool>)
    returns (ghost newHead: seq<bool>)
    requires i + 1 < |records| && CoversAll(t, records) && tables.Encode(t) && Distinct3(states) && ValidTables(t)
    requires Progress(writer.bitWriter, states, t, records, i + 1, head) && Pending(writer.bitWriter, records, i + 1)
    requires i + 2 == |records| ==> head == []
    modifies states.literalLength, states.offset, states.matchLength, writer.bitWriter, writer.bitWriter.output
    ensures newHead == if i + 2 == |records| then Head(t, records, old(writer.bitWriter.output[..])) else head
    ensures Progress(writer.bitWriter, states, t, records, i, newHead) && Pending(writer.bitWriter, records, i)
    ensures writer.bitWriter.withinBudget
          <==> old(writer.bitWriter.withinBudget) && (i + 2 == |records| ==> FirstPassFits(t, records))
  {
    hide *;
    EncodeSuffix(t, records, i);
    CoveredIsValid(t, records[i]);
    MaskedExtras(records[i]);
    PendingIs(writer.bitWriter, records, i + 1);
    ProgressIs(writer.bitWriter, states, t, records, i + 1, head);
    ghost var (c, stream) := EncodeRecords(t, records[i + 1..]);
    ghost var more := StateSteps(t, c, records[i], stream).1;
    newHead := head;
    if i + 2 == |records| {
      LastEncoded(t, records);
      newHead := Head(t, records, writer.bitWriter.output[..]);
      PutFirstStates(writer, tables, states, records, t);
    } else {
      StepsAppend(t, c, records[i], stream, head);
      StepBitsBound(t, c, records[i]);
      LogBounds(t);
      WrittenIsValid(writer, Overlaid(stream, head));
      PutStates(writer, tables, states, records[i], t, c, Overlaid(stream, head));
      Flush(writer.bitWriter, Overlaid(more, head));
    }
    OverlaidAppend(more, newHead, Extras(records[i]));
    PutExtras(writer, records[i], FindLiteralLengthCode(records[i].literalLength),
              FindMatchLengthCode(records[i].matchLength), Overlaid(more, newHead));
    ProgressWhen(writer.bitWriter, states, t, records, i, newHead);
    NowPending(writer.bitWriter, records, i);
  }

  lemma PendingIs(w: ForwardBitWriter, records: seq<SequenceRecord>, i: nat)
    requires Pending(w, records, i)
    ensures i < |records|
    ensures i + 1 == |records| ==> JustExtras(w, records[i])
    ensures i + 1 < |records| ==> w.hasOverflowed || w.bitsInContainer <= 7 + 31
  {
    hide JustExtras;
  }

  lemma NowPending(w: ForwardBitWriter, records: seq<SequenceRecord>, i: nat)
    requires i + 1 < |records| && (w.hasOverflowed || w.bitsInContainer <= 7 + 31)
    ensures Pending(w, records, i)
  {
  }

  lemma ProgressIs(w: ForwardBitWriter, states: SequenceEncodeStates, t: Tables, records: seq<SequenceRecord>, i: nat,
                   head: seq<bool>)
    requires Progress(w, states, t, records, i, head)
    ensures i < |records| && CoversAll(t, records[i..]) && ValidTables(t)
    ensures ValidCells(t, EncodeRecords(t, records[i..]).0)
    ensures states.At(t, EncodeRecords(t, records[i..]).0)
    ensures |head| <= |EncodeRecords(t, records[i..]).1| && Written(w, Overlaid(EncodeRecords(t, records[i..]).1, head))
  {
    hide EncodeRecords, Written, ValidTables, CoversAll, SequenceEncodeStates.At, ValidCells;
  }

  lemma ProgressWhen(w: ForwardBitWriter, states: SequenceEncodeStates, t: Tables, records: seq<SequenceRecord>, i: nat,
                     head: seq<bool>)
    requires i < |records| && CoversAll(t, records[i..]) && ValidTables(t)
    requires states.At(t, EncodeRecords(t, records[i..]).0)
    requires |head| <= |EncodeRecords(t, records[i..]).1|
    requires Written(w, Overlaid(EncodeRecords(t, records[i..]).1, head))
    ensures Progress(w, states, t, records, i, head)
  {
    hide EncodeRecords, Written, ValidTables, CoversAll, SequenceEncodeStates.At;
  }

  lemma LogBounds(t: Tables)
    requires ValidTables(t)
    ensures t.of.log + t.ml.log + t.ll.log <= 26
  {
  }

  /** `write_one_stream`: Ok exactly when the output can take the stream. No field is added past the
      64-bit budget exactly when the first pass fits, and then the stream is the one the decoder
      reads back; otherwise its first bits are what the over-full container leaves. */
  method WriteOneStream(records: seq<SequenceRecord>, tables: SequenceEncodeTables, output: array<byte>,
                        ghost t: Tables)
    returns (ok: bool, size: nat, ghost within: bool)
    requires records != [] && ValidTables(t) && CoversAll(t, records) && tables.Encode(t)
    modifies output
    ensures within <==> FirstPassFits(t, records)
    ensures ok <==> |WholeStream(t, records)| + 1 <= 8 * output.Length
    ensures ok ==> size <= output.Length && 8 * size - 8 <= |WholeStream(t, records)| < 8 * size
    ensures ok ==> MarkedBits(output[..size]) == Some(StreamWritten(t, records, old(output[..])))
    ensures ok && within ==> MarkedBits(output[..size]) == Some(WholeStream(t, records))
  {
    hide *;
    var writer := new BackwardBitWriter(output);
    FreshWriter(writer);
    ghost var before := output[..];
    var started, states := PutLast(writer, tables, records, t);
    var i: nat := |records| - 1;
    ghost var head := [];
    StartPending(writer.bitWriter, records);
    while i > 0
      modifies states.literalLength, states.offset, states.matchLength, writer.bitWriter, output
      invariant i < |records| && Progress(writer.bitWriter, states, t, records, i, head)
      invariant Pending(writer.bitWriter, records, i)
      invariant if i + 1 == |records| then output[..] == before && head == [] else head == Head(t, records, before)
      invariant writer.bitWriter.withinBudget <==> i + 1 == |records| || FirstPassFits(t, records)
    {
      head := PutRecord(writer, tables, states, records, i - 1, t, head);
      i := i - 1;
    }
    if |records| == 1 {
      OneRecordFits(t, records, before);
    }
    assert records[0..] == records;
    ProgressParts(writer.bitWriter, states, t, records, head);
    ghost var (c, stream) := EncodeRecords(t, records);
    StreamGrows(t, records, c, stream, head);
    Flush(writer.bitWriter, Overlaid(stream, head));
    ok := PutFinalStates(writer, tables, states, t, c, Overlaid(stream, head));
    within := writer.bitWriter.withinBudget;
    WrittenIs(t, records, before);
    if !ok {
      return false, 0, within;
    }
    ok, size := FinishMarked(writer, Overlaid(WholeStream(t, records), head));
  }

  lemma FreshWriter(writer: BackwardBitWriter)
    requires writer.Valid()
    ensures writer.bitWriter.Valid()
  {
  }

  lemma StartPending(w: ForwardBitWriter, records: seq<SequenceRecord>)
    requires records != [] && JustExtras(w, records[|records| - 1])
    ensures Pending(w, records, |records| - 1)
  {
    hide JustExtras;
  }

  lemma OneRecordFits(t: Tables, records: seq<SequenceRecord>, before: seq<byte>)
    requires ValidTables(t) && |records| == 1 && CoversAll(t, records)
    ensures FirstPassFits(t, records) && Head(t, records, before) == []
  {
  }

  lemma WrittenIs(t: Tables, records: seq<SequenceRecord>, before: seq<byte>)
    requires ValidTables(t) && records != [] && CoversAll(t, records)
    ensures StreamWritten(t, records, before) == Overlaid(WholeStream(t, records), Head(t, records, before))
    ensures FirstPassFits(t, records) ==> StreamWritten(t, records, before) == WholeStream(t, records)
  {
    hide WholeStream, Extras, StepBits, StepWord, StoredWord;
    assert Overlaid(WholeStream(t, records), []) == WholeStream(t, records);
  }

  lemma ProgressParts(w: ForwardBitWriter, states: SequenceEncodeStates, t: Tables, records: seq<SequenceRecord>,
                      head: seq<bool>)
    requires Progress(w, states, t, records, 0, head) && records[0..] == records
    ensures ValidTables(t) && CoversAll(t, records) && |head| <= |EncodeRecords(t, records).1|
    ensures states.At(t, EncodeRecords(t, records).0) && Written(w, Overlaid(EncodeRecords(t, records).1, head))
  {
    hide EncodeRecords, Written, ValidTables, CoversAll, SequenceEncodeStates.At;
  }

  /** The three final states. Nothing is pending, so no flush can be due. */
  method PutFinalStates(writer: BackwardBitWriter, tables: SequenceEncodeTables, states: SequenceEncodeStates,
                        ghost t: Tables, ghost c: Cells, ghost stream: seq<bool>) returns (ok: bool)
    requires Written(writer.bitWriter, stream) && tables.Encode(t) && states.At(t, c) && ValidTables(t)
    requires writer.bitWriter.hasOverflowed || writer.bitWriter.bitsInContainer < 8
    modifies writer.bitWriter, writer.bitWriter.output
    ensures ok ==>
              Written(writer.bitWriter, FlushState(t.ll, c.ll, FlushState(t.of, c.of, FlushState(t.ml, c.ml, stream))))
    ensures ok ==> writer.bitWriter.Flushable()
    ensures !ok ==> |stream| > 8 * writer.bitWriter.output.Length
    ensures writer.bitWriter.withinBudget == old(writer.bitWriter.withinBudget)
  {
    hide ToBits, BytesToBits, FseEncodeTable.Encodes, FseEncodeState.At, ValidTans, Pow2;
    ok := states.matchLength.Flush(writer, tables.matchLength, t.ml, c.ml);
    if !ok {
      return;
    }
    ok := states.offset.Flush(writer, tables.offset, t.of, c.of);
    if !ok {
      return;
    }
    ok := states.literalLength.Flush(writer, tables.literalLength, t.ll, c.ll);
  }

  /** The end marker over the whole stream. */
  method FinishMarked(writer: BackwardBitWriter, ghost stream: seq<bool>) returns (ok: bool, size: nat)
    requires Written(writer.bitWriter, stream) && writer.bitWriter.Flushable()
    modifies writer.bitWriter, writer.bitWriter.output
    ensures ok <==> |stream| + 1 <= 8 * writer.bitWriter.output.Length
    ensures ok ==> size <= writer.bitWriter.output.Length && 8 * size - 8 <= |stream| < 8 * size
    ensures ok ==> MarkedBits(writer.bitWriter.output[..size]) == Some(stream)
  {
    hide ToBits, BytesToBits, Pow2, MarkedBits;
    ok, size := writer.Finish();
    if ok {
      MarkerFound(writer.bitWriter.output[..size], stream, 8 * size - |stream| - 1);
    }
  }
}
