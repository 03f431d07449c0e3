/** A sequences section (section 3.1.1.3.2 of RFC 8878): its header, three tables and bitstream, what
    they mean given the tables still held, and the decoder that executes them. */
module SequencesSection {
  import opened Bits
  import opened BitReader
  import opened FseSpread
  import opened Fse
  import opened FseTables
  import opened FseDescription
  import opened SequenceCodes
  import opened SequenceBits
  import opened SequenceExecution
  import opened SequenceDecoder
  import opened BlockDecoder
  import opened FastSequences
  import opened MatchCopy
  import opened SectionHeaders
  import R = RepeatOffsets

  // ---------------------------------------------------------------- the three kinds of tables

  datatype TableKind = LiteralLengths | Offsets | MatchLengths

  function MaxSymbol(kind: TableKind): nat {
    match kind
    case LiteralLengths => 35
    case Offsets => 31
    case MatchLengths => 52
  }

  function MaxLog(kind: TableKind): nat {
    if kind.Offsets? then 8 else 9
  }

  function PredefinedLog(kind: TableKind): nat {
    if kind.Offsets? then 5 else 6
  }

  function Run(n: nat, count: int): (run: seq<int>)
    ensures |run| == n
  {
    seq(n, _ => count)
  }

  /** The default distributions of section 3.1.1.3.2.2 of RFC 8878, as runs. */
  function PredefinedCounts(kind: TableKind): seq<int> {
    match kind
    case LiteralLengths => [4, 3] + Run(11, 2) + Run(3, 1) + Run(9, 2) + [3, 2] + Run(5, 1) + Run(4, -1)
    case Offsets => Run(6, 1) + Run(3, 2) + Run(15, 1) + Run(5, -1)
    case MatchLengths => [1, 4, 3] + Run(6, 2) + Run(37, 1) + Run(7, -1)
  }

  lemma {:induction false} RunSum(n: nat, count: int)
    requires -1 <= count
    ensures EffectiveSum(Run(n, count)) == n * CellsOf(count)
    decreases n
  {
    if n > 0 {
      RunSum(n - 1, count);
      assert Run(n, count)[..n - 1] == Run(n - 1, count);
    }
  }

  lemma LiteralLengthSum()
    ensures EffectiveSum(PredefinedCounts(LiteralLengths)) == 64
  {
    hide EffectiveSum;
    var a, b := [4, 3], [3, 2];
    SumConcat(a + Run(11, 2) + Run(3, 1) + Run(9, 2) + b + Run(5, 1), Run(4, -1));
    SumConcat(a + Run(11, 2) + Run(3, 1) + Run(9, 2) + b, Run(5, 1));
    SumConcat(a + Run(11, 2) + Run(3, 1) + Run(9, 2), b);
    SumConcat(a + Run(11, 2) + Run(3, 1), Run(9, 2));
    SumConcat(a + Run(11, 2), Run(3, 1));
    SumConcat(a, Run(11, 2));
    RunSum(11, 2);
    RunSum(3, 1);
    RunSum(9, 2);
    RunSum(5, 1);
    RunSum(4, -1);
    PairSum(4, 3);
    PairSum(3, 2);
  }

  lemma PairSum(x: int, y: int)
    requires x >= 0 && y >= 0
    ensures EffectiveSum([x, y]) == x + y
  {
    assert [x, y] == Run(1, x) + Run(1, y);
    SumConcat(Run(1, x), Run(1, y));
    RunSum(1, x);
    RunSum(1, y);
  }

  lemma OffsetSum()
    ensures EffectiveSum(PredefinedCounts(Offsets)) == 32
  {
    hide EffectiveSum;
    SumConcat(Run(6, 1) + Run(3, 2) + Run(15, 1), Run(5, -1));
    SumConcat(Run(6, 1) + Run(3, 2), Run(15, 1));
    SumConcat(Run(6, 1), Run(3, 2));
    RunSum(6, 1);
    RunSum(3, 2);
    RunSum(15, 1);
    RunSum(5, -1);
  }

  lemma MatchLengthSum()
    ensures EffectiveSum(PredefinedCounts(MatchLengths)) == 64
  {
    hide EffectiveSum;
    SumConcat([1, 4, 3] + Run(6, 2) + Run(37, 1), Run(7, -1));
    SumConcat([1, 4, 3] + Run(6, 2), Run(37, 1));
    SumConcat([1, 4, 3], Run(6, 2));
    RunSum(6, 2);
    RunSum(37, 1);
    RunSum(7, -1);
    assert [1, 4, 3] == Run(1, 1) + [4, 3];
    SumConcat(Run(1, 1), [4, 3]);
    RunSum(1, 1);
    PairSum(4, 3);
  }

  /** Every default distribution fills its table. */
  lemma PredefinedValid(kind: TableKind)
    ensures ValidCounts(PredefinedCounts(kind), PredefinedLog(kind))
    ensures |PredefinedCounts(kind)| == match kind case LiteralLengths => 36 case Offsets => 29 case MatchLengths => 53
  {
    hide EffectiveSum;
    LiteralLengthSum();
    OffsetSum();
    MatchLengthSum();
    assert Pow2(5) == 32 && Pow2(6) == 64;
  }

  // ---------------------------------------------------------------- reading one table

  /** A table of its kind: small enough, and only symbols of the kind. */
  ghost predicate FitsKind(kind: TableKind, t: Tans) {
    ValidTans(t) && t.log <= MaxLog(kind) && forall c: nat :: c < |t.cells| ==> t.cells[c] <= MaxSymbol(kind)
  }

  ghost predicate HeldFits(kind: TableKind, held: Option<Tans>) {
    held.Some? ==> FitsKind(kind, held.value)
  }

  ghost function PredefinedTans(kind: TableKind): Tans {
    PredefinedValid(kind);
    TansOf(PredefinedCounts(kind), PredefinedLog(kind))
  }

  lemma TansFits(kind: TableKind, counts: seq<int>, log: nat)
    requires ValidCounts(counts, log) && 5 <= log <= MaxLog(kind) && |counts| <= MaxSymbol(kind) + 1
    ensures FitsKind(kind, TansOf(counts, log))
  {
    hide EffectiveSum, Pow2;
    CellsOfTans(counts, log);
  }

  lemma RleFits(kind: TableKind, symbol: nat)
    requires symbol <= MaxSymbol(kind)
    ensures FitsKind(kind, RleTans(symbol))
  {
  }

  lemma PredefinedFits(kind: TableKind)
    ensures FitsKind(kind, PredefinedTans(kind))
  {
    hide PredefinedCounts;
    PredefinedValid(kind);
    TansFits(kind, PredefinedCounts(kind), PredefinedLog(kind));
  }

  /** The table a mode asks for and the bytes it takes: the default one, one symbol, a description,
      or the one still held. */
  ghost function TableFor(kind: TableKind, mode: TableMode, input: seq<byte>,
                          held: Option<Tans>): (r: Option<(Tans, nat)>)
    requires HeldFits(kind, held)
    ensures r.Some? ==> FitsKind(kind, r.value.0) && r.value.1 <= |input|
  {
    match mode
    case PredefinedMode => PredefinedFits(kind); Some((PredefinedTans(kind), 0))
    case RleMode =>
      if input == [] || input[0] > MaxSymbol(kind) then None else RleFits(kind, input[0]); Some((RleTans(input[0]), 1))
    case CompressedMode =>
      var p := Parse(input, MaxLog(kind), MaxSymbol(kind));
      if p.None? then None
      else TansFits(kind, p.value.counts, p.value.log); Some((TansOf(p.value.counts, p.value.log), p.value.bytesUsed))
    case RepeatMode => if held.None? then None else Some((held.value, 0))
  }

  /** The decoder's table object and ready flag stand for the held table. */
  ghost predicate TableHolds(table: FseDecodeTable, ready: bool, held: Option<Tans>)
    reads table
  {
    |table.entries| == MAX_TABLE_SIZE && (ready <==> held.Some?) && (held.Some? ==> table.Decodes(held.value))
  }

  /** `read_table_for_mode`. */
  method ReadTableForMode(kind: TableKind, mode: TableMode, input: seq<byte>, table: FseDecodeTable, ready: bool,
                          ghost held: Option<Tans>)
    returns (ok: bool, bytesUsed: nat)
    requires HeldFits(kind, held) && TableHolds(table, ready, held)
    modifies table
    ensures ok <==> TableFor(kind, mode, input, held).Some?
    ensures ok ==> var (t, used) := TableFor(kind, mode, input, held).value;
                   bytesUsed == used && TableHolds(table, true, Some(t))
    ensures mode.RepeatMode? ==> unchanged(table) && (ok ==> held == Some(TableFor(kind, mode, input, held).value.0))
  {
    hide Parse, TansOf, PredefinedCounts, FseDecodeTable.Decodes, ValidCounts, FitsKind, RleTans;
    bytesUsed := 0;
    match mode {
      case PredefinedMode =>
        PredefinedValid(kind);
        ok := table.Build(PredefinedCounts(kind), PredefinedLog(kind));
        TableSized(table, PredefinedTans(kind));
      case RleMode =>
        if |input| == 0 {
          return false, 0;
        }
        if input[0] > MaxSymbol(kind) {
          return false, 0;
        }
        table.BuildRle(input[0]);
        TableSized(table, RleTans(input[0]));
        return true, 1;
      case CompressedMode =>
        ok, bytesUsed := ReadDescription(input, MaxLog(kind), MaxSymbol(kind), table);
        if ok {
          var p := Parse(input, MaxLog(kind), MaxSymbol(kind)).value;
          TableSized(table, TansOf(p.counts, p.log));
        }
      case RepeatMode =>
        ok := ready;
    }
  }

  lemma TableSized(table: FseDecodeTable, t: Tans)
    requires table.Decodes(t)
    ensures |table.entries| == MAX_TABLE_SIZE
  {
  }

  // ---------------------------------------------------------------- the three tables of a section

  datatype HeldTables = HeldTables(ll: Option<Tans>, of: Option<Tans>, ml: Option<Tans>)

  ghost predicate ValidTablesHeld(held: HeldTables) {
    HeldFits(LiteralLengths, held.ll) && HeldFits(Offsets, held.of) && HeldFits(MatchLengths, held.ml)
  }

  /** Literal lengths, offsets, match lengths, in the order of their descriptions. */
  ghost function TablesFor(header: SequencesHeader, input: seq<byte>, held: HeldTables): (r: Option<(Tables, nat)>)
    requires ValidTablesHeld(held)
    ensures r.Some? ==> ValidTables(r.value.0) && OffsetsSmall(r.value.0) && r.value.1 <= |input|
    ensures r.Some? ==> ValidTablesHeld(HeldTables(Some(r.value.0.ll), Some(r.value.0.of), Some(r.value.0.ml)))
  {
    hide ValidTans, TableFor;
    var ll := TableFor(LiteralLengths, header.literalLengthMode, input, held.ll);
    if ll.None? then None
    else
      var rest := input[ll.value.1..];
      var of := TableFor(Offsets, header.offsetMode, rest, held.of);
      if of.None? then None
      else
        var last := rest[of.value.1..];
        var ml := TableFor(MatchLengths, header.matchLengthMode, last, held.ml);
        if ml.None? then None
        else Some((Tables(ll.value.0, of.value.0, ml.value.0), ll.value.1 + of.value.1 + ml.value.1))
  }

  /** Everything decoded so far, the repeat offsets, and the tables held. */
  datatype SequencesRead = SequencesRead(out: seq<byte>, history: R.History, held: HeldTables)

  /** A sequences section: without sequences only the literals; otherwise three tables and a stream. */
  ghost function SequencesOf(input: seq<byte>, literals: seq<byte>, capacity: nat, out: seq<byte>, history: R.History,
                             held: HeldTables)
    : (r: Option<SequencesRead>)
    requires ValidTablesHeld(held)
    ensures r.Some? ==> ValidTablesHeld(r.value.held)
  {
    var header := ReadSequencesHeader(input);
    if header.None? then None
    else if header.value.sequenceCount == 0 then
      if |input| != header.value.headerLength then None
      else JustLiterals(literals, capacity, out, history, held)
    else
      var body := input[header.value.headerLength..];
      var tables := TablesFor(header.value, body, held);
      if tables.None? then None
      else Executed(tables.value.0, body[tables.value.1..], header.value.sequenceCount, literals, capacity, out,
                    history)
  }

  ghost function JustLiterals(literals: seq<byte>, capacity: nat, out: seq<byte>, history: R.History,
                              held: HeldTables): (r: Option<SequencesRead>)
    ensures r.Some? ==> r.value.held == held
  {
    var m := TakeRest(Env(literals, |out|, capacity), Machine(out, 0, history));
    if m.None? then None else Some(SequencesRead(m.value.out, m.value.history, held))
  }

  ghost function Executed(t: Tables, bitstream: seq<byte>, count: nat, literals: seq<byte>, capacity: nat,
                          out: seq<byte>, history: R.History)
    : (r: Option<SequencesRead>)
    requires ValidTables(t)
    ensures r.Some? ==> r.value.held == HeldTables(Some(t.ll), Some(t.of), Some(t.ml))
  {
    var m := Section(t, bitstream, count, Env(literals, |out|, capacity), Machine(out, 0, history));
    if m.None? then None
    else Some(SequencesRead(m.value.out, m.value.history, HeldTables(Some(t.ll), Some(t.of), Some(t.ml))))
  }

  // ---------------------------------------------------------------- the decoder's state

  class SequenceState {
    const tables: SequenceTables
    const fastTables: FastSequenceTables
    const repeatOffsets: R.RepeatOffsets
    var literalLengthReady: bool
    var offsetReady: bool
    var matchLengthReady: bool

    ghost predicate Apart() {
      && tables.literalLength != tables.offset && tables.offset != tables.matchLength
      && tables.literalLength != tables.matchLength
      && fastTables.literalLength != fastTables.offset && fastTables.offset != fastTables.matchLength
      && fastTables.literalLength != fastTables.matchLength
    }

    /** A fast table not marked dirty expands the held table. */
    ghost predicate CleanHolds(dirty: bool, fast: FastSequenceTable, held: Option<Tans>, ranges: nat -> Range)
      reads fast
    {
      !dirty ==> held.Some? && fast.Expands(held.value, ranges)
    }

    ghost predicate Holds(held: HeldTables)
      reads this, tables.literalLength, tables.offset, tables.matchLength
      reads fastTables, fastTables.literalLength, fastTables.offset, fastTables.matchLength
    {
      && Apart() && ValidTablesHeld(held)
      && TableHolds(tables.literalLength, literalLengthReady, held.ll)
      && TableHolds(tables.offset, offsetReady, held.of)
      && TableHolds(tables.matchLength, matchLengthReady, held.ml)
      && CleanHolds(fastTables.literalLengthDirty, fastTables.literalLength, held.ll, LiteralLengthRange)
      && CleanHolds(fastTables.offsetDirty, fastTables.offset, held.of, OffsetRange)
      && CleanHolds(fastTables.matchLengthDirty, fastTables.matchLength, held.ml, MatchLengthRange)
    }

    /** `BlockWorkspace::reset_history`, over fresh tables. */
    constructor ()
      ensures Holds(HeldTables(None, None, None)) && repeatOffsets.State() == R.INITIAL
      ensures fresh(repeatOffsets) && fresh(tables.literalLength) && fresh(tables.offset) && fresh(tables.matchLength)
      ensures fresh(fastTables) && fresh(fastTables.literalLength) && fresh(fastTables.offset)
      ensures fresh(fastTables.matchLength)
    {
      var literalLength := new FseDecodeTable();
      var offset := new FseDecodeTable();
      var matchLength := new FseDecodeTable();
      tables := new SequenceTables(literalLength, offset, matchLength);
      fastTables := new FastSequenceTables();
      repeatOffsets := new R.RepeatOffsets();
      literalLengthReady, offsetReady, matchLengthReady := false, false, false;
    }

    /** Tables that are not repeated must be expanded again. */
    method MarkDirty(header: SequencesHeader)
      modifies fastTables`literalLengthDirty, fastTables`offsetDirty, fastTables`matchLengthDirty
      ensures fastTables.literalLengthDirty
            <==> old(fastTables.literalLengthDirty) || !header.literalLengthMode.RepeatMode?
      ensures fastTables.offsetDirty <==> old(fastTables.offsetDirty) || !header.offsetMode.RepeatMode?
      ensures fastTables.matchLengthDirty <==> old(fastTables.matchLengthDirty) || !header.matchLengthMode.RepeatMode?
    {
      if !header.literalLengthMode.RepeatMode? {
        fastTables.literalLengthDirty := true;
      }
      if !header.offsetMode.RepeatMode? {
        fastTables.offsetDirty := true;
      }
      if !header.matchLengthMode.RepeatMode? {
        fastTables.matchLengthDirty := true;
      }
    }

    /** All three tables are read. */
    method TablesRead(header: SequencesHeader, ghost held: HeldTables, ghost t: Tables)
      requires Apart() && ValidTables(t) && ValidTablesHeld(HeldTables(Some(t.ll), Some(t.of), Some(t.ml)))
      requires TableHolds(tables.literalLength, true, Some(t.ll)) && TableHolds(tables.offset, true, Some(t.of))
      requires TableHolds(tables.matchLength, true, Some(t.ml))
      requires CleanHolds(fastTables.literalLengthDirty, fastTables.literalLength, held.ll, LiteralLengthRange)
      requires CleanHolds(fastTables.offsetDirty, fastTables.offset, held.of, OffsetRange)
      requires CleanHolds(fastTables.matchLengthDirty, fastTables.matchLength, held.ml, MatchLengthRange)
      requires header.literalLengthMode.RepeatMode? ==> held.ll == Some(t.ll)
      requires header.offsetMode.RepeatMode? ==> held.of == Some(t.of)
      requires header.matchLengthMode.RepeatMode? ==> held.ml == Some(t.ml)
      modifies this, fastTables`literalLengthDirty, fastTables`offsetDirty, fastTables`matchLengthDirty
      ensures Holds(HeldTables(Some(t.ll), Some(t.of), Some(t.ml))) && tables.Decode(t) && fastTables.CleanIsCurrent(t)
      ensures literalLengthReady && offsetReady && matchLengthReady
    {
      hide *;
      literalLengthReady, offsetReady, matchLengthReady := true, true, true;
      CleanStays(fastTables.literalLengthDirty, fastTables.literalLength, held.ll, t.ll, LiteralLengthRange,
                 header.literalLengthMode);
      CleanStays(fastTables.offsetDirty, fastTables.offset, held.of, t.of, OffsetRange, header.offsetMode);
      CleanStays(fastTables.matchLengthDirty, fastTables.matchLength, held.ml, t.ml, MatchLengthRange,
                 header.matchLengthMode);
      MarkDirty(header);
      AllTablesHold(t);
    }

    /** `read_sequence_tables`, and the dirty flags of the tables it changed. */
    method ReadSequenceTables(header: SequencesHeader, input: seq<byte>, ghost held: HeldTables)
      returns (ok: bool, bytesUsed: nat)
      requires Holds(held)
      modifies this, tables.literalLength, tables.offset, tables.matchLength, fastTables
      ensures ok <==> TablesFor(header, input, held).Some?
      ensures ok ==> var (t, used) := TablesFor(header, input, held).value;
                     && bytesUsed == used && Holds(HeldTables(Some(t.ll), Some(t.of), Some(t.ml)))
                     && tables.Decode(t) && fastTables.CleanIsCurrent(t)
      ensures ok ==> literalLengthReady && offsetReady && matchLengthReady
    {
      hide *;
      HoldsParts(held);
      TablesForIs(header, input, held);
      bytesUsed := 0;
      var read, used := ReadTableForMode(LiteralLengths, header.literalLengthMode, input, tables.literalLength,
                                         literalLengthReady, held.ll);
      if !read {
        return false, 0;
      }
      var rest := input[used..];
      var readOffset, usedOffset := ReadTableForMode(Offsets, header.offsetMode, rest, tables.offset, offsetReady,
                                                     held.of);
      if !readOffset {
        return false, 0;
      }
      var last := rest[usedOffset..];
      var readMatch, usedMatch := ReadTableForMode(MatchLengths, header.matchLengthMode, last, tables.matchLength,
                                                   matchLengthReady, held.ml);
      if !readMatch {
        return false, 0;
      }
      TablesRead(header, held, TablesFor(header, input, held).value.0);
      return true, used + usedOffset + usedMatch;
    }

    /** `decode_sequences_section`: accepts exactly the sections that mean something, for any source
        of literals, and leaves the output outside the block's reach alone. `after` is what follows
        the literals in their buffer. */
    method DecodeSequencesSection(input: seq<byte>, source: LiteralSource, after: seq<byte>, output: array<byte>,
                                  outputPosition: nat, ghost held: HeldTables)
      returns (ok: bool, newPosition: nat)
      requires Holds(held) && outputPosition <= output.Length && Parked(source, outputPosition, output.Length)
      requires source.InOutput? ==> source.start + source.count + 15 <= output.Length
      modifies this, tables.literalLength, tables.offset, tables.matchLength, repeatOffsets, output
      modifies fastTables, fastTables.literalLength, fastTables.offset, fastTables.matchLength
      ensures Parked(source, 0, output.Length)
      ensures var r := SequencesOf(input, LiteralBytes(source, old(output[..])), output.Length,
                                   old(output[..outputPosition]),
                                   old(repeatOffsets.State()), held);
              && (ok <==> r.Some?)
              && (ok ==> && newPosition <= output.Length && output[..newPosition] == r.value.out
                         && repeatOffsets.State() == r.value.history && Holds(r.value.held))
      ensures ok ==> KeptOutside(old(output[..]), output[..], outputPosition, outputPosition + MAX_BLOCK_SIZE + 15)
    {
      hide *;
      ParkedFromStart(source, outputPosition, output.Length);
      ghost var literals := LiteralBytes(source, output[..]);
      ghost var out, history := output[..outputPosition], repeatOffsets.State();
      ghost var env, m := Env(literals, outputPosition, output.Length), Machine(out, 0, history);
      HoldsParts(held);
      SequencesIs(input, literals, output.Length, out, history, held);
      StartMatches(env, m, source, output, outputPosition);
      newPosition := 0;
      var header := ReadSequencesHeader(input);
      if header.None? {
        return false, 0;
      }
      HeaderFits(input);
      if header.value.sequenceCount == 0 {
        if |input| != header.value.headerLength {
          return false, 0;
        }
        ok, newPosition := TakeRemaining(source, 0, output, outputPosition, outputPosition, env, m);
        JustLiteralsIs(literals, output.Length, out, history, held);
        return;
      }
      var body := input[header.value.headerLength..];
      var read, bytesUsed := ReadSequenceTables(header.value, body, held);
      if !read {
        return false, 0;
      }
      TablesForIs(header.value, body, held);
      ghost var t := TablesFor(header.value, body, held).value.0;
      ExecutedIs(t, body[bytesUsed..], header.value.sequenceCount, literals, output.Length, out, history);
      ok, newPosition := DecodeSequences(body[bytesUsed..], tables, fastTables, header.value.sequenceCount, source,
                                         after, output, outputPosition, repeatOffsets, t, env, m);
      TablesStay(t);
    }

    /** Expanding tables leaves the tables themselves alone. */
    lemma TablesStay(t: Tables)
      requires Apart() && ValidTablesHeld(HeldTables(Some(t.ll), Some(t.of), Some(t.ml)))
      requires literalLengthReady && offsetReady && matchLengthReady && tables.Decode(t) && fastTables.CleanIsCurrent(t)
      ensures Holds(HeldTables(Some(t.ll), Some(t.of), Some(t.ml)))
    {
      hide FastSequenceTable.Expands, FitsKind, ValidTans;
    }

    lemma HoldsParts(held: HeldTables)
      requires Holds(held)
      ensures Apart() && ValidTablesHeld(held)
      ensures tables.literalLength != tables.offset && tables.offset != tables.matchLength
      ensures tables.literalLength != tables.matchLength
      ensures HeldFits(LiteralLengths, held.ll) && HeldFits(Offsets, held.of) && HeldFits(MatchLengths, held.ml)
      ensures TableHolds(tables.literalLength, literalLengthReady, held.ll)
      ensures TableHolds(tables.offset, offsetReady, held.of)
      ensures TableHolds(tables.matchLength, matchLengthReady, held.ml)
      ensures CleanHolds(fastTables.literalLengthDirty, fastTables.literalLength, held.ll, LiteralLengthRange)
      ensures CleanHolds(fastTables.offsetDirty, fastTables.offset, held.of, OffsetRange)
      ensures CleanHolds(fastTables.matchLengthDirty, fastTables.matchLength, held.ml, MatchLengthRange)
    {
      hide FitsKind, TableHolds, CleanHolds;
    }

    lemma CleanStays(dirty: bool, fast: FastSequenceTable, held: Option<Tans>, t: Tans, ranges: nat -> Range,
                     mode: TableMode)
      requires CleanHolds(dirty, fast, held, ranges) && (mode.RepeatMode? ==> held == Some(t))
      ensures CleanHolds(dirty || !mode.RepeatMode?, fast, Some(t), ranges)
    {
      hide FastSequenceTable.Expands;
    }

    lemma AllTablesHold(t: Tables)
      requires Apart() && literalLengthReady && offsetReady && matchLengthReady
      requires ValidTables(t) && ValidTablesHeld(HeldTables(Some(t.ll), Some(t.of), Some(t.ml)))
      requires TableHolds(tables.literalLength, true, Some(t.ll)) && TableHolds(tables.offset, true, Some(t.of))
      requires TableHolds(tables.matchLength, true, Some(t.ml))
      requires CleanHolds(fastTables.literalLengthDirty, fastTables.literalLength, Some(t.ll), LiteralLengthRange)
      requires CleanHolds(fastTables.offsetDirty, fastTables.offset, Some(t.of), OffsetRange)
      requires CleanHolds(fastTables.matchLengthDirty, fastTables.matchLength, Some(t.ml), MatchLengthRange)
      ensures Holds(HeldTables(Some(t.ll), Some(t.of), Some(t.ml))) && tables.Decode(t) && fastTables.CleanIsCurrent(t)
    {
      hide FseDecodeTable.Decodes, FastSequenceTable.Expands, FitsKind, ValidTans;
    }
  }

  lemma TablesForIs(header: SequencesHeader, input: seq<byte>, held: HeldTables)
    requires ValidTablesHeld(held)
    ensures HeldFits(LiteralLengths, held.ll) && HeldFits(Offsets, held.of) && HeldFits(MatchLengths, held.ml)
    ensures var ll := TableFor(LiteralLengths, header.literalLengthMode, input, held.ll);
            && (ll.None? ==> TablesFor(header, input, held).None?)
            && (ll.Some? ==>
                  && ll.value.1 <= |input|
                  && var rest := input[ll.value.1..];
                  var of := TableFor(Offsets, header.offsetMode, rest, held.of);
                  && (of.None? ==> TablesFor(header, input, held).None?)
                  && (of.Some? ==>
                        && of.value.1 <= |rest|
                        && var ml := TableFor(MatchLengths, header.matchLengthMode, rest[of.value.1..], held.ml);
                        TablesFor(header, input, held)
                        == if ml.None? then None
                           else Some((Tables(ll.value.0, of.value.0, ml.value.0),
                                      ll.value.1 + of.value.1 + ml.value.1))))
  {
    hide TableFor, FitsKind;
  }

  lemma ParkedFromStart(source: LiteralSource, position: nat, size: nat)
    requires Parked(source, position, size)
    ensures Parked(source, 0, size)
  {
  }

  lemma StartMatches(env: Env, m: Machine, source: LiteralSource, output: array<byte>, position: nat)
    requires position <= output.Length && output[..position] == m.out && m.cursor == 0
    requires Parked(source, position, output.Length) && Parked(source, 0, output.Length)
    requires env == Env(LiteralBytes(source, output[..]), position, output.Length)
    ensures Matches(env, m, source, output, position, 0, position)
  {
  }

  lemma HeaderFits(input: seq<byte>)
    ensures ReadSequencesHeader(input).Some? ==> ReadSequencesHeader(input).value.headerLength <= |input|
  {
  }

  lemma SequencesIs(input: seq<byte>, literals: seq<byte>, capacity: nat, out: seq<byte>, history: R.History,
                    held: HeldTables)
    requires ValidTablesHeld(held)
    ensures var header := ReadSequencesHeader(input);
            && (header.None? ==> SequencesOf(input, literals, capacity, out, history, held).None?)
            && (header.Some? ==>
                  && header.value.headerLength <= |input|
                  && (header.value.sequenceCount == 0 ==>
                        SequencesOf(input, literals, capacity, out, history, held)
                        == if |input| != header.value.headerLength then None
                           else JustLiterals(literals, capacity, out, history, held))
                  && (header.value.sequenceCount != 0 ==>
                        var body := input[header.value.headerLength..];
                        var tables := TablesFor(header.value, body, held);
                        && (tables.None? ==> SequencesOf(input, literals, capacity, out, history, held).None?)
                        && (tables.Some? ==>
                              && ValidTables(tables.value.0) && OffsetsSmall(tables.value.0) && tables.value.1 <= |body|
                              && SequencesOf(input, literals, capacity, out, history, held)
                                 == Executed(tables.value.0, body[tables.value.1..], header.value.sequenceCount,
                                             literals, capacity, out, history))))
  {
    hide ReadSequencesHeader, TablesFor, JustLiterals, Executed, ValidTables, OffsetsSmall, FitsKind;
  }

  lemma JustLiteralsIs(literals: seq<byte>, capacity: nat, out: seq<byte>, history: R.History, held: HeldTables)
    ensures var m := TakeRest(Env(literals, |out|, capacity), Machine(out, 0, history));
            && JustLiterals(literals, capacity, out, history, held)
               == (if m.None? then None else Some(SequencesRead(m.value.out, m.value.history, held)))
            && (m.Some? ==> m.value.history == history)
  {
    hide TakeRest;
  }

  lemma ExecutedIs(t: Tables, bitstream: seq<byte>, count: nat, literals: seq<byte>, capacity: nat, out: seq<byte>,
                   history: R.History)
    requires ValidTables(t)
    ensures var m := Section(t, bitstream, count, Env(literals, |out|, capacity), Machine(out, 0, history));
            Executed(t, bitstream, count, literals, capacity, out, history)
            == if m.None? then None
               else Some(SequencesRead(m.value.out, m.value.history, HeldTables(Some(t.ll), Some(t.of), Some(t.ml))))
  {
    hide Section, ValidTables;
  }
}
