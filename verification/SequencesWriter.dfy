/** Writing a sequences section: a table for each kind of code, its description, and the stream.
    The estimates that weigh the tables against each other are parameters; whichever table wins,
    the section reads back as its records. */
module SequencesWriter {
  import opened Bits
  import opened BitReader
  import opened PackageMerge
  import opened CodeLengths
  import opened FseSpread
  import opened Fse
  import opened FseTables
  import opened FseDescription
  import opened NormalizeCounts
  import opened SequenceCodes
  import opened SequenceBits
  import opened SequenceExecution
  import opened SectionHeaders
  import opened SequencesSection
  import opened TableCosts
  import R = RepeatOffsets

  const QUICK_SEQUENCES_PER_SYMBOL := 9
  const DESCRIPTION_SCRATCH: nat := 320

  // ---------------------------------------------------------------- the encoder's table of one kind

  /** The table last used for a kind of code, and how it was sent. */
  datatype KindState = KindState(table: FseEncodeTable, mode: TableMode)

  predicate CanRepeat(mode: TableMode) {
    mode.CompressedMode? || mode.RepeatMode?
  }

  /** A table that may be repeated stands for the one the decoder holds. */
  ghost predicate EncoderHolds(s: KindState, kind: TableKind, held: Option<Tans>)
    reads s.table
  {
    && s.table.Sized() && (CanRepeat(s.mode) <==> held.Some?)
    && (held.Some? ==> FitsKind(kind, held.value) && s.table.Encodes(held.value) && s.table.MarksAbsent(held.value))
  }

  // ---------------------------------------------------------------- picking a table

  /** `single_distinct_symbol`. */
  method SingleDistinctSymbol(counts: seq<nat>) returns (single: Option<nat>)
    ensures single.Some? ==> && single.value < |counts| && counts[single.value] > 0
                             && forall s :: 0 <= s < |counts| && s != single.value ==> counts[s] == 0
    ensures single.None? ==> (forall s :: 0 <= s < |counts| ==> counts[s] == 0)
                             || exists s, r :: 0 <= s < r < |counts| && counts[s] > 0 && counts[r] > 0
  {
    single := None;
    for symbol := 0 to |counts|
      invariant single.Some? ==> && single.value < symbol && counts[single.value] > 0
                                 && forall s :: 0 <= s < symbol && s != single.value ==> counts[s] == 0
      invariant single.None? ==> forall s :: 0 <= s < symbol ==> counts[s] == 0
    {
      if counts[symbol] != 0 {
        if single.Some? {
          return None;
        }
        single := Some(symbol);
      }
    }
  }

  /** What the table must be for its description to say so. */
  ghost predicate Describable(kind: TableKind, s: KindState, t: Tans, before: Option<Tans>)
    reads s.table
  {
    && FitsKind(kind, t) && s.table.Encodes(t)
    && match s.mode
       case PredefinedMode => t == PredefinedTans(kind)
       case RleMode => exists symbol: nat :: SendsSymbol(kind, s.table, symbol) && t == RleTans(symbol)
       case CompressedMode => SendsCounts(kind, s.table) && t == TansOf(SentCounts(s.table), s.table.accuracyLog)
       case RepeatMode => before == Some(t)
  }

  ghost predicate SendsSymbol(kind: TableKind, table: FseEncodeTable, symbol: nat)
    reads table
  {
    && symbol <= MaxSymbol(kind) && symbol < MAX_SYMBOL_COUNT
    && table.normalizedCounts == seq(MAX_SYMBOL_COUNT, _ => 0)[symbol := 1]
  }

  function SentCounts(table: FseEncodeTable): seq<int>
    requires table.symbolCount <= |table.normalizedCounts|
    reads table
  {
    table.normalizedCounts[..table.symbolCount]
  }

  ghost predicate SendsCounts(kind: TableKind, table: FseEncodeTable)
    reads table
  {
    && table.symbolCount <= |table.normalizedCounts| && table.symbolCount <= MaxSymbol(kind) + 1
    && 5 <= table.accuracyLog <= MaxLog(kind) && ValidCounts(SentCounts(table), table.accuracyLog)
  }

  /** The estimated sizes of the same codes under their own and under the default table. */
  datatype Estimates = Estimates(entropyBits: nat, predefinedBits: nat)

  /** What a pick promises: the table encodes every code, can be described, and from now on may be
      repeated exactly when it was described or repeated. */
  ghost predicate Picked(kind: TableKind, s: KindState, t: Tans, before: Option<Tans>, counts: seq<nat>)
    reads s.table
  {
    && Describable(kind, s, t, before) && CoversCounts(t, counts)
    && EncoderHolds(s, kind, if CanRepeat(s.mode) then Some(t) else None)
  }

  method UsePredefined(kind: TableKind, counts: seq<nat>, ghost before: Option<Tans>)
    returns (s: KindState, ghost t: Tans)
    requires LargestSymbol(counts) < |PredefinedCounts(kind)|
    ensures fresh(s.table) && Picked(kind, s, t, before, counts) && t == PredefinedTans(kind) && s.mode.PredefinedMode?
  {
    hide ValidCounts, PredefinedCounts, TansOf, FseEncodeTable.Encodes, FseEncodeTable.MarksAbsent, FitsKind;
    PredefinedValid(kind);
    PredefinedFits(kind);
    var table := new FseEncodeTable();
    var ok := table.Build(PredefinedCounts(kind), PredefinedLog(kind));
    t := PredefinedTans(kind);
    s := KindState(table, PredefinedMode);
    TableIsSized(table, t);
    PredefinedCovers(kind, counts);
  }

  lemma TableIsSized(table: FseEncodeTable, t: Tans)
    requires table.Encodes(t)
    ensures table.Sized() && table.accuracyLog == t.log
  {
  }

  lemma PredefinedCovers(kind: TableKind, counts: seq<nat>)
    requires LargestSymbol(counts) < |PredefinedCounts(kind)|
    ensures CoversCounts(PredefinedTans(kind), counts)
  {
    hide Pow2, Count;
    PredefinedValid(kind);
    NoZeroes(kind);
    var t := PredefinedTans(kind);
    forall s | 0 <= s < |counts| && counts[s] > 0
      ensures Count(t, s) > 0
    {
      assert s <= LargestSymbol(counts);
    }
  }

  lemma NoZeroes(kind: TableKind)
    ensures forall s :: 0 <= s < |PredefinedCounts(kind)| ==> CellsOf(PredefinedCounts(kind)[s]) > 0
  {
  }

  method UseSingle(kind: TableKind, symbol: nat, counts: seq<nat>, ghost before: Option<Tans>)
    returns (s: KindState, ghost t: Tans)
    requires |counts| == MaxSymbol(kind) + 1 && symbol < |counts|
    requires forall i :: 0 <= i < |counts| && i != symbol ==> counts[i] == 0
    ensures fresh(s.table) && Picked(kind, s, t, before, counts) && s.mode.RleMode? && t == RleTans(symbol)
  {
    hide FseEncodeTable.Encodes, FseEncodeTable.MarksAbsent;
    RleFits(kind, symbol);
    var table := new FseEncodeTable();
    table.BuildRle(symbol);
    t := RleTans(symbol);
    s := KindState(table, RleMode);
    TableIsSized(table, t);
    assert SendsSymbol(kind, table, symbol);
    RleCovers(symbol, counts);
  }

  lemma RleCovers(symbol: nat, counts: seq<nat>)
    requires symbol < |counts| && forall i :: 0 <= i < |counts| && i != symbol ==> counts[i] == 0
    ensures CoversCounts(RleTans(symbol), counts)
  {
  }

  /** How large a table of its own would be. */
  function OwnLog(kind: TableKind, counts: seq<nat>, total: nat): nat {
    PickAccuracyLog(total, LargestSymbol(counts) + 1, MaxLog(kind))
  }

  /** The table of the counts themselves: the cells `normalize_counts` gives, and the bytes of its
      description. */
  ghost predicate IsOwn(kind: TableKind, counts: seq<nat>, total: nat, cells: seq<int>, bytes: nat, t: Tans) {
    var log := OwnLog(kind, counts, total);
    && 5 <= log <= 9 && ValidCounts(cells, log) && CellsGiven(counts, log, cells) && t == TansOf(cells, log)
    && |Description(cells, log)| <= 8 * bytes < |Description(cells, log)| + 8
  }

  lemma OwnWhen(kind: TableKind, counts: seq<nat>, total: nat, cells: seq<int>, bytes: nat)
    requires var log := OwnLog(kind, counts, total);
             && 5 <= log <= 9 && ValidCounts(cells, log) && CellsGiven(counts, log, cells)
             && |Description(cells, log)| <= 8 * bytes < |Description(cells, log)| + 8
    ensures IsOwn(kind, counts, total, cells, bytes, TansOf(cells, OwnLog(kind, counts, total)))
  {
    hide OwnLog, ValidCounts, CellsGiven, TansOf, Description;
  }

  /** Normalised counts, the table they give, and the size of its description: only normalising
      can fail. */
  method BuildCustomTable(kind: TableKind, counts: seq<nat>, total: nat, ghost before: Option<Tans>)
    returns (ok: bool, s: KindState, descriptionBytes: nat, ghost t: Tans, ghost cells: seq<int>)
    requires |counts| == MaxSymbol(kind) + 1 && total == Sum(counts)
    requires forall i :: 0 <= i < |counts| ==> counts[i] < 0x1_0000_0000
    ensures fresh(s.table)
    ensures ok <==> CanNormalize(counts, OwnLog(kind, counts, total))
    ensures ok ==> Picked(kind, s, t, before, counts) && s.mode.CompressedMode?
    ensures ok ==> IsOwn(kind, counts, total, cells, descriptionBytes, t)
  {
    hide *;
    var table := new FseEncodeTable();
    s, descriptionBytes, t, cells := KindState(table, CompressedMode), 0, Tans(0, []), [];
    KindLimits(kind);
    LogPicked(kind, total, counts);
    var accuracyLog := OwnLog(kind, counts, total);
    var normalized := new int[256](_ => 0);
    ok := Normalize(counts, total, accuracyLog, normalized);
    if !ok {
      return;
    }
    var sent := normalized[..|counts|];
    NormalizedCounts(counts, sent, accuracyLog);
    ok := table.Build(sent, accuracyLog);
    NormalizedValid(counts, sent, accuracyLog);
    t := TansOf(sent, accuracyLog);
    CustomPicked(kind, s, sent, accuracyLog, before, counts);
    DescriptionLength(sent, accuracyLog);
    ScratchSize();
    var scratch := new byte[DESCRIPTION_SCRATCH];
    ok, descriptionBytes := WriteDescription(sent, accuracyLog, scratch);
    cells := sent;
    OwnWhen(kind, counts, total, cells, descriptionBytes);
  }

  lemma KindLimits(kind: TableKind)
    ensures 5 <= MaxLog(kind) <= 9 && MaxSymbol(kind) < 53
  {
  }

  lemma ScratchSize()
    ensures DESCRIPTION_SCRATCH == 320
  {
  }

  lemma NormalizedCounts(counts: seq<nat>, sent: seq<int>, log: nat)
    requires Normalized(counts, sent, log) && 0 < |counts| <= 53 && 5 <= log <= 9
    ensures ValidCounts(sent, log)
  {
    hide EffectiveSum, Pow2;
  }

  lemma LogPicked(kind: TableKind, total: nat, counts: seq<nat>)
    ensures 5 <= OwnLog(kind, counts, total) <= MaxLog(kind)
  {
    hide HighestBit;
  }

  lemma NormalizedValid(counts: seq<nat>, sent: seq<int>, log: nat)
    requires Normalized(counts, sent, log) && ValidCounts(sent, log) && 5 <= log
    ensures |sent| == |counts| && CoversCounts(TansOf(sent, log), counts)
  {
    hide EffectiveSum, Pow2, Count;
  }

  lemma CustomPicked(kind: TableKind, s: KindState, sent: seq<int>, log: nat, before: Option<Tans>, counts: seq<nat>)
    requires s.mode.CompressedMode? && ValidCounts(sent, log) && 5 <= log <= MaxLog(kind)
    requires |sent| == MaxSymbol(kind) + 1
    requires s.table.Encodes(TansOf(sent, log)) && s.table.MarksAbsent(TansOf(sent, log))
    requires s.table.symbolCount == |sent|
    requires |s.table.normalizedCounts| == MAX_SYMBOL_COUNT && s.table.normalizedCounts[..|sent|] == sent
    requires CoversCounts(TansOf(sent, log), counts)
    ensures Picked(kind, s, TansOf(sent, log), before, counts)
  {
    hide ValidCounts, TansOf, FseEncodeTable.Encodes, FseEncodeTable.MarksAbsent, FitsKind, CoversCounts;
    TansFits(kind, sent, log);
    TableIsSized(s.table, TansOf(sent, log));
    TansLog(sent, log);
  }

  lemma TansLog(counts: seq<int>, log: nat)
    requires ValidCounts(counts, log) && 5 <= log
    ensures TansOf(counts, log).log == log
  {
    hide EffectiveSum, Pow2;
  }

  lemma RepeatPicked(kind: TableKind, s: KindState, held: Option<Tans>, counts: seq<nat>)
    requires EncoderHolds(s, kind, held) && held.Some? && CoversCounts(held.value, counts)
    ensures Picked(kind, KindState(s.table, RepeatMode), held.value, held, counts)
  {
    hide FseEncodeTable.Encodes, FseEncodeTable.MarksAbsent, FitsKind, CoversCounts;
  }

  lemma HoldsWhen(kind: TableKind, s: KindState, held: Option<Tans>)
    requires EncoderHolds(s, kind, held) && CanRepeat(s.mode)
    ensures held.Some? && s.table.Encodes(held.value) && s.table.MarksAbsent(held.value) && ValidTans(held.value)
  {
    hide FseEncodeTable.Encodes, FseEncodeTable.MarksAbsent, ValidTans;
  }

  /** Below this many records the quick choice does not consider a table of its own. */
  function FewestForOwnTable(kind: TableKind): nat {
    Pow2(PredefinedLog(kind)) * QUICK_SEQUENCES_PER_SYMBOL / 8
  }

  ghost predicate TwoOccur(counts: seq<nat>) {
    exists a, b :: 0 <= a < b < |counts| && counts[a] > 0 && counts[b] > 0
  }

  /** The quick choice of the default table: few records, or no code stands out. */
  ghost predicate QuickDefault(kind: TableKind, counts: seq<nat>, total: nat) {
    && LargestSymbol(counts) < |PredefinedCounts(kind)|
    && (|| total < FewestForOwnTable(kind)
        || (&& PredefinedLog(kind) >= 1
            && forall s :: 0 <= s < |counts| ==> counts[s] < Shr(total, PredefinedLog(kind) - 1)))
  }

  /** The cost of repeating a table: only the full choice asks for it, of a table that may be repeated and
      has cells for every code. */
  ghost function RepeatCost(s: KindState, held: Option<Tans>, counts: seq<nat>, quickChoice: bool): Option<nat>
    reads s.table
  {
    if !quickChoice && CanRepeat(s.mode) && held.Some? && ValidTans(held.value) && held.value.log > 0
       && |counts| <= s.table.symbolCount && CoversCounts(held.value, counts)
    then Some(CostOf(held.value, counts) / COST_SCALE) else None
  }

  /** The least of the costs compared decides; of equal ones the default table goes first, then the one held. */
  ghost predicate CheapestMode(mode: TableMode, supported: bool, predefinedCost: nat, repeatCost: Option<nat>,
                               ownCost: nat) {
    match mode
    case PredefinedMode =>
      supported && predefinedCost <= ownCost && (repeatCost.Some? ==> predefinedCost <= repeatCost.value)
    case RepeatMode =>
      repeatCost.Some? && repeatCost.value <= ownCost && (supported ==> repeatCost.value < predefinedCost)
    case CompressedMode =>
      (supported ==> ownCost < predefinedCost) && (repeatCost.Some? ==> ownCost < repeatCost.value)
    case RleMode => false
  }

  /** Which mode is picked: one code alone is sent as it is; the quick choice may settle for the default
      table; else the cheapest of the default table, the one held and the counts' own. */
  ghost predicate Chosen(kind: TableKind, counts: seq<nat>, total: nat, quickChoice: bool, estimates: Estimates,
                         repeatCost: Option<nat>, mode: TableMode, t: Tans) {
    if UsedCount(counts) == 1 then mode.RleMode?
    else if quickChoice && QuickDefault(kind, counts, total) then mode.PredefinedMode?
    else exists cells: seq<int>, bytes: nat, own: Tans ::
           && IsOwn(kind, counts, total, cells, bytes, own) && (mode.CompressedMode? ==> t == own)
           && CheapestMode(mode, LargestSymbol(counts) < |PredefinedCounts(kind)|, estimates.predefinedBits, repeatCost,
                           8 * bytes + estimates.entropyBits)
  }

  lemma ChosenAlone(kind: TableKind, counts: seq<nat>, total: nat, quickChoice: bool, estimates: Estimates,
                    repeatCost: Option<nat>, t: Tans)
    requires UsedCount(counts) == 1
    ensures Chosen(kind, counts, total, quickChoice, estimates, repeatCost, RleMode, t)
  {
    hide UsedCount;
  }

  lemma ChosenQuickly(kind: TableKind, counts: seq<nat>, total: nat, quickChoice: bool, estimates: Estimates,
                      repeatCost: Option<nat>, t: Tans)
    requires UsedCount(counts) != 1 && quickChoice && QuickDefault(kind, counts, total)
    ensures Chosen(kind, counts, total, quickChoice, estimates, repeatCost, PredefinedMode, t)
  {
    hide UsedCount, QuickDefault;
  }

  lemma ChosenByCost(kind: TableKind, counts: seq<nat>, total: nat, quickChoice: bool, estimates: Estimates,
                     repeatCost: Option<nat>, mode: TableMode, t: Tans, cells: seq<int>, bytes: nat, own: Tans)
    requires UsedCount(counts) != 1 && !(quickChoice && QuickDefault(kind, counts, total))
    requires IsOwn(kind, counts, total, cells, bytes, own) && (mode.CompressedMode? ==> t == own)
    requires CheapestMode(mode, LargestSymbol(counts) < |PredefinedCounts(kind)|, estimates.predefinedBits, repeatCost,
                          8 * bytes + estimates.entropyBits)
    ensures Chosen(kind, counts, total, quickChoice, estimates, repeatCost, mode, t)
  {
    hide UsedCount, QuickDefault, IsOwn, CheapestMode, LargestSymbol, PredefinedCounts;
  }

  lemma CheapestIs(supported: bool, predefinedCost: nat, repeatCost: Option<nat>, ownCost: nat)
    ensures CheapestMode(PredefinedMode, supported, predefinedCost, repeatCost, ownCost)
       <==> supported && predefinedCost <= ownCost && (repeatCost.Some? ==> predefinedCost <= repeatCost.value)
    ensures CheapestMode(RepeatMode, supported, predefinedCost, repeatCost, ownCost)
       <==> repeatCost.Some? && repeatCost.value <= ownCost && (supported ==> repeatCost.value < predefinedCost)
    ensures CheapestMode(CompressedMode, supported, predefinedCost, repeatCost, ownCost)
       <==> (supported ==> ownCost < predefinedCost) && (repeatCost.Some? ==> ownCost < repeatCost.value)
  {
  }

  /** The mode that is cheapest is one only. */
  lemma OneCheapest(a: TableMode, b: TableMode, supported: bool, predefinedCost: nat, repeatCost: Option<nat>,
                    ownCost: nat)
    requires CheapestMode(a, supported, predefinedCost, repeatCost, ownCost)
    requires CheapestMode(b, supported, predefinedCost, repeatCost, ownCost)
    ensures a == b
  {
  }

  lemma RepeatCostIs(s: KindState, held: Option<Tans>, counts: seq<nat>, quickChoice: bool)
    ensures RepeatCost(s, held, counts, quickChoice)
         == if !quickChoice && CanRepeat(s.mode) && held.Some? && ValidTans(held.value) && held.value.log > 0
               && |counts| <= s.table.symbolCount && CoversCounts(held.value, counts)
            then Some(CostOf(held.value, counts) / COST_SCALE) else None
  {
    hide CoversCounts, CostOf, ValidTans;
  }

  /** `pick_table_mode`: one symbol, the default table, the table held, or a new one, by the
      estimated costs. It fails exactly when the quick choice does not settle it and the counts
      cannot be normalised: one code alone always can. */
  method PickTableMode(kind: TableKind, counts: seq<nat>, total: nat, previous: KindState, quickChoice: bool,
                       estimates: Estimates, ghost held: Option<Tans>)
    returns (ok: bool, s: KindState, ghost t: Tans)
    requires |counts| == MaxSymbol(kind) + 1 && total == Sum(counts)
    requires forall i :: 0 <= i < |counts| ==> counts[i] < 0x1_0000_0000
    requires EncoderHolds(previous, kind, held)
    ensures s.table == previous.table || fresh(s.table)
    ensures ok
          <==> (quickChoice && QuickDefault(kind, counts, total)) || CanNormalize(counts, OwnLog(kind, counts, total))
    ensures ok ==> Picked(kind, s, t, held, counts)
    ensures ok ==>
              Chosen(kind, counts, total, quickChoice, estimates,
                     old(RepeatCost(previous, held, counts, quickChoice)), s.mode, t)
    ensures (&& quickChoice && TwoOccur(counts) && LargestSymbol(counts) < |PredefinedCounts(kind)|
             && total < FewestForOwnTable(kind)) ==>
              ok && t == PredefinedTans(kind) && s.mode.PredefinedMode?
  {
    hide *;
    s, t := previous, Tans(0, []);
    var single := SingleDistinctSymbol(counts);
    NotAlone(counts, single);
    if single.Some? {
      OneNormalizes(kind, counts, total, single.value);
      OneUsed(counts, single.value);
      s, t := UseSingle(kind, single.value, counts, held);
      ChosenAlone(kind, counts, total, quickChoice, estimates, RepeatCost(previous, held, counts, quickChoice), t);
      return true, s, t;
    }
    if exists s, r :: 0 <= s < r < |counts| && counts[s] > 0 && counts[r] > 0 {
      TwoThere(counts);
    }
    NotOne(counts);
    RepeatCostIs(previous, held, counts, quickChoice);
    var predefinedSupportsThis := LargestSymbol(counts) < |PredefinedCounts(kind)|;
    var canRepeat := CanRepeat(previous.mode);
    if quickChoice && predefinedSupportsThis {
      var largest := FindLargest(counts);
      LogsPositive(kind);
      var largestCount := if largest < |counts| then counts[largest] else 0;
      var fewestForOwnTable := FewestForOwnTable(kind);
      QuickWhen(kind, counts, total, largest);
      if total < fewestForOwnTable || largestCount < Shr(total, PredefinedLog(kind) - 1) {
        s, t := UsePredefined(kind, counts, held);
        ChosenQuickly(kind, counts, total, quickChoice, estimates, RepeatCost(previous, held, counts, quickChoice), t);
        return true, s, t;
      }
    }
    if !predefinedSupportsThis {
      NotQuick(kind, counts, total);
    }
    var custom, descriptionBytes;
    ghost var customTans, cells;
    ghost var repeat := RepeatCost(previous, held, counts, quickChoice);
    ok, custom, descriptionBytes, customTans, cells := BuildCustomTable(kind, counts, total, held);
    if !ok {
      return;
    }
    var customCost := descriptionBytes * 8 + estimates.entropyBits;
    CheapestIs(predefinedSupportsThis, estimates.predefinedBits, repeat, customCost);
    if !quickChoice {
      var repeatCost := None;
      if canRepeat {
        HoldsWhen(kind, previous, held);
        repeatCost := GetEncodeTableBits(previous.table, counts, held.value);
        assert repeatCost == repeat;
      }
      if predefinedSupportsThis && estimates.predefinedBits <= customCost
         && (repeatCost.None? || estimates.predefinedBits <= repeatCost.value) {
        s, t := UsePredefined(kind, counts, held);
        ChosenByCost(kind, counts, total, quickChoice, estimates, repeat, PredefinedMode, t, cells, descriptionBytes,
                     customTans);
        return true, s, t;
      }
      if repeatCost.Some? && repeatCost.value <= customCost {
        RepeatPicked(kind, previous, held, counts);
        ChosenByCost(kind, counts, total, quickChoice, estimates, repeat, RepeatMode, held.value, cells,
                     descriptionBytes, customTans);
        return true, KindState(previous.table, RepeatMode), held.value;
      }
    } else if predefinedSupportsThis && estimates.predefinedBits <= customCost {
      s, t := UsePredefined(kind, counts, held);
      ChosenByCost(kind, counts, total, quickChoice, estimates, repeat, PredefinedMode, t, cells, descriptionBytes,
                   customTans);
      return true, s, t;
    }
    ChosenByCost(kind, counts, total, quickChoice, estimates, repeat, CompressedMode, customTans, cells,
                 descriptionBytes, customTans);
    return true, custom, customTans;
  }

  lemma NotAlone(counts: seq<nat>, single: Option<nat>)
    requires single.Some? ==>
               single.value < |counts| && forall s :: 0 <= s < |counts| && s != single.value ==> counts[s] == 0
    ensures single.Some? ==> !TwoOccur(counts)
  {
  }

  lemma NotOne(counts: seq<nat>)
    requires (forall s :: 0 <= s < |counts| ==> counts[s] == 0) || TwoOccur(counts)
    ensures UsedCount(counts) != 1
  {
    hide UsedCount;
    if TwoOccur(counts) {
      var a, b :| 0 <= a < b < |counts| && counts[a] > 0 && counts[b] > 0;
      TwoUsed(counts, a, b);
    } else {
      OneUsed(counts, |counts|);
    }
  }

  lemma {:induction false} TwoUsed(counts: seq<nat>, a: nat, b: nat)
    requires a < b < |counts| && counts[a] > 0 && counts[b] > 0
    ensures UsedCount(counts) >= 2
  {
    var n := |counts| - 1;
    if b < n {
      TwoUsed(counts[..n], a, b);
    } else {
      PresentWhen(counts[..n]);
      assert counts[..n][a] > 0;
    }
  }

  lemma TwoThere(counts: seq<nat>)
    requires exists s, r :: 0 <= s < r < |counts| && counts[s] > 0 && counts[r] > 0
    ensures TwoOccur(counts)
  {
  }

  /** One code alone can be normalised. */
  lemma OneNormalizes(kind: TableKind, counts: seq<nat>, total: nat, single: nat)
    requires total == Sum(counts) && single < |counts| && counts[single] > 0
    requires forall s :: 0 <= s < |counts| && s != single ==> counts[s] == 0
    ensures CanNormalize(counts, OwnLog(kind, counts, total))
  {
    hide Sum, UsedCount, ShareWorks, OwnLog;
    KindLimits(kind);
    LogPicked(kind, total, counts);
    OneUsed(counts, single);
    CountAtMostSum(counts, single);
    PositivePower(OwnLog(kind, counts, total));
  }

  lemma {:induction false} OneUsed(counts: seq<nat>, single: nat)
    requires forall s :: 0 <= s < |counts| && s != single ==> counts[s] == 0
    ensures UsedCount(counts) == if single < |counts| && counts[single] > 0 then 1 else 0
  {
    if counts != [] {
      OneUsed(counts[..|counts| - 1], single);
    }
  }

  lemma QuickWhen(kind: TableKind, counts: seq<nat>, total: nat, largest: nat)
    requires LargestSymbol(counts) < |PredefinedCounts(kind)| && PredefinedLog(kind) >= 1
    requires FirstLargest(counts, largest)
    ensures largest < |counts|
    ensures QuickDefault(kind, counts, total)
       <==> total < FewestForOwnTable(kind) || counts[largest] < Shr(total, PredefinedLog(kind) - 1)
  {
    hide PredefinedCounts, PredefinedLog, FewestForOwnTable, Shr;
  }

  lemma NotQuick(kind: TableKind, counts: seq<nat>, total: nat)
    requires LargestSymbol(counts) >= |PredefinedCounts(kind)|
    ensures !QuickDefault(kind, counts, total)
  {
    hide PredefinedCounts;
  }

  lemma LogsPositive(kind: TableKind)
    ensures PredefinedLog(kind) >= 1
  {
  }

  // ---------------------------------------------------------------- descriptions

  /** In front of anything, for a decoder that agrees with `before`, the mode and bytes give `t`. */
  ghost predicate Says(kind: TableKind, mode: TableMode, bytes: seq<byte>, t: Tans, before: Option<Tans>) {
    forall after: seq<byte>, decoder: Option<Tans> ::
      HeldFits(kind, decoder) && (before.Some? ==> decoder == before) ==>
      TableFor(kind, mode, bytes + after, decoder) == Some((t, |bytes|))
  }

  lemma SaysNothing(kind: TableKind, mode: TableMode, t: Tans, before: Option<Tans>)
    requires mode.PredefinedMode? ==> t == PredefinedTans(kind)
    requires mode.RepeatMode? ==> before == Some(t)
    requires mode.PredefinedMode? || mode.RepeatMode?
    ensures Says(kind, mode, [], t, before)
  {
    hide FitsKind, Parse, PredefinedTans;
  }

  lemma SaysSymbol(kind: TableKind, symbol: byte, before: Option<Tans>)
    requires symbol <= MaxSymbol(kind)
    ensures Says(kind, RleMode, [symbol], RleTans(symbol), before)
  {
    hide FitsKind, Parse, PredefinedTans, RleTans;
    forall after: seq<byte>, decoder: Option<Tans> | HeldFits(kind, decoder)
      ensures TableFor(kind, RleMode, [symbol] + after, decoder) == Some((RleTans(symbol), 1))
    {
      assert ([symbol] + after)[0] == symbol;
    }
  }

  lemma SaysCounts(kind: TableKind, counts: seq<int>, log: nat, written: seq<byte>, before: Option<Tans>)
    requires ValidCounts(counts, log) && 5 <= log <= MaxLog(kind) && |counts| <= MaxSymbol(kind) + 1
    requires At(BytesToBits(written), 0, Description(counts, log)) && 8 * |written| < |Description(counts, log)| + 8
    ensures Says(kind, CompressedMode, written, TansOf(counts, log), before)
  {
    hide ValidCounts, FitsKind, Parse, PredefinedTans, TansOf, At, BytesToBits, Description, Trimmed;
    forall after: seq<byte>, decoder: Option<Tans> | HeldFits(kind, decoder)
      ensures TableFor(kind, CompressedMode, written + after, decoder) == Some((TansOf(counts, log), |written|))
    {
      ParseWritten(kind, counts, log, written, after);
    }
  }

  lemma ParseWritten(kind: TableKind, counts: seq<int>, log: nat, written: seq<byte>, after: seq<byte>)
    requires ValidCounts(counts, log) && 5 <= log <= MaxLog(kind) && |counts| <= MaxSymbol(kind) + 1
    requires At(BytesToBits(written), 0, Description(counts, log)) && 8 * |written| < |Description(counts, log)| + 8
    ensures Parse(written + after, MaxLog(kind), MaxSymbol(kind)) == Some(Parsed(Trimmed(counts), log, |written|))
    ensures ValidCounts(Trimmed(counts), log) && TansOf(Trimmed(counts), log) == TansOf(counts, log)
  {
    hide *;
    TrimmedShorter(counts);
    DescriptionRoundTrip(counts, log, written, after, MaxLog(kind), MaxSymbol(kind));
  }

  ghost predicate DescriptionFits(table: FseEncodeTable, room: nat)
    reads table
  {
    && table.symbolCount <= |table.normalizedCounts| && table.accuracyLog >= 5
    && ValidCounts(SentCounts(table), table.accuracyLog)
    && |Description(SentCounts(table), table.accuracyLog)| <= 8 * room
  }

  lemma FitsDescription(table: FseEncodeTable, room: nat)
    requires table.symbolCount <= |table.normalizedCounts| && table.accuracyLog >= 5
    requires ValidCounts(SentCounts(table), table.accuracyLog)
    ensures DescriptionFits(table, room) <==> |Description(SentCounts(table), table.accuracyLog)| <= 8 * room
  {
    hide ValidCounts, Description;
  }

  /** Bytes of the longest description: four bits, and at most twelve for each of 53 symbols. */
  const MAX_DESCRIPTION := 80

  lemma MaxDescription()
    ensures MAX_DESCRIPTION == 80
  {
  }

  lemma ShortDescription(kind: TableKind, table: FseEncodeTable)
    requires SendsCounts(kind, table)
    ensures table.symbolCount <= |table.normalizedCounts|
    ensures |Description(SentCounts(table), table.accuracyLog)| <= 8 * MAX_DESCRIPTION
  {
    hide ValidCounts, Description;
    DescriptionLength(SentCounts(table), table.accuracyLog);
  }

  /** `write_table_description`, an error exactly for lack of room. */
  method WriteTableDescription(kind: TableKind, s: KindState, room: nat, ghost t: Tans, ghost before: Option<Tans>)
    returns (bytes: Option<seq<byte>>)
    requires Describable(kind, s, t, before)
    ensures bytes.Some? ==> |bytes.value| <= room && Says(kind, s.mode, bytes.value, t, before)
    ensures s.mode.PredefinedMode? || s.mode.RepeatMode? ==> bytes == Some([])
    ensures s.mode.RleMode? ==> (bytes.Some? <==> room >= 1)
    ensures s.mode.CompressedMode? ==> SendsCounts(kind, s.table) && (bytes.Some? <==> DescriptionFits(s.table, room))
    ensures (room >= MAX_DESCRIPTION ==> bytes.Some?) && (bytes.Some? ==> |bytes.value| <= MAX_DESCRIPTION)
  {
    hide *;
    DescribableParts(kind, s, t, before);
    MaxDescription();
    match s.mode {
      case PredefinedMode =>
        SaysNothing(kind, s.mode, t, before);
        return Some([]);
      case RleMode =>
        ghost var sent: nat :| SendsSymbol(kind, s.table, sent) && t == RleTans(sent);
        SymbolSent(kind, s.table, sent);
        var symbol: nat := 0;
        while symbol < |s.table.normalizedCounts| && s.table.normalizedCounts[symbol] <= 0
          invariant symbol <= sent
        {
          symbol := symbol + 1;
        }
        if room < 1 {
          return None;
        }
        SaysSymbol(kind, symbol, before);
        return Some([symbol]);
      case CompressedMode =>
        CountsSent(kind, s.table);
        FitsDescription(s.table, room);
        ShortDescription(kind, s.table);
        var counts := SentCounts(s.table);
        var output := new byte[room];
        var ok, size := WriteDescription(counts, s.table.accuracyLog, output);
        if !ok {
          return None;
        }
        SaysCounts(kind, counts, s.table.accuracyLog, output[..size], before);
        return Some(output[..size]);
      case RepeatMode =>
        SaysNothing(kind, s.mode, t, before);
        return Some([]);
    }
  }

  lemma DescribableParts(kind: TableKind, s: KindState, t: Tans, before: Option<Tans>)
    requires Describable(kind, s, t, before)
    ensures FitsKind(kind, t) && s.table.Encodes(t)
    ensures s.mode.PredefinedMode? ==> t == PredefinedTans(kind)
    ensures s.mode.CompressedMode? ==> SendsCounts(kind, s.table)
    ensures s.mode.RleMode? ==> exists symbol: nat :: SendsSymbol(kind, s.table, symbol) && t == RleTans(symbol)
    ensures s.mode.CompressedMode? ==> SendsCounts(kind, s.table) && s.table.symbolCount <= |s.table.normalizedCounts|
                                       && ValidCounts(SentCounts(s.table), s.table.accuracyLog)
                                       && s.table.accuracyLog >= 5
                                       && t == TansOf(SentCounts(s.table), s.table.accuracyLog)
    ensures s.mode.RepeatMode? ==> before == Some(t)
  {
    hide FitsKind, FseEncodeTable.Encodes, ValidCounts, TansOf;
  }

  lemma SymbolSent(kind: TableKind, table: FseEncodeTable, symbol: nat)
    requires SendsSymbol(kind, table, symbol)
    ensures symbol < |table.normalizedCounts| && symbol <= MaxSymbol(kind) < 256 && table.normalizedCounts[symbol] > 0
    ensures forall i :: 0 <= i < |table.normalizedCounts| && i != symbol ==> table.normalizedCounts[i] == 0
  {
  }

  lemma CountsSent(kind: TableKind, table: FseEncodeTable)
    requires SendsCounts(kind, table)
    ensures table.symbolCount <= |table.normalizedCounts| && ValidCounts(SentCounts(table), table.accuracyLog)
    ensures 5 <= table.accuracyLog <= MaxLog(kind) && |SentCounts(table)| <= MaxSymbol(kind) + 1
  {
    hide ValidCounts;
  }

  // ---------------------------------------------------------------- the whole section

  datatype EncodeTables = EncodeTables(ll: KindState, of: KindState, ml: KindState)

  ghost predicate EncodersHold(e: EncodeTables, held: HeldTables)
    reads e.ll.table, e.of.table, e.ml.table
  {
    && EncoderHolds(e.ll, LiteralLengths, held.ll) && EncoderHolds(e.of, Offsets, held.of)
    && EncoderHolds(e.ml, MatchLengths, held.ml)
  }

  /** What the encoder may repeat the decoder holds. */
  ghost predicate TablesAgree(encoder: HeldTables, decoder: HeldTables) {
    && (encoder.ll.Some? ==> decoder.ll == encoder.ll)
    && (encoder.of.Some? ==> decoder.of == encoder.of)
    && (encoder.ml.Some? ==> decoder.ml == encoder.ml)
  }

  /** What decoding a section of these records should give. */
  ghost function Expected(records: seq<SequenceRecord>, t: Tables, literals: seq<byte>, capacity: nat, out: seq<byte>,
                          history: R.History, decoder: HeldTables): Option<SequencesRead>
  {
    if records == [] then JustLiterals(literals, capacity, out, history, decoder)
    else
      var env := Env(literals, |out|, capacity);
      var all := ExecuteAll(env, Machine(out, 0, history), records);
      if all.None? then None
      else
        var m := TakeRest(env, all.value);
        if m.None? then None
        else Some(SequencesRead(m.value.out, m.value.history, HeldTables(Some(t.ll), Some(t.of), Some(t.ml))))
  }

  /** For every decoder in agreement, the section's bytes mean its records. */
  ghost predicate CarriesRecords(bytes: seq<byte>, records: seq<SequenceRecord>, t: Tables, before: HeldTables) {
    forall decoder: HeldTables, literals: seq<byte>, capacity: nat, out: seq<byte>, history: R.History ::
      ValidTablesHeld(decoder) && TablesAgree(before, decoder) ==>
        SequencesOf(bytes, literals, capacity, out, history, decoder)
        == Expected(records, t, literals, capacity, out, history, decoder)
  }

  /** Header and descriptions announce `n` records and give the tables to every decoder in agreement;
      the stream starts at `k`. */
  ghost predicate Announces(bytes: seq<byte>, n: nat, t: Tables, before: HeldTables, k: nat) {
    && k <= |bytes| && ReadSequencesHeader(bytes).Some?
    && var header := ReadSequencesHeader(bytes).value;
    && header.sequenceCount == n && header.headerLength <= k
    && forall decoder: HeldTables :: ValidTablesHeld(decoder) && TablesAgree(before, decoder) ==>
         TablesFor(header, bytes[header.headerLength..], decoder) == Some((t, k - header.headerLength))
  }

  /** A written section: what it announces, and the stream the writer leaves for these records,
      whether or not the first pass fitted. */
  ghost predicate SectionHolds(bytes: seq<byte>, records: seq<SequenceRecord>, t: Tables, before: HeldTables)
    requires ValidTables(t) && records != [] && CoversAll(t, records)
  {
    exists k: nat, past: seq<byte> ::
      Announces(bytes, |records|, t, before, k) && MarkedBits(bytes[k..]) == Some(StreamWritten(t, records, past))
  }

  /** The first pass of the stream fits the container, if there is a stream. */
  ghost predicate SectionFits(records: seq<SequenceRecord>, t: Tables) {
    records == [] || (ValidTables(t) && CoversAll(t, records) && FirstPassFits(t, records))
  }

  /** Whatever the tables, 38 extra bits in the last record leave room: the states drop at most 26. */
  lemma RoomIsEnough(t: Tables, records: seq<SequenceRecord>)
    requires ValidTables(t) && CoversAll(t, records)
    requires |records| >= 2 ==> Short(records[|records| - 1])
    ensures SectionFits(records, t)
  {
    hide Extras, StepBits, FirstCells, ValidTables, Covers;
    if |records| >= 2 {
      var n := |records|;
      assert Covers(t, records[n - 1]) && Covers(t, records[n - 2]);
      StepBitsBound(t, FirstCells(t, records[n - 1]), records[n - 2]);
    }
  }

  lemma NoRecords(t: Tables, before: HeldTables)
    ensures CarriesRecords([0], [], t, before)
  {
    hide JustLiterals, FitsKind;
    assert ReadSequencesHeader([0]) == Some(SequencesHeader(0, PredefinedMode, PredefinedMode, PredefinedMode, 1));
  }

  /** Three descriptions one behind the other read back as three tables. */
  lemma TablesSaid(header: SequencesHeader, a: seq<byte>, b: seq<byte>, c: seq<byte>, stream: seq<byte>, t: Tables,
                   before: HeldTables, decoder: HeldTables)
    requires ValidTablesHeld(decoder) && TablesAgree(before, decoder)
    requires Says(LiteralLengths, header.literalLengthMode, a, t.ll, before.ll)
    requires Says(Offsets, header.offsetMode, b, t.of, before.of)
    requires Says(MatchLengths, header.matchLengthMode, c, t.ml, before.ml)
    ensures TablesFor(header, a + b + c + stream, decoder) == Some((t, |a + b + c|))
  {
    hide TableFor, FitsKind, ValidTans;
    var input := a + b + c + stream;
    assert input == a + (b + c + stream);
    assert input[|a|..] == b + (c + stream);
    assert input[|a|..][|b|..] == c + stream;
    assert TableFor(LiteralLengths, header.literalLengthMode, a + (b + c + stream), decoder.ll) == Some((t.ll, |a|));
    assert TableFor(Offsets, header.offsetMode, b + (c + stream), decoder.of) == Some((t.of, |b|));
    assert TableFor(MatchLengths, header.matchLengthMode, c + stream, decoder.ml) == Some((t.ml, |c|));
  }

  /** Header, descriptions and stream make a section. */
  lemma SectionMade(records: seq<SequenceRecord>, ll: TableMode, of: TableMode, ml: TableMode, a: seq<byte>,
                    b: seq<byte>, c: seq<byte>, stream: seq<byte>, t: Tables, before: HeldTables, past: seq<byte>)
    requires 0 < |records| <= 0x17EFF && ValidTables(t) && CoversAll(t, records)
    requires Says(LiteralLengths, ll, a, t.ll, before.ll) && Says(Offsets, of, b, t.of, before.of)
    requires Says(MatchLengths, ml, c, t.ml, before.ml)
    requires MarkedBits(stream) == Some(StreamWritten(t, records, past))
    ensures WriteSequencesHeader(|records|, ll, of, ml).Some?
    ensures SectionHolds(WriteSequencesHeader(|records|, ll, of, ml).value + (a + b + c + stream), records, t, before)
  {
    hide *;
    FrontLength(|records|, ll, of, ml);
    var front := WriteSequencesHeader(|records|, ll, of, ml).value;
    var body := a + b + c + stream;
    SequencesHeaderRoundTrip(|records|, ll, of, ml, body);
    var header := ReadSequencesHeader(front + body).value;
    assert (front + body)[|front|..] == body;
    forall decoder: HeldTables | ValidTablesHeld(decoder) && TablesAgree(before, decoder)
      ensures TablesFor(header, body, decoder) == Some((t, |a + b + c|))
    {
      TablesSaid(header, a, b, c, stream, t, before, decoder);
    }
    var k := |front| + |a + b + c|;
    assert (front + body)[k..] == stream;
    AnnouncesWhen(front + body, |records|, t, before, k);
    HoldsWhere(front + body, records, t, before, k, past);
  }

  lemma AnnouncesWhen(bytes: seq<byte>, n: nat, t: Tables, before: HeldTables, k: nat)
    requires k <= |bytes| && ReadSequencesHeader(bytes).Some?
    requires var header := ReadSequencesHeader(bytes).value;
             && header.sequenceCount == n && header.headerLength <= k
             && forall decoder: HeldTables :: ValidTablesHeld(decoder) && TablesAgree(before, decoder) ==>
                  TablesFor(header, bytes[header.headerLength..], decoder) == Some((t, k - header.headerLength))
    ensures Announces(bytes, n, t, before, k)
  {
    hide ReadSequencesHeader, TablesFor, ValidTablesHeld, TablesAgree;
  }

  lemma HoldsWhere(bytes: seq<byte>, records: seq<SequenceRecord>, t: Tables, before: HeldTables, k: nat,
                   past: seq<byte>)
    requires ValidTables(t) && records != [] && CoversAll(t, records) && k <= |bytes|
    requires Announces(bytes, |records|, t, before, k)
    requires MarkedBits(bytes[k..]) == Some(StreamWritten(t, records, past))
    ensures SectionHolds(bytes, records, t, before)
  {
    hide Announces, MarkedBits, StreamWritten, ValidTables, CoversAll;
  }

  /** A section whose first pass fitted carries its records. */
  lemma SectionCarries(bytes: seq<byte>, records: seq<SequenceRecord>, t: Tables, before: HeldTables)
    requires ValidTables(t) && records != [] && CoversAll(t, records) && FirstPassFits(t, records)
    requires SectionHolds(bytes, records, t, before)
    ensures CarriesRecords(bytes, records, t, before)
  {
    hide *;
    var k, past := HoldsAt(bytes, records, t, before);
    WrittenIs(t, records, past);
    var header := ReadSequencesHeader(bytes).value;
    var body := bytes[header.headerLength..];
    assert body[k - header.headerLength..] == bytes[k..];
    forall decoder: HeldTables, literals: seq<byte>, capacity: nat, out: seq<byte>, history: R.History
      | ValidTablesHeld(decoder) && TablesAgree(before, decoder)
      ensures SequencesOf(bytes, literals, capacity, out, history, decoder)
           == Expected(records, t, literals, capacity, out, history, decoder)
    {
      AnnouncedTo(bytes, |records|, t, before, k, decoder);
      SequencesIs(bytes, literals, capacity, out, history, decoder);
      ExecutedIs(t, bytes[k..], |records|, literals, capacity, out, history);
      SectionOfWritten(t, records, bytes[k..], Env(literals, |out|, capacity), Machine(out, 0, history));
      ExpectedIs(records, t, literals, capacity, out, history, decoder);
    }
    CarriesWhen(bytes, records, t, before);
  }

  lemma HoldsAt(bytes: seq<byte>, records: seq<SequenceRecord>, t: Tables, before: HeldTables)
    returns (k: nat, past: seq<byte>)
    requires ValidTables(t) && records != [] && CoversAll(t, records) && SectionHolds(bytes, records, t, before)
    ensures k <= |bytes| && Announces(bytes, |records|, t, before, k)
    ensures MarkedBits(bytes[k..]) == Some(StreamWritten(t, records, past))
    ensures ReadSequencesHeader(bytes).Some? && ReadSequencesHeader(bytes).value.headerLength <= k
    ensures ReadSequencesHeader(bytes).value.sequenceCount == |records|
  {
    hide MarkedBits, StreamWritten, ValidTables, CoversAll, TablesFor, ReadSequencesHeader;
    k, past :| Announces(bytes, |records|, t, before, k)
               && MarkedBits(bytes[k..]) == Some(StreamWritten(t, records, past));
  }

  lemma AnnouncedTo(bytes: seq<byte>, n: nat, t: Tables, before: HeldTables, k: nat, decoder: HeldTables)
    requires Announces(bytes, n, t, before, k) && ValidTablesHeld(decoder) && TablesAgree(before, decoder)
    ensures var header := ReadSequencesHeader(bytes).value;
            && header.sequenceCount == n && header.headerLength <= k <= |bytes|
            && TablesFor(header, bytes[header.headerLength..], decoder) == Some((t, k - header.headerLength))
  {
    hide TablesFor, ReadSequencesHeader, ValidTablesHeld, TablesAgree;
  }

  lemma FrontLength(n: nat, ll: TableMode, of: TableMode, ml: TableMode)
    requires 0 < n <= 0x17EFF
    ensures WriteSequenceCount(n).Some? && WriteSequencesHeader(n, ll, of, ml).Some?
    ensures |WriteSequencesHeader(n, ll, of, ml).value| == |WriteSequenceCount(n).value| + 1
  {
  }

  lemma ExpectedIs(records: seq<SequenceRecord>, t: Tables, literals: seq<byte>, capacity: nat, out: seq<byte>,
                   history: R.History, decoder: HeldTables)
    requires records != []
    ensures var env := Env(literals, |out|, capacity);
            var all := ExecuteAll(env, Machine(out, 0, history), records);
            && (all.None? ==> Expected(records, t, literals, capacity, out, history, decoder).None?)
            && (all.Some? ==>
                  var m := TakeRest(env, all.value);
                  Expected(records, t, literals, capacity, out, history, decoder)
                  == if m.None? then None
                     else Some(SequencesRead(m.value.out, m.value.history,
                                             HeldTables(Some(t.ll), Some(t.of), Some(t.ml)))))
  {
    hide ExecuteAll, TakeRest;
  }

  lemma CarriesWhen(bytes: seq<byte>, records: seq<SequenceRecord>, t: Tables, before: HeldTables)
    requires forall decoder: HeldTables, literals: seq<byte>, capacity: nat, out: seq<byte>, history: R.History ::
               ValidTablesHeld(decoder) && TablesAgree(before, decoder) ==>
                 SequencesOf(bytes, literals, capacity, out, history, decoder)
                 == Expected(records, t, literals, capacity, out, history, decoder)
    ensures CarriesRecords(bytes, records, t, before)
  {
    hide SequencesOf, Expected, ValidTablesHeld, TablesAgree;
  }

  // ---------------------------------------------------------------- the codes of the records

  /** How often each code of a kind occurs. */
  /** The codes of one kind, and how often each occurs. */
  ghost function Codes(kind: TableKind, records: seq<SequenceRecord>): (codes: seq<nat>)
    requires forall i :: 0 <= i < |records| ==> ValidRecord(records[i])
    ensures |codes| == |records|
  {
    seq(|records|, i requires 0 <= i < |records| => CodeFor(kind, records[i]))
  }

  ghost function CodeCounts(kind: TableKind, records: seq<SequenceRecord>): (counts: seq<nat>)
    requires forall i :: 0 <= i < |records| ==> ValidRecord(records[i])
    ensures |counts| == MaxSymbol(kind) + 1
  {
    Histogram(Codes(kind, records), MaxSymbol(kind) + 1)
  }

  lemma CodesAre(kind: TableKind, records: seq<SequenceRecord>, codes: seq<nat>)
    requires forall i :: 0 <= i < |records| ==> ValidRecord(records[i])
    requires |codes| == |records| && forall i :: 0 <= i < |records| ==> codes[i] == CodeFor(kind, records[i])
    ensures CodeCounts(kind, records) == Histogram(codes, MaxSymbol(kind) + 1)
  {
    hide CodeFor, Histogram, ValidRecord;
    assert Codes(kind, records) == codes;
  }

  method CountCodes(kind: TableKind, records: seq<SequenceRecord>) returns (counts: seq<nat>)
    requires |records| <= MAX_BLOCK_SIZE && forall i :: 0 <= i < |records| ==> ValidRecord(records[i])
    ensures |counts| == MaxSymbol(kind) + 1 && Sum(counts) == |records| && counts == CodeCounts(kind, records)
    ensures forall s :: 0 <= s < |counts| ==> counts[s] < 0x1_0000_0000
    ensures forall i :: 0 <= i < |records| ==>
              ValidRecord(records[i]) && CodeFor(kind, records[i]) < |counts| && counts[CodeFor(kind, records[i])] > 0
    ensures forall s :: 0 <= s < |counts| && counts[s] > 0 ==>
              exists i :: 0 <= i < |records| && CodeFor(kind, records[i]) == s
  {
    hide LiteralLengthCode, MatchLengthCode, OffsetCode, FindLiteralLengthCode, FindMatchLengthCode, Sum, CodeFor,
      Histogram, CodeCounts;
    var codes: seq<nat> := [];
    for i := 0 to |records|
      invariant |codes| == i
      invariant forall j :: 0 <= j < i ==> codes[j] == CodeFor(kind, records[j]) <= MaxSymbol(kind)
    {
      CodeBound(kind, records[i]);
      var r := records[i];
      codes := codes + [match kind
                        case LiteralLengths => FindLiteralLengthCode(r.literalLength)
                        case Offsets => OffsetCode(r.offsetValue).code
                        case MatchLengths => FindMatchLengthCode(r.matchLength)];
    }
    CodesAre(kind, records, codes);
    counts := CountSymbols(codes, MaxSymbol(kind) + 1);
    HistogramSum(codes, MaxSymbol(kind) + 1);
    CodesOccur(codes, MaxSymbol(kind) + 1);
    forall s | 0 <= s < |counts| && counts[s] > 0
      ensures exists i :: 0 <= i < |records| && CodeFor(kind, records[i]) == s
    {
      var i :| 0 <= i < |codes| && codes[i] == s;
      assert CodeFor(kind, records[i]) == s;
    }
  }

  ghost function CodeFor(kind: TableKind, r: SequenceRecord): nat
    requires ValidRecord(r)
  {
    match kind
    case LiteralLengths => LiteralLengthCode(r.literalLength).code
    case Offsets => OffsetCode(r.offsetValue).code
    case MatchLengths => MatchLengthCode(r.matchLength).code
  }

  /** The quick finders give the codes, and every code is of its kind. */
  lemma CodeBound(kind: TableKind, r: SequenceRecord)
    requires ValidRecord(r)
    ensures CodeFor(kind, r) <= MaxSymbol(kind)
    ensures CodeFor(kind, r) == match kind
                                case LiteralLengths => FindLiteralLengthCode(r.literalLength)
                                case Offsets => OffsetCode(r.offsetValue).code
                                case MatchLengths => FindMatchLengthCode(r.matchLength)
  {
    hide LiteralLengthCode, MatchLengthCode, OffsetCode, FindLiteralLengthCode, FindMatchLengthCode, LowBits, Pow2,
      HighestBit;
    match kind {
      case LiteralLengths =>
        QuickLiteralAgrees(r.literalLength);
        LiteralLengthInverts(r.literalLength);
      case Offsets =>
        OffsetInverts(r.offsetValue);
      case MatchLengths =>
        QuickMatchAgrees(r.matchLength);
        MatchLengthInverts(r.matchLength);
    }
  }

  lemma CodesOccur(codes: seq<nat>, n: nat)
    requires |codes| <= MAX_BLOCK_SIZE && forall i :: 0 <= i < |codes| ==> codes[i] < n
    ensures forall i :: 0 <= i < |codes| ==> Histogram(codes, n)[codes[i]] > 0
    ensures forall s :: 0 <= s < n ==> Histogram(codes, n)[s] < 0x1_0000_0000
    ensures forall s :: 0 <= s < n && Histogram(codes, n)[s] > 0 ==> exists i :: 0 <= i < |codes| && codes[i] == s
  {
    forall i | 0 <= i < |codes|
      ensures Histogram(codes, n)[codes[i]] > 0
    {
      assert codes[i] in multiset(codes);
    }
    forall s | 0 <= s < n
      ensures multiset(codes)[s] < 0x1_0000_0000
    {
      assert multiset(codes)[s := 0] <= multiset(codes);
      assert |multiset(codes)| == |codes|;
    }
    forall s | 0 <= s < n && Histogram(codes, n)[s] > 0
      ensures exists i :: 0 <= i < |codes| && codes[i] == s
    {
      assert s in codes;
    }
  }

  lemma TablesCover(t: Tables, records: seq<SequenceRecord>, ll: seq<nat>, of: seq<nat>, ml: seq<nat>)
    requires CoversCounts(t.ll, ll) && CoversCounts(t.of, of) && CoversCounts(t.ml, ml)
    requires forall i :: 0 <= i < |records| ==>
               && ValidRecord(records[i])
               && CodeFor(LiteralLengths, records[i]) < |ll| && ll[CodeFor(LiteralLengths, records[i])] > 0
               && CodeFor(Offsets, records[i]) < |of| && of[CodeFor(Offsets, records[i])] > 0
               && CodeFor(MatchLengths, records[i]) < |ml| && ml[CodeFor(MatchLengths, records[i])] > 0
    ensures CoversAll(t, records)
  {
    hide LiteralLengthCode, MatchLengthCode, OffsetCode, Count, ValidRecord;
  }

  // ---------------------------------------------------------------- writing

  /** What may be repeated after a section. */
  ghost function Repeatable(e: EncodeTables, t: Tables): HeldTables {
    HeldTables(if CanRepeat(e.ll.mode) then Some(t.ll) else None, if CanRepeat(e.of.mode) then Some(t.of) else None,
               if CanRepeat(e.ml.mode) then Some(t.ml) else None)
  }

  ghost predicate AllPicked(e: EncodeTables, t: Tables, before: HeldTables, records: seq<SequenceRecord>)
    reads e.ll.table, e.of.table, e.ml.table
  {
    && Describable(LiteralLengths, e.ll, t.ll, before.ll) && Describable(Offsets, e.of, t.of, before.of)
    && Describable(MatchLengths, e.ml, t.ml, before.ml)
    && EncodersHold(e, Repeatable(e, t)) && CoversAll(t, records) && ValidTables(t)
  }

  lemma PickedAll(e: EncodeTables, t: Tables, before: HeldTables, records: seq<SequenceRecord>, ll: seq<nat>,
                  of: seq<nat>, ml: seq<nat>)
    requires Picked(LiteralLengths, e.ll, t.ll, before.ll, ll) && Picked(Offsets, e.of, t.of, before.of, of)
    requires Picked(MatchLengths, e.ml, t.ml, before.ml, ml) && CoversAll(t, records)
    ensures AllPicked(e, t, before, records)
  {
    hide FseEncodeTable.Encodes, FseEncodeTable.MarksAbsent, CoversAll, CoversCounts, ValidTans;
  }

  lemma DefaultsAre(t: Tables)
    ensures t == DefaultTables() <==>
              && t.ll == PredefinedTans(LiteralLengths) && t.of == PredefinedTans(Offsets)
              && t.ml == PredefinedTans(MatchLengths)
  {
    hide PredefinedTans;
  }

  ghost function DefaultTables(): Tables {
    Tables(PredefinedTans(LiteralLengths), PredefinedTans(Offsets), PredefinedTans(MatchLengths))
  }

  /** Few records, of at least two codes of each kind, all of which the default tables have. */
  ghost predicate DefaultsServe(records: seq<SequenceRecord>) {
    && |records| < 36 && (forall i :: 0 <= i < |records| ==> ValidRecord(records[i]))
    && ServedBy(LiteralLengths, records) && ServedBy(Offsets, records) && ServedBy(MatchLengths, records)
  }

  ghost predicate ServedBy(kind: TableKind, records: seq<SequenceRecord>)
    requires forall i :: 0 <= i < |records| ==> ValidRecord(records[i])
  {
    && (forall i :: 0 <= i < |records| ==> CodeFor(kind, records[i]) < |PredefinedCounts(kind)|)
    && exists i, j :: 0 <= i < |records| && 0 <= j < |records| && CodeFor(kind, records[i]) < CodeFor(kind, records[j])
  }

  lemma NothingToServe()
    ensures !DefaultsServe([])
  {
  }

  lemma ServedKind(kind: TableKind, records: seq<SequenceRecord>, counts: seq<nat>)
    requires |records| < 36 && (forall i :: 0 <= i < |records| ==> ValidRecord(records[i])) && ServedBy(kind, records)
    requires forall i :: 0 <= i < |records| ==>
               ValidRecord(records[i]) && CodeFor(kind, records[i]) < |counts| && counts[CodeFor(kind, records[i])] > 0
    requires forall s :: 0 <= s < |counts| && counts[s] > 0 ==>
               exists i :: 0 <= i < |records| && CodeFor(kind, records[i]) == s
    ensures TwoOccur(counts) && LargestSymbol(counts) < |PredefinedCounts(kind)| && |records| < FewestForOwnTable(kind)
  {
    hide CodeFor, ValidRecord, PredefinedCounts, LargestSymbol;
    var i, j :| 0 <= i < |records| && 0 <= j < |records| && CodeFor(kind, records[i]) < CodeFor(kind, records[j]);
    assert counts[CodeFor(kind, records[i])] > 0 && counts[CodeFor(kind, records[j])] > 0;
    LargestOccurs(counts, CodeFor(kind, records[i]));
    assert Pow2(5) == 32 && Pow2(6) == 64;
  }

  lemma LargestOccurs(counts: seq<nat>, s: nat)
    requires s < |counts| && counts[s] > 0
    ensures LargestSymbol(counts) < |counts| && counts[LargestSymbol(counts)] > 0
  {
  }

  lemma ServedCounts(records: seq<SequenceRecord>, ll: seq<nat>, of: seq<nat>, ml: seq<nat>)
    requires DefaultsServe(records)
    requires forall i :: 0 <= i < |records| ==>
               && ValidRecord(records[i])
               && CodeFor(LiteralLengths, records[i]) < |ll| && ll[CodeFor(LiteralLengths, records[i])] > 0
               && CodeFor(Offsets, records[i]) < |of| && of[CodeFor(Offsets, records[i])] > 0
               && CodeFor(MatchLengths, records[i]) < |ml| && ml[CodeFor(MatchLengths, records[i])] > 0
    requires forall s :: 0 <= s < |ll| && ll[s] > 0 ==>
               exists i :: 0 <= i < |records| && CodeFor(LiteralLengths, records[i]) == s
    requires forall s :: 0 <= s < |of| && of[s] > 0 ==>
               exists i :: 0 <= i < |records| && CodeFor(Offsets, records[i]) == s
    requires forall s :: 0 <= s < |ml| && ml[s] > 0 ==>
               exists i :: 0 <= i < |records| && CodeFor(MatchLengths, records[i]) == s
    ensures TwoOccur(ll) && LargestSymbol(ll) < |PredefinedCounts(LiteralLengths)|
    ensures |records| < FewestForOwnTable(LiteralLengths)
    ensures TwoOccur(of) && LargestSymbol(of) < |PredefinedCounts(Offsets)| && |records| < FewestForOwnTable(Offsets)
    ensures TwoOccur(ml) && LargestSymbol(ml) < |PredefinedCounts(MatchLengths)|
    ensures |records| < FewestForOwnTable(MatchLengths)
  {
    hide CodeFor, ValidRecord, PredefinedCounts, LargestSymbol, TwoOccur, FewestForOwnTable, ServedBy;
    ServedKind(LiteralLengths, records, ll);
    ServedKind(Offsets, records, of);
    ServedKind(MatchLengths, records, ml);
  }

  /** A table can be picked for a kind of code: the quick choice settles it, or the counts can be normalised. */
  ghost predicate Settles(kind: TableKind, records: seq<SequenceRecord>, quickChoice: bool)
    requires forall i :: 0 <= i < |records| ==> ValidRecord(records[i])
  {
    var counts := CodeCounts(kind, records);
    || (quickChoice && QuickDefault(kind, counts, |records|))
    || CanNormalize(counts, OwnLog(kind, counts, |records|))
  }

  ghost predicate AllSettle(records: seq<SequenceRecord>, quickChoice: bool)
    requires forall i :: 0 <= i < |records| ==> ValidRecord(records[i])
  {
    && Settles(LiteralLengths, records, quickChoice) && Settles(Offsets, records, quickChoice)
    && Settles(MatchLengths, records, quickChoice)
  }

  /** The table of a kind is the one the choice comes to. */
  ghost predicate ChosenFor(kind: TableKind, records: seq<SequenceRecord>, quickChoice: bool, estimates: Estimates,
                            previous: KindState, held: Option<Tans>, mode: TableMode, t: Tans)
    requires forall i :: 0 <= i < |records| ==> ValidRecord(records[i])
    reads previous.table
  {
    var counts := CodeCounts(kind, records);
    Chosen(kind, counts, |records|, quickChoice, estimates, RepeatCost(previous, held, counts, quickChoice), mode, t)
  }

  ghost predicate AllChosen(records: seq<SequenceRecord>, quickChoice: bool, estimates: TableKind -> Estimates,
                            previous: EncodeTables, held: HeldTables, e: EncodeTables, t: Tables)
    requires forall i :: 0 <= i < |records| ==> ValidRecord(records[i])
    reads previous.ll.table, previous.of.table, previous.ml.table
  {
    && ChosenFor(LiteralLengths, records, quickChoice, estimates(LiteralLengths), previous.ll, held.ll, e.ll.mode, t.ll)
    && ChosenFor(Offsets, records, quickChoice, estimates(Offsets), previous.of, held.of, e.of.mode, t.of)
    && ChosenFor(MatchLengths, records, quickChoice, estimates(MatchLengths), previous.ml, held.ml, e.ml.mode, t.ml)
  }

  lemma SettlesIs(kind: TableKind, records: seq<SequenceRecord>, quickChoice: bool)
    requires forall i :: 0 <= i < |records| ==> ValidRecord(records[i])
    ensures var counts := CodeCounts(kind, records);
            Settles(kind, records, quickChoice) <==>
              || (quickChoice && QuickDefault(kind, counts, |records|))
              || CanNormalize(counts, OwnLog(kind, counts, |records|))
  {
    hide CodeCounts, QuickDefault, CanNormalize, OwnLog, ValidRecord;
  }

  lemma AllSettleIs(records: seq<SequenceRecord>, quickChoice: bool)
    requires forall i :: 0 <= i < |records| ==> ValidRecord(records[i])
    ensures AllSettle(records, quickChoice)
       <==> && Settles(LiteralLengths, records, quickChoice) && Settles(Offsets, records, quickChoice)
            && Settles(MatchLengths, records, quickChoice)
  {
    hide Settles, ValidRecord;
  }

  lemma ChosenForWhen(kind: TableKind, records: seq<SequenceRecord>, quickChoice: bool, estimates: Estimates,
                      previous: KindState, held: Option<Tans>, mode: TableMode, t: Tans)
    requires forall i :: 0 <= i < |records| ==> ValidRecord(records[i])
    requires var counts := CodeCounts(kind, records);
             Chosen(kind, counts, |records|, quickChoice, estimates, RepeatCost(previous, held, counts, quickChoice),
                    mode, t)
    ensures ChosenFor(kind, records, quickChoice, estimates, previous, held, mode, t)
  {
    hide CodeCounts, Chosen, RepeatCost, ValidRecord;
  }

  lemma AllChosenWhen(records: seq<SequenceRecord>, quickChoice: bool, estimates: TableKind -> Estimates,
                      previous: EncodeTables, held: HeldTables, e: EncodeTables, t: Tables)
    requires forall i :: 0 <= i < |records| ==> ValidRecord(records[i])
    requires ChosenFor(LiteralLengths, records, quickChoice, estimates(LiteralLengths), previous.ll, held.ll,
                       e.ll.mode, t.ll)
    requires ChosenFor(Offsets, records, quickChoice, estimates(Offsets), previous.of, held.of, e.of.mode, t.of)
    requires ChosenFor(MatchLengths, records, quickChoice, estimates(MatchLengths), previous.ml, held.ml, e.ml.mode,
                       t.ml)
    ensures AllChosen(records, quickChoice, estimates, previous, held, e, t)
  {
    hide ChosenFor, ValidRecord;
  }

  /** The three tables for a list of records. */
  method PickTables(records: seq<SequenceRecord>, previous: EncodeTables, quickChoice: bool,
                    estimates: TableKind -> Estimates, ghost held: HeldTables)
    returns (ok: bool, e: EncodeTables, ghost t: Tables)
    requires records != [] && |records| <= MAX_BLOCK_SIZE && forall i :: 0 <= i < |records| ==> ValidRecord(records[i])
    requires EncodersHold(previous, held)
    ensures e.ll.table == previous.ll.table || fresh(e.ll.table)
    ensures e.of.table == previous.of.table || fresh(e.of.table)
    ensures e.ml.table == previous.ml.table || fresh(e.ml.table)
    ensures ok ==> AllPicked(e, t, held, records)
    ensures ok <==> AllSettle(records, quickChoice)
    ensures ok ==> AllChosen(records, quickChoice, estimates, previous, held, e, t)
    ensures quickChoice && DefaultsServe(records) ==>
              && ok && t == DefaultTables() && e.ll.mode.PredefinedMode? && e.of.mode.PredefinedMode?
              && e.ml.mode.PredefinedMode?
  {
    hide *;
    e, t := previous, Tables(Tans(0, []), Tans(0, []), Tans(0, []));
    assert allocated(previous.ll.table) && allocated(previous.of.table) && allocated(previous.ml.table);
    HoldParts(previous, held);
    var llCounts := CountCodes(LiteralLengths, records);
    var ofCounts := CountCodes(Offsets, records);
    var mlCounts := CountCodes(MatchLengths, records);
    if DefaultsServe(records) {
      ServedCounts(records, llCounts, ofCounts, mlCounts);
    }
    SettlesIs(LiteralLengths, records, quickChoice);
    SettlesIs(Offsets, records, quickChoice);
    SettlesIs(MatchLengths, records, quickChoice);
    AllSettleIs(records, quickChoice);
    var ll, of, ml;
    ghost var llTans, ofTans, mlTans;
    ok, ll, llTans := PickTableMode(LiteralLengths, llCounts, |records|, previous.ll, quickChoice,
                                    estimates(LiteralLengths), held.ll);
    if !ok {
      return;
    }
    ok, of, ofTans := PickTableMode(Offsets, ofCounts, |records|, previous.of, quickChoice, estimates(Offsets),
                                    held.of);
    if !ok {
      return;
    }
    ok, ml, mlTans := PickTableMode(MatchLengths, mlCounts, |records|, previous.ml, quickChoice,
                                    estimates(MatchLengths), held.ml);
    if !ok {
      return;
    }
    e, t := EncodeTables(ll, of, ml), Tables(llTans, ofTans, mlTans);
    ChosenForWhen(LiteralLengths, records, quickChoice, estimates(LiteralLengths), previous.ll, held.ll, ll.mode,
                  llTans);
    ChosenForWhen(Offsets, records, quickChoice, estimates(Offsets), previous.of, held.of, of.mode, ofTans);
    ChosenForWhen(MatchLengths, records, quickChoice, estimates(MatchLengths), previous.ml, held.ml, ml.mode, mlTans);
    AllChosenWhen(records, quickChoice, estimates, previous, held, e, t);
    DefaultsAre(t);
    PickedCovers(LiteralLengths, ll, llTans, held.ll, llCounts);
    PickedCovers(Offsets, of, ofTans, held.of, ofCounts);
    PickedCovers(MatchLengths, ml, mlTans, held.ml, mlCounts);
    TablesCover(t, records, llCounts, ofCounts, mlCounts);
    PickedAll(e, t, held, records, llCounts, ofCounts, mlCounts);
  }

  lemma HoldParts(e: EncodeTables, held: HeldTables)
    requires EncodersHold(e, held)
    ensures EncoderHolds(e.ll, LiteralLengths, held.ll) && EncoderHolds(e.of, Offsets, held.of)
    ensures EncoderHolds(e.ml, MatchLengths, held.ml)
  {
    hide EncoderHolds;
  }

  lemma PickedCovers(kind: TableKind, s: KindState, t: Tans, before: Option<Tans>, counts: seq<nat>)
    requires Picked(kind, s, t, before, counts)
    ensures CoversCounts(t, counts)
  {
    hide CoversCounts, Describable, EncoderHolds;
  }

  lemma AllPickedParts(e: EncodeTables, t: Tables, before: HeldTables, records: seq<SequenceRecord>)
    requires AllPicked(e, t, before, records)
    ensures Describable(LiteralLengths, e.ll, t.ll, before.ll) && Describable(Offsets, e.of, t.of, before.of)
    ensures Describable(MatchLengths, e.ml, t.ml, before.ml)
    ensures EncodersHold(e, Repeatable(e, t)) && CoversAll(t, records) && ValidTables(t)
    ensures e.ll.table.Encodes(t.ll) && e.of.table.Encodes(t.of) && e.ml.table.Encodes(t.ml)
  {
    hide FseEncodeTable.Encodes, EncodersHold, CoversAll, ValidTables, FitsKind;
  }

  /** The state of the encoder's tables after writing: unchanged without records. */
  ghost predicate TablesAfter(records: seq<SequenceRecord>, e: EncodeTables, previous: EncodeTables, held: HeldTables,
                              t: Tables)
    reads e.ll.table, e.of.table, e.ml.table
  {
    if records == [] then e == previous && EncodersHold(e, held)
    else EncodersHold(e, Repeatable(e, t)) && ValidTables(t)
  }

  ghost function HeldAfter(records: seq<SequenceRecord>, e: EncodeTables, held: HeldTables, t: Tables): HeldTables {
    if records == [] then held else Repeatable(e, t)
  }

  /** `write_sequences`: for any records, any tables at hand and any estimates, the section announces
      tables that cover the records and holds the stream the writer leaves; it carries the records
      when the stream's first pass fits. */
  method WriteSequences(records: seq<SequenceRecord>, capacity: nat, previous: EncodeTables, quickChoice: bool,
                        estimates: TableKind -> Estimates, ghost held: HeldTables)
    returns (bytes: Option<seq<byte>>, e: EncodeTables, ghost t: Tables)
    requires |records| <= MAX_BLOCK_SIZE && forall i :: 0 <= i < |records| ==> ValidRecord(records[i])
    requires EncodersHold(previous, held)
    ensures e.ll.table == previous.ll.table || fresh(e.ll.table)
    ensures e.of.table == previous.of.table || fresh(e.of.table)
    ensures e.ml.table == previous.ml.table || fresh(e.ml.table)
    ensures bytes.Some? ==> |bytes.value| <= capacity && TablesAfter(records, e, previous, held, t)
    ensures bytes.Some? && records != [] ==>
              ValidTables(t) && CoversAll(t, records) && SectionHolds(bytes.value, records, t, held)
    ensures bytes.Some? && SectionFits(records, t) ==> CarriesRecords(bytes.value, records, t, held)
    ensures bytes.Some? && quickChoice && DefaultsServe(records) ==> t == DefaultTables()
    ensures quickChoice && RoomWithDefaults(records, capacity) ==>
              bytes.Some? && SizeWithDefaults(records, |bytes.value|)
    ensures bytes.Some? && records != [] ==>
              AllSettle(records, quickChoice) && AllChosen(records, quickChoice, estimates, previous, held, e, t)
    ensures RoomForSection(records, capacity) && (records == [] || AllSettle(records, quickChoice)) ==> bytes.Some?
  {
    hide *;
    RoomForSectionIs(records, capacity);
    e, t := previous, Tables(Tans(0, []), Tans(0, []), Tans(0, []));
    RoomParts(records, capacity);
    if records == [] {
      NothingToServe();
      if capacity < 1 {
        return None, e, t;
      }
      NoRecords(t, held);
      NothingAfter(e, held, t);
      return Some([0]), e, t;
    }
    var ok;
    ok, e, t := PickTables(records, previous, quickChoice, estimates, held);
    if !ok {
      return None, e, t;
    }
    AllPickedParts(e, t, held, records);
    SomeAfter(records, e, previous, held, t);
    var front := WriteSequencesHeader(|records|, e.ll.mode, e.of.mode, e.ml.mode);
    if front.None? || |front.value| > capacity {
      return None, e, t;
    }
    CountFits(|records|, e.ll.mode, e.of.mode, e.ml.mode);
    StreamBound(t, records);
    var body := WriteBody(records, capacity - |front.value|, e, t, held);
    if body.None? {
      return None, e, t;
    }
    bytes := Some(front.value + body.value);
    SizeWhen(records, |bytes.value|);
    if SectionFits(records, t) {
      FitsParts(records, t);
      SectionCarries(bytes.value, records, t, held);
    }
  }

  /** The three descriptions and the stream. */
  method WriteBody(records: seq<SequenceRecord>, capacity: nat, e: EncodeTables, ghost t: Tables,
                   ghost held: HeldTables)
    returns (body: Option<seq<byte>>)
    requires 0 < |records| <= 0x17EFF && ValidTables(t) && CoversAll(t, records)
    requires Describable(LiteralLengths, e.ll, t.ll, held.ll) && Describable(Offsets, e.of, t.of, held.of)
    requires Describable(MatchLengths, e.ml, t.ml, held.ml)
    ensures WriteSequencesHeader(|records|, e.ll.mode, e.of.mode, e.ml.mode).Some?
    ensures body.Some? ==> |body.value| <= capacity
    ensures body.Some? ==>
              SectionHolds(WriteSequencesHeader(|records|, e.ll.mode, e.of.mode, e.ml.mode).value + body.value,
                           records, t, held)
    ensures (&& e.ll.mode.PredefinedMode? && e.of.mode.PredefinedMode? && e.ml.mode.PredefinedMode?
             && |WholeStream(t, records)| + 1 <= 8 * capacity) ==>
              body.Some? && 8 * |body.value| <= |WholeStream(t, records)| + 8
    ensures |WholeStream(t, records)| + 1 <= 8 * (capacity - 3 * MAX_DESCRIPTION) ==> body.Some?
  {
    hide *;
    MaxDescription();
    FrontLength(|records|, e.ll.mode, e.of.mode, e.ml.mode);
    DescribableParts(LiteralLengths, e.ll, t.ll, held.ll);
    DescribableParts(Offsets, e.of, t.of, held.of);
    DescribableParts(MatchLengths, e.ml, t.ml, held.ml);
    var room := capacity;
    var a := WriteTableDescription(LiteralLengths, e.ll, room, t.ll, held.ll);
    if a.None? {
      return None;
    }
    room := room - |a.value|;
    var b := WriteTableDescription(Offsets, e.of, room, t.of, held.of);
    if b.None? {
      return None;
    }
    room := room - |b.value|;
    var c := WriteTableDescription(MatchLengths, e.ml, room, t.ml, held.ml);
    if c.None? {
      return None;
    }
    room := room - |c.value|;
    var output := new byte[room];
    ghost var past := output[..];
    var tables := new SequenceEncodeTables(e.ll.table, e.of.table, e.ml.table);
    TablesEncode(tables, t);
    var written, size;
    ghost var within;
    written, size, within := WriteOneStream(records, tables, output, t);
    if !written {
      return None;
    }
    SectionMade(records, e.ll.mode, e.of.mode, e.ml.mode, a.value, b.value, c.value, output[..size], t, held, past);
    return Some(a.value + b.value + c.value + output[..size]);
  }

  lemma FitsParts(records: seq<SequenceRecord>, t: Tables)
    requires records != [] && SectionFits(records, t)
    ensures ValidTables(t) && CoversAll(t, records) && FirstPassFits(t, records)
  {
    hide ValidTables, CoversAll, FirstPassFits;
  }

  /** Room for any section of the records: a header of four bytes, three descriptions, and 89 bits a record. */
  ghost predicate RoomForSection(records: seq<SequenceRecord>, capacity: nat) {
    if records == [] then capacity >= 1
    else |records| <= 0x17EFF && 89 * |records| + 27 <= 8 * (capacity - 4 - 3 * MAX_DESCRIPTION)
  }

  lemma RoomForSectionIs(records: seq<SequenceRecord>, capacity: nat)
    ensures RoomForSection(records, capacity)
       <==> if records == [] then capacity >= 1
            else |records| <= 0x17EFF && 89 * |records| + 27 <= 8 * (capacity - 4 - 3 * MAX_DESCRIPTION)
    ensures MAX_DESCRIPTION == 80
    ensures forall ll, of, ml ::
              0 < |records| <= 0x17EFF ==>
                && WriteSequencesHeader(|records|, ll, of, ml).Some?
                && |WriteSequencesHeader(|records|, ll, of, ml).value| <= 4
  {
  }

  /** Two bytes of header and the stream under the default tables fit. */
  ghost predicate RoomWithDefaults(records: seq<SequenceRecord>, capacity: nat) {
    && DefaultsServe(records) && ValidTables(DefaultTables()) && records != [] && CoversAll(DefaultTables(), records)
    && |WholeStream(DefaultTables(), records)| + 1 <= 8 * (capacity - 2)
  }

  /** That many bytes. */
  ghost predicate SizeWithDefaults(records: seq<SequenceRecord>, size: int) {
    && ValidTables(DefaultTables()) && records != [] && CoversAll(DefaultTables(), records)
    && 8 * (size - 2) <= |WholeStream(DefaultTables(), records)| + 8
  }

  lemma SizeWhen(records: seq<SequenceRecord>, size: int)
    ensures (&& ValidTables(DefaultTables()) && records != [] && CoversAll(DefaultTables(), records)
             && 8 * (size - 2) <= |WholeStream(DefaultTables(), records)| + 8) ==> SizeWithDefaults(records, size)
  {
    hide DefaultTables, ValidTables, CoversAll, WholeStream;
  }

  lemma RoomParts(records: seq<SequenceRecord>, capacity: nat)
    ensures RoomWithDefaults(records, capacity) ==>
              && DefaultsServe(records) && ValidTables(DefaultTables()) && records != []
              && CoversAll(DefaultTables(), records)
              && |WholeStream(DefaultTables(), records)| + 1 <= 8 * (capacity - 2)
              && forall ll, of, ml ::
                   && WriteSequencesHeader(|records|, ll, of, ml).Some?
                   && |WriteSequencesHeader(|records|, ll, of, ml).value| == 2
  {
    hide DefaultTables, ValidTables, CoversAll, WholeStream, ServedBy, ValidRecord;
  }

  lemma NothingAfter(e: EncodeTables, held: HeldTables, t: Tables)
    requires EncodersHold(e, held)
    ensures TablesAfter([], e, e, held, t)
  {
    hide EncodersHold;
  }

  lemma SomeAfter(records: seq<SequenceRecord>, e: EncodeTables, previous: EncodeTables, held: HeldTables, t: Tables)
    requires records != [] && EncodersHold(e, Repeatable(e, t)) && ValidTables(t)
    ensures TablesAfter(records, e, previous, held, t)
  {
    hide EncodersHold, ValidTables;
  }

  lemma CountFits(n: nat, ll: TableMode, of: TableMode, ml: TableMode)
    requires WriteSequencesHeader(n, ll, of, ml).Some?
    ensures n <= 0x17EFF
  {
  }

  lemma TablesEncode(tables: SequenceEncodeTables, t: Tables)
    requires tables.literalLength.Encodes(t.ll) && tables.offset.Encodes(t.of) && tables.matchLength.Encodes(t.ml)
    ensures tables.Encode(t)
  {
    hide FseEncodeTable.Encodes;
  }
}
