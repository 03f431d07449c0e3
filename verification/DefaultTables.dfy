/** The default tables, cell by cell (appendix A of RFC 8878): what the spread of the default
    distributions comes to. */
module DefaultTables {
  import opened Bits
  import opened FseSpread
  import opened Fse
  import opened FseTables
  import opened SequencesSection

  /** The symbol column of each table of the appendix. */
  function Listed(kind: TableKind): seq<nat> {
    match kind
    case LiteralLengths =>
      [0, 0, 1, 3, 4, 6, 7, 9]
      + [10, 12, 14, 16, 18, 19, 21, 22]
      + [24, 25, 26, 27, 29, 31, 0, 1]
      + [2, 4, 5, 7, 8, 10, 11, 13]
      + [16, 17, 19, 20, 22, 23, 25, 25]
      + [26, 28, 30, 0, 1, 2, 3, 5]
      + [6, 8, 9, 11, 12, 15, 17, 18]
      + [20, 21, 23, 24, 35, 34, 33, 32]
    case Offsets =>
      [0, 6, 9, 15, 21, 3, 7, 12]
      + [18, 23, 5, 8, 14, 20, 2, 7]
      + [11, 17, 22, 4, 8, 13, 19, 1]
      + [6, 10, 16, 28, 27, 26, 25, 24]
    case MatchLengths =>
      [0, 1, 2, 3, 5, 6, 8, 10]
      + [13, 16, 19, 22, 25, 28, 31, 33]
      + [35, 37, 39, 41, 43, 45, 1, 2]
      + [3, 4, 6, 7, 9, 12, 15, 18]
      + [21, 24, 27, 30, 32, 34, 36, 38]
      + [40, 42, 44, 1, 1, 2, 4, 5]
      + [7, 8, 11, 14, 17, 20, 23, 26]
      + [29, 52, 51, 50, 49, 48, 47, 46]
  }

  // ---------------------------------------------------------------- the symbols in order

  /** `n` symbols from `first` on, each `count` times. */
  ghost function EachTimes(first: nat, n: nat, count: nat): seq<nat> {
    if n == 0 then [] else EachTimes(first, n - 1, count) + seq(count, _ => first + n - 1)
  }

  lemma {:induction false} RepeatedRun(a: seq<int>, n: nat, count: nat)
    ensures Repeated(a + Run(n, count)) == Repeated(a) + EachTimes(|a|, n, count)
    ensures LowProbability(a + Run(n, count)) == LowProbability(a)
    decreases n
  {
    RunGrows(a, n, count);
    if n > 0 {
      RepeatedRun(a, n - 1, count);
      hide Repeated, LowProbability, EachTimes;
      SymbolListsStep(a + Run(n, count));
      EachGrows(|a|, n, count);
    } else {
      NoneEach(|a|, count);
    }
  }

  lemma {:induction false} LowRun(a: seq<int>, n: nat)
    ensures Repeated(a + Run(n, -1)) == Repeated(a)
    ensures LowProbability(a + Run(n, -1)) == LowProbability(a) + EachTimes(|a|, n, 1)
    decreases n
  {
    RunGrows(a, n, -1);
    if n > 0 {
      LowRun(a, n - 1);
      hide Repeated, LowProbability, EachTimes;
      SymbolListsStep(a + Run(n, -1));
      EachGrows(|a|, n, 1);
    } else {
      NoneEach(|a|, 1);
    }
  }

  lemma RunGrows(a: seq<int>, n: nat, count: int)
    ensures n > 0 ==> (a + Run(n, count))[..|a| + n - 1] == a + Run(n - 1, count)
    ensures n > 0 ==> (a + Run(n, count))[|a| + n - 1] == count
    ensures n == 0 ==> a + Run(n, count) == a
  {
  }

  lemma EachGrows(first: nat, n: nat, count: nat)
    requires n > 0
    ensures EachTimes(first, n, count) == EachTimes(first, n - 1, count) + seq(count, _ => first + n - 1)
  {
  }

  lemma NoneEach(first: nat, count: nat)
    ensures EachTimes(first, 0, count) == []
  {
  }

  lemma {:induction false} OnceEach(first: nat, n: nat)
    ensures EachTimes(first, n, 1) == seq(n, i => first + i)
    decreases n
  {
    if n > 0 { OnceEach(first, n - 1); }
  }

  lemma {:induction false} TwiceEach(first: nat, n: nat)
    ensures EachTimes(first, n, 2) == seq(2 * n, i => first + i / 2)
    decreases n
  {
    if n > 0 { TwiceEach(first, n - 1); }
  }

  lemma OneEach(first: nat, count: nat)
    ensures EachTimes(first, 1, count) == seq(count, _ => first)
  {
    NoneEach(first, count);
    EachGrows(first, 1, count);
  }

  /** The symbol at place `r` of the repeated ones. */
  function SymbolAt(kind: TableKind, r: nat): nat {
    match kind
    case LiteralLengths =>
      if r < 4 then 0 else if r < 7 then 1 else if r < 29 then 2 + (r - 7) / 2 else if r < 32 then 13 + (r - 29)
      else if r < 50 then 16 + (r - 32) / 2 else if r < 53 then 25 else if r < 55 then 26 else 27 + (r - 55)
    case Offsets => if r < 6 then r else if r < 12 then 6 + (r - 6) / 2 else 9 + (r - 12)
    case MatchLengths =>
      if r < 1 then 0 else if r < 5 then 1 else if r < 8 then 2 else if r < 20 then 3 + (r - 8) / 2
      else 9 + (r - 20)
  }

  function FreeCells(kind: TableKind): nat {
    match kind
    case LiteralLengths => 60
    case Offsets => 27
    case MatchLengths => 57
  }

  function FirstRare(kind: TableKind): nat {
    match kind
    case LiteralLengths => 32
    case Offsets => 24
    case MatchLengths => 46
  }

  ghost predicate InOrder(kind: TableKind) {
    && |Repeated(PredefinedCounts(kind))| == FreeCells(kind)
    && (forall r: nat :: r < FreeCells(kind) ==> Repeated(PredefinedCounts(kind))[r] == SymbolAt(kind, r))
    && |LowProbability(PredefinedCounts(kind))| == Pow2(PredefinedLog(kind)) - FreeCells(kind)
    && (forall i :: 0 <= i < |LowProbability(PredefinedCounts(kind))| ==>
          LowProbability(PredefinedCounts(kind))[i] == FirstRare(kind) + i)
  }

  lemma OffsetsInOrder()
    ensures InOrder(Offsets)
  {
    hide Repeated, LowProbability, EachTimes, Pow2, Run;
    var a := Run(6, 1);
    RepeatedRun([], 6, 1);
    assert [] + a == a;
    RepeatedRun(a, 3, 2);
    RepeatedRun(a + Run(3, 2), 15, 1);
    LowRun(a + Run(3, 2) + Run(15, 1), 5);
    NoSymbols();
    OnceEach(0, 6);
    TwiceEach(6, 3);
    OnceEach(9, 15);
    OnceEach(24, 5);
    SmallPow2();
  }

  lemma MatchLengthsInOrder()
    ensures InOrder(MatchLengths)
  {
    hide Repeated, LowProbability, EachTimes, Pow2;
    var a, b, c := Run(1, 1), Run(1, 4), Run(1, 3);
    assert a + b + c == [1, 4, 3] && [] + a == a;
    hide Run;
    RepeatedRun([], 1, 1);
    RepeatedRun(a, 1, 4);
    RepeatedRun(a + b, 1, 3);
    RepeatedRun(a + b + c, 6, 2);
    RepeatedRun(a + b + c + Run(6, 2), 37, 1);
    LowRun(a + b + c + Run(6, 2) + Run(37, 1), 7);
    NoSymbols();
    OneEach(0, 1);
    OneEach(1, 4);
    OneEach(2, 3);
    TwiceEach(3, 6);
    OnceEach(9, 37);
    OnceEach(46, 7);
    SmallPow2();
  }

  lemma LiteralLengthsInOrder()
    ensures InOrder(LiteralLengths)
  {
    hide Repeated, LowProbability, EachTimes, Pow2;
    var a, b, c, d := Run(1, 4), Run(1, 3), Run(1, 3), Run(1, 2);
    assert a + b == [4, 3] && [] + a == a;
    assert c + d == [3, 2];
    hide Run;
    var e := a + b + Run(11, 2) + Run(3, 1) + Run(9, 2);
    RepeatedRun([], 1, 4);
    RepeatedRun(a, 1, 3);
    RepeatedRun(a + b, 11, 2);
    RepeatedRun(a + b + Run(11, 2), 3, 1);
    RepeatedRun(a + b + Run(11, 2) + Run(3, 1), 9, 2);
    RepeatedRun(e, 1, 3);
    RepeatedRun(e + c, 1, 2);
    RepeatedRun(e + c + d, 5, 1);
    LowRun(e + c + d + Run(5, 1), 4);
    ConcatAssoc(e, c, d);
    NoSymbols();
    OneEach(0, 4);
    OneEach(1, 3);
    TwiceEach(2, 11);
    OnceEach(13, 3);
    TwiceEach(16, 9);
    OneEach(25, 3);
    OneEach(26, 2);
    OnceEach(27, 5);
    OnceEach(32, 4);
    SmallPow2();
  }

  // ---------------------------------------------------------------- the cells in order

  /** The step that leads to cell `c`: the inverse of 43 modulo 64 is 3, that of 23 modulo 32 is 7. */
  function StepTo(kind: TableKind, c: nat): nat {
    if kind.Offsets? then (7 * c) % 32 else (3 * c) % 64
  }

  lemma WalkInverse(kind: TableKind, t: nat)
    requires t < Pow2(PredefinedLog(kind))
    ensures StepTo(kind, Walk(PredefinedLog(kind), t)) == t
  {
    hide Walk, Pow2;
    WalkIs(PredefinedLog(kind), t);
    SmallPow2();
    if kind.Offsets? { Inverse32(t); } else { Inverse64(t); }
  }

  lemma InverseWalk(kind: TableKind, c: nat)
    requires c < Pow2(PredefinedLog(kind))
    ensures StepTo(kind, c) < Pow2(PredefinedLog(kind)) && Walk(PredefinedLog(kind), StepTo(kind, c)) == c
  {
    hide Walk, Pow2;
    WalkIs(PredefinedLog(kind), StepTo(kind, c));
    SmallPow2();
    if kind.Offsets? { Inverse32(c); } else { Inverse64(c); }
  }

  lemma Inverse64(t: nat)
    requires t < 64
    ensures (3 * ((t * 43) % 64)) % 64 == t && (((3 * t) % 64) * 43) % 64 == t
  {
    RemainderIs(3 * ((t * 43) % 64), 64, 2 * t - 3 * ((t * 43) / 64), t);
    RemainderIs(((3 * t) % 64) * 43, 64, 2 * t - 43 * ((3 * t) / 64), t);
  }

  lemma Inverse32(t: nat)
    requires t < 32
    ensures (7 * ((t * 23) % 32)) % 32 == t && (((7 * t) % 32) * 23) % 32 == t
  {
    RemainderIs(7 * ((t * 23) % 32), 32, 5 * t - 7 * ((t * 23) / 32), t);
    RemainderIs(((7 * t) % 32) * 23, 32, 5 * t - 23 * ((7 * t) / 32), t);
  }

  /** Steps before `t` that meet a cell of the top. */
  function Skipped(kind: TableKind, t: nat): nat {
    match kind
    case LiteralLengths =>
      if t <= 52 then 0 else if t <= 55 then 1 else if t <= 58 then 2 else if t <= 61 then 3 else 4
    case Offsets =>
      if t <= 4 then 0 else if t <= 11 then 1 else if t <= 18 then 2 else if t <= 25 then 3
      else if t <= 29 then 4 else 5
    case MatchLengths =>
      if t <= 43 then 0 else if t <= 46 then 1 else if t <= 49 then 2 else if t <= 52 then 3 else if t <= 55 then 4
      else if t <= 58 then 5 else if t <= 61 then 6 else 7
  }

  lemma SkipStep(kind: TableKind, t: nat, c: nat)
    requires t == StepTo(kind, c) && c < if kind.Offsets? then 32 else 64
    ensures Skipped(kind, t + 1) == Skipped(kind, t) + (if c < FreeCells(kind) then 0 else 1)
  {
    match kind
    case LiteralLengths => SkippedLiteral(t, c);
    case Offsets => SkippedOffset(t, c);
    case MatchLengths => SkippedMatch(t, c);
  }

  lemma SkippedLiteral(t: nat, c: nat)
    requires t == StepTo(LiteralLengths, c) && c < 64
    ensures t == 52 || t == 55 || t == 58 || t == 61 <==> c >= 60
  {
  }

  lemma SkippedOffset(t: nat, c: nat)
    requires t == StepTo(Offsets, c) && c < 32
    ensures t == 4 || t == 11 || t == 18 || t == 25 || t == 29 <==> c >= 27
  {
  }

  lemma SkippedMatch(t: nat, c: nat)
    requires t == StepTo(MatchLengths, c) && c < 64
    ensures t == 43 || t == 46 || t == 49 || t == 52 || t == 55 || t == 58 || t == 61 <==> c >= 57
  {
  }

  lemma {:induction false} CellsMet(kind: TableKind, t: nat)
    requires t <= Pow2(PredefinedLog(kind))
    ensures Skipped(kind, t) <= t && |LowCells(PredefinedLog(kind), FreeCells(kind), t)| == t - Skipped(kind, t)
  {
    hide Walk, Pow2, LowCells, Skipped, StepTo;
    var log, free := PredefinedLog(kind), FreeCells(kind);
    if t == 0 {
      LowCellsEmpty(log, free);
      NoneSkipped(kind);
    } else {
      CellsMet(kind, t - 1);
      LowCellsStep(log, free, t - 1);
      WalkInverse(kind, t - 1);
      SmallPow2();
      SkipStep(kind, t - 1, Walk(log, t - 1));
    }
  }

  lemma NoneSkipped(kind: TableKind)
    ensures Skipped(kind, 0) == 0
  {
  }

  /** The symbol that a step to a free cell takes: the symbols in order, less those skipped. */
  function StepSymbol(kind: TableKind, t: nat): nat {
    match kind
    case LiteralLengths =>
      if t < 4 then 0 else if t < 7 then 1 else if t < 29 then 2 + (t - 7) / 2 else if t < 32 then t - 16
      else if t < 50 then t / 2 else if t < 54 then 25 else if t < 57 then 26 else if t < 58 then 27
      else if t < 60 then 28 else if t < 61 then 29 else if t < 63 then 30 else 31
    case Offsets =>
      if t < 4 then t else if t < 7 then t - 1 else if t < 11 then 6 + (t - 7) / 2 else if t < 14 then 8
      else if t < 18 then t - 5 else if t < 25 then t - 6 else if t < 29 then t - 7 else t - 8
    case MatchLengths =>
      if t < 1 then 0 else if t < 5 then 1 else if t < 8 then 2 else if t < 20 then 3 + (t - 8) / 2
      else if t < 43 then t - 11 else t - 12 - (t - 43) / 3
  }

  lemma StepSymbolIs(kind: TableKind, t: nat)
    requires t < if kind.Offsets? then 32 else 64
    requires Skipped(kind, t) == Skipped(kind, t + 1) <= t
    ensures StepSymbol(kind, t) == SymbolAt(kind, t - Skipped(kind, t))
  {
  }

  /** Cell `c` is met at step `t`, or stands below the top cell `t`, and has symbol `s`. */
  predicate CellAt(kind: TableKind, c: nat, t: nat, s: nat) {
    if c < FreeCells(kind) then StepTo(kind, c) == t && StepSymbol(kind, t) == s
    else t == (if kind.Offsets? then 31 else 63) && c + s == FirstRare(kind) + t
  }

  /** The cells from `from` on. */
  ghost predicate Row(kind: TableKind, from: nat, row: seq<nat>) {
    && |PredefinedTans(kind).cells| == Pow2(PredefinedLog(kind))
    && from + |row| <= Pow2(PredefinedLog(kind))
    && PredefinedTans(kind).cells[from..from + |row|] == row
  }

  lemma CellIs(kind: TableKind, c: nat, t: nat, s: nat)
    requires c < Pow2(PredefinedLog(kind)) && CellAt(kind, c, t, s)
    ensures |PredefinedTans(kind).cells| == Pow2(PredefinedLog(kind)) && PredefinedTans(kind).cells[c] == s
  {
    hide Walk, Pow2, LowCells, Repeated, LowProbability, Skipped, StepTo, EffectiveSum, SpreadCells, PredefinedCounts,
      SymbolAt, StepSymbol;
    var counts, log := PredefinedCounts(kind), PredefinedLog(kind);
    PredefinedValid(kind);
    SymbolsInOrder(kind);
    SmallPow2();
    if c < FreeCells(kind) {
      InverseWalk(kind, c);
      CellsMet(kind, t);
      SkipStep(kind, t, c);
      StepSymbolIs(kind, t);
      CellMet(counts, log, t);
    } else {
      CellOnTop(counts, log, Pow2(log) - 1 - c);
    }
  }

  lemma SymbolsInOrder(kind: TableKind)
    ensures InOrder(kind)
  {
    hide InOrder;
    LiteralLengthsInOrder();
    OffsetsInOrder();
    MatchLengthsInOrder();
  }

  /** The default tables are those of the appendix. */
  lemma DefaultCells(kind: TableKind)
    ensures PredefinedTans(kind).log == (if kind.Offsets? then 5 else 6)
    ensures PredefinedTans(kind).cells == Listed(kind)
  {
    hide TansOf, Listed, PredefinedCounts, EffectiveSum, ValidCounts;
    PredefinedValid(kind);
    LiteralLengthsRows();
    OffsetsRows();
    MatchLengthsRows();
  }

  lemma LiteralLengthsRows()
    ensures PredefinedTans(LiteralLengths).cells == Listed(LiteralLengths)
  {
    hide Pow2, PredefinedTans;
    SmallPow2();
    LiteralLengthsRow0();
    LiteralLengthsRow1();
    LiteralLengthsRow2();
    LiteralLengthsRow3();
    LiteralLengthsRow4();
    LiteralLengthsRow5();
    LiteralLengthsRow6();
    LiteralLengthsRow7();
    Join64(PredefinedTans(LiteralLengths).cells);
  }

  lemma LiteralLengthsRow0()
    ensures Row(LiteralLengths, 0, [0, 0, 1, 3, 4, 6, 7, 9])
  {
    hide Pow2, PredefinedTans;
    SmallPow2();
    CellIs(LiteralLengths, 0, 0, 0);
    CellIs(LiteralLengths, 1, 3, 0);
    CellIs(LiteralLengths, 2, 6, 1);
    CellIs(LiteralLengths, 3, 9, 3);
    CellIs(LiteralLengths, 4, 12, 4);
    CellIs(LiteralLengths, 5, 15, 6);
    CellIs(LiteralLengths, 6, 18, 7);
    CellIs(LiteralLengths, 7, 21, 9);
  }

  lemma LiteralLengthsRow1()
    ensures Row(LiteralLengths, 8, [10, 12, 14, 16, 18, 19, 21, 22])
  {
    hide Pow2, PredefinedTans;
    SmallPow2();
    CellIs(LiteralLengths, 8, 24, 10);
    CellIs(LiteralLengths, 9, 27, 12);
    CellIs(LiteralLengths, 10, 30, 14);
    CellIs(LiteralLengths, 11, 33, 16);
    CellIs(LiteralLengths, 12, 36, 18);
    CellIs(LiteralLengths, 13, 39, 19);
    CellIs(LiteralLengths, 14, 42, 21);
    CellIs(LiteralLengths, 15, 45, 22);
  }

  lemma LiteralLengthsRow2()
    ensures Row(LiteralLengths, 16, [24, 25, 26, 27, 29, 31, 0, 1])
  {
    hide Pow2, PredefinedTans;
    SmallPow2();
    CellIs(LiteralLengths, 16, 48, 24);
    CellIs(LiteralLengths, 17, 51, 25);
    CellIs(LiteralLengths, 18, 54, 26);
    CellIs(LiteralLengths, 19, 57, 27);
    CellIs(LiteralLengths, 20, 60, 29);
    CellIs(LiteralLengths, 21, 63, 31);
    CellIs(LiteralLengths, 22, 2, 0);
    CellIs(LiteralLengths, 23, 5, 1);
  }

  lemma LiteralLengthsRow3()
    ensures Row(LiteralLengths, 24, [2, 4, 5, 7, 8, 10, 11, 13])
  {
    hide Pow2, PredefinedTans;
    SmallPow2();
    CellIs(LiteralLengths, 24, 8, 2);
    CellIs(LiteralLengths, 25, 11, 4);
    CellIs(LiteralLengths, 26, 14, 5);
    CellIs(LiteralLengths, 27, 17, 7);
    CellIs(LiteralLengths, 28, 20, 8);
    CellIs(LiteralLengths, 29, 23, 10);
    CellIs(LiteralLengths, 30, 26, 11);
    CellIs(LiteralLengths, 31, 29, 13);
  }

  lemma LiteralLengthsRow4()
    ensures Row(LiteralLengths, 32, [16, 17, 19, 20, 22, 23, 25, 25])
  {
    hide Pow2, PredefinedTans;
    SmallPow2();
    CellIs(LiteralLengths, 32, 32, 16);
    CellIs(LiteralLengths, 33, 35, 17);
    CellIs(LiteralLengths, 34, 38, 19);
    CellIs(LiteralLengths, 35, 41, 20);
    CellIs(LiteralLengths, 36, 44, 22);
    CellIs(LiteralLengths, 37, 47, 23);
    CellIs(LiteralLengths, 38, 50, 25);
    CellIs(LiteralLengths, 39, 53, 25);
  }

  lemma LiteralLengthsRow5()
    ensures Row(LiteralLengths, 40, [26, 28, 30, 0, 1, 2, 3, 5])
  {
    hide Pow2, PredefinedTans;
    SmallPow2();
    CellIs(LiteralLengths, 40, 56, 26);
    CellIs(LiteralLengths, 41, 59, 28);
    CellIs(LiteralLengths, 42, 62, 30);
    CellIs(LiteralLengths, 43, 1, 0);
    CellIs(LiteralLengths, 44, 4, 1);
    CellIs(LiteralLengths, 45, 7, 2);
    CellIs(LiteralLengths, 46, 10, 3);
    CellIs(LiteralLengths, 47, 13, 5);
  }

  lemma LiteralLengthsRow6()
    ensures Row(LiteralLengths, 48, [6, 8, 9, 11, 12, 15, 17, 18])
  {
    hide Pow2, PredefinedTans;
    SmallPow2();
    CellIs(LiteralLengths, 48, 16, 6);
    CellIs(LiteralLengths, 49, 19, 8);
    CellIs(LiteralLengths, 50, 22, 9);
    CellIs(LiteralLengths, 51, 25, 11);
    CellIs(LiteralLengths, 52, 28, 12);
    CellIs(LiteralLengths, 53, 31, 15);
    CellIs(LiteralLengths, 54, 34, 17);
    CellIs(LiteralLengths, 55, 37, 18);
  }

  lemma LiteralLengthsRow7()
    ensures Row(LiteralLengths, 56, [20, 21, 23, 24, 35, 34, 33, 32])
  {
    hide Pow2, PredefinedTans;
    SmallPow2();
    CellIs(LiteralLengths, 56, 40, 20);
    CellIs(LiteralLengths, 57, 43, 21);
    CellIs(LiteralLengths, 58, 46, 23);
    CellIs(LiteralLengths, 59, 49, 24);
    CellIs(LiteralLengths, 60, 63, 35);
    CellIs(LiteralLengths, 61, 63, 34);
    CellIs(LiteralLengths, 62, 63, 33);
    CellIs(LiteralLengths, 63, 63, 32);
  }

  lemma OffsetsRows()
    ensures PredefinedTans(Offsets).cells == Listed(Offsets)
  {
    hide Pow2, PredefinedTans;
    SmallPow2();
    OffsetsRow0();
    OffsetsRow1();
    OffsetsRow2();
    OffsetsRow3();
    Join32(PredefinedTans(Offsets).cells);
  }

  lemma OffsetsRow0()
    ensures Row(Offsets, 0, [0, 6, 9, 15, 21, 3, 7, 12])
  {
    hide Pow2, PredefinedTans;
    SmallPow2();
    CellIs(Offsets, 0, 0, 0);
    CellIs(Offsets, 1, 7, 6);
    CellIs(Offsets, 2, 14, 9);
    CellIs(Offsets, 3, 21, 15);
    CellIs(Offsets, 4, 28, 21);
    CellIs(Offsets, 5, 3, 3);
    CellIs(Offsets, 6, 10, 7);
    CellIs(Offsets, 7, 17, 12);
  }

  lemma OffsetsRow1()
    ensures Row(Offsets, 8, [18, 23, 5, 8, 14, 20, 2, 7])
  {
    hide Pow2, PredefinedTans;
    SmallPow2();
    CellIs(Offsets, 8, 24, 18);
    CellIs(Offsets, 9, 31, 23);
    CellIs(Offsets, 10, 6, 5);
    CellIs(Offsets, 11, 13, 8);
    CellIs(Offsets, 12, 20, 14);
    CellIs(Offsets, 13, 27, 20);
    CellIs(Offsets, 14, 2, 2);
    CellIs(Offsets, 15, 9, 7);
  }

  lemma OffsetsRow2()
    ensures Row(Offsets, 16, [11, 17, 22, 4, 8, 13, 19, 1])
  {
    hide Pow2, PredefinedTans;
    SmallPow2();
    CellIs(Offsets, 16, 16, 11);
    CellIs(Offsets, 17, 23, 17);
    CellIs(Offsets, 18, 30, 22);
    CellIs(Offsets, 19, 5, 4);
    CellIs(Offsets, 20, 12, 8);
    CellIs(Offsets, 21, 19, 13);
    CellIs(Offsets, 22, 26, 19);
    CellIs(Offsets, 23, 1, 1);
  }

  lemma OffsetsRow3()
    ensures Row(Offsets, 24, [6, 10, 16, 28, 27, 26, 25, 24])
  {
    hide Pow2, PredefinedTans;
    SmallPow2();
    CellIs(Offsets, 24, 8, 6);
    CellIs(Offsets, 25, 15, 10);
    CellIs(Offsets, 26, 22, 16);
    CellIs(Offsets, 27, 31, 28);
    CellIs(Offsets, 28, 31, 27);
    CellIs(Offsets, 29, 31, 26);
    CellIs(Offsets, 30, 31, 25);
    CellIs(Offsets, 31, 31, 24);
  }

  lemma MatchLengthsRows()
    ensures PredefinedTans(MatchLengths).cells == Listed(MatchLengths)
  {
    hide Pow2, PredefinedTans;
    SmallPow2();
    MatchLengthsRow0();
    MatchLengthsRow1();
    MatchLengthsRow2();
    MatchLengthsRow3();
    MatchLengthsRow4();
    MatchLengthsRow5();
    MatchLengthsRow6();
    MatchLengthsRow7();
    Join64(PredefinedTans(MatchLengths).cells);
  }

  lemma MatchLengthsRow0()
    ensures Row(MatchLengths, 0, [0, 1, 2, 3, 5, 6, 8, 10])
  {
    hide Pow2, PredefinedTans;
    SmallPow2();
    CellIs(MatchLengths, 0, 0, 0);
    CellIs(MatchLengths, 1, 3, 1);
    CellIs(MatchLengths, 2, 6, 2);
    CellIs(MatchLengths, 3, 9, 3);
    CellIs(MatchLengths, 4, 12, 5);
    CellIs(MatchLengths, 5, 15, 6);
    CellIs(MatchLengths, 6, 18, 8);
    CellIs(MatchLengths, 7, 21, 10);
  }

  lemma MatchLengthsRow1()
    ensures Row(MatchLengths, 8, [13, 16, 19, 22, 25, 28, 31, 33])
  {
    hide Pow2, PredefinedTans;
    SmallPow2();
    CellIs(MatchLengths, 8, 24, 13);
    CellIs(MatchLengths, 9, 27, 16);
    CellIs(MatchLengths, 10, 30, 19);
    CellIs(MatchLengths, 11, 33, 22);
    CellIs(MatchLengths, 12, 36, 25);
    CellIs(MatchLengths, 13, 39, 28);
    CellIs(MatchLengths, 14, 42, 31);
    CellIs(MatchLengths, 15, 45, 33);
  }

  lemma MatchLengthsRow2()
    ensures Row(MatchLengths, 16, [35, 37, 39, 41, 43, 45, 1, 2])
  {
    hide Pow2, PredefinedTans;
    SmallPow2();
    CellIs(MatchLengths, 16, 48, 35);
    CellIs(MatchLengths, 17, 51, 37);
    CellIs(MatchLengths, 18, 54, 39);
    CellIs(MatchLengths, 19, 57, 41);
    CellIs(MatchLengths, 20, 60, 43);
    CellIs(MatchLengths, 21, 63, 45);
    CellIs(MatchLengths, 22, 2, 1);
    CellIs(MatchLengths, 23, 5, 2);
  }

  lemma MatchLengthsRow3()
    ensures Row(MatchLengths, 24, [3, 4, 6, 7, 9, 12, 15, 18])
  {
    hide Pow2, PredefinedTans;
    SmallPow2();
    CellIs(MatchLengths, 24, 8, 3);
    CellIs(MatchLengths, 25, 11, 4);
    CellIs(MatchLengths, 26, 14, 6);
    CellIs(MatchLengths, 27, 17, 7);
    CellIs(MatchLengths, 28, 20, 9);
    CellIs(MatchLengths, 29, 23, 12);
    CellIs(MatchLengths, 30, 26, 15);
    CellIs(MatchLengths, 31, 29, 18);
  }

  lemma MatchLengthsRow4()
    ensures Row(MatchLengths, 32, [21, 24, 27, 30, 32, 34, 36, 38])
  {
    hide Pow2, PredefinedTans;
    SmallPow2();
    CellIs(MatchLengths, 32, 32, 21);
    CellIs(MatchLengths, 33, 35, 24);
    CellIs(MatchLengths, 34, 38, 27);
    CellIs(MatchLengths, 35, 41, 30);
    CellIs(MatchLengths, 36, 44, 32);
    CellIs(MatchLengths, 37, 47, 34);
    CellIs(MatchLengths, 38, 50, 36);
    CellIs(MatchLengths, 39, 53, 38);
  }

  lemma MatchLengthsRow5()
    ensures Row(MatchLengths, 40, [40, 42, 44, 1, 1, 2, 4, 5])
  {
    hide Pow2, PredefinedTans;
    SmallPow2();
    CellIs(MatchLengths, 40, 56, 40);
    CellIs(MatchLengths, 41, 59, 42);
    CellIs(MatchLengths, 42, 62, 44);
    CellIs(MatchLengths, 43, 1, 1);
    CellIs(MatchLengths, 44, 4, 1);
    CellIs(MatchLengths, 45, 7, 2);
    CellIs(MatchLengths, 46, 10, 4);
    CellIs(MatchLengths, 47, 13, 5);
  }

  lemma MatchLengthsRow6()
    ensures Row(MatchLengths, 48, [7, 8, 11, 14, 17, 20, 23, 26])
  {
    hide Pow2, PredefinedTans;
    SmallPow2();
    CellIs(MatchLengths, 48, 16, 7);
    CellIs(MatchLengths, 49, 19, 8);
    CellIs(MatchLengths, 50, 22, 11);
    CellIs(MatchLengths, 51, 25, 14);
    CellIs(MatchLengths, 52, 28, 17);
    CellIs(MatchLengths, 53, 31, 20);
    CellIs(MatchLengths, 54, 34, 23);
    CellIs(MatchLengths, 55, 37, 26);
  }

  lemma MatchLengthsRow7()
    ensures Row(MatchLengths, 56, [29, 52, 51, 50, 49, 48, 47, 46])
  {
    hide Pow2, PredefinedTans;
    SmallPow2();
    CellIs(MatchLengths, 56, 40, 29);
    CellIs(MatchLengths, 57, 63, 52);
    CellIs(MatchLengths, 58, 63, 51);
    CellIs(MatchLengths, 59, 63, 50);
    CellIs(MatchLengths, 60, 63, 49);
    CellIs(MatchLengths, 61, 63, 48);
    CellIs(MatchLengths, 62, 63, 47);
    CellIs(MatchLengths, 63, 63, 46);
  }

  lemma Join32(w: seq<nat>)
    requires |w| == 32
    ensures w == w[0..8] + w[8..16] + w[16..24] + w[24..32]
  {
  }

  lemma Join64(w: seq<nat>)
    requires |w| == 64
    ensures w == w[0..8] + w[8..16] + w[16..24] + w[24..32] + w[32..40] + w[40..48] + w[48..56] + w[56..64]
  {
    assert w == w[..32] + w[32..];
    Join32(w[..32]);
    Join32(w[32..]);
  }
}
