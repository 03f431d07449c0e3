/** Spreading symbols over the cells of an FSE table (section 4.1.1 of RFC 8878).

    Encoder and decoder run the same walk: low-probability symbols take the top cells, every
    other symbol takes its count of cells along steps of `SpreadStep`, skipping the top. */
module FseSpread {
  import opened Bits
  import opened Permutations

  const MAX_ACCURACY_LOG := 9
  const MAX_TABLE_SIZE := 512
  const MAX_SYMBOL_COUNT := 256

  /** Cells owned by a normalized count; -1 stands for a probability below one cell. */
  function CellsOf(count: int): nat {
    if count == -1 then 1 else if count < 0 then 0 else count
  }

  function EffectiveSum(counts: seq<int>): nat {
    if counts == [] then 0 else EffectiveSum(counts[..|counts| - 1]) + CellsOf(counts[|counts| - 1])
  }

  lemma {:induction false} SumConcat(a: seq<int>, b: seq<int>)
    ensures EffectiveSum(a + b) == EffectiveSum(a) + EffectiveSum(b)
    decreases |b|
  {
    if b == [] {
      assert a + b == a;
    } else {
      SumConcat(a, b[..|b| - 1]);
      assert (a + b)[..|a + b| - 1] == a + b[..|b| - 1];
    }
  }

  ghost predicate ValidCounts(counts: seq<int>, log: nat) {
    && 0 < |counts| <= MAX_SYMBOL_COUNT
    && 0 < log <= MAX_ACCURACY_LOG
    && (forall i :: 0 <= i < |counts| ==> counts[i] >= -1)
    && EffectiveSum(counts) == Pow2(log)
  }

  function SpreadStep(tableSize: nat): nat {
    tableSize / 2 + tableSize / 8 + 3
  }

  /** The step generates all cells exactly when it is odd, and it is for every table size the
      format can describe (logs 5 to 9); only the logs 1 and 3 break it. */
  lemma StepOdd(log: nat)
    requires 0 < log <= MAX_ACCURACY_LOG
    ensures SpreadStep(Pow2(log)) % 2 == 1 <==> log != 1 && log != 3
  {
    SmallPow2();
    hide Pow2;
    assert log == 1 || log == 2 || log == 3 || log == 4 || log == 5 || log == 6 || log == 7 || log == 8 || log == 9;
  }

  /** The two table sizes whose step is a multiple of the size. */
  predicate Stuck(log: nat) {
    log == 1 || log == 3
  }

  /** There the walk never leaves cell 0. */
  lemma {:induction false} StuckWalk(log: nat, t: nat)
    requires Stuck(log)
    ensures Walk(log, t) == 0
  {
    if t > 0 {
      StuckWalk(log, t - 1);
      StuckStep(log);
    }
  }

  lemma StuckStep(log: nat)
    requires Stuck(log)
    ensures LowBits(0 + SpreadStep(Pow2(log)), log) == 0
  {
    SmallPow2();
    assert LowBits(4, 1) == 0;
    assert LowBits(8, 3) == 2 * LowBits(4, 2) == 4 * LowBits(2, 1) == 0;
  }

  lemma SmallPow2()
    ensures Pow2(0) == 1 && Pow2(1) == 2 && Pow2(2) == 4 && Pow2(3) == 8 && Pow2(4) == 16
    ensures Pow2(5) == 32 && Pow2(6) == 64 && Pow2(7) == 128 && Pow2(8) == 256 && Pow2(9) == 512
  {
  }

  // ---------------------------------------------------------------- the walk

  /** Position after `t` steps from 0: `(position + step) & mask` each time. */
  function Walk(log: nat, t: nat): (p: nat)
    ensures p < Pow2(log)
  {
    if t == 0 then 0 else LowBits(Walk(log, t - 1) + SpreadStep(Pow2(log)), log)
  }

  lemma {:induction false} WalkClosed(log: nat, t: nat) returns (q: nat)
    ensures t * SpreadStep(Pow2(log)) == Pow2(log) * q + Walk(log, t)
  {
    hide Pow2, LowBits, SpreadStep;
    if t == 0 {
      q := 0;
    } else {
      var step := SpreadStep(Pow2(log));
      var q' := WalkClosed(log, t - 1);
      var v := Walk(log, t - 1) + step;
      SplitBits(v, log);
      ShlTimes(Shr(v, log), log);
      q := q' + Shr(v, log);
      StepProduct(t, step, Pow2(log), q', Shr(v, log));
    }
  }

  /** Where the walk stands, from the table size alone: five eighths of the table and three cells
      each step, modulo the table. */
  lemma WalkIs(log: nat, t: nat)
    ensures log >= 3 ==> Walk(log, t) == (t * (5 * Pow2(log - 3) + 3)) % Pow2(log)
    ensures log == 2 ==> Walk(log, t) == (t * 5) % 4
    ensures log <= 1 ==> Walk(log, t) == 0
  {
    hide *;
    var q := WalkClosed(log, t);
    StepIs(log);
    RemainderIs(t * SpreadStep(Pow2(log)), Pow2(log), q, Walk(log, t));
    if log == 1 {
      StuckIs(1);
      StuckWalk(1, t);
    }
    SmallPow2();
  }

  lemma StepIs(log: nat)
    ensures log >= 3 ==> SpreadStep(Pow2(log)) == 5 * Pow2(log - 3) + 3
    ensures log == 2 ==> SpreadStep(Pow2(log)) == 5
  {
    hide *;
    if log >= 3 {
      EightTimes(log - 3);
      StepOfEight(Pow2(log - 3));
    } else {
      SmallPow2();
      StepOfFour();
    }
  }

  lemma StepOfEight(eighth: nat)
    ensures SpreadStep(8 * eighth) == 5 * eighth + 3
  {
    assert 8 * eighth / 2 == 4 * eighth && 8 * eighth / 8 == eighth;
  }

  lemma StepOfFour()
    ensures SpreadStep(4) == 5
  {
  }

  lemma EightTimes(n: nat)
    ensures Pow2(n + 3) == 8 * Pow2(n)
  {
    assert Pow2(n + 3) == 2 * Pow2(n + 2) == 4 * Pow2(n + 1);
  }

  lemma StuckIs(log: nat)
    ensures Stuck(log) <==> log == 1 || log == 3
  {
  }

  lemma RemainderIs(v: nat, n: nat, q: nat, r: nat)
    requires v == n * q + r && r < n
    ensures v % n == r
  {
    hide *;
    var d, m := v / n, v % n;
    DivisionParts(v, n);
    Apart(n, q, d);
    Apart(n, d, q);
  }

  lemma DivisionParts(v: nat, n: nat)
    requires n > 0
    ensures v == n * (v / n) + v % n && 0 <= v / n && 0 <= v % n < n
  {
  }

  lemma Apart(n: nat, a: nat, b: nat)
    ensures a < b ==> n * a + n <= n * b
  {
    if a < b {
      var more: nat := b - a - 1;
      assert b == a + 1 + more && n * (a + 1 + more) == n * a + n + n * more;
    }
  }

  lemma StepProduct(t: nat, step: nat, n: nat, q: nat, r: nat)
    requires t > 0
    ensures t * step == (t - 1) * step + step
    ensures n * (q + r) == n * q + r * n
  {
  }

  lemma {:induction false} OddFactor(d: nat, step: nat, log: nat, q: nat)
    requires d < Pow2(log) && step % 2 == 1
    requires d * step == Pow2(log) * q
    ensures d == 0
    decreases log
  {
    hide *;
    if log == 0 {
      SmallPow2();
    } else {
      Doubles(log - 1, q);
      var half := d / 2;
      EvenFactor(d, step, Pow2(log - 1) * q);
      TwiceTimes(half, step);
      OddFactor(half, step, log - 1, q);
    }
  }

  lemma Doubles(log: nat, q: nat)
    ensures Pow2(log + 1) == 2 * Pow2(log) && Pow2(log + 1) * q == 2 * (Pow2(log) * q)
  {
    hide *;
    PowerDoubles(log);
    TwiceTimes(Pow2(log), q);
  }

  lemma PowerDoubles(log: nat)
    ensures Pow2(log + 1) == 2 * Pow2(log)
  {
  }

  lemma TwiceTimes(a: nat, b: nat)
    ensures (2 * a) * b == 2 * (a * b)
  {
  }

  /** An even product with one odd factor has an even other factor. */
  lemma EvenFactor(d: nat, step: nat, q: nat)
    requires step % 2 == 1 && d * step == 2 * q
    ensures d == 2 * (d / 2)
  {
    hide *;
    OddTimes(d, step / 2);
    assert step == 2 * (step / 2) + 1;
  }

  lemma OddTimes(d: nat, half: nat)
    ensures d * (2 * half + 1) == 2 * (d * half) + d
  {
  }

  lemma WalkInjective(log: nat, t: nat, u: nat)
    requires SpreadStep(Pow2(log)) % 2 == 1
    requires t < u < t + Pow2(log)
    ensures Walk(log, t) != Walk(log, u)
  {
    hide Pow2, LowBits, SpreadStep, Walk;
    if Walk(log, t) == Walk(log, u) {
      var step, n := SpreadStep(Pow2(log)), Pow2(log);
      var a := WalkClosed(log, t);
      var b := WalkClosed(log, u);
      DifferenceProducts(t, u, step, n, a, b);
      OddFactor(u - t, step, log, b - a);
    }
  }

  lemma DifferenceProducts(t: nat, u: nat, step: nat, n: nat, a: nat, b: nat)
    requires t < u && n > 0 && u * step - t * step == n * b - n * a
    ensures a <= b && (u - t) * step == n * (b - a)
  {
    assert (u - t) * step == u * step - t * step;
    assert n * (b - a) == n * b - n * a;
    assert (u - t) * step >= 0;
  }

  /** After a full cycle the walk is back at the start. */
  lemma WalkReturns(log: nat)
    requires SpreadStep(Pow2(log)) % 2 == 1
    ensures Walk(log, Pow2(log)) == 0
  {
    hide LowBits, SpreadStep, Walk;
    var n := Pow2(log);
    var w := seq(n, t requires 0 <= t < n => Walk(log, t));
    forall t, u | 0 <= t < u < n
      ensures w[t] != w[u]
    {
      WalkInjective(log, t, u);
    }
    DistinctCoversRange(w, n);
    var last := Walk(log, n);
    assert last in w;
    var t :| 0 <= t < n && w[t] == last;
    if t > 0 {
      WalkInjective(log, t, n);
    }
    WalkStart(log);
  }

  lemma WalkStart(log: nat)
    ensures Walk(log, 0) == 0
  {
  }

  // ---------------------------------------------------------------- the cells of the walk

  /** The cells below `free` met in the first `t` steps, in order. */
  ghost function LowCells(log: nat, free: nat, t: nat): seq<nat> {
    if t == 0 then []
    else LowCells(log, free, t - 1) + (if Walk(log, t - 1) < free then [Walk(log, t - 1)] else [])
  }

  lemma {:induction false} LowCellMet(log: nat, free: nat, t: nat, c: nat) returns (u: nat)
    requires c in LowCells(log, free, t)
    ensures u < t && Walk(log, u) == c
  {
    hide Walk;
    if c in LowCells(log, free, t - 1) {
      u := LowCellMet(log, free, t - 1, c);
    } else {
      u := t - 1;
    }
  }

  lemma {:induction false} LowCellsAre(log: nat, free: nat, t: nat)
    requires SpreadStep(Pow2(log)) % 2 == 1 && t <= Pow2(log)
    ensures var cells := LowCells(log, free, t);
            && Distinct(cells)
            && (forall i :: 0 <= i < |cells| ==> cells[i] < free)
            && (forall u :: 0 <= u < t && Walk(log, u) < free ==> Walk(log, u) in cells)
  {
    hide Walk, SpreadStep;
    if t > 0 {
      LowCellsAre(log, free, t - 1);
      var before := LowCells(log, free, t - 1);
      forall i | 0 <= i < |before|
        ensures before[i] != Walk(log, t - 1)
      {
        assert before[i] in before;
        var u := LowCellMet(log, free, t - 1, before[i]);
        WalkInjective(log, u, t - 1);
      }
    }
  }

  lemma {:induction false} LowCellsGrow(log: nat, free: nat, t: nat, u: nat)
    requires t <= u
    ensures |LowCells(log, free, t)| <= |LowCells(log, free, u)|
    decreases u
  {
    if t < u { LowCellsGrow(log, free, t, u - 1); }
  }

  /** A full cycle meets every free cell exactly once. */
  lemma FullCycle(log: nat, free: nat)
    requires SpreadStep(Pow2(log)) % 2 == 1 && free <= Pow2(log)
    ensures var cells := LowCells(log, free, Pow2(log));
            && |cells| == free && Distinct(cells)
            && (forall i :: 0 <= i < free ==> cells[i] < free)
            && (forall p: nat :: p < free ==> p in cells)
  {
    hide Walk, SpreadStep, LowCells;
    var n := Pow2(log);
    LowCellsAre(log, free, n);
    var w := seq(n, t requires 0 <= t < n => Walk(log, t));
    forall t, u | 0 <= t < u < n
      ensures w[t] != w[u]
    {
      WalkInjective(log, t, u);
    }
    DistinctCoversRange(w, n);
    var cells := LowCells(log, free, n);
    forall p: nat | p < free
      ensures p in cells
    {
      assert p in w;
      var t :| 0 <= t < n && w[t] == p;
      assert Walk(log, t) in cells;
    }
    DistinctCoversRange(cells, free);
    DistinctCard(cells);
    assert Range(free) <= Elements(cells);
    assert |Elements(cells) - Range(free)| == |Elements(cells)| - |Range(free)|;
  }

  // ---------------------------------------------------------------- what the spread means

  /** Symbols with a positive count, each repeated its count of times. */
  function Repeated(counts: seq<int>): seq<nat> {
    if counts == [] then []
    else
      var last := |counts| - 1;
      Repeated(counts[..last]) + seq(Max(counts[last], 0), _ => last)
  }

  /** Symbols with count -1, in order. */
  function LowProbability(counts: seq<int>): seq<nat> {
    if counts == [] then []
    else
      var last := |counts| - 1;
      LowProbability(counts[..last]) + (if counts[last] == -1 then [last] else [])
  }

  lemma {:induction false} SymbolListLengths(counts: seq<int>)
    requires forall i :: 0 <= i < |counts| ==> counts[i] >= -1
    ensures |Repeated(counts)| + |LowProbability(counts)| == EffectiveSum(counts)
    ensures forall i :: 0 <= i < |Repeated(counts)| ==> Repeated(counts)[i] < |counts|
    ensures forall i :: 0 <= i < |LowProbability(counts)| ==> LowProbability(counts)[i] < |counts|
  {
    if counts != [] {
      SymbolListLengths(counts[..|counts| - 1]);
    }
  }

  lemma {:induction false} SymbolListCounts(counts: seq<int>, s: nat)
    requires forall i :: 0 <= i < |counts| ==> counts[i] >= -1
    ensures multiset(Repeated(counts))[s] + multiset(LowProbability(counts))[s]
         == if s < |counts| then CellsOf(counts[s]) else 0
  {
    hide Repeated, LowProbability;
    if counts == [] {
      NoSymbols();
    } else {
      var last := |counts| - 1;
      SymbolListCounts(counts[..last], s);
      SymbolListsStep(counts);
      ConstantMultiset(Max(counts[last], 0), last, s);
      var low := if counts[last] == -1 then [last] else [];
      MultisetConcat(Repeated(counts[..last]), seq(Max(counts[last], 0), _ => last), s);
      MultisetConcat(LowProbability(counts[..last]), low, s);
    }
  }

  lemma NoSymbols()
    ensures Repeated([]) == [] && LowProbability([]) == []
  {
  }

  lemma SymbolListsStep(counts: seq<int>)
    requires counts != []
    ensures var last := |counts| - 1;
            && Repeated(counts) == Repeated(counts[..last]) + seq(Max(counts[last], 0), _ => last)
            && LowProbability(counts) == LowProbability(counts[..last]) + (if counts[last] == -1 then [last] else [])
  {
  }

  lemma MultisetConcat(a: seq<nat>, b: seq<nat>, s: nat)
    ensures multiset(a + b)[s] == multiset(a)[s] + multiset(b)[s]
  {
  }

  lemma {:induction false} ConstantMultiset(n: nat, x: nat, s: nat)
    ensures multiset(seq(n, _ => x))[s] == if s == x then n else 0
  {
    if n > 0 {
      ConstantMultiset(n - 1, x, s);
      assert seq(n, _ => x) == seq(n - 1, _ => x) + [x];
    }
  }

  ghost function IndexOf(w: seq<nat>, x: nat): (i: nat)
    requires x in w
    ensures i < |w| && w[i] == x
  {
    var i :| 0 <= i < |w| && w[i] == x;
    i
  }

  /** Cell by cell: the repeated symbols in the order in which the free cells are met, the others from
      the top down. */
  ghost function FromOrder(repeated: seq<nat>, low: seq<nat>, order: seq<nat>): (cells: seq<nat>)
    requires |order| == |repeated| && forall c: nat :: c < |repeated| ==> c in order
    ensures |cells| == |repeated| + |low|
  {
    seq(|repeated| + |low|, c requires 0 <= c < |repeated| + |low| =>
      if c < |repeated| then repeated[IndexOf(order, c)] else low[|repeated| + |low| - 1 - c])
  }

  lemma FromOrderTop(repeated: seq<nat>, low: seq<nat>, order: seq<nat>, c: nat)
    requires |order| == |repeated| && forall c: nat :: c < |repeated| ==> c in order
    requires |repeated| <= c < |repeated| + |low|
    ensures FromOrder(repeated, low, order)[c] == low[|repeated| + |low| - 1 - c]
  {
    hide IndexOf;
  }

  /** The symbol of every cell, for the walks that meet all cells. */
  ghost function WalkedCells(counts: seq<int>, log: nat): (cells: seq<nat>)
    requires ValidCounts(counts, log) && !Stuck(log)
    ensures |cells| == Pow2(log)
  {
    StepOdd(log);
    SymbolListLengths(counts);
    var free := |Repeated(counts)|;
    FullCycle(log, free);
    FromOrder(Repeated(counts), LowProbability(counts), LowCells(log, free, Pow2(log)))
  }

  /** A stuck walk puts every symbol on cell 0; the cells it never meets keep symbol 0. */
  ghost function StuckCells(counts: seq<int>, log: nat): (cells: seq<nat>)
    requires ValidCounts(counts, log)
    ensures |cells| == Pow2(log)
  {
    SymbolListLengths(counts);
    var free := |Repeated(counts)|;
    seq(Pow2(log), c requires 0 <= c < Pow2(log) =>
      if c >= free then LowProbability(counts)[Pow2(log) - 1 - c]
      else if c == 0 then Repeated(counts)[free - 1]
      else 0)
  }

  /** The symbol of every cell. */
  ghost function SpreadCells(counts: seq<int>, log: nat): (cells: seq<nat>)
    requires ValidCounts(counts, log)
    ensures |cells| == Pow2(log)
  {
    if Stuck(log) then StuckCells(counts, log) else WalkedCells(counts, log)
  }

  /** The cell the walk stands on takes the next of the repeated symbols: as many steps as were made,
      without those above the free cells. */
  lemma CellMet(counts: seq<int>, log: nat, t: nat)
    requires ValidCounts(counts, log) && !Stuck(log) && t < Pow2(log)
    ensures var free := |Repeated(counts)|;
            Walk(log, t) < free ==>
              |LowCells(log, free, t)| < free
              && SpreadCells(counts, log)[Walk(log, t)] == Repeated(counts)[|LowCells(log, free, t)|]
  {
    hide Pow2, EffectiveSum, Repeated, Walk, LowCells, SpreadStep;
    var free := |Repeated(counts)|;
    StepOdd(log);
    SymbolListLengths(counts);
    FullCycle(log, free);
    if Walk(log, t) < free {
      var cells, before := LowCells(log, free, Pow2(log)), LowCells(log, free, t);
      var c := Walk(log, t);
      LowCellsStep(log, free, t);
      LowCellsPrefix(log, free, t + 1, Pow2(log));
      assert cells[|before|] == c;
      assert cells[IndexOf(cells, c)] == c;
    }
  }

  lemma {:induction false} LowCellsPrefix(log: nat, free: nat, t: nat, u: nat)
    requires t <= u
    ensures LowCells(log, free, t) <= LowCells(log, free, u)
    decreases u
  {
    hide Walk;
    if t < u { LowCellsPrefix(log, free, t, u - 1); }
  }

  /** The low-probability symbols stand on top, the first of them highest. */
  lemma CellOnTop(counts: seq<int>, log: nat, i: nat)
    requires ValidCounts(counts, log) && i < |LowProbability(counts)|
    ensures i < Pow2(log) && SpreadCells(counts, log)[Pow2(log) - 1 - i] == LowProbability(counts)[i]
  {
    hide *;
    SumIs(counts, log);
    SymbolListLengths(counts);
    TopCell(counts, log, Pow2(log) - 1 - i);
  }

  lemma SumIs(counts: seq<int>, log: nat)
    requires ValidCounts(counts, log)
    ensures EffectiveSum(counts) == Pow2(log) && forall i :: 0 <= i < |counts| ==> counts[i] >= -1
  {
    hide EffectiveSum, Pow2;
  }

  lemma TopCell(counts: seq<int>, log: nat, c: nat)
    requires ValidCounts(counts, log) && |Repeated(counts)| <= c < Pow2(log)
    requires |LowProbability(counts)| + |Repeated(counts)| == Pow2(log)
    ensures SpreadCells(counts, log)[c] == LowProbability(counts)[Pow2(log) - 1 - c]
  {
    hide *;
    if Stuck(log) {
      StuckTop(counts, log, c);
    } else {
      WalkedTop(counts, log, c);
    }
  }

  lemma WalkedTop(counts: seq<int>, log: nat, c: nat)
    requires ValidCounts(counts, log) && !Stuck(log) && |Repeated(counts)| <= c < Pow2(log)
    requires |LowProbability(counts)| + |Repeated(counts)| == Pow2(log)
    ensures SpreadCells(counts, log)[c] == LowProbability(counts)[Pow2(log) - 1 - c]
  {
    hide Pow2, EffectiveSum, Repeated, LowProbability, Walk, LowCells, SpreadStep, FromOrder;
    StepOdd(log);
    FullCycle(log, |Repeated(counts)|);
    FromOrderTop(Repeated(counts), LowProbability(counts), LowCells(log, |Repeated(counts)|, Pow2(log)), c);
  }

  lemma StuckTop(counts: seq<int>, log: nat, c: nat)
    requires ValidCounts(counts, log) && Stuck(log) && |Repeated(counts)| <= c < Pow2(log)
    requires |LowProbability(counts)| + |Repeated(counts)| == Pow2(log)
    ensures SpreadCells(counts, log)[c] == LowProbability(counts)[Pow2(log) - 1 - c]
  {
    hide Pow2, EffectiveSum, Repeated, LowProbability, Walk, LowCells, SpreadStep, ValidCounts, Stuck, IndexOf;
  }

  /** Every symbol has exactly its count of cells. */
  ghost predicate HasCounts(cells: seq<nat>, counts: seq<int>) {
    forall s: nat :: multiset(cells)[s] == if s < |counts| then CellsOf(counts[s]) else 0
  }

  /** All positive counts but symbol 0's come to one cell at most. */
  predicate FewOthers(counts: seq<int>) {
    counts != [] && |Repeated(counts)| <= Max(counts[0], 0) + 1
  }

  lemma CellOwned(cells: seq<nat>, c: nat)
    requires c < |cells|
    ensures multiset(cells)[cells[c]] > 0
  {
  }

  lemma CountedSymbols(cells: seq<nat>, counts: seq<int>)
    requires HasCounts(cells, counts)
    ensures forall c :: 0 <= c < |cells| ==> cells[c] < |counts|
  {
    forall c | 0 <= c < |cells|
      ensures cells[c] < |counts|
    {
      CellOwned(cells, c);
    }
  }

  /** The symbols a stuck walk leaves on the free cells. */
  function StuckFront(rep: seq<nat>): seq<nat> {
    if rep == [] then [] else [rep[|rep| - 1]] + seq(|rep| - 1, _ => 0)
  }

  lemma StuckFrontCount(rep: seq<nat>, s: nat)
    ensures multiset(StuckFront(rep))[s]
          == if rep == [] then 0 else (if s == rep[|rep| - 1] then 1 else 0) + (if s == 0 then |rep| - 1 else 0)
  {
    if rep != [] {
      ConstantMultiset(|rep| - 1, 0, s);
      MultisetConcat([rep[|rep| - 1]], seq(|rep| - 1, _ => 0), s);
    }
  }

  lemma StuckParts(counts: seq<int>, log: nat) returns (back: seq<nat>)
    requires ValidCounts(counts, log)
    ensures |Repeated(counts)| + |LowProbability(counts)| == Pow2(log)
    ensures StuckCells(counts, log) == StuckFront(Repeated(counts)) + back
    ensures multiset(back) == multiset(LowProbability(counts))
  {
    hide Repeated, LowProbability, Pow2, EffectiveSum;
    SymbolListLengths(counts);
    var low := LowProbability(counts);
    back := seq(|low|, i requires 0 <= i < |low| => low[|low| - 1 - i]);
    ReversedMultiset(low, back);
  }

  /** What a stuck walk leaves, as a multiset. */
  lemma StuckMultiset(counts: seq<int>, log: nat, s: nat)
    requires ValidCounts(counts, log)
    ensures |Repeated(counts)| + |LowProbability(counts)| == Pow2(log)
    ensures multiset(StuckCells(counts, log))[s]
          == multiset(StuckFront(Repeated(counts)))[s] + multiset(LowProbability(counts))[s]
  {
    hide Repeated, LowProbability, Pow2, EffectiveSum, StuckCells, StuckFront;
    var back := StuckParts(counts, log);
    MultisetConcat(StuckFront(Repeated(counts)), back, s);
  }

  lemma ReversedMultiset(a: seq<nat>, b: seq<nat>)
    requires |a| == |b| && forall i :: 0 <= i < |a| ==> b[i] == a[|a| - 1 - i]
    ensures multiset(a) == multiset(b)
  {
    PermutedMultiset(a, b, seq(|a|, i requires 0 <= i < |a| => |a| - 1 - i));
  }

  lemma {:induction false} ZeroesFirst(counts: seq<int>)
    requires counts != []
    ensures Max(counts[0], 0) <= |Repeated(counts)|
    ensures multiset(Repeated(counts))[0] == Max(counts[0], 0)
    ensures forall i :: 0 <= i < |Repeated(counts)| ==> (Repeated(counts)[i] == 0 <==> i < Max(counts[0], 0))
  {
    var last := |counts| - 1;
    ConstantMultiset(Max(counts[last], 0), last, 0);
    MultisetConcat(Repeated(counts[..last]), seq(Max(counts[last], 0), _ => last), 0);
    if last > 0 {
      ZeroesFirst(counts[..last]);
    } else {
      assert counts[..0] == [];
    }
  }

  lemma {:induction false} AllZeroes(rep: seq<nat>, s: nat)
    requires forall i :: 0 <= i < |rep| ==> rep[i] == 0
    ensures multiset(rep)[s] == if s == 0 then |rep| else 0
  {
    assert rep == seq(|rep|, _ => 0);
    ConstantMultiset(|rep|, 0, s);
  }

  /** A stuck walk gives every symbol its count exactly when at most one cell belongs to others than
      symbol 0. */
  lemma StuckRightExactly(counts: seq<int>, log: nat)
    requires ValidCounts(counts, log)
    ensures HasCounts(StuckCells(counts, log), counts) <==> FewOthers(counts)
  {
    hide Repeated, LowProbability, Pow2, EffectiveSum, StuckCells, StuckFront;
    var rep: seq<nat>, cells: seq<nat> := Repeated(counts), StuckCells(counts, log);
    ZeroesFirst(counts);
    if HasCounts(cells, counts) {
      StuckMultiset(counts, log, 0);
      StuckFrontCount(rep, 0);
      SymbolListCounts(counts, 0);
      assert multiset(cells)[0] == CellsOf(counts[0]);
    }
    if FewOthers(counts) {
      forall s: nat
        ensures multiset(cells)[s] == if s < |counts| then CellsOf(counts[s]) else 0
      {
        StuckMultiset(counts, log, s);
        StuckFrontCount(rep, s);
        SymbolListCounts(counts, s);
        NearlyZeroes(rep, Max(counts[0], 0), s);
      }
    }
  }

  lemma NearlyZeroes(rep: seq<nat>, zeroes: nat, s: nat)
    requires |rep| <= zeroes + 1 && forall i :: 0 <= i < |rep| ==> (rep[i] == 0 <==> i < zeroes)
    ensures multiset(rep)[s]
          == if rep == [] then 0 else (if s == rep[|rep| - 1] then 1 else 0) + (if s == 0 then |rep| - 1 else 0)
  {
    if rep != [] {
      var front, last := rep[..|rep| - 1], rep[|rep| - 1];
      assert rep == front + [last];
      MultisetConcat(front, [last], s);
      AllZeroes(front, s);
    }
  }

  /** Every symbol gets exactly its count of cells, except where the walk is stuck and two cells or
      more belong to others than symbol 0. */
  lemma SpreadRightExactly(counts: seq<int>, log: nat)
    requires ValidCounts(counts, log)
    ensures HasCounts(SpreadCells(counts, log), counts) <==> (Stuck(log) ==> FewOthers(counts))
  {
    hide WalkedCells, StuckCells, FewOthers;
    if Stuck(log) {
      StuckRightExactly(counts, log);
    } else {
      WalkGivesCounts(counts, log);
    }
  }

  lemma SpreadGivesCounts(counts: seq<int>, log: nat)
    requires ValidCounts(counts, log) && (Stuck(log) ==> FewOthers(counts))
    ensures forall s: nat :: multiset(SpreadCells(counts, log))[s]
                          == if s < |counts| then CellsOf(counts[s]) else 0
    ensures forall c :: 0 <= c < Pow2(log) ==> SpreadCells(counts, log)[c] < |counts|
  {
    hide SpreadCells, FewOthers;
    SpreadRightExactly(counts, log);
    CountedSymbols(SpreadCells(counts, log), counts);
  }

  lemma WalkGivesCounts(counts: seq<int>, log: nat)
    requires ValidCounts(counts, log) && !Stuck(log)
    ensures forall s: nat :: multiset(WalkedCells(counts, log))[s]
                          == if s < |counts| then CellsOf(counts[s]) else 0
    ensures forall c :: 0 <= c < Pow2(log) ==> WalkedCells(counts, log)[c] < |counts|
  {
    hide Repeated, LowProbability, LowCells, SpreadStep, EffectiveSum, Pow2, CellsOf;
    StepOdd(log);
    SymbolListLengths(counts);
    var rep, low, n := Repeated(counts), LowProbability(counts), Pow2(log);
    FullCycle(log, |rep|);
    var walk := LowCells(log, |rep|, n);
    var cells := WalkedCells(counts, log);
    var p := walk + seq(|low|, i requires 0 <= i < |low| => n - 1 - i);
    forall i | 0 <= i < n
      ensures p[i] < n && cells[p[i]] == (rep + low)[i]
    {
      if i < |rep| {
        var j := IndexOf(walk, walk[i]);
        assert i == j;
      }
    }
    PermutedMultiset(rep + low, cells, p);
    forall s: nat
      ensures multiset(cells)[s] == if s < |counts| then CellsOf(counts[s]) else 0
    {
      SymbolListCounts(counts, s);
    }
    forall c | 0 <= c < n
      ensures cells[c] < |counts|
    {
      if c < |rep| {
        var i := IndexOf(walk, c);
        assert rep[i] < |counts|;
      } else {
        assert low[n - 1 - c] < |counts|;
      }
    }
  }

  // ---------------------------------------------------------------- the loop

  lemma {:induction false} EffectiveSumBound(counts: seq<int>, k: nat)
    requires k <= |counts| && forall i :: 0 <= i < |counts| ==> counts[i] >= -1
    ensures EffectiveSum(counts[..k]) <= EffectiveSum(counts)
    decreases |counts|
  {
    if k < |counts| {
      EffectiveSumBound(counts[..|counts| - 1], k);
      assert counts[..|counts| - 1][..k] == counts[..k];
    } else {
      assert counts[..k] == counts;
    }
  }

  lemma PrefixStep<T>(s: seq<T>, k: nat)
    requires k < |s|
    ensures s[..k + 1][..|s[..k + 1]| - 1] == s[..k] && s[..k + 1][|s[..k + 1]| - 1] == s[k]
  {
  }

  lemma {:induction false} ListPrefixes(counts: seq<int>, k: nat)
    requires k <= |counts|
    ensures |Repeated(counts[..k])| <= |Repeated(counts)|
    ensures Repeated(counts[..k]) == Repeated(counts)[..|Repeated(counts[..k])|]
    ensures |LowProbability(counts[..k])| <= |LowProbability(counts)|
    ensures LowProbability(counts[..k]) == LowProbability(counts)[..|LowProbability(counts[..k])|]
    decreases |counts|
  {
    if k < |counts| {
      ListPrefixes(counts[..|counts| - 1], k);
      assert counts[..|counts| - 1][..k] == counts[..k];
    } else {
      assert counts[..k] == counts;
    }
  }

  /** First pass: the low-probability symbols take the top cells, downwards. `highThreshold`
      wraps below zero when they take all of them. */
  method PlaceLowProbability(counts: seq<int>, log: nat, symbols: array<nat>) returns (highThreshold: nat)
    requires ValidCounts(counts, log) && symbols.Length == MAX_TABLE_SIZE
    modifies symbols
    ensures Pow2(log) <= MAX_TABLE_SIZE && |LowProbability(counts)| <= Pow2(log)
    ensures highThreshold == if |LowProbability(counts)| == Pow2(log) then USIZE_MAX
                             else Pow2(log) - 1 - |LowProbability(counts)|
    ensures forall i :: 0 <= i < |LowProbability(counts)| ==>
              symbols[Pow2(log) - 1 - i] == LowProbability(counts)[i]
    ensures forall i :: 0 <= i < Pow2(log) - |LowProbability(counts)| ==> symbols[i] == old(symbols[i])
  {
    hide LowProbability, EffectiveSum, Pow2;
    TableSizeBound(log);
    var tableSize := Pow2(log);
    highThreshold := tableSize - 1;
    LowProbabilityEmpty();
    for symbol := 0 to |counts|
      invariant |LowProbability(counts[..symbol])| <= tableSize
      invariant highThreshold == if |LowProbability(counts[..symbol])| == tableSize then USIZE_MAX
                                 else tableSize - 1 - |LowProbability(counts[..symbol])|
      invariant forall i :: 0 <= i < |LowProbability(counts[..symbol])| ==>
                  symbols[tableSize - 1 - i] == LowProbability(counts[..symbol])[i]
      invariant forall i :: 0 <= i < tableSize - |LowProbability(counts[..symbol])| ==> symbols[i] == old(symbols[i])
    {
      LowProbabilityStep(counts, symbol);
      LowProbabilityBound(counts, symbol + 1);
      if counts[symbol] == -1 {
        symbols[highThreshold] := symbol;
        highThreshold := if highThreshold == 0 then USIZE_MAX else highThreshold - 1;
      }
    }
    assert counts[..|counts|] == counts;
  }

  const USIZE_MAX: nat := 0xFFFF_FFFF_FFFF_FFFF

  lemma TableSizeBound(log: nat)
    requires log <= MAX_ACCURACY_LOG
    ensures Pow2(log) <= MAX_TABLE_SIZE
  {
    assert Pow2(9) == 512;
    Pow2Mono(log, 9);
  }

  lemma LowProbabilityEmpty()
    ensures LowProbability([]) == [] && Repeated([]) == []
  {
  }

  lemma LowProbabilityStep(counts: seq<int>, k: nat)
    requires k < |counts|
    ensures LowProbability(counts[..k + 1])
         == LowProbability(counts[..k]) + (if counts[k] == -1 then [k] else [])
  {
    PrefixStep(counts, k);
  }

  lemma RepeatedStep(counts: seq<int>, k: nat)
    requires k < |counts|
    ensures Repeated(counts[..k + 1]) == Repeated(counts[..k]) + seq(Max(counts[k], 0), _ => k)
  {
    PrefixStep(counts, k);
  }

  lemma LowProbabilityBound(counts: seq<int>, k: nat)
    requires k <= |counts| && forall i :: 0 <= i < |counts| ==> counts[i] >= -1
    ensures |LowProbability(counts[..k])| <= EffectiveSum(counts)
  {
    SymbolListLengths(counts);
    ListPrefixes(counts, k);
  }

  /** The walk of both table builders. It never leaves the table, fills every cell with the
      symbol `SpreadCells` gives it, and ends where it began, so the builders' check of the
      final position always passes. */
  method SpreadSymbols(counts: seq<int>, log: nat) returns (symbols: array<nat>, position: nat)
    requires ValidCounts(counts, log)
    ensures fresh(symbols) && symbols.Length == MAX_TABLE_SIZE && Pow2(log) <= MAX_TABLE_SIZE
    ensures position == 0
    ensures symbols[..Pow2(log)] == SpreadCells(counts, log)
  {
    hide LowProbability, Repeated, LowCells, EffectiveSum, Pow2, Walk, SpreadStep, WalkState, WalkedCells, StuckCells;
    symbols := new nat[MAX_TABLE_SIZE](i => 0);
    var highThreshold := PlaceLowProbability(counts, log, symbols);
    SymbolListLengths(counts);
    WalkBegins(counts, log, symbols[..]);
    position := 0;
    ghost var t := 0;
    for symbol := 0 to |counts|
      invariant Placed(counts, log, symbols[..], position, t, Repeated(counts[..symbol]))
    {
      RepeatedStep(counts, symbol);
      ListPrefixes(counts, symbol + 1);
      if counts[symbol] > 0 {
        assert Repeated(counts[..symbol]) + seq(0, _ => symbol) == Repeated(counts[..symbol]);
        for k := 0 to counts[symbol]
          invariant Placed(counts, log, symbols[..], position, t,
                           Repeated(counts[..symbol]) + seq(k, _ => symbol))
        {
          position, t := PlaceOne(counts, log, symbols, symbol, highThreshold, position, t,
                                  Repeated(counts[..symbol]) + seq(k, _ => symbol));
          assert seq(k + 1, _ => symbol) == seq(k, _ => symbol) + [symbol];
          assert Repeated(counts[..symbol]) + seq(k, _ => symbol) + [symbol]
              == Repeated(counts[..symbol]) + seq(k + 1, _ => symbol);
        }
      } else {
        assert seq(Max(counts[symbol], 0), _ => symbol) == [];
        assert Repeated(counts[..symbol + 1]) == Repeated(counts[..symbol]);
      }
    }
    assert counts[..|counts|] == counts;
    if Stuck(log) {
      StuckComplete(counts, log, symbols[..], position);
    } else {
      WalkComplete(counts, log, symbols[..], position, t);
    }
  }

  /** What the loop keeps: the walk's state, or that of a stuck one. */
  ghost predicate Placed(counts: seq<int>, log: nat, symbols: seq<nat>, position: nat, t: nat, placed: seq<nat>) {
    if Stuck(log) then StuckState(counts, log, symbols, position, placed)
    else WalkState(counts, log, symbols, position, t, placed)
  }

  /** Everything placed so far went to cell 0. */
  ghost predicate StuckState(counts: seq<int>, log: nat, symbols: seq<nat>, position: nat, placed: seq<nat>) {
    var free := |Repeated(counts)|;
    && |symbols| == MAX_TABLE_SIZE && Pow2(log) <= MAX_TABLE_SIZE && position == 0
    && |LowProbability(counts)| + free == Pow2(log)
    && |placed| <= free && placed == Repeated(counts)[..|placed|]
    && (placed != [] ==> symbols[0] == placed[|placed| - 1])
    && (forall i :: 0 < i < free ==> symbols[i] == 0)
    && (forall i :: 0 <= i < |LowProbability(counts)| ==> symbols[Pow2(log) - 1 - i] == LowProbability(counts)[i])
  }

  lemma WalkBegins(counts: seq<int>, log: nat, symbols: seq<nat>)
    requires ValidCounts(counts, log) && |symbols| == MAX_TABLE_SIZE && Pow2(log) <= MAX_TABLE_SIZE
    requires |LowProbability(counts)| <= Pow2(log)
    requires forall i :: 0 <= i < |LowProbability(counts)| ==> symbols[Pow2(log) - 1 - i] == LowProbability(counts)[i]
    requires forall i :: 0 <= i < Pow2(log) - |LowProbability(counts)| ==> symbols[i] == 0
    ensures counts[..0] == [] && Placed(counts, log, symbols, 0, 0, Repeated(counts[..0]))
  {
    hide LowProbability, EffectiveSum, Pow2, SpreadStep;
    SymbolListLengths(counts);
    WalkStart(log);
    LowProbabilityEmpty();
    assert counts[..0] == [];
    hide Repeated, Walk;
    var free := |Repeated(counts)|;
    LowCellsEmpty(log, free);
    hide LowCells;
    if Stuck(log) {
      assert StuckState(counts, log, symbols, 0, []);
    } else {
      assert WalkState(counts, log, symbols, 0, 0, []);
    }
  }

  lemma StuckComplete(counts: seq<int>, log: nat, symbols: seq<nat>, position: nat)
    requires ValidCounts(counts, log) && StuckState(counts, log, symbols, position, Repeated(counts))
    ensures position == 0 && symbols[..Pow2(log)] == StuckCells(counts, log)
  {
    hide LowProbability, Repeated, EffectiveSum, Pow2;
    var low, n := LowProbability(counts), Pow2(log);
    forall c | 0 <= c < n
      ensures symbols[c] == StuckCells(counts, log)[c]
    {
      if c >= |Repeated(counts)| {
        assert symbols[n - 1 - (n - 1 - c)] == low[n - 1 - c];
      }
    }
  }

  lemma LowCellsEmpty(log: nat, free: nat)
    ensures LowCells(log, free, 0) == []
  {
  }

  /** `placed` symbols are on the free cells met so far and the walk stands on the next one. */
  ghost predicate WalkState(counts: seq<int>, log: nat, symbols: seq<nat>, position: nat, t: nat, placed: seq<nat>)
  {
    var free := |Repeated(counts)|;
    var order := LowCells(log, free, t);
    && |symbols| == MAX_TABLE_SIZE && Pow2(log) <= MAX_TABLE_SIZE && free <= Pow2(log)
    && t <= Pow2(log) && position == Walk(log, t)
    && (free > 0 ==> position < free)
    && (free == 0 ==> t == 0)
    && |placed| <= free && placed == Repeated(counts)[..|placed|]
    && |order| == |placed|
    && (forall i :: 0 <= i < |order| ==> order[i] < free && symbols[order[i]] == placed[i])
    && |LowProbability(counts)| + free == Pow2(log)
    && (forall i :: 0 <= i < |LowProbability(counts)| ==>
          symbols[Pow2(log) - 1 - i] == LowProbability(counts)[i])
  }

  /** One symbol on the cell the walk stands on, and the steps to the next free cell. */
  method PlaceOne(counts: seq<int>, log: nat, symbols: array<nat>, symbol: nat, highThreshold: nat,
                  position: nat, ghost t: nat, ghost placed: seq<nat>)
    returns (newPosition: nat, ghost newT: nat)
    requires ValidCounts(counts, log) && symbols.Length == MAX_TABLE_SIZE
    requires Placed(counts, log, symbols[..], position, t, placed)
    requires |placed| < |Repeated(counts)| && symbol == Repeated(counts)[|placed|]
    requires highThreshold == |Repeated(counts)| - 1
    modifies symbols
    ensures Placed(counts, log, symbols[..], newPosition, newT, placed + [symbol])
  {
    hide LowProbability, Repeated, LowCells, EffectiveSum, Pow2, SpreadStep, LowBits, Walk, WalkState, StuckState;
    ghost var before := symbols[..];
    PositionInside(counts, log, before, position, t, placed);
    symbols[position] := symbol;
    assert symbols[..] == before[position := symbol];
    newPosition := LowBits(position + SpreadStep(Pow2(log)), log);
    newT := t + 1;
    if Stuck(log) {
      StuckStep(log);
    } else {
      OneStep(counts, log, before, position, t, placed);
    }
    while newPosition > highThreshold
      invariant Stuck(log) ==> newPosition == 0
      invariant !Stuck(log) ==> newT <= Pow2(log) && newPosition == Walk(log, newT)
                                && LowCells(log, |Repeated(counts)|, newT)
                                   == LowCells(log, |Repeated(counts)|, t) + [position]
      invariant symbols[..] == before[position := symbol]
      decreases if Stuck(log) then 0 else Pow2(log) - newT
    {
      WalkStep(log, newT);
      LowCellsStep(log, |Repeated(counts)|, newT);
      StepOdd(log);
      WalkReturns(log);
      newPosition := LowBits(newPosition + SpreadStep(Pow2(log)), log);
      newT := newT + 1;
    }
    if Stuck(log) {
      StuckOn(counts, log, before, position, placed, symbol);
    } else {
      WalkOn(counts, log, before, position, t, newT, placed, symbol);
    }
  }

  lemma PositionInside(counts: seq<int>, log: nat, symbols: seq<nat>, position: nat, t: nat, placed: seq<nat>)
    requires Placed(counts, log, symbols, position, t, placed) && Repeated(counts) != []
    ensures position < |symbols| && (Stuck(log) ==> position == 0)
  {
    hide LowProbability, Repeated, LowCells, Pow2, Walk;
  }

  lemma StuckOn(counts: seq<int>, log: nat, before: seq<nat>, position: nat, placed: seq<nat>, symbol: nat)
    requires StuckState(counts, log, before, position, placed)
    requires |placed| < |Repeated(counts)| && symbol == Repeated(counts)[|placed|] && position < |before|
    ensures StuckState(counts, log, before[position := symbol], 0, placed + [symbol])
  {
    hide LowProbability, Repeated, Pow2;
    var now, rep := placed + [symbol], Repeated(counts);
    assert now == rep[..|now|];
  }

  /** A free cell is met, and the walk has steps left. */
  lemma OneStep(counts: seq<int>, log: nat, symbols: seq<nat>, position: nat, t: nat, placed: seq<nat>)
    requires ValidCounts(counts, log) && !Stuck(log) && WalkState(counts, log, symbols, position, t, placed)
    requires |placed| < |Repeated(counts)|
    ensures t + 1 <= Pow2(log) && position == Walk(log, t)
    ensures Walk(log, t + 1) == LowBits(position + SpreadStep(Pow2(log)), log)
    ensures LowCells(log, |Repeated(counts)|, t + 1) == LowCells(log, |Repeated(counts)|, t) + [position]
  {
    hide LowProbability, Repeated, LowCells, EffectiveSum, Pow2, SpreadStep, LowBits, Walk;
    StepOdd(log);
    FullCycle(log, |Repeated(counts)|);
    LowCellsStep(log, |Repeated(counts)|, t);
    WalkStep(log, t);
  }

  lemma WalkOn(counts: seq<int>, log: nat, before: seq<nat>, position: nat, t: nat, newT: nat, placed: seq<nat>,
               symbol: nat)
    requires ValidCounts(counts, log) && !Stuck(log) && WalkState(counts, log, before, position, t, placed)
    requires |placed| < |Repeated(counts)| && symbol == Repeated(counts)[|placed|] && position < |before|
    requires t < newT <= Pow2(log) && Walk(log, newT) < |Repeated(counts)|
    requires LowCells(log, |Repeated(counts)|, newT) == LowCells(log, |Repeated(counts)|, t) + [position]
    ensures WalkState(counts, log, before[position := symbol], Walk(log, newT), newT, placed + [symbol])
  {
    hide LowProbability, Repeated, LowCells, EffectiveSum, Pow2, SpreadStep, LowBits, Walk;
    var free := |Repeated(counts)|;
    StepOdd(log);
    LowCellsAre(log, free, newT);
    var order := LowCells(log, free, t);
    var now, rep, nowOrder := placed + [symbol], Repeated(counts), order + [position];
    assert now == rep[..|now|];
    forall i | 0 <= i < |order|
      ensures order[i] != position
    {
      assert nowOrder[i] != nowOrder[|order|];
    }
    forall i | 0 <= i < |nowOrder|
      ensures nowOrder[i] < free && before[position := symbol][nowOrder[i]] == now[i]
    {
      if i < |order| {
        assert before[order[i]] == placed[i];
      }
    }
  }

  lemma LowCellsStep(log: nat, free: nat, t: nat)
    ensures LowCells(log, free, t + 1)
         == LowCells(log, free, t) + (if Walk(log, t) < free then [Walk(log, t)] else [])
  {
  }

  lemma WalkStep(log: nat, t: nat)
    ensures Walk(log, t + 1) == LowBits(Walk(log, t) + SpreadStep(Pow2(log)), log)
  {
  }

  lemma WalkComplete(counts: seq<int>, log: nat, symbols: seq<nat>, position: nat, t: nat)
    requires ValidCounts(counts, log) && !Stuck(log)
    requires WalkState(counts, log, symbols, position, t, Repeated(counts))
    ensures position == 0 && symbols[..Pow2(log)] == WalkedCells(counts, log)
  {
    hide LowProbability, Repeated, LowCells, EffectiveSum, Pow2, SpreadStep, Walk;
    var rep, low, n := Repeated(counts), LowProbability(counts), Pow2(log);
    var free := |rep|;
    StepOdd(log);
    FullCycle(log, free);
    WalkReturns(log);
    WalkStart(log);
    LowCellsEmpty(log, free);
    if t < n && free > 0 {
      LowCellsStep(log, free, t);
      LowCellsGrow(log, free, t + 1, n);
    }
    var order := LowCells(log, free, n);
    var cells := WalkedCells(counts, log);
    forall c | 0 <= c < n
      ensures symbols[c] == cells[c]
    {
      if c < free {
        var i := IndexOf(order, c);
        assert symbols[order[i]] == rep[i];
      } else {
        assert symbols[n - 1 - (n - 1 - c)] == low[n - 1 - c];
      }
    }
  }
}
