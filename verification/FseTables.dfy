/** The encode and decode tables built from normalized counts, and the two state machines that
    use them, proved against the abstract table of module `Fse`. */
module FseTables {
  import opened Bits
  import opened BitReader
  import opened BitWriter
  import opened FseSpread
  import opened Fse

  ghost function TansOf(counts: seq<int>, log: nat): (t: Tans)
    requires ValidCounts(counts, log) && (log == 1 || log == 3 ==> FewOthers(counts))
    ensures ValidTans(t) && t.log == log
    ensures forall s: nat :: Count(t, s) == if s < |counts| then CellsOf(counts[s]) else 0
  {
    SpreadGivesCounts(counts, log);
    Tans(log, SpreadCells(counts, log))
  }

  // ---------------------------------------------------------------- the shared checks

  lemma EffectiveSumStep(counts: seq<int>, k: nat)
    requires k < |counts|
    ensures EffectiveSum(counts[..k + 1]) == EffectiveSum(counts[..k]) + CellsOf(counts[k])
  {
    PrefixStep(counts, k);
  }

  lemma EffectiveSumEmpty(counts: seq<int>)
    ensures EffectiveSum(counts[..0]) == 0
  {
  }

  /** The checks at the head of both builders, in their order. */
  method CheckCounts(counts: seq<int>, log: nat) returns (ok: bool)
    ensures ok <==> ValidCounts(counts, log)
  {
    hide EffectiveSum, Pow2;
    if log == 0 || log > MAX_ACCURACY_LOG {
      return false;
    }
    if counts == [] || |counts| > MAX_SYMBOL_COUNT {
      return false;
    }
    var effectiveSum := 0;
    EffectiveSumEmpty(counts);
    for k := 0 to |counts|
      invariant forall i :: 0 <= i < k ==> counts[i] >= -1
      invariant effectiveSum == EffectiveSum(counts[..k])
    {
      if counts[k] < -1 {
        return false;
      }
      EffectiveSumStep(counts, k);
      effectiveSum := effectiveSum + (if counts[k] == -1 then 1 else counts[k]);
    }
    assert counts[..|counts|] == counts;
    return effectiveSum == Pow2(log);
  }

  // ---------------------------------------------------------------- decode table

  datatype DecodeEntry = DecodeEntry(symbol: nat, bitCount: nat, nextStateBase: nat)

  class FseDecodeTable {
    var entries: seq<DecodeEntry>
    var accuracyLog: nat

    constructor ()
      ensures |entries| == MAX_TABLE_SIZE && accuracyLog == 0
    {
      entries := seq(MAX_TABLE_SIZE, _ => DecodeEntry(0, 0, 0));
      accuracyLog := 0;
    }

    /** The first 2^log entries are the decoder's view of the abstract table. */
    ghost predicate Decodes(t: Tans)
      reads this
    {
      && ValidTans(t) && accuracyLog == t.log
      && |entries| == MAX_TABLE_SIZE && |t.cells| <= MAX_TABLE_SIZE
      && forall c :: 0 <= c < |t.cells| ==>
           entries[c] == DecodeEntry(t.cells[c], CellBits(t, c), CellBase(t, c))
    }

    method BuildRle(symbol: nat)
      requires symbol < 256 && |entries| == MAX_TABLE_SIZE
      modifies this
      ensures Decodes(RleTans(symbol))
    {
      accuracyLog := 0;
      entries := entries[0 := DecodeEntry(symbol, 0, 0)];
      RleEntry(symbol);
    }

    /** `build_fse_decode_table`. Succeeds exactly on valid counts; the final position check of
        the walk is part of the body and never fails. */
    method Build(counts: seq<int>, log: nat) returns (ok: bool)
      requires ValidCounts(counts, log) && (log == 1 || log == 3) ==> FewOthers(counts)
      requires |entries| == MAX_TABLE_SIZE
      modifies this
      ensures ok <==> ValidCounts(counts, log)
      ensures ok ==> Decodes(TansOf(counts, log))
      ensures !ok ==> unchanged(this)
    {
      hide EffectiveSum, Pow2, SpreadCells, CellBits, CellBase, HighestBit, Shl;
      ok := CheckCounts(counts, log);
      if !ok {
        return;
      }
      var symbols, position := SpreadSymbols(counts, log);
      if position != 0 {
        return false;
      }
      CellsOfTans(counts, log);
      FillEntries(counts, log, symbols, TansOf(counts, log));
      accuracyLog := log;
      return true;
    }

    /** Cell by cell, each symbol's counter runs from its count upwards. */
    method FillEntries(counts: seq<int>, log: nat, symbols: array<nat>, ghost t: Tans)
      requires ValidCounts(counts, log) && ValidTans(t) && t.log == log && CountsMatch(counts, t)
      requires |t.cells| <= symbols.Length && symbols[..|t.cells|] == t.cells
      requires |t.cells| <= |entries| == MAX_TABLE_SIZE
      requires forall c :: 0 <= c < |t.cells| ==> t.cells[c] < |counts|
      modifies this`entries
      ensures |entries| == MAX_TABLE_SIZE
      ensures forall c :: 0 <= c < |t.cells| ==>
                entries[c] == DecodeEntry(t.cells[c], CellBits(t, c), CellBase(t, c))
    {
      hide EffectiveSum, Pow2, CellBits, CellBase, HighestBit, Shl, SubState, Count, Seen;
      var tableSize := Pow2(log);
      var symbolNextState := InitialNextStates(counts, t);
      NoneSeen(t);
      assert forall c :: 0 <= c < tableSize ==> symbols[c] == symbols[..tableSize][c];
      for cell := 0 to tableSize
        modifies this`entries, symbolNextState
        invariant |entries| == MAX_TABLE_SIZE
        invariant forall s :: 0 <= s < |counts| ==>
                    symbolNextState[s] == Count(t, s) + Seen(t, cell, s)
        invariant forall c :: 0 <= c < cell ==>
                    entries[c] == DecodeEntry(t.cells[c], CellBits(t, c), CellBase(t, c))
      {
        var symbol := symbols[cell];
        SeenStep(t, cell);
        CellEntry(t, cell);
        var nextState := symbolNextState[symbol];
        symbolNextState[symbol] := symbolNextState[symbol] + 1;
        var bitCount := log - HighestBit(nextState);
        CellBaseBound(t, cell);
        var nextStateBase := Shl(nextState, bitCount) - tableSize;
        entries := entries[cell := DecodeEntry(symbol, bitCount, nextStateBase)];
      }
    }
  }

  method InitialNextStates(counts: seq<int>, ghost t: Tans) returns (symbolNextState: array<nat>)
    requires |counts| <= MAX_SYMBOL_COUNT && CountsMatch(counts, t)
    ensures fresh(symbolNextState) && symbolNextState.Length == MAX_SYMBOL_COUNT
    ensures forall s :: 0 <= s < |counts| ==> symbolNextState[s] == Count(t, s)
  {
    symbolNextState := new nat[MAX_SYMBOL_COUNT](i => 0);
    for symbol := 0 to |counts|
      invariant forall s :: 0 <= s < symbol ==> symbolNextState[s] == Count(t, s)
    {
      symbolNextState[symbol] := if counts[symbol] == -1 then 1 else counts[symbol];
    }
  }

  method CumulativeCounts(counts: seq<int>) returns (cumulative: array<nat>)
    requires |counts| <= MAX_SYMBOL_COUNT && forall i :: 0 <= i < |counts| ==> counts[i] >= -1
    ensures fresh(cumulative) && cumulative.Length == MAX_SYMBOL_COUNT
    ensures forall s :: 0 <= s < |counts| ==> cumulative[s] == EffectiveSum(counts[..s])
  {
    hide EffectiveSum;
    cumulative := new nat[MAX_SYMBOL_COUNT](i => 0);
    var runningTotal := 0;
    EffectiveSumEmpty(counts);
    for symbol := 0 to |counts|
      invariant runningTotal == EffectiveSum(counts[..symbol])
      invariant forall s :: 0 <= s < symbol ==> cumulative[s] == EffectiveSum(counts[..s])
    {
      cumulative[symbol] := runningTotal;
      EffectiveSumStep(counts, symbol);
      runningTotal := runningTotal + (if counts[symbol] == -1 then 1 else Max(counts[symbol], 0));
    }
  }

  lemma RleEntry(symbol: nat)
    requires symbol < 256
    ensures ValidTans(RleTans(symbol)) && |RleTans(symbol).cells| == 1
    ensures CellBits(RleTans(symbol), 0) == 0 && CellBase(RleTans(symbol), 0) == 0
  {
    var t := RleTans(symbol);
    assert t.cells[..0] == [];
    assert SubState(t, 0) == 1;
  }

  lemma CellEntry(t: Tans, c: nat)
    requires ValidTans(t) && c < |t.cells|
    ensures HighestBit(SubState(t, c)) <= t.log
    ensures SubState(t, c) == Count(t, t.cells[c]) + Seen(t, c, t.cells[c])
    ensures CellBits(t, c) == t.log - HighestBit(SubState(t, c))
    ensures CellBase(t, c) == Shl(SubState(t, c), CellBits(t, c)) - Pow2(t.log)
  {
    SubStateBit(t, c);
  }

  // ---------------------------------------------------------------- encode table

  datatype Transform = Transform(bitsDelta: nat, findStateDelta: int)

  const TWO_TO_32 := 0x1_0000_0000

  /** `wrapping_sub` and `wrapping_add` on 32 bits. */
  function WrapSub32(a: nat, b: nat): nat {
    (a - b) % TWO_TO_32
  }

  function WrapAdd32(a: nat, b: nat): nat {
    (a + b) % TWO_TO_32
  }

  /** `highest_bit`, which is 0 for 0. */
  function HighestBitOrZero(v: nat): nat {
    if v == 0 then 0 else HighestBit(v)
  }

  /** The state from which a symbol with `n` cells costs one bit more. */
  lemma MaxBitsOut(n: nat, log: nat)
    requires 0 < n <= Pow2(log) && log <= MAX_LOG
    ensures HighestBitOrZero(n - 1) <= log
    ensures var m := log - HighestBitOrZero(n - 1);
            && Pow2(log) <= Shl(n, m) <= 2 * Pow2(log)
            && (n > 1 || log == 0 ==> Pow2(log) < Shl(n, m) || log == 0)
            && (n > 1 ==> m > 0)
  {
    hide Shl, HighestBit, Pow2;
    if n == 1 {
      ShlPow2(0, log);
      Pow2Zero();
      assert HighestBitOrZero(0) == 0;
    } else {
      var h := HighestBit(n - 1);
      if h >= log {
        Pow2Mono(log, h);
      }
      var m := log - h;
      ShlPow2(h, m);
      ShlMono(Pow2(h), n, m);
      ShlPow2(h + 1, m);
      ShlMono(n, Pow2(h + 1), m);
      Pow2Step(log);
    }
  }

  /** `(m << 16) - (n << m)`: its high half, once a state is added, is the number of bits out. */
  ghost predicate IsBitsDelta(bitsDelta: nat, n: nat, log: nat)
    requires 0 < n <= Pow2(log) && log <= MAX_LOG
  {
    MaxBitsOut(n, log);
    var m := log - HighestBitOrZero(n - 1);
    bitsDelta == 65536 * m - Shl(n, m)
  }

  lemma BitsDeltaWorks(bitsDelta: nat, n: nat, log: nat, state: nat)
    requires 0 < log <= MAX_LOG && 0 < n <= Pow2(log) && IsBitsDelta(bitsDelta, n, log)
    requires Pow2(log) <= state < 2 * Pow2(log)
    ensures WrapAdd32(state, bitsDelta) / 65536 == BitsOut(state, n) <= log
  {
    hide Shl, Shr, Pow2, BitsOut, HighestBitOrZero;
    MaxBitsOut(n, log);
    TableSizeBound(log);
    var m := log - HighestBitOrZero(n - 1);
    if state >= Shl(n, m) {
      BitsOutAt(state, n, m, log);
    } else {
      assert m > 0;
      BitsOutBelow(state, n, m, log);
    }
    HighHalf(state, m, Shl(n, m));
  }

  /** Adding a state carries into the high half exactly from the edge on. */
  lemma HighHalf(state: nat, m: nat, edge: nat)
    requires m <= 9 && edge <= 1024 && state < 1024 && (m > 0 || edge <= state) && edge <= 65536 * m + state
    requires edge <= 65536 * m
    ensures WrapAdd32(state, 65536 * m - edge) / 65536 == if state >= edge then m else m - 1
  {
  }

  /** The first state of a symbol: its first cell, as sub-state n. */
  lemma FirstStateShift(bitsDelta: nat, n: nat, log: nat)
    requires 0 < log <= MAX_LOG && 0 < n <= Pow2(log) && IsBitsDelta(bitsDelta, n, log)
    ensures var bitsOut := WrapAdd32(bitsDelta, 32768) / 65536;
            Shr(WrapSub32(65536 * bitsOut, bitsDelta), bitsOut) == n
  {
    hide *;
    SmallLog(log);
    MaxBitsOut(n, log);
    TableSizeBound(log);
    DeltaIs(bitsDelta, n, log);
    var m := log - HighestBitOrZero(n - 1);
    DeltaHalves(m, Shl(n, m));
    ShrShl(n, m);
  }

  lemma SmallLog(log: nat)
    requires log <= MAX_LOG
    ensures log <= 9 && log <= MAX_ACCURACY_LOG && MAX_TABLE_SIZE == 512
  {
  }

  lemma DeltaIs(bitsDelta: nat, n: nat, log: nat)
    requires 0 < n <= Pow2(log) && log <= MAX_LOG && IsBitsDelta(bitsDelta, n, log)
    ensures HighestBitOrZero(n - 1) <= log
    ensures var m := log - HighestBitOrZero(n - 1); bitsDelta == 65536 * m - Shl(n, m)
  {
    hide Shl, Pow2, HighestBitOrZero;
  }

  /** Rounding up finds the high half, and subtracting from it the low half. */
  lemma DeltaHalves(m: nat, low: nat)
    requires 0 < low <= 1024 && m <= 9 && low <= 65536 * m + 32767
    ensures m > 0 ==> WrapAdd32(65536 * m - low, 32768) / 65536 == m && WrapSub32(65536 * m, 65536 * m - low) == low
  {
  }

  lemma BitsOutAt(state: nat, n: nat, m: nat, log: nat)
    requires 0 < n <= Pow2(log) <= state < 2 * Pow2(log) && m <= log
    requires Shl(n, m) <= state && Pow2(log) <= Shl(n, m)
    ensures BitsOut(state, n) == m
  {
    hide Shl, Shr, Pow2, BitsOut;
    SplitBits(state, m);
    if Shr(state, m) < n {
      ShlMono(Shr(state, m), n, m);
    }
    if Shr(state, m) >= 2 * n {
      ShlMono(2 * n, Shr(state, m), m);
      ShlDouble(n, m);
    }
    BitsOutUnique(state, n, m);
  }

  lemma BitsOutBelow(state: nat, n: nat, m: nat, log: nat)
    requires 0 < n <= Pow2(log) <= state < 2 * Pow2(log) && 0 < m <= log
    requires state < Shl(n, m) <= 2 * Pow2(log)
    ensures BitsOut(state, n) == m - 1
  {
    hide Shr, Pow2, BitsOut;
    var k := m - 1;
    assert Shl(n, m) == 2 * Shl(n, k);
    hide Shl;
    SplitBits(state, k);
    if Shr(state, k) < n {
      ShlMono(Shr(state, k), n, k);
    }
    if Shr(state, k) >= 2 * n {
      ShlMono(2 * n, Shr(state, k), k);
      ShlDouble(n, k);
    }
    BitsOutUnique(state, n, k);
  }

  class FseEncodeTable {
    var nextState: seq<nat>
    var transforms: seq<Transform>
    var normalizedCounts: seq<int>
    var symbolCount: nat
    var accuracyLog: nat

    constructor ()
      ensures Sized() && accuracyLog == 0 && symbolCount == 0
      ensures forall i :: 0 <= i < MAX_SYMBOL_COUNT ==> normalizedCounts[i] == 0
    {
      nextState := seq(MAX_TABLE_SIZE, _ => 0);
      transforms := seq(MAX_SYMBOL_COUNT, _ => Transform(0, 0));
      normalizedCounts := seq(MAX_SYMBOL_COUNT, _ => 0);
      symbolCount, accuracyLog := 0, 0;
    }

    predicate Sized()
      reads this
    {
      |nextState| == MAX_TABLE_SIZE && |transforms| == MAX_SYMBOL_COUNT && |normalizedCounts| == MAX_SYMBOL_COUNT
    }

    /** Looking up a sub-state, shifted by the symbol's delta, gives the cell that holds it. */
    ghost predicate FindsCells(t: Tans)
      reads this
      requires ValidTans(t) && Sized()
    {
      forall c :: 0 <= c < |t.cells| ==>
        var index := SubState(t, c) + transforms[t.cells[c]].findStateDelta;
        0 <= index < MAX_TABLE_SIZE && nextState[index] == Pow2(t.log) + c
    }

    ghost predicate CountsBits(t: Tans)
      reads this
      requires ValidTans(t) && Sized()
    {
      forall s :: 0 <= s < MAX_SYMBOL_COUNT && Count(t, s) > 0 ==>
        Count(t, s) <= Pow2(t.log) && IsBitsDelta(transforms[s].bitsDelta, Count(t, s), t.log)
    }

    /** A symbol without cells looks like one bit more than the whole state. */
    ghost predicate MarksAbsent(t: Tans)
      reads this
    {
      && Sized() && symbolCount <= MAX_SYMBOL_COUNT
      && forall s ::
           0 <= s < symbolCount && Count(t, s) == 0 ==> transforms[s].bitsDelta == 65536 * (t.log + 1) - Pow2(t.log)
    }

    /** A table of one cell keeps state 0 throughout. */
    ghost predicate Encodes(t: Tans)
      reads this
    {
      && ValidTans(t) && Sized() && accuracyLog == t.log
      && if t.log == 0 then |t.cells| == 1 && nextState[0] == 0 && transforms[t.cells[0]] == Transform(0, 0)
         else FindsCells(t) && CountsBits(t)
    }

    /** `build_rle_encode_table`, over a fresh table. */
    method BuildRle(symbol: nat)
      requires symbol < MAX_SYMBOL_COUNT
      modifies this
      ensures Encodes(RleTans(symbol)) && symbolCount == symbol + 1
      ensures normalizedCounts == seq(MAX_SYMBOL_COUNT, _ => 0)[symbol := 1]
    {
      nextState := seq(MAX_TABLE_SIZE, _ => 0);
      transforms := seq(MAX_SYMBOL_COUNT, _ => Transform(0, 0));
      normalizedCounts := seq(MAX_SYMBOL_COUNT, _ => 0);
      accuracyLog := 0;
      symbolCount := symbol + 1;
      normalizedCounts := normalizedCounts[symbol := 1];
      transforms := transforms[symbol := Transform(0, 0)];
      nextState := nextState[0 := 0];
      RleEntry(symbol);
    }

    /** `build_fse_encode_table`. */
    method Build(counts: seq<int>, log: nat) returns (ok: bool)
      requires ValidCounts(counts, log) && (log == 1 || log == 3) ==> FewOthers(counts)
      requires Sized()
      modifies this
      ensures ok <==> ValidCounts(counts, log)
      ensures ok ==> Encodes(TansOf(counts, log)) && symbolCount == |counts|
                     && |normalizedCounts| == MAX_SYMBOL_COUNT && normalizedCounts[..|counts|] == counts
                     && forall i :: |counts| <= i < MAX_SYMBOL_COUNT ==> normalizedCounts[i] == 0
      ensures ok ==> MarksAbsent(TansOf(counts, log))
      ensures !ok ==> unchanged(this)
    {
      hide EffectiveSum, Pow2, SpreadCells, TansOf, IsBitsDelta, SubState, Count, CellsOf, Slot;
      ok := CheckCounts(counts, log);
      if !ok {
        return;
      }
      var symbols, position := SpreadSymbols(counts, log);
      if position != 0 {
        return false;
      }
      ghost var t := TansOf(counts, log);
      CellsOfTans(counts, log);
      FillNextState(counts, log, symbols, t);
      FillTransforms(counts, log, t);
      SlotsToCells(counts, t, nextState, transforms);
      AbsentCounts(counts, t);
      normalizedCounts := counts + seq(MAX_SYMBOL_COUNT - |counts|, _ => 0);
      symbolCount := |counts|;
      accuracyLog := log;
      return true;
    }

    method FillNextState(counts: seq<int>, log: nat, symbols: array<nat>, ghost t: Tans)
      requires ValidCounts(counts, log) && (log == 1 || log == 3 ==> FewOthers(counts)) && Sized()
      requires CountsMatch(counts, t)
      requires |t.cells| == Pow2(log) <= symbols.Length && symbols[..Pow2(log)] == t.cells
      requires Pow2(log) <= MAX_TABLE_SIZE
      requires forall c :: 0 <= c < |t.cells| ==> t.cells[c] < |counts|
      modifies this`nextState
      ensures Sized()
      ensures forall c :: 0 <= c < |t.cells| ==> Slot(counts, t, c) < MAX_TABLE_SIZE
      ensures forall c :: 0 <= c < |t.cells| ==> nextState[Slot(counts, t, c)] == Pow2(log) + c
    {
      hide EffectiveSum, Pow2, SpreadCells, TansOf, Slot, Count, Seen;
      var tableSize := Pow2(log);
      var cumulative := CumulativeCounts(counts);
      NoneSeen(t);
      assert forall c :: 0 <= c < tableSize ==> symbols[c] == symbols[..tableSize][c];
      for cell := 0 to tableSize
        modifies this`nextState, cumulative
        invariant Sized()
        invariant forall s :: 0 <= s < |counts| ==>
                    cumulative[s] == EffectiveSum(counts[..s]) + Seen(t, cell, s)
        invariant forall c :: 0 <= c < cell ==> Slot(counts, t, c) < MAX_TABLE_SIZE
        invariant forall c :: 0 <= c < cell ==> nextState[Slot(counts, t, c)] == tableSize + c
      {
        var symbol := symbols[cell];
        SeenStep(t, cell);
        SlotFresh(counts, t, cell);
        var slot := cumulative[symbol];
        nextState := nextState[slot := tableSize + cell];
        cumulative[symbol] := slot + 1;
      }
    }

    method FillTransforms(counts: seq<int>, log: nat, ghost t: Tans)
      requires ValidCounts(counts, log) && (log == 1 || log == 3 ==> FewOthers(counts)) && Sized()
      requires CountsMatch(counts, t) && |t.cells| == Pow2(log)
      modifies this`transforms
      ensures Sized()
      ensures forall s :: 0 <= s < |counts| && Count(t, s) > 0 ==>
                && Count(t, s) <= Pow2(log)
                && transforms[s].findStateDelta == EffectiveSum(counts[..s]) - Count(t, s)
                && IsBitsDelta(transforms[s].bitsDelta, Count(t, s), log)
      ensures forall s :: 0 <= s < |counts| && counts[s] == 0 ==>
                transforms[s].bitsDelta == 65536 * (log + 1) - Pow2(log)
    {
      hide EffectiveSum, Pow2, SpreadCells, TansOf, IsBitsDelta, Shl;
      TableSizeBound(log);
      var runningTotal := 0;
      EffectiveSumEmpty(counts);
      for symbol := 0 to |counts|
        invariant Sized()
        invariant runningTotal == EffectiveSum(counts[..symbol])
        invariant forall s :: 0 <= s < symbol && Count(t, s) > 0 ==>
                    && Count(t, s) <= Pow2(log)
                    && transforms[s].findStateDelta == EffectiveSum(counts[..s]) - Count(t, s)
                    && IsBitsDelta(transforms[s].bitsDelta, Count(t, s), log)
        invariant forall s :: 0 <= s < symbol && counts[s] == 0 ==>
                    transforms[s].bitsDelta == 65536 * (log + 1) - Pow2(log)
      {
        EffectiveSumStep(counts, symbol);
        CountBound(t, symbol);
        var count := counts[symbol];
        if count == 0 {
          transforms := transforms[symbol := Transform(WrapSub32(65536 * (log + 1), Pow2(log)), 0)];
        } else if count == -1 || count == 1 {
          SingleCellDelta(log);
          transforms := transforms[symbol := Transform(WrapSub32(65536 * log, Pow2(log)), runningTotal - 1)];
          runningTotal := runningTotal + 1;
        } else {
          MaxBitsOut(count, log);
          var maxBitsOut := log - HighestBitOrZero(count - 1);
          ManyCellsDelta(count, log);
          var bitsDelta := WrapSub32(65536 * maxBitsOut, Shl(count, maxBitsOut));
          transforms := transforms[symbol := Transform(bitsDelta, runningTotal - count)];
          runningTotal := runningTotal + count;
        }
      }
    }
  }

  lemma SingleCellDelta(log: nat)
    requires 0 < log <= MAX_LOG
    ensures IsBitsDelta(WrapSub32(65536 * log, Pow2(log)), 1, log)
  {
    hide Shl, Pow2;
    TableSizeBound(log);
    ShlPow2(0, log);
    Pow2Zero();
  }

  lemma ManyCellsDelta(n: nat, log: nat)
    requires 0 < log <= MAX_LOG && 1 < n <= Pow2(log)
    ensures HighestBitOrZero(n - 1) <= log
    ensures var m := log - HighestBitOrZero(n - 1);
            IsBitsDelta(WrapSub32(65536 * m, Shl(n, m)), n, log)
  {
    hide Shl, Pow2, HighestBitOrZero;
    TableSizeBound(log);
    MaxBitsOut(n, log);
  }

  lemma AbsentCounts(counts: seq<int>, t: Tans)
    requires CountsMatch(counts, t)
    ensures forall s: nat :: s < |counts| && Count(t, s) == 0 ==> counts[s] == 0
  {
  }

  lemma CellsOfTans(counts: seq<int>, log: nat)
    requires ValidCounts(counts, log) && (log == 1 || log == 3 ==> FewOthers(counts))
    ensures TansOf(counts, log).cells == SpreadCells(counts, log)
    ensures forall c :: 0 <= c < Pow2(log) ==> TansOf(counts, log).cells[c] < |counts|
    ensures CountsMatch(counts, TansOf(counts, log))
  {
    SpreadGivesCounts(counts, log);
  }

  // ---------------------------------------------------------------- slots of `next_state`

  /** Symbols own consecutive runs of `next_state`, one slot per cell in cell order. */
  ghost function Slot(counts: seq<int>, t: Tans, c: nat): nat
    requires c < |t.cells|
  {
    (if t.cells[c] <= |counts| then EffectiveSum(counts[..t.cells[c]]) else 0) + Rank(t, c)
  }

  ghost predicate CountsMatch(counts: seq<int>, t: Tans) {
    && (forall i :: 0 <= i < |counts| ==> counts[i] >= -1)
    && forall s: nat :: Count(t, s) == if s < |counts| then CellsOf(counts[s]) else 0
  }

  lemma SlotBound(counts: seq<int>, t: Tans, c: nat)
    requires CountsMatch(counts, t) && c < |t.cells| && t.cells[c] < |counts|
    ensures Slot(counts, t, c) < EffectiveSum(counts)
  {
    EffectiveSumStep(counts, t.cells[c]);
    EffectiveSumBound(counts, t.cells[c] + 1);
  }

  lemma SlotsDiffer(counts: seq<int>, t: Tans, c: nat, d: nat)
    requires CountsMatch(counts, t) && c < |t.cells| && d < |t.cells| && c != d
    requires t.cells[c] < |counts| && t.cells[d] < |counts|
    ensures Slot(counts, t, c) != Slot(counts, t, d)
  {
    hide EffectiveSum;
    if t.cells[c] == t.cells[d] {
      if c < d { RankGrows(t, c, d); } else { RankGrows(t, d, c); }
    } else if t.cells[c] < t.cells[d] {
      SlotsOrdered(counts, t, c, d);
    } else {
      SlotsOrdered(counts, t, d, c);
    }
  }

  /** The next cell's slot is where its symbol's counter stands, and no earlier cell has it. */
  lemma SlotFresh(counts: seq<int>, t: Tans, c: nat)
    requires CountsMatch(counts, t) && c < |t.cells|
    requires forall d :: 0 <= d < |t.cells| ==> t.cells[d] < |counts|
    ensures Slot(counts, t, c) == EffectiveSum(counts[..t.cells[c]]) + Seen(t, c, t.cells[c])
    ensures Slot(counts, t, c) < EffectiveSum(counts)
    ensures forall d :: 0 <= d < c ==> Slot(counts, t, d) != Slot(counts, t, c)
  {
    hide EffectiveSum;
    SlotBound(counts, t, c);
    forall d | 0 <= d < c
      ensures Slot(counts, t, d) != Slot(counts, t, c)
    {
      SlotsDiffer(counts, t, d, c);
    }
  }

  lemma SlotsOrdered(counts: seq<int>, t: Tans, c: nat, d: nat)
    requires CountsMatch(counts, t) && c < |t.cells| && d < |t.cells|
    requires t.cells[c] < t.cells[d] < |counts|
    ensures Slot(counts, t, c) < Slot(counts, t, d)
  {
    hide EffectiveSum;
    var a, b := t.cells[c], t.cells[d];
    EffectiveSumStep(counts, a);
    EffectiveSumBound(counts[..b], a + 1);
    assert counts[..b][..a + 1] == counts[..a + 1];
  }

  lemma SlotsToCells(counts: seq<int>, t: Tans, nextState: seq<nat>, transforms: seq<Transform>)
    requires ValidTans(t) && CountsMatch(counts, t) && 0 < t.log
    requires |nextState| == MAX_TABLE_SIZE && |transforms| == MAX_SYMBOL_COUNT && |counts| <= MAX_SYMBOL_COUNT
    requires forall c :: 0 <= c < |t.cells| ==> t.cells[c] < |counts|
    requires forall c :: 0 <= c < |t.cells| ==> Slot(counts, t, c) < MAX_TABLE_SIZE
    requires forall c :: 0 <= c < |t.cells| ==> nextState[Slot(counts, t, c)] == Pow2(t.log) + c
    requires forall s :: 0 <= s < |counts| && Count(t, s) > 0 ==>
               transforms[s].findStateDelta == EffectiveSum(counts[..s]) - Count(t, s)
    ensures forall c :: 0 <= c < |t.cells| ==>
              var index := SubState(t, c) + transforms[t.cells[c]].findStateDelta;
              0 <= index < MAX_TABLE_SIZE && nextState[index] == Pow2(t.log) + c
  {
    hide EffectiveSum, Pow2;
    forall c | 0 <= c < |t.cells|
      ensures var index := SubState(t, c) + transforms[t.cells[c]].findStateDelta;
              0 <= index < MAX_TABLE_SIZE && nextState[index] == Pow2(t.log) + c
    {
      assert SubState(t, c) == Count(t, t.cells[c]) + Rank(t, c);
      assert SubState(t, c) + transforms[t.cells[c]].findStateDelta == Slot(counts, t, c);
    }
  }

  // ---------------------------------------------------------------- the state machines

  lemma StateBits(t: Tans, c: nat)
    requires ValidTans(t) && c < |t.cells|
    ensures ToBits(Pow2(t.log) + c, t.log) == ToBits(c, t.log)
  {
    hide ToBits, Shl, LowBits;
    ShlPow2(0, t.log);
    Pow2Zero();
    SplitUnique(c, 1, t.log);
    ToBitsMasked(Pow2(t.log) + c, t.log);
    LowBitsId(c, t.log);
    ToBitsMasked(c, t.log);
  }

  lemma OneCell(t: Tans, c: nat, s: nat)
    requires ValidTans(t) && t.log == 0 && c < |t.cells| && Count(t, s) > 0
    ensures c == 0 && |t.cells| == 1 && t.cells[0] == s
    ensures EncodeBits(t, c, s) == 0 && EncodeNext(t, c, s) == 0 && FirstCell(t, s) == 0
  {
    CountBound(t, s);
    Pow2Zero();
  }

  class FseEncodeState {
    var state: nat

    /** The state stands on cell `c`. */
    ghost predicate At(t: Tans, c: nat)
      reads this
    {
      c < |t.cells| && state == if t.log == 0 then 0 else Pow2(t.log) + c
    }

    constructor (table: FseEncodeTable, firstSymbol: nat, ghost t: Tans)
      requires table.Encodes(t) && firstSymbol < MAX_SYMBOL_COUNT && Count(t, firstSymbol) > 0
      ensures At(t, FirstCell(t, firstSymbol))
    {
      hide Pow2, SubState, FirstCell, Shr, IsBitsDelta, Count;
      var transform := table.transforms[firstSymbol];
      var bitsOut := WrapAdd32(transform.bitsDelta, 32768) / 65536;
      var shifted := WrapSub32(65536 * bitsOut, transform.bitsDelta);
      var index := Shr(shifted, bitsOut) + transform.findStateDelta;
      if t.log == 0 {
        OneCell(t, 0, firstSymbol);
        ShrNothing(0);
      } else {
        FirstStateShift(transform.bitsDelta, Count(t, firstSymbol), t.log);
        FirstCellState(t, firstSymbol);
      }
      state := table.nextState[index];
    }

    /** Index arithmetic shared by both encoding methods. */
    lemma StepIndex(table: FseEncodeTable, symbol: nat, t: Tans, c: nat)
      requires table.Encodes(t) && symbol < MAX_SYMBOL_COUNT && Count(t, symbol) > 0 && At(t, c)
      ensures var transform := table.transforms[symbol];
              var bitsOut := WrapAdd32(state, transform.bitsDelta) / 65536;
              var index := Shr(state, bitsOut) + transform.findStateDelta;
              && bitsOut == EncodeBits(t, c, symbol) <= MAX_LOG
              && 0 <= index < MAX_TABLE_SIZE
              && table.nextState[index] == (if t.log == 0 then 0 else Pow2(t.log) + EncodeNext(t, c, symbol))
    {
      hide Pow2, SubState, BitsOut, Shr, IsBitsDelta, Count;
      if t.log == 0 {
        OneCell(t, c, symbol);
        ShrNothing(0);
      } else {
        var transform := table.transforms[symbol];
        BitsDeltaWorks(transform.bitsDelta, Count(t, symbol), t.log, state);
        NextCellState(t, c, symbol);
      }
    }

    /** Fails exactly when a flush is due and the pending whole bytes do not fit. */
    method EncodeSymbol(writer: BackwardBitWriter, table: FseEncodeTable, symbol: nat, ghost t: Tans, ghost c: nat)
      returns (ok: bool)
      requires writer.Valid() && writer.bitWriter.Clean()
      requires table.Encodes(t) && symbol < MAX_SYMBOL_COUNT && Count(t, symbol) > 0 && At(t, c)
      modifies this, writer.bitWriter, writer.bitWriter.output
      ensures ok <==> || EncodeBits(t, c, symbol) == 0
                      || old(writer.bitWriter.bitsInContainer) + EncodeBits(t, c, symbol) <= 64
                      || old(writer.bitWriter.position + writer.bitWriter.bitsInContainer / 8)
                         <= writer.bitWriter.output.Length
      ensures writer.Valid() && writer.bitWriter.Clean()
      ensures ok ==> && At(t, EncodeNext(t, c, symbol))
                     && writer.bitWriter.Contents()
                        == EncodeStep(t, c, symbol, old(writer.bitWriter.Contents())).1
      ensures !ok ==> unchanged(this) && unchanged(writer.bitWriter) && unchanged(writer.bitWriter.output)
    {
      hide Pow2, SubState, BitsOut, Shr, IsBitsDelta, EncodeBits, EncodeNext, Count, BytesToBits, ToBits;
      StepIndex(table, symbol, t, c);
      var transform := table.transforms[symbol];
      var bitsOut := WrapAdd32(state, transform.bitsDelta) / 65536;
      ok := writer.bitWriter.AddBits(state, bitsOut);
      if !ok {
        return;
      }
      ZeroBitsEqual(state, t, c, symbol);
      var index := Shr(state, bitsOut) + transform.findStateDelta;
      state := table.nextState[index];
    }

    /** Within the budget the contents grow by the step's bits; the container word is known in any
        case. */
    method EncodeSymbolWithoutFlush(writer: BackwardBitWriter, table: FseEncodeTable, symbol: nat,
                                    ghost t: Tans, ghost c: nat)
      requires writer.Valid()
      requires table.Encodes(t) && symbol < MAX_SYMBOL_COUNT && Count(t, symbol) > 0 && At(t, c)
      modifies this, writer.bitWriter
      ensures writer.Valid() && writer.bitWriter.hasOverflowed == old(writer.bitWriter.hasOverflowed)
      ensures At(t, EncodeNext(t, c, symbol))
      ensures writer.bitWriter.position == old(writer.bitWriter.position)
      ensures writer.bitWriter.bitsInContainer
           == old(writer.bitWriter.bitsInContainer) + EncodeBits(t, c, symbol)
      ensures writer.bitWriter.container
           == AddedWord(old(writer.bitWriter.container), old(writer.bitWriter.bitsInContainer), Pow2(t.log) + c,
                        EncodeBits(t, c, symbol))
      ensures writer.bitWriter.withinBudget <==>
                old(writer.bitWriter.withinBudget)
                && (|| writer.bitWriter.hasOverflowed
                    || old(writer.bitWriter.bitsInContainer) + EncodeBits(t, c, symbol) <= 64)
      ensures (&& old(writer.bitWriter.Clean())
               && old(writer.bitWriter.bitsInContainer) + EncodeBits(t, c, symbol) <= 64) ==>
                && writer.bitWriter.Clean()
                && writer.bitWriter.Contents() == EncodeStep(t, c, symbol, old(writer.bitWriter.Contents())).1
    {
      hide Pow2, SubState, BitsOut, Shr, IsBitsDelta, EncodeBits, EncodeNext, Count, BytesToBits, ToBits, AddedWord;
      StepIndex(table, symbol, t, c);
      var transform := table.transforms[symbol];
      var bitsOut := WrapAdd32(state, transform.bitsDelta) / 65536;
      ZeroBitsEqual(state, t, c, symbol);
      SameField(writer.bitWriter.container, writer.bitWriter.bitsInContainer, state, Pow2(t.log) + c, bitsOut);
      writer.bitWriter.AddBitsWithoutFlush(state, bitsOut);
      var index := Shr(state, bitsOut) + transform.findStateDelta;
      state := table.nextState[index];
    }

    /** The final state; fails exactly when a flush is due and the pending whole bytes do not fit. */
    method Flush(writer: BackwardBitWriter, table: FseEncodeTable, ghost t: Tans, ghost c: nat) returns (ok: bool)
      requires writer.Valid() && writer.bitWriter.Flushable() && table.Encodes(t) && At(t, c)
      modifies writer.bitWriter, writer.bitWriter.output
      ensures writer.Valid() && writer.bitWriter.hasOverflowed == old(writer.bitWriter.hasOverflowed)
      ensures writer.bitWriter.withinBudget == old(writer.bitWriter.withinBudget)
      ensures ok <==> || t.log == 0 || old(writer.bitWriter.bitsInContainer) + t.log <= 64
                      || old(writer.bitWriter.position + writer.bitWriter.bitsInContainer / 8)
                         <= writer.bitWriter.output.Length
      ensures ok && old(writer.bitWriter.Clean()) ==>
                && writer.bitWriter.Clean()
                && writer.bitWriter.Contents() == FlushState(t, c, old(writer.bitWriter.Contents()))
      ensures ok && (t.log == 0 || old(writer.bitWriter.bitsInContainer) + t.log <= 64) ==>
                writer.bitWriter.position == old(writer.bitWriter.position)
                && writer.bitWriter.bitsInContainer == old(writer.bitWriter.bitsInContainer) + t.log
      ensures ok ==> writer.bitWriter.Flushable()
      ensures !ok ==> unchanged(writer.bitWriter) && unchanged(writer.bitWriter.output)
    {
      hide Pow2, ToBits, BytesToBits, SubState, Count, IsBitsDelta;
      ok := writer.bitWriter.AddBits(state, table.accuracyLog);
      if t.log == 0 {
        NoBitsAtAll(state, c);
      } else {
        StateBits(t, c);
      }
    }
  }

  /** Only the low bits of a value reach the container. */
  lemma SameField(word: nat, used: nat, a: nat, b: nat, count: nat)
    requires word < Pow2(64) && ToBits(a, count) == ToBits(b, count)
    ensures AddedWord(word, used, a, count) == AddedWord(word, used, b, count)
  {
    hide Pow2, Or, Shl64, LowBits, ToBits;
    FromToBits(a, count);
    FromToBits(b, count);
  }

  lemma NoBitsAtAll(a: nat, b: nat)
    ensures ToBits(a, 0) == ToBits(b, 0)
  {
  }

  lemma ZeroBitsEqual(state: nat, t: Tans, c: nat, s: nat)
    requires ValidTans(t) && c < |t.cells| && Count(t, s) > 0
    requires state == if t.log == 0 then 0 else Pow2(t.log) + c
    ensures ToBits(state, EncodeBits(t, c, s)) == ToBits(Pow2(t.log) + c, EncodeBits(t, c, s))
  {
    if t.log == 0 {
      OneCell(t, c, s);
    }
  }

  lemma FirstCellState(t: Tans, s: nat)
    requires ValidTans(t) && Count(t, s) > 0
    ensures SubState(t, FirstCell(t, s)) == Count(t, s)
  {
  }

  lemma NextCellState(t: Tans, c: nat, s: nat)
    requires ValidTans(t) && c < |t.cells| && Count(t, s) > 0
    ensures 0 < Count(t, s) <= Pow2(t.log)
    ensures EncodeBits(t, c, s) == BitsOut(Pow2(t.log) + c, Count(t, s))
    ensures SubState(t, EncodeNext(t, c, s)) == Shr(Pow2(t.log) + c, EncodeBits(t, c, s))
  {
    CountBound(t, s);
  }

  class FseDecodeState {
    var state: nat

    constructor (reader: BackwardBitReader, table: FseDecodeTable, ghost t: Tans)
      requires reader.Valid() && table.Decodes(t)
      modifies reader
      ensures reader.Valid() && state < |t.cells|
      ensures (state, reader.Rest()) == ReadState(t, old(reader.Rest()))
      ensures reader.hasOverflowed <==> old(reader.hasOverflowed) || t.log > |old(reader.Rest())|
    {
      new;
      state := reader.ReadBits(table.accuracyLog);
    }

    function GetSymbol(table: FseDecodeTable, ghost t: Tans): (symbol: nat)
      requires table.Decodes(t) && state < |t.cells|
      reads this, table
      ensures symbol == t.cells[state]
    {
      table.entries[state].symbol
    }

    method Update(reader: BackwardBitReader, table: FseDecodeTable, ghost t: Tans)
      requires reader.Valid() && table.Decodes(t) && state < |t.cells|
      modifies this, reader
      ensures reader.Valid() && state < |t.cells|
      ensures (state, reader.Rest()) == DecodeStep(t, old(state), old(reader.Rest()))
      ensures reader.hasOverflowed <==>
                old(reader.hasOverflowed) || CellBits(t, old(state)) > |old(reader.Rest())|
    {
      hide CellBits, CellBase, PeekEnd, DropEnd;
      var entry := table.entries[state];
      var readBits := reader.ReadBits(entry.bitCount);
      state := entry.nextStateBase + readBits;
    }
  }
}
