/** What an encode table would cost a histogram of codes: the average number of bits a symbol drops
    over all states, in 256ths, read off its `bits_delta`. */
module TableCosts {
  import opened Bits
  import opened BitReader
  import opened FseSpread
  import opened Fse
  import opened FseTables

  const COST_ACCURACY_LOG := 8
  const COST_SCALE := 256

  /** The cost of one symbol in 256ths of a bit; none where a subtraction would not do. */
  function SymbolCost(bitsDelta: nat, tableLog: nat, tableSize: nat): Option<nat> {
    var shortestBits := bitsDelta / 65536;
    var threshold := (shortestBits + 1) * 65536;
    if threshold < bitsDelta + tableSize then None
    else
      var extraBits := Shr(Shl(threshold - (bitsDelta + tableSize), COST_ACCURACY_LOG), tableLog);
      if (shortestBits + 1) * COST_SCALE < extraBits then None else Some((shortestBits + 1) * COST_SCALE - extraBits)
  }

  lemma AbsentIsDear(bitsDelta: nat, tableLog: nat)
    requires tableLog <= MAX_ACCURACY_LOG
    ensures bitsDelta == 65536 * (tableLog + 1) - Pow2(tableLog) ==>
              SymbolCost(bitsDelta, tableLog, Pow2(tableLog)) == Some((tableLog + 1) * COST_SCALE)
  {
    hide Pow2, Shr;
    TableSizeBound(tableLog);
    if bitsDelta == 65536 * (tableLog + 1) - Pow2(tableLog) {
      assert bitsDelta / 65536 == tableLog;
      ZeroShifts(COST_ACCURACY_LOG, tableLog);
    }
  }

  lemma {:induction false} ZeroShifts(n: nat, m: nat)
    ensures Shl(0, n) == 0 && Shr(0, m) == 0
    decreases n + m
  {
    if n > 0 {
      ZeroShifts(n - 1, m);
    } else if m > 0 {
      ZeroShifts(n, m - 1);
    }
  }

  // ---------------------------------------------------------------- the cost is the average number of bits

  /** The bits a symbol drops over the first `k` states together. */
  ghost function BitsOver(t: Tans, s: nat, k: nat): nat
    requires ValidTans(t) && k <= |t.cells| && Count(t, s) > 0
  {
    if k == 0 then 0 else BitsOver(t, s, k - 1) + EncodeBits(t, k - 1, s)
  }

  /** The average over all states in 256ths of a bit, rounded up. */
  ghost function AverageBits(t: Tans, s: nat): nat
    requires ValidTans(t) && Count(t, s) > 0
  {
    (COST_SCALE * BitsOver(t, s, |t.cells|) + |t.cells| - 1) / |t.cells|
  }

  /** From the edge on a state drops `m` bits, below it one bit less. */
  lemma BitsAtState(t: Tans, s: nat, c: nat, m: nat, edge: nat)
    requires ValidTans(t) && c < |t.cells| && Count(t, s) > 0 && m <= t.log
    requires edge == Shl(Count(t, s), m) && Pow2(t.log) <= edge <= 2 * Pow2(t.log)
    requires m > 0 || edge == Pow2(t.log)
    ensures EncodeBits(t, c, s) == if Pow2(t.log) + c >= edge then m else m - 1
  {
    hide Shl, Pow2, BitsOut, Count;
    CountBound(t, s);
    var state := Pow2(t.log) + c;
    if state >= edge {
      BitsOutAt(state, Count(t, s), m, t.log);
    } else {
      BitsOutBelow(state, Count(t, s), m, t.log);
    }
  }

  lemma {:induction false} BitsOverIs(t: Tans, s: nat, k: nat, m: nat, edge: nat)
    requires ValidTans(t) && k <= |t.cells| && Count(t, s) > 0 && m <= t.log
    requires edge == Shl(Count(t, s), m) && Pow2(t.log) <= edge <= 2 * Pow2(t.log)
    requires m > 0 || edge == Pow2(t.log)
    ensures BitsOver(t, s, k) == m * k - Min(k, edge - Pow2(t.log))
    decreases k
  {
    hide Shl, Pow2, EncodeBits, Count, ValidTans;
    if k > 0 {
      BitsOverIs(t, s, k - 1, m, edge);
      BitsAtState(t, s, k - 1, m, edge);
      assert m * k == m * (k - 1) + m;
    }
  }

  lemma RoundedUp(a: nat, size: nat, v: nat)
    requires size > 0 && a <= v * size < a + size
    ensures (a + size - 1) / size == v
  {
    var q := (a + size - 1) / size;
    assert a + size - 1 == size * q + (a + size - 1) % size;
    TimesMono(size, q + 1, v);
    TimesMono(size, v + 1, q);
  }

  lemma TimesMono(a: nat, b: nat, c: nat)
    ensures b <= c ==> a * b <= a * c
  {
    if b <= c {
      assert a * c == a * b + a * (c - b);
    }
  }

  /** The fraction taken off is that of the states below the edge. */
  lemma FractionOf(below: nat, log: nat)
    ensures var e := Shr(Shl(below, COST_ACCURACY_LOG), log);
            e * Pow2(log) <= COST_SCALE * below < e * Pow2(log) + Pow2(log)
  {
    assert Pow2(COST_ACCURACY_LOG) == COST_SCALE;
    hide Shl, Shr, Pow2, LowBits;
    var v := Shl(below, COST_ACCURACY_LOG);
    ShlTimes(below, COST_ACCURACY_LOG);
    SplitBits(v, log);
    ShlTimes(Shr(v, log), log);
  }

  /** `bits_delta` of a symbol with cells gives the average exactly, always below the limit. */
  lemma CostIsAverage(bitsDelta: nat, t: Tans, s: nat)
    requires ValidTans(t) && 0 < t.log && Count(t, s) > 0 && Count(t, s) <= Pow2(t.log) && t.log <= MAX_ACCURACY_LOG
    requires IsBitsDelta(bitsDelta, Count(t, s), t.log)
    ensures SymbolCost(bitsDelta, t.log, Pow2(t.log)) == Some(AverageBits(t, s))
    ensures AverageBits(t, s) < (t.log + 1) * COST_SCALE
  {
    hide Shl, Shr, Pow2, Count, BitsOver, HighestBitOrZero;
    var n, size := Count(t, s), Pow2(t.log);
    MaxBitsOut(n, t.log);
    TableSizeBound(t.log);
    var m := t.log - HighestBitOrZero(n - 1);
    SomeBits(n, t.log);
    var edge := Shl(n, m);
    BitsOverIs(t, s, size, m, edge);
    assert bitsDelta / 65536 == m - 1;
    FractionOf(edge - size, t.log);
    var e := Shr(Shl(edge - size, COST_ACCURACY_LOG), t.log);
    FractionSmall(e, size, edge - size);
    CostTimes(m, e, size, edge - size);
    RoundedUp(COST_SCALE * BitsOver(t, s, size), size, COST_SCALE * m - e);
  }

  lemma SomeBits(n: nat, log: nat)
    requires 0 < n <= Pow2(log) && 0 < log
    ensures HighestBitOrZero(n - 1) < log
  {
    hide Pow2;
    if n > 1 && HighestBit(n - 1) >= log {
      Pow2Mono(log, HighestBit(n - 1));
    }
  }

  lemma FractionSmall(e: nat, size: nat, below: nat)
    requires 0 < size && below <= size && e * size <= COST_SCALE * below
    ensures e <= COST_SCALE
  {
    TimesMono(size, COST_SCALE + 1, e);
  }

  lemma CostTimes(m: nat, e: nat, size: nat, below: nat)
    requires m > 0 && e <= COST_SCALE && below <= size && e * size <= COST_SCALE * below < e * size + size
    ensures var total := m * size - below;
            0 <= total && COST_SCALE * total <= (COST_SCALE * m - e) * size < COST_SCALE * total + size
  {
    assert (COST_SCALE * m - e) * size == COST_SCALE * (m * size) - e * size;
    assert m * size >= size;
  }

  // ---------------------------------------------------------------- the cost of a histogram

  ghost predicate CoversCounts(t: Tans, counts: seq<nat>) {
    forall s :: 0 <= s < |counts| && counts[s] > 0 ==> Count(t, s) > 0
  }

  /** Every occurrence at the average of its symbol. */
  ghost function CostOf(t: Tans, counts: seq<nat>): nat
    requires ValidTans(t) && CoversCounts(t, counts)
  {
    if counts == [] then 0
    else
      var n := |counts| - 1;
      assert forall s :: 0 <= s < n ==> counts[..n][s] == counts[s];
      CostOf(t, counts[..n]) + if counts[n] == 0 then 0 else counts[n] * AverageBits(t, n)
  }

  lemma CostStep(t: Tans, counts: seq<nat>, k: nat)
    requires ValidTans(t) && k < |counts| && CoversCounts(t, counts[..k]) && (counts[k] > 0 ==> Count(t, k) > 0)
    ensures CoversCounts(t, counts[..k + 1])
    ensures CostOf(t, counts[..k + 1])
          == CostOf(t, counts[..k]) + if counts[k] == 0 then 0 else counts[k] * AverageBits(t, k)
  {
    hide Count, AverageBits, ValidTans;
    assert counts[..k + 1][..k] == counts[..k];
  }

  lemma NoCost(t: Tans, counts: seq<nat>)
    requires ValidTans(t)
    ensures CoversCounts(t, counts[..0]) && CostOf(t, counts[..0]) == 0
  {
    hide ValidTans;
  }

  /** `get_encode_table_bits`: a cost exactly if the table has more than one cell, knows that many
      symbols and has cells for every symbol that occurs; then it is the average bits, cut to bits. */
  method GetEncodeTableBits(table: FseEncodeTable, counts: seq<nat>, ghost t: Tans) returns (cost: Option<nat>)
    requires table.Encodes(t) && table.MarksAbsent(t)
    ensures cost.Some? <==> t.log > 0 && |counts| <= table.symbolCount && CoversCounts(t, counts)
    ensures cost.Some? ==> cost.value == CostOf(t, counts) / COST_SCALE
  {
    hide Pow2, Count, FseEncodeTable.FindsCells, FseEncodeTable.CountsBits, CostOf, CoversCounts, AverageBits,
      SymbolCost, IsBitsDelta;
    var tableLog := table.accuracyLog;
    if tableLog == 0 || table.symbolCount < |counts| {
      return None;
    }
    var tooExpensive := (tableLog + 1) * COST_SCALE;
    var tableSize := Pow2(tableLog);
    var total: nat := 0;
    NoCost(t, counts);
    for symbol := 0 to |counts|
      invariant CoversCounts(t, counts[..symbol]) && total == CostOf(t, counts[..symbol])
    {
      if counts[symbol] != 0 {
        var bitsDelta := table.transforms[symbol].bitsDelta;
        var symbolBits := SymbolCost(bitsDelta, tableLog, tableSize);
        if Count(t, symbol) > 0 {
          DeltaOf(table, t, symbol);
          CostIsAverage(bitsDelta, t, symbol);
        } else {
          AbsentIsDear(bitsDelta, tableLog);
          NotCovered(t, counts, symbol);
        }
        if symbolBits.None? || symbolBits.value >= tooExpensive {
          return None;
        }
        total := total + counts[symbol] * symbolBits.value;
      }
      CostStep(t, counts, symbol);
    }
    assert counts[..|counts|] == counts;
    return Some(total / COST_SCALE);
  }

  lemma DeltaOf(table: FseEncodeTable, t: Tans, s: nat)
    requires table.Encodes(t) && t.log > 0 && s < MAX_SYMBOL_COUNT && Count(t, s) > 0
    ensures Count(t, s) <= Pow2(t.log) && t.log <= MAX_ACCURACY_LOG
    ensures |table.transforms| > s && IsBitsDelta(table.transforms[s].bitsDelta, Count(t, s), t.log)
  {
    hide Pow2, Count, FseEncodeTable.FindsCells, IsBitsDelta;
  }

  lemma NotCovered(t: Tans, counts: seq<nat>, s: nat)
    requires s < |counts| && counts[s] > 0 && Count(t, s) == 0
    ensures !CoversCounts(t, counts)
  {
  }
}
