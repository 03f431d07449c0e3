/** Scaling counts to a table of 2^log cells: truncated shares, at least one cell for every symbol
    that occurs, and the remainder to the most frequent one. */
module NormalizeCounts {
  import opened Bits
  import opened FseSpread
  import opened PackageMerge
  import opened CodeLengths

  lemma SumStep(counts: seq<nat>, k: nat)
    requires k < |counts|
    ensures Sum(counts[..k + 1]) == Sum(counts[..k]) + counts[k]
    ensures UsedCount(counts[..k + 1]) == UsedCount(counts[..k]) + (if counts[k] > 0 then 1 else 0)
  {
    assert counts[..k + 1][..k] == counts[..k];
  }

  /** The total is at most the largest count times the symbols that occur. */
  lemma {:induction false} SumAtMost(counts: seq<nat>, most: nat)
    requires forall s :: 0 <= s < |counts| ==> counts[s] <= most
    ensures Sum(counts) <= most * UsedCount(counts)
  {
    if counts != [] {
      var n := |counts| - 1;
      SumAtMost(counts[..n], most);
      assert most * (UsedCount(counts[..n]) + 1) == most * UsedCount(counts[..n]) + most;
    }
  }

  lemma {:induction false} CountAtMostSum(counts: seq<nat>, s: nat)
    requires s < |counts|
    ensures counts[s] <= Sum(counts)
  {
    if s < |counts| - 1 {
      CountAtMostSum(counts[..|counts| - 1], s);
    }
  }

  /** No count is larger, and none before it as large. */
  ghost predicate FirstLargest(counts: seq<nat>, k: nat) {
    && k < |counts|
    && (forall s :: 0 <= s < |counts| ==> counts[s] <= counts[k])
    && forall s :: 0 <= s < k ==> counts[s] < counts[k]
  }

  /** `find_largest_count_symbol`: the first of the largest. */
  method FindLargest(counts: seq<nat>) returns (largest: nat)
    ensures counts != [] ==> FirstLargest(counts, largest)
  {
    largest := 0;
    var count := 0;
    for s := 0 to |counts|
      invariant counts != [] ==>
                  && largest < |counts|
                  && count <= counts[largest]
                  && (count == counts[largest] || (count == 0 && largest == 0))
      invariant largest < s || largest == 0
      invariant forall i :: 0 <= i < s ==> counts[i] <= count
      invariant counts != [] ==> forall i :: 0 <= i < largest ==> counts[i] < counts[largest]
    {
      if counts[s] > count {
        count := counts[s];
        largest := s;
      }
    }
  }

  // ---------------------------------------------------------------- what Ok means

  /** Exactly the symbols that occur have cells, and the cells fill the table. */
  ghost predicate Normalized(counts: seq<nat>, normalized: seq<int>, log: nat) {
    && |normalized| == |counts| && EffectiveSum(normalized) == Pow2(log)
    && forall s :: 0 <= s < |counts| ==> normalized[s] >= -1 && (normalized[s] == 0 <==> counts[s] == 0)
  }

  /** The share of a symbol that occurs: a zero share becomes the low probability. */
  function Assigned(share: nat): int {
    if share == 0 then -1 else share
  }

  ghost function Shares(counts: seq<nat>, share: nat -> nat): (r: seq<int>)
    ensures |r| == |counts|
  {
    seq(|counts|, s requires 0 <= s < |counts| => if counts[s] == 0 then 0 else Assigned(share(counts[s])))
  }

  lemma {:induction false} SumUpdate(s: seq<int>, k: nat, v: int)
    requires k < |s|
    ensures EffectiveSum(s[k := v]) == EffectiveSum(s) - CellsOf(s[k]) + CellsOf(v)
  {
    var n := |s| - 1;
    if k < n {
      SumUpdate(s[..n], k, v);
      assert s[k := v][..n] == s[..n][k := v];
    } else {
      assert s[k := v][..n] == s[..n];
    }
  }

  lemma SharesStep(counts: seq<nat>, share: nat -> nat, k: nat)
    requires k < |counts|
    ensures EffectiveSum(Shares(counts, share)[..k + 1])
         == EffectiveSum(Shares(counts, share)[..k])
            + (if counts[k] == 0 then 0 else if share(counts[k]) == 0 then 1 else share(counts[k]))
  {
    var s := Shares(counts, share);
    assert s[..k + 1][..k] == s[..k];
  }

  /** When even the largest share is zero, every symbol gets one cell. */
  lemma {:induction false} AllLow(counts: seq<nat>, share: nat -> nat, k: nat)
    requires k <= |counts| && forall s :: 0 <= s < |counts| ==> share(counts[s]) == 0
    ensures EffectiveSum(Shares(counts, share)[..k]) == UsedCount(counts[..k])
    decreases k
  {
    hide EffectiveSum, UsedCount, Shares;
    if k > 0 {
      AllLow(counts, share, k - 1);
      SharesStep(counts, share, k - 1);
      SumStep(counts, k - 1);
    } else {
      NothingShared(Shares(counts, share), counts);
    }
  }

  lemma NothingShared(s: seq<int>, counts: seq<nat>)
    ensures EffectiveSum(s[..0]) == 0 && UsedCount(counts[..0]) == 0
  {
  }

  /** All shares, with what they leave added to one of them. */
  ghost function WithRemainder(shares: seq<int>, largest: nat, tableSize: nat): (r: seq<int>)
    requires largest < |shares|
    ensures |r| == |shares|
  {
    shares[largest := shares[largest] + tableSize - EffectiveSum(shares)]
  }

  /** The remainder leaves the first largest symbol at least one cell. */
  ghost predicate ShareWorks(counts: seq<nat>, share: nat -> nat, tableSize: nat) {
    exists k: nat :: FirstLargest(counts, k) && WithRemainder(Shares(counts, share), k, tableSize)[k] > 0
  }

  /** Every symbol has its share, and the first of the largest what is left besides. */
  ghost predicate SharedOut(counts: seq<nat>, share: nat -> nat, tableSize: nat, cells: seq<int>) {
    exists k: nat :: FirstLargest(counts, k) && cells == WithRemainder(Shares(counts, share), k, tableSize)
  }

  lemma OneLargest(counts: seq<nat>, j: nat, k: nat)
    requires FirstLargest(counts, j) && FirstLargest(counts, k)
    ensures j == k < |counts|
  {
    assert counts[j] == counts[k];
  }

  lemma WorksExactly(counts: seq<nat>, share: nat -> nat, tableSize: nat, k: nat)
    requires FirstLargest(counts, k)
    ensures ShareWorks(counts, share, tableSize) <==> WithRemainder(Shares(counts, share), k, tableSize)[k] > 0
  {
    hide WithRemainder, Shares;
    if ShareWorks(counts, share, tableSize) {
      var j: nat :| FirstLargest(counts, j) && WithRemainder(Shares(counts, share), j, tableSize)[j] > 0;
      OneLargest(counts, j, k);
    }
  }

  /** Both passes: shares to all, the remainder to the largest, valid exactly when that stays positive. */
  method Distribute(counts: seq<nat>, share: nat -> nat, tableSize: nat, normalized: array<int>) returns (valid: bool)
    requires counts != [] && |counts| <= normalized.Length
    requires forall s :: 0 <= s < |counts| ==> normalized[s] == 0
    requires forall a: nat, b: nat :: a <= b ==> share(a) <= share(b)
    requires forall most ::
               && most in counts && (forall s :: 0 <= s < |counts| ==> counts[s] <= most) && most > 0
               && share(most) == 0 ==>
               UsedCount(counts) == tableSize
    requires exists s :: 0 <= s < |counts| && counts[s] > 0
    modifies normalized
    ensures valid <==> ShareWorks(counts, share, tableSize)
    ensures SharedOut(counts, share, tableSize, normalized[..|counts|])
    ensures valid ==> |normalized[..|counts|]| == |counts| && EffectiveSum(normalized[..|counts|]) == tableSize
    ensures valid ==> forall s :: 0 <= s < |counts| ==> normalized[s] >= -1 && (normalized[s] == 0 <==> counts[s] == 0)
  {
    hide EffectiveSum, UsedCount, FirstLargest, ShareWorks;
    ghost var n := |counts|;
    var stillToDistribute: int := tableSize;
    var largest := FindLargest(counts);
    LargestIs(counts, largest);
    ghost var shares := Shares(counts, share);
    NothingShared(shares, counts);
    for symbol := 0 to |counts|
      modifies normalized
      invariant forall s :: 0 <= s < symbol ==> normalized[s] == shares[s]
      invariant forall s :: symbol <= s < |counts| ==> normalized[s] == 0
      invariant stillToDistribute == tableSize - EffectiveSum(shares[..symbol])
    {
      SharesStep(counts, share, symbol);
      if counts[symbol] != 0 {
        var scaled := share(counts[symbol]);
        var cells: int := if scaled == 0 then -1 else scaled;
        normalized[symbol] := cells;
        stillToDistribute := stillToDistribute - (if cells == -1 then 1 else cells);
      }
    }
    assert shares[..n] == shares == normalized[..n];
    ghost var before := normalized[..n];
    normalized[largest] := normalized[largest] + stillToDistribute;
    assert normalized[..n] == before[largest := normalized[largest]];
    SumUpdate(shares, largest, normalized[largest]);
    if share(counts[largest]) == 0 {
      assert counts[largest] in counts;
      AllLow(counts, share, n);
      assert counts[..n] == counts;
    }
    valid := normalized[largest] > 0;
    assert shares[..n] == shares;
    assert normalized[..n] == WithRemainder(shares, largest, tableSize);
    WorksExactly(counts, share, tableSize, largest);
    assert SharedOut(counts, share, tableSize, normalized[..n]);
  }

  lemma LargestIs(counts: seq<nat>, k: nat)
    requires FirstLargest(counts, k)
    ensures k < |counts| && (forall s :: 0 <= s < |counts| ==> counts[s] <= counts[k])
  {
  }

  // ---------------------------------------------------------------- the fixed-point share

  /** 2^62 over the total, cut to whole units. */
  function ShareStep(total: nat): (step: nat)
    requires total > 0
    ensures step * total <= Pow2(62) < step * total + total
  {
    Pow2(62) / total
  }

  /** `(count * step) >> scale`. */
  function ScaledShare(count: nat, step: nat, scale: nat): nat {
    Shr(count * step, scale)
  }

  /** The two shares of a total over a table. */
  function ScaledShares(total: nat, log: nat): nat -> nat
    requires total > 0 && log <= 62
  {
    var step := ShareStep(total);
    count => ScaledShare(count, step, 62 - log)
  }

  function ExactShares(total: nat, log: nat): nat -> nat
    requires total > 0
  {
    count => count * Pow2(log) / total
  }

  lemma {:induction false} ShrMono(a: nat, b: nat, n: nat)
    requires a <= b
    ensures Shr(a, n) <= Shr(b, n)
    decreases n
  {
    if n > 0 {
      ShrMono(a / 2, b / 2, n - 1);
    }
  }

  lemma ScaledMono(a: nat, b: nat, step: nat, scale: nat)
    requires a <= b
    ensures ScaledShare(a, step, scale) <= ScaledShare(b, step, scale)
  {
    assert a * step <= b * step;
    ShrMono(a * step, b * step, scale);
  }

  /** A zero share means the product stays below one unit. */
  lemma ZeroShare(v: nat, scale: nat)
    requires Shr(v, scale) == 0
    ensures v < Pow2(scale)
  {
    SplitBits(v, scale);
    ShlZero(scale);
  }

  /** With 32-bit counts the largest share is zero only if there are as many symbols as cells. */
  lemma LargestShareZero(most: nat, present: nat, total: nat, step: nat, unit: nat, tableSize: nat)
    requires 0 < most < 0x1_0000_0000 && 0 < total <= most * present && 2 <= tableSize <= 512
    requires unit >= 0x20_0000_0000_0000 && step * total + total > unit * tableSize
    requires most * step < unit
    ensures present >= tableSize
  {
    var t := tableSize - 1;
    if present <= t {
      TimesMono(most, present, t);
      TimesMono(step, total, most * t);
      Reassociate(step, most, t);
      TimesMono(t, most * step, unit - 1);
      Distribute2(unit, t);
      TimesMono(most, t, 511);
    }
  }

  lemma TimesMono(a: nat, b: nat, c: nat)
    ensures b <= c ==> a * b <= a * c
  {
    if b <= c {
      assert a * (c - b) >= 0;
      assert a * c == a * b + a * (c - b);
    }
  }

  lemma Reassociate(step: nat, most: nat, t: nat)
    ensures step * (most * t) == t * (most * step)
  {
    assert step * (most * t) == (step * most) * t;
  }

  lemma Distribute2(unit: nat, t: nat)
    requires unit > 0
    ensures unit * (t + 1) == unit * t + unit && t * (unit - 1) == unit * t - t
  {
  }

  /** An exact share of the largest symbol is never zero. */
  lemma LargestShareExact(most: nat, present: nat, total: nat, tableSize: nat)
    requires 0 < total <= most * present && present <= tableSize
    ensures most * tableSize / total >= 1
  {
    assert most * present <= most * tableSize;
    DivideAtLeast(most * tableSize, total);
  }

  lemma DivideAtLeast(a: nat, b: nat)
    requires 0 < b <= a
    ensures a / b >= 1
  {
  }

  lemma DivideMono(a: nat, b: nat, t: nat, total: nat)
    requires a <= b && total > 0
    ensures a * t / total <= b * t / total
  {
    assert a * t <= b * t;
    DivMono(a * t, b * t, total);
  }

  lemma DivMono(x: nat, y: nat, d: nat)
    requires x <= y && d > 0
    ensures x / d <= y / d
  {
    var q, r := x / d, y / d;
    assert x == d * q + x % d && y == d * r + y % d;
    TimesMono(d, r + 1, q);
    assert d * (r + 1) == d * r + d;
  }

  /** 2^(62 - log) units of a cell: 2^53 at least. */
  lemma CellUnit(log: nat)
    requires 0 < log <= MAX_ACCURACY_LOG
    ensures Pow2(62 - log) >= 0x20_0000_0000_0000 && Pow2(62) == Pow2(62 - log) * Pow2(log) && 2 <= Pow2(log) <= 512
  {
    hide Pow2;
    SmallPow2();
    Pow2Mono(1, log);
    Pow2Mono(log, 9);
    Pow2Mono(53, 62 - log);
    BigUnit();
    ShlPow2(62 - log, log);
    ShlTimes(Pow2(62 - log), log);
  }

  lemma PowerProduct(a: nat, b: nat)
    ensures Pow2(a + b) == Pow2(a) * Pow2(b)
  {
    ShlPow2(a, b);
    ShlTimes(Pow2(a), b);
  }

  lemma BigUnit()
    ensures Pow2(53) == 0x20_0000_0000_0000
  {
    hide Pow2;
    SmallPow2();
    PowerProduct(9, 9);
    PowerProduct(18, 9);
    PowerProduct(27, 9);
    PowerProduct(36, 9);
    PowerProduct(45, 8);
  }

  lemma {:induction false} PresentWhen(counts: seq<nat>)
    ensures UsedCount(counts) > 0 <==> exists s :: 0 <= s < |counts| && counts[s] > 0
  {
    if counts != [] {
      var n := |counts| - 1;
      PresentWhen(counts[..n]);
      if exists s :: 0 <= s < |counts| && counts[s] > 0 {
        var s :| 0 <= s < |counts| && counts[s] > 0;
        assert s < n ==> counts[..n][s] > 0;
      }
      if exists s :: 0 <= s < n && counts[..n][s] > 0 {
        var s :| 0 <= s < n && counts[..n][s] > 0;
        assert counts[s] > 0;
      }
    }
  }

  /** What both shares need of the largest count. */
  lemma ScaledPrecondition(counts: seq<nat>, log: nat, most: nat)
    requires 0 < log <= MAX_ACCURACY_LOG && Sum(counts) > 0 && UsedCount(counts) <= Pow2(log)
    requires forall s :: 0 <= s < |counts| ==> counts[s] < 0x1_0000_0000
    requires most in counts && (forall s :: 0 <= s < |counts| ==> counts[s] <= most) && most > 0
    ensures ScaledShare(most, ShareStep(Sum(counts)), 62 - log) == 0 ==> UsedCount(counts) == Pow2(log)
    ensures most * Pow2(log) / Sum(counts) > 0
  {
    hide Sum, UsedCount, Pow2, ShareStep, Shr;
    var total, step := Sum(counts), ShareStep(Sum(counts));
    SumAtMost(counts, most);
    CellUnit(log);
    LargestShareExact(most, UsedCount(counts), total, Pow2(log));
    if ScaledShare(most, step, 62 - log) == 0 {
      ZeroShare(most * step, 62 - log);
      LargestShareZero(most, UsedCount(counts), total, step, Pow2(62 - log), Pow2(log));
    }
  }

  method CountPresent(counts: seq<nat>) returns (present: nat, only: nat)
    ensures present == UsedCount(counts)
    ensures present > 0 ==> only < |counts| && counts[only] > 0
    ensures present == 1 ==> forall s :: 0 <= s < |counts| && s != only ==> counts[s] == 0
  {
    hide UsedCount;
    present, only := 0, 0;
    NothingShared([], counts);
    for s := 0 to |counts|
      invariant present == UsedCount(counts[..s])
      invariant present == 0 ==> forall i :: 0 <= i < s ==> counts[i] == 0
      invariant present > 0 ==> only < s && counts[only] > 0
      invariant present == 1 ==> forall i :: 0 <= i < s && i != only ==> counts[i] == 0
    {
      SumStep(counts, s);
      if counts[s] > 0 {
        if present == 0 {
          only := s;
        }
        present := present + 1;
      }
    }
    assert counts[..|counts|] == counts;
  }

  /** A single cell count. */
  lemma {:induction false} OnlySum(normalized: seq<int>, only: nat)
    requires only < |normalized| && normalized[only] >= 0
    requires forall s :: 0 <= s < |normalized| && s != only ==> normalized[s] == 0
    ensures EffectiveSum(normalized) == normalized[only]
  {
    var n := |normalized| - 1;
    if only < n {
      OnlySum(normalized[..n], only);
    } else {
      NoneSum(normalized[..n]);
    }
  }

  lemma {:induction false} NoneSum(normalized: seq<int>)
    requires forall s :: 0 <= s < |normalized| ==> normalized[s] == 0
    ensures EffectiveSum(normalized) == 0
  {
    if normalized != [] {
      NoneSum(normalized[..|normalized| - 1]);
    }
  }

  method Clear(normalized: array<int>, n: nat)
    requires n <= normalized.Length
    modifies normalized
    ensures forall s :: 0 <= s < n ==> normalized[s] == 0
  {
    forall s | 0 <= s < n {
      normalized[s] := 0;
    }
  }

  /** What `normalize_counts` can do: a log in range, symbols that fit, and one of them alone or one of
      the two shares leaving the largest a cell. */
  ghost predicate CanNormalize(counts: seq<nat>, log: nat) {
    && 0 < log <= MAX_ACCURACY_LOG && 0 < UsedCount(counts) <= Pow2(log) && Sum(counts) > 0
    && (|| UsedCount(counts) == 1
        || ShareWorks(counts, ScaledShares(Sum(counts), log), Pow2(log))
        || ShareWorks(counts, ExactShares(Sum(counts), log), Pow2(log)))
  }

  /** The cells that `normalize_counts` gives: all to a symbol alone; else the fixed-point shares where
      they leave the largest a cell, and the exact shares where they do not. */
  ghost predicate CellsGiven(counts: seq<nat>, log: nat, cells: seq<int>)
    requires log <= 62
  {
    if Sum(counts) == 0 then false
    else if UsedCount(counts) == 1 then
      |cells| == |counts| && forall s :: 0 <= s < |counts| ==> cells[s] == if counts[s] > 0 then Pow2(log) else 0
    else if ShareWorks(counts, ScaledShares(Sum(counts), log), Pow2(log)) then
      SharedOut(counts, ScaledShares(Sum(counts), log), Pow2(log), cells)
    else SharedOut(counts, ExactShares(Sum(counts), log), Pow2(log), cells)
  }

  /** `normalize_counts`: it succeeds exactly where it can, with the cells of the shares, and then the
      cells fill the table and belong to exactly the symbols that occur. */
  method Normalize(counts: seq<nat>, totalCount: nat, log: nat, normalized: array<int>) returns (ok: bool)
    requires totalCount == Sum(counts) && forall s :: 0 <= s < |counts| ==> counts[s] < 0x1_0000_0000
    modifies normalized
    ensures ok ==> |counts| <= normalized.Length && Normalized(counts, normalized[..|counts|], log)
    ensures ok <==> |counts| <= normalized.Length && CanNormalize(counts, log)
    ensures ok ==> log <= 62 && CellsGiven(counts, log, normalized[..|counts|])
    ensures (&& 0 < log <= MAX_ACCURACY_LOG && |counts| <= normalized.Length && UsedCount(counts) == 1) ==> ok
    ensures ok ==> 0 < log <= MAX_ACCURACY_LOG && 0 < UsedCount(counts) <= Pow2(log)
  {
    hide Sum, UsedCount, Pow2, EffectiveSum, ShareStep, ScaledShare, ShareWorks, SharedOut;
    PresentWhen(counts);
    if log == 0 || log > MAX_ACCURACY_LOG {
      return false;
    }
    if totalCount == 0 || |counts| == 0 || |counts| > normalized.Length {
      SumPresent(counts);
      return false;
    }
    CellUnit(log);
    var tableSize := Pow2(log);
    Clear(normalized, |counts|);
    var present, only := CountPresent(counts);
    if present == 0 || present > tableSize {
      return false;
    }
    if present == 1 {
      normalized[only] := tableSize;
      OnlySum(normalized[..|counts|], only);
      return true;
    }
    ok := DistributeByScaledShare(counts, totalCount, log, normalized);
    if ok {
      return;
    }
    Clear(normalized, |counts|);
    ok := DistributeProportionally(counts, totalCount, log, normalized);
  }

  /** `distribute_by_scaled_share`. */
  method DistributeByScaledShare(counts: seq<nat>, totalCount: nat, log: nat, normalized: array<int>)
    returns (valid: bool)
    requires totalCount == Sum(counts) > 0 && forall s :: 0 <= s < |counts| ==> counts[s] < 0x1_0000_0000
    requires 0 < log <= MAX_ACCURACY_LOG && 0 < UsedCount(counts) <= Pow2(log) && 0 < |counts| <= normalized.Length
    requires forall s :: 0 <= s < |counts| ==> normalized[s] == 0
    modifies normalized
    ensures valid <==> ShareWorks(counts, ScaledShares(totalCount, log), Pow2(log))
    ensures SharedOut(counts, ScaledShares(totalCount, log), Pow2(log), normalized[..|counts|])
    ensures valid ==> Normalized(counts, normalized[..|counts|], log)
  {
    hide Sum, UsedCount, Pow2, EffectiveSum, ShareStep, ScaledShare, ShareWorks, SharedOut;
    PresentWhen(counts);
    var scale := 62 - log;
    var step := ShareStep(totalCount);
    forall a: nat, b: nat | a <= b
      ensures ScaledShare(a, step, scale) <= ScaledShare(b, step, scale)
    {
      ScaledMono(a, b, step, scale);
    }
    forall most | most in counts && (forall s :: 0 <= s < |counts| ==> counts[s] <= most) && most > 0
      ensures ScaledShare(most, step, scale) == 0 ==> UsedCount(counts) == Pow2(log)
    {
      ScaledPrecondition(counts, log, most);
    }
    valid := Distribute(counts, ScaledShares(totalCount, log), Pow2(log), normalized);
  }

  /** `distribute_proportionally`. */
  method DistributeProportionally(counts: seq<nat>, totalCount: nat, log: nat, normalized: array<int>)
    returns (valid: bool)
    requires totalCount == Sum(counts) > 0 && forall s :: 0 <= s < |counts| ==> counts[s] < 0x1_0000_0000
    requires 0 < log <= MAX_ACCURACY_LOG && 0 < UsedCount(counts) <= Pow2(log) && 0 < |counts| <= normalized.Length
    requires forall s :: 0 <= s < |counts| ==> normalized[s] == 0
    modifies normalized
    ensures valid <==> ShareWorks(counts, ExactShares(totalCount, log), Pow2(log))
    ensures SharedOut(counts, ExactShares(totalCount, log), Pow2(log), normalized[..|counts|])
    ensures valid ==> Normalized(counts, normalized[..|counts|], log)
  {
    hide Sum, UsedCount, Pow2, EffectiveSum, ShareStep, ScaledShare, ShareWorks, SharedOut;
    PresentWhen(counts);
    var tableSize := Pow2(log);
    forall a: nat, b: nat | a <= b
      ensures a * tableSize / totalCount <= b * tableSize / totalCount
    {
      DivideMono(a, b, tableSize, totalCount);
    }
    forall most | most in counts && (forall s :: 0 <= s < |counts| ==> counts[s] <= most) && most > 0
      ensures most * tableSize / totalCount > 0
    {
      ScaledPrecondition(counts, log, most);
    }
    valid := Distribute(counts, ExactShares(totalCount, log), tableSize, normalized);
  }

  // ---------------------------------------------------------------- in proportion to the counts

  /** `share` cells of a table are no more than `count` of `total` makes, and less by less than one cell
      and the rounding of the fixed point: one part in 2^21 of a cell. */
  ghost predicate InProportion(share: nat, count: nat, total: nat, tableSize: nat) {
    && share * total <= count * tableSize
    && (count * tableSize - (share + 1) * total) * 0x20_0000 < total
  }

  /** Of the symbols that occur, all but the first of the largest have cells in proportion to their
      counts, and those that come to less than a cell the low probability. */
  lemma Proportional(counts: seq<nat>, log: nat, cells: seq<int>, s: nat)
    requires 0 < log <= MAX_ACCURACY_LOG && UsedCount(counts) > 1 && CellsGiven(counts, log, cells)
    requires forall s :: 0 <= s < |counts| ==> counts[s] < 0x1_0000_0000
    requires s < |counts| && counts[s] > 0 && !FirstLargest(counts, s)
    ensures |cells| == |counts| && (cells[s] == -1 || cells[s] > 0)
    ensures InProportion(Max(cells[s], 0), counts[s], Sum(counts), Pow2(log))
  {
    hide Sum, UsedCount, Pow2, EffectiveSum, ShareStep, ScaledShare, ShareWorks, InProportion;
    var total := Sum(counts);
    CellUnit(log);
    if ShareWorks(counts, ScaledShares(total, log), Pow2(log)) {
      ScaledInProportion(counts[s], total, log);
    } else {
      ExactInProportion(counts[s], total, Pow2(log));
    }
  }

  lemma ExactInProportion(count: nat, total: nat, tableSize: nat)
    requires total > 0
    ensures InProportion(count * tableSize / total, count, total, tableSize)
  {
    var v := count * tableSize;
    var share := v / total;
    assert v == total * share + v % total;
    assert (share + 1) * total == total * share + total && share * total == total * share;
  }

  lemma ScaledInProportion(count: nat, total: nat, log: nat)
    requires 0 < log <= MAX_ACCURACY_LOG && total > 0 && 0 < count < 0x1_0000_0000
    ensures InProportion(ScaledShare(count, ShareStep(total), 62 - log), count, total, Pow2(log))
  {
    hide Pow2, ShareStep, ScaledShare, Shr, Shl, LowBits, InProportion;
    var step, unit := ShareStep(total), Pow2(62 - log);
    var share := ScaledShare(count, step, 62 - log);
    CellUnit(log);
    ScaledIs(count, step, 62 - log);
    SplitBits(count * step, 62 - log);
    ShlTimes(share, 62 - log);
    UpperShare(share, count, step, total, unit, Pow2(log));
    LowerShare(share, count, step, total, unit, Pow2(log));
    InProportionIs(share, count, total, Pow2(log));
  }

  lemma InProportionIs(share: nat, count: nat, total: nat, tableSize: nat)
    ensures InProportion(share, count, total, tableSize)
       <==> share * total <= count * tableSize && (count * tableSize - (share + 1) * total) * 0x20_0000 < total
  {
  }

  lemma UpperShare(share: nat, count: nat, step: nat, total: nat, unit: nat, tableSize: nat)
    requires share * unit <= count * step && step * total <= unit * tableSize && unit > 0
    ensures share * total <= count * tableSize
  {
    hide *;
    TimesMono(total, share * unit, count * step);
    TimesMono(count, step * total, unit * tableSize);
    Regroup(total, share, unit);
    Regroup(total, count, step);
    Regroup(count, unit, tableSize);
    Regroup(count, step, total);
    Cancel(unit, share * total, count * tableSize);
  }

  lemma LowerShare(share: nat, count: nat, step: nat, total: nat, unit: nat, tableSize: nat)
    requires count * step < share * unit + unit && unit * tableSize < step * total + total
    requires 0 < count < 0x1_0000_0000 && unit >= 0x20_0000_0000_0000 && total > 0
    ensures (count * tableSize - (share + 1) * total) * 0x20_0000 < total
  {
    hide *;
    TimesMono(total, count * step, share * unit + unit);
    Expand(total, share, unit);
    Regroup(total, count, step);
    Regroup(count, step, total);
    StepLoses(count, step, total, unit * tableSize);
    Regroup(count, unit, tableSize);
    LessThanOne(count * tableSize, (share + 1) * total, unit, count, total);
  }

  lemma StepLoses(count: nat, step: nat, total: nat, all: nat)
    requires all < step * total + total && count > 0
    ensures count * all < count * (step * total) + count * total
  {
    hide *;
    TimesMono(count, all + 1, step * total + total);
    OneFactorMore(count, all, 1);
    OneFactorMore(count, step * total, total);
  }

  lemma OneFactorMore(a: nat, b: nat, c: nat)
    ensures a * (b + c) == a * b + a * c
  {
  }

  lemma LessThanOne(a: nat, b: nat, unit: nat, count: nat, total: nat)
    requires unit * a < unit * b + count * total && total > 0 && count < 0x1_0000_0000 && unit >= 0x20_0000_0000_0000
    ensures (a - b) * 0x20_0000 < total
  {
    hide *;
    if a > b {
      var less: nat := a - b;
      OneFactorMore(unit, b, less);
      TimesMono(less, 0x20_0000_0000_0000, unit);
      TimesMono(total, count, 0xFFFF_FFFF);
      assert less * unit == unit * less && total * count == count * total;
    }
  }

  /** Products of three, the factors in other orders. */
  lemma Regroup(a: nat, b: nat, c: nat)
    ensures a * (b * c) == b * (c * a) == c * (b * a) == c * (a * b)
  {
    assert a * (b * c) == (a * b) * c == (b * a) * c;
    assert b * (c * a) == b * (a * c) == (b * a) * c;
  }

  lemma Expand(total: nat, share: nat, unit: nat)
    ensures total * (share * unit + unit) == unit * ((share + 1) * total)
  {
    Regroup(total, share + 1, unit);
    assert share * unit + unit == (share + 1) * unit;
  }

  lemma Cancel(unit: nat, a: nat, b: nat)
    requires unit > 0 && unit * a <= unit * b
    ensures a <= b
  {
    TimesMono(unit, b + 1, a);
    TimesOneMore(b + 1, unit);
    assert unit * (b + 1) == (b + 1) * unit && unit * b == b * unit;
  }

  lemma {:induction false} SumPresent(counts: seq<nat>)
    ensures Sum(counts) == 0 <==> UsedCount(counts) == 0
  {
    if counts != [] {
      SumPresent(counts[..|counts| - 1]);
    }
  }

  /** `pick_accuracy_log`: enough for the symbols, not more than the total warrants, 5 at least. */
  function PickAccuracyLog(totalCount: nat, symbolCount: nat, maxLog: nat): (log: nat)
    ensures log <= Min(maxLog, MAX_ACCURACY_LOG)
    ensures maxLog >= 5 ==> log >= 5
  {
    var top := Min(maxLog, MAX_ACCURACY_LOG);
    var fromTotal := if totalCount <= 1 then 0 else Max(HighestBit(totalCount - 1) - 2, 0);
    var fromSymbols := (if symbolCount <= 2 then 0 else HighestBit(symbolCount - 1)) + 2;
    Min(Max(Max(Min(top, fromTotal), fromSymbols), 5), top)
  }

  /** If the limit has room for the symbols, so has the log picked. */
  lemma SymbolsHaveRoom(totalCount: nat, symbolCount: nat, maxLog: nat)
    requires symbolCount <= Pow2(Min(maxLog, MAX_ACCURACY_LOG)) && maxLog >= 2
    ensures symbolCount <= Pow2(PickAccuracyLog(totalCount, symbolCount, maxLog))
  {
    hide HighestBit, Pow2;
    var log := PickAccuracyLog(totalCount, symbolCount, maxLog);
    if log < Min(maxLog, MAX_ACCURACY_LOG) {
      if symbolCount > 2 {
        var h := HighestBit(symbolCount - 1);
        Pow2Mono(h + 1, log);
      } else {
        SmallPow2();
        Pow2Mono(1, log);
      }
    }
  }

  lemma HighBitAtLeast(v: nat, k: nat)
    requires v > 0
    ensures HighestBit(v) >= k <==> Pow2(k) <= v
  {
    hide HighestBit;
    if HighestBit(v) >= k {
      Pow2Mono(k, HighestBit(v));
    } else {
      Pow2Mono(HighestBit(v) + 1, k);
    }
  }

  /** Within the limit, a log above the least one is reached exactly when the total has more than four
      counts for each of its cells, or a quarter of its cells are fewer than the symbols. */
  lemma LogExactly(totalCount: nat, symbolCount: nat, maxLog: nat, log: nat)
    requires 5 < log <= Min(maxLog, MAX_ACCURACY_LOG)
    ensures log <= PickAccuracyLog(totalCount, symbolCount, maxLog)
       <==> Pow2(log + 2) < totalCount || Pow2(log - 2) < symbolCount
  {
    hide HighestBit, Pow2;
    if totalCount > 1 {
      HighBitAtLeast(totalCount - 1, log + 2);
    } else {
      PositiveWord(log + 2);
    }
    if symbolCount > 2 {
      HighBitAtLeast(symbolCount - 1, log - 2);
    } else {
      SmallPow2();
      Pow2Mono(1, log - 2);
    }
  }

  lemma PositiveWord(n: nat)
    ensures Pow2(n) >= 1
  {
  }

  // ---------------------------------------------------------------- room for the symbols is not enough

  /** Five symbols 49 times, eleven symbols once: 256 in all. */
  const CROWDED: seq<nat> := [49, 49, 49, 49, 49, 1, 1, 1, 1, 1, 1, 1, 1, 1, 1, 1]

  lemma CrowdedParts()
    ensures CROWDED == seq(5, _ => 49) + seq(11, _ => 1)
  {
  }

  lemma OneMore(front: seq<nat>, v: nat, share: nat -> nat)
    requires v > 0
    ensures Sum(front + [v]) == Sum(front) + v && UsedCount(front + [v]) == UsedCount(front) + 1
    ensures EffectiveSum(Shares(front + [v], share)) == EffectiveSum(Shares(front, share)) + CellsOf(Assigned(share(v)))
  {
    hide Sum, UsedCount, EffectiveSum;
    var all, n := front + [v], |front|;
    SumStep(all, n);
    SharesStep(all, share, n);
    assert all[..n] == front && all[..n + 1] == all;
    assert Shares(all, share)[..n] == Shares(front, share) && Shares(all, share)[..n + 1] == Shares(all, share);
  }

  lemma {:induction false} SumsOfSame(front: seq<nat>, n: nat, v: nat, share: nat -> nat)
    requires v > 0
    ensures Sum(front + seq(n, _ => v)) == Sum(front) + n * v
    ensures UsedCount(front + seq(n, _ => v)) == UsedCount(front) + n
    ensures EffectiveSum(Shares(front + seq(n, _ => v), share))
          == EffectiveSum(Shares(front, share)) + n * CellsOf(Assigned(share(v)))
    decreases n
  {
    hide *;
    if n == 0 {
      assert front + seq(0, _ => v) == front;
    } else {
      SumsOfSame(front, n - 1, v, share);
      OneMore(front + seq(n - 1, _ => v), v, share);
      assert front + seq(n, _ => v) == front + seq(n - 1, _ => v) + [v];
      TimesOneMore(n, v);
      TimesOneMore(n, CellsOf(Assigned(share(v))));
    }
  }

  lemma TimesOneMore(n: nat, v: nat)
    requires n > 0
    ensures n * v == (n - 1) * v + v
  {
  }

  lemma CrowdedSums(share: nat -> nat)
    ensures Sum(CROWDED) == 256 && UsedCount(CROWDED) == 16
    ensures share(49) == 6 && share(1) == 0 ==> EffectiveSum(Shares(CROWDED, share)) == 41
  {
    hide Sum, UsedCount, EffectiveSum, Shares, Assigned, CellsOf;
    CrowdedParts();
    SumsOfSame([], 5, 49, share);
    SumsOfSame(seq(5, _ => 49), 11, 1, share);
    assert [] + seq(5, _ => 49) == seq(5, _ => 49);
    NothingAtAll(share);
    CellsOfShares();
  }

  lemma NothingAtAll(share: nat -> nat)
    ensures Sum([]) == 0 && UsedCount([]) == 0 && EffectiveSum(Shares([], share)) == 0
  {
  }

  lemma CellsOfShares()
    ensures CellsOf(Assigned(6)) == 6 && CellsOf(Assigned(0)) == 1
  {
  }

  /** Sixteen codes seen 256 times get a table of 32 cells, and neither way of sharing them out leaves
      the most frequent code a cell: `normalize_counts` fails although there is room for every code. */
  lemma RoomIsNotEnough(maxLog: nat)
    requires maxLog >= 5
    ensures Sum(CROWDED) == 256 && UsedCount(CROWDED) == |CROWDED| == 16
    ensures PickAccuracyLog(256, 16, maxLog) == 5 && Pow2(5) == 32
    ensures !CanNormalize(CROWDED, 5)
  {
    hide Sum, UsedCount, EffectiveSum, Shares, ScaledShares, ExactShares, HighestBit;
    CrowdedSums(ScaledShares(256, 5));
    CrowdedSums(ExactShares(256, 5));
    CrowdedShares();
    assert Pow2(5) == 32;
    assert Pow2(7) == 128 && Pow2(3) == 8;
    HighestBitUnique(255, 7);
    HighestBitUnique(15, 3);
    assert FirstLargest(CROWDED, 0);
    Crowded(ScaledShares(256, 5));
    Crowded(ExactShares(256, 5));
  }

  lemma Crowded(share: nat -> nat)
    requires share(49) == 6 && EffectiveSum(Shares(CROWDED, share)) == 41
    ensures !ShareWorks(CROWDED, share, 32)
  {
    hide EffectiveSum;
    assert FirstLargest(CROWDED, 0);
    WorksExactly(CROWDED, share, 32, 0);
    assert Shares(CROWDED, share)[0] == 6;
  }

  lemma CrowdedShares()
    ensures ScaledShares(256, 5)(49) == 6 && ScaledShares(256, 5)(1) == 0
    ensures ExactShares(256, 5)(49) == 6 && ExactShares(256, 5)(1) == 0
  {
    assert Pow2(5) == 32;
    ScaledByEight(49, 6, 1);
    ScaledByEight(1, 0, 1);
  }

  /** With 256 counts and 32 cells the fixed-point share is an eighth. */
  lemma ScaledByEight(count: nat, eighth: nat, rest: nat)
    requires count == 8 * eighth + rest && rest < 8
    ensures ScaledShare(count, ShareStep(256), 57) == eighth
  {
    hide *;
    var unit := Pow2(54);
    EightBits();
    PowerProduct(54, 8);
    PowerProduct(54, 3);
    StepIs(unit, 256);
    ShlTimes(eighth, 57);
    PositiveWord(54);
    Eighths(count, eighth, rest, unit);
    SplitUnique(rest * unit, eighth, 57);
    ScaledIs(count, unit, 57);
  }

  lemma EightBits()
    ensures Pow2(8) == 256 && Pow2(3) == 8
  {
  }

  lemma ScaledIs(count: nat, step: nat, scale: nat)
    ensures ScaledShare(count, step, scale) == Shr(count * step, scale)
  {
  }

  lemma Eighths(count: nat, eighth: nat, rest: nat, unit: nat)
    requires count == 8 * eighth + rest && rest < 8 && unit >= 1
    ensures rest * unit < 8 * unit && count * unit == rest * unit + eighth * (8 * unit)
  {
    TimesMono(unit, rest + 1, 8);
    assert count * unit == 8 * eighth * unit + rest * unit;
    assert 8 * eighth * unit == eighth * (8 * unit);
  }

  lemma StepIs(unit: nat, total: nat)
    requires total > 0 && Pow2(62) == unit * total
    ensures ShareStep(total) == unit
  {
    hide Pow2;
    var q := ShareStep(total);
    TimesMono(total, q + 1, unit);
    TimesMono(total, unit + 1, q);
  }

  // ---------------------------------------------------------------- histograms

  /** How often each value below `n` occurs. */
  ghost function Histogram(values: seq<nat>, n: nat): (counts: seq<nat>)
    ensures |counts| == n
  {
    seq(n, v requires 0 <= v < n => multiset(values)[v])
  }

  lemma {:induction false} SumChange(counts: seq<nat>, k: nat, v: nat)
    requires k < |counts|
    ensures Sum(counts[k := v]) == Sum(counts) - counts[k] + v
  {
    var n := |counts| - 1;
    if k < n {
      SumChange(counts[..n], k, v);
      assert counts[k := v][..n] == counts[..n][k := v];
    } else {
      assert counts[k := v][..n] == counts[..n];
    }
  }

  lemma HistogramStep(values: seq<nat>, x: nat, n: nat)
    requires x < n
    ensures Histogram(values + [x], n) == Histogram(values, n)[x := Histogram(values, n)[x] + 1]
  {
    assert multiset(values + [x]) == multiset(values) + multiset{x};
  }

  lemma EmptyHistogram(n: nat)
    ensures Histogram([], n) == seq(n, _ => 0)
  {
    var none: seq<nat> := [];
    assert multiset(none) == multiset{};
  }

  /** `count_symbols`. */
  method CountSymbols(values: seq<nat>, n: nat) returns (counts: seq<nat>)
    requires forall i :: 0 <= i < |values| ==> values[i] < n
    ensures counts == Histogram(values, n)
  {
    hide Histogram;
    counts := seq(n, _ => 0);
    EmptyHistogram(n);
    for i := 0 to |values|
      invariant counts == Histogram(values[..i], n)
    {
      HistogramStep(values[..i], values[i], n);
      assert values[..i + 1] == values[..i] + [values[i]];
      counts := counts[values[i] := counts[values[i]] + 1];
    }
    assert values[..|values|] == values;
  }

  lemma {:induction false} HistogramSum(values: seq<nat>, n: nat)
    requires forall i :: 0 <= i < |values| ==> values[i] < n
    ensures Sum(Histogram(values, n)) == |values|
  {
    if values == [] {
      ZeroSum(Histogram(values, n));
    } else {
      var k := |values| - 1;
      HistogramSum(values[..k], n);
      HistogramStep(values[..k], values[k], n);
      assert values == values[..k] + [values[k]];
      var h := Histogram(values[..k], n);
      SumChange(h, values[k], h[values[k]] + 1);
    }
  }

  lemma {:induction false} ZeroSum(counts: seq<nat>)
    requires forall s :: 0 <= s < |counts| ==> counts[s] == 0
    ensures Sum(counts) == 0
  {
    if counts != [] {
      ZeroSum(counts[..|counts| - 1]);
    }
  }

  /** Two symbols that occur: besides any one there is another. */
  lemma {:induction false} AnotherPresent(counts: seq<nat>, s: nat)
    requires UsedCount(counts) >= 2
    ensures exists v :: 0 <= v < |counts| && v != s && counts[v] > 0
  {
    var n := |counts| - 1;
    if counts[n] > 0 && n != s {
    } else if UsedCount(counts[..n]) >= 2 {
      AnotherPresent(counts[..n], s);
      var v :| 0 <= v < n && v != s && counts[..n][v] > 0;
      assert counts[v] > 0;
    } else {
      PresentWhen(counts[..n]);
      var v :| 0 <= v < n && counts[..n][v] > 0;
      assert counts[v] > 0;
    }
  }
}
