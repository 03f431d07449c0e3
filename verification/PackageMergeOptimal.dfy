/** Package-merge: the lengths it assigns fill the code space exactly, and no assignment within
    the depth limit is cheaper. */
module PackageMergeOptimal {
  import opened Bits
  import opened PackageMerge

  // ---------------------------------------------------------------- length assignments

  /** Total encoded size: count times length. */
  function Cost(w: seq<nat>, l: seq<nat>): nat
    requires |w| == |l|
  {
    if l == [] then 0 else Cost(w[..|l| - 1], l[..|l| - 1]) + w[|l| - 1] * l[|l| - 1]
  }

  /** Kraft sum times 2^depth. */
  function Kraft(l: seq<nat>, depth: nat): nat
    requires forall i :: 0 <= i < |l| ==> l[i] <= depth
  {
    if l == [] then 0 else Kraft(l[..|l| - 1], depth) + Pow2(depth - l[|l| - 1])
  }

  ghost predicate Within(l: seq<nat>, depth: nat) {
    forall i :: 0 <= i < |l| ==> l[i] <= depth
  }

  /** Symbols whose length is at least `d`, and their total weight. */
  ghost function AtLeast(l: seq<nat>, d: nat): (n: nat)
    ensures n <= |l|
  {
    if l == [] then 0 else AtLeast(l[..|l| - 1], d) + (if l[|l| - 1] >= d then 1 else 0)
  }

  ghost function WeightAtLeast(w: seq<nat>, l: seq<nat>, d: nat): nat
    requires |w| == |l|
  {
    if l == [] then 0
    else WeightAtLeast(w[..|l| - 1], l[..|l| - 1], d) + (if l[|l| - 1] >= d then w[|l| - 1] else 0)
  }

  /** Level by level: level `j` stands for code depth `depth - j` and width 2^j. */
  ghost function WidthUpTo(l: seq<nat>, depth: nat, k: nat): nat
    requires k <= depth
  {
    if k == 0 then 0 else WidthUpTo(l, depth, k - 1) + Shl(AtLeast(l, depth - (k - 1)), k - 1)
  }

  ghost function CostUpTo(w: seq<nat>, l: seq<nat>, depth: nat, k: nat): nat
    requires |w| == |l| && k <= depth
  {
    if k == 0 then 0 else CostUpTo(w, l, depth, k - 1) + WeightAtLeast(w, l, depth - (k - 1))
  }

  // ---------------------------------------------------------------- summing by symbol or by level

  ghost function WidthOfOne(x: nat, depth: nat, k: nat): nat
    requires k <= depth
  {
    if k == 0 then 0 else WidthOfOne(x, depth, k - 1) + (if x >= depth - (k - 1) then Pow2(k - 1) else 0)
  }

  lemma {:induction false} WidthOfOneIs(x: nat, depth: nat, k: nat)
    requires k <= depth && x <= depth
    ensures WidthOfOne(x, depth, k) == if k <= depth - x then 0 else Pow2(k) - Pow2(depth - x)
  {
    if k > 0 { WidthOfOneIs(x, depth, k - 1); }
  }

  lemma {:induction false} WidthSplit(l: seq<nat>, depth: nat, k: nat)
    requires k <= depth && l != []
    ensures WidthUpTo(l, depth, k)
         == WidthUpTo(l[..|l| - 1], depth, k) + WidthOfOne(l[|l| - 1], depth, k)
  {
    hide Shl;
    if k > 0 {
      WidthSplit(l, depth, k - 1);
      var d := depth - (k - 1);
      var one: nat := if l[|l| - 1] >= d then 1 else 0;
      ShlAdd(AtLeast(l[..|l| - 1], d), one, k - 1);
      ShlUnit(k - 1);
    }
  }

  lemma ShlUnit(k: nat)
    ensures Shl(1, k) == Pow2(k) && Shl(0, k) == 0
  {
    ShlPow2(0, k);
    ShlZero(k);
  }

  lemma {:induction false} WidthEmpty(depth: nat, k: nat)
    requires k <= depth
    ensures WidthUpTo([], depth, k) == 0
  {
    if k > 0 {
      WidthEmpty(depth, k - 1);
      ShlZero(k - 1);
    }
  }

  /** All levels together: every symbol accounts for 2^depth, part taken, part left to Kraft. */
  lemma {:induction false} WidthAll(l: seq<nat>, depth: nat)
    requires Within(l, depth)
    ensures WidthUpTo(l, depth, depth) + Kraft(l, depth) == Shl(|l|, depth)
  {
    hide Shl, WidthUpTo, WidthOfOne;
    if l == [] {
      WidthEmpty(depth, depth);
      ShlZero(depth);
    } else {
      var init := l[..|l| - 1];
      WidthAll(init, depth);
      WidthSplit(l, depth, depth);
      WidthOfOneIs(l[|l| - 1], depth, depth);
      ShlAdd(|init|, 1, depth);
      ShlUnit(depth);
      FullWidth(l[|l| - 1], depth);
    }
  }

  lemma FullWidth(x: nat, depth: nat)
    requires x <= depth
    ensures x == 0 ==> Pow2(depth - x) == Pow2(depth)
  {
  }

  ghost function CostOfOne(w: nat, x: nat, depth: nat, k: nat): nat
    requires k <= depth
  {
    if k == 0 then 0 else CostOfOne(w, x, depth, k - 1) + (if x >= depth - (k - 1) then w else 0)
  }

  lemma {:induction false} CostOfOneIs(w: nat, x: nat, depth: nat, k: nat)
    requires k <= depth && x <= depth
    ensures CostOfOne(w, x, depth, k) == if k <= depth - x then 0 else w * (k - (depth - x))
  {
    if k > 0 {
      CostOfOneIs(w, x, depth, k - 1);
      if k > depth - x {
        Distribute(w, k - (depth - x) - 1);
      }
    }
  }

  lemma Distribute(w: nat, n: nat)
    ensures w * (n + 1) == w * n + w
  {
  }

  lemma {:induction false} CostSplit(w: seq<nat>, l: seq<nat>, depth: nat, k: nat)
    requires |w| == |l| && k <= depth && l != []
    ensures CostUpTo(w, l, depth, k)
         == CostUpTo(w[..|l| - 1], l[..|l| - 1], depth, k) + CostOfOne(w[|l| - 1], l[|l| - 1], depth, k)
  {
    if k > 0 { CostSplit(w, l, depth, k - 1); }
  }

  lemma {:induction false} CostEmpty(depth: nat, k: nat)
    requires k <= depth
    ensures CostUpTo([], [], depth, k) == 0
  {
    if k > 0 { CostEmpty(depth, k - 1); }
  }

  lemma {:induction false} CostAll(w: seq<nat>, l: seq<nat>, depth: nat)
    requires |w| == |l| && Within(l, depth)
    ensures CostUpTo(w, l, depth, depth) == Cost(w, l)
  {
    hide CostUpTo, CostOfOne;
    if l == [] {
      assert w == [];
      CostEmpty(depth, depth);
    } else {
      CostAll(w[..|l| - 1], l[..|l| - 1], depth);
      CostSplit(w, l, depth, depth);
      CostOfOneIs(w[|l| - 1], l[|l| - 1], depth, depth);
    }
  }

  // ---------------------------------------------------------------- the lower bound

  /** Any choice of `c` symbols weighs at least the `c` lightest. */
  lemma {:induction false} LightestFirst(w: seq<nat>, l: seq<nat>, d: nat)
    requires |w| == |l| && Sorted(w)
    ensures Sum(w[..AtLeast(l, d)]) <= WeightAtLeast(w, l, d)
  {
    hide Sum;
    if l == [] {
      EmptySum(w[..0]);
    } else {
      var n := |l| - 1;
      LightestFirst(w[..n], l[..n], d);
      var c := AtLeast(l[..n], d);
      assert w[..n][..c] == w[..c];
      if l[n] >= d {
        SumStep(w, c);
      }
    }
  }

  /** Items of level `k` the assignment can be paired up into. */
  ghost function Items(l: seq<nat>, depth: nat, k: nat): nat
    requires k < depth
  {
    AtLeast(l, depth - k) + (if k == 0 then 0 else Items(l, depth, k - 1) / 2)
  }

  lemma {:induction false} ItemsWidth(l: seq<nat>, depth: nat, k: nat)
    requires k < depth
    ensures WidthUpTo(l, depth, k + 1) < Shl(Items(l, depth, k) + 1, k)
  {
    hide *;
    var c := AtLeast(l, depth - k);
    WidthStep(l, depth, k);
    ItemsStep(l, depth, k);
    if k == 0 {
      WidthZero(l, depth);
      ShlMono(c, c + 1, 0);
      PositiveUnit();
    } else {
      ItemsWidth(l, depth, k - 1);
      var m := Items(l, depth, k - 1);
      ShlMono(m + 1, 2 * (m / 2 + 1), k - 1);
      ShlDouble(m / 2 + 1, k - 1);
      ShlStep(m / 2 + 1, k);
      ShlAdd(c, m / 2 + 1, k);
    }
  }

  lemma PositiveUnit()
    ensures Pow2(0) == 1
  {
  }

  lemma ShlStep(v: nat, k: nat)
    requires k > 0
    ensures Shl(v, k) == 2 * Shl(v, k - 1)
  {
  }

  lemma WidthStep(l: seq<nat>, depth: nat, k: nat)
    requires k < depth
    ensures WidthUpTo(l, depth, k + 1) == WidthUpTo(l, depth, k) + Shl(AtLeast(l, depth - k), k)
  {
  }

  lemma ItemsStep(l: seq<nat>, depth: nat, k: nat)
    requires k < depth
    ensures Items(l, depth, k) == AtLeast(l, depth - k) + (if k == 0 then 0 else Items(l, depth, k - 1) / 2)
  {
  }

  lemma CostStep(w: seq<nat>, l: seq<nat>, depth: nat, k: nat)
    requires |w| == |l| && k < depth
    ensures CostUpTo(w, l, depth, k + 1) == CostUpTo(w, l, depth, k) + WeightAtLeast(w, l, depth - k)
    ensures CostUpTo(w, l, depth, 0) == 0
  {
  }

  /** Up to level `k`, any assignment costs at least the first items of the level. */
  lemma {:induction false} LevelBound(w: seq<nat>, levels: seq<Level>, l: seq<nat>, k: nat)
    requires AreLevels(w, levels) && Sorted(w) && |l| == |w| && k < |levels|
    requires 0 < |w| <= Pow2(|levels|)
    ensures Items(l, |levels|, k) <= |levels[k].weights|
    ensures Sum(levels[k].weights[..Items(l, |levels|, k)]) <= CostUpTo(w, l, |levels|, k + 1)
  {
    hide *;
    var depth := |levels|;
    var c := AtLeast(l, depth - k);
    ItemsStep(l, depth, k);
    CostStep(w, l, depth, k);
    LightestFirst(w, l, depth - k);
    LevelSorted(w, levels, k);
    LevelSize(w, levels, k);
    IsLevel(w, levels, k);
    var packs := Below(levels, k);
    if k == 0 {
      EmptySum(packs[..0]);
      CostStep(w, l, depth, 0);
      MergePrefixLeast(w, packs, levels[k], c, 0);
    } else {
      LevelBound(w, levels, l, k - 1);
      BelowIs(levels, k);
      var m := Items(l, depth, k - 1);
      var q := m / 2;
      PackagePrefixSum(levels[k - 1].weights, q);
      SumMonotone(levels[k - 1].weights, 2 * q, m);
      MergePrefixLeast(w, packs, levels[k], c, q);
    }
  }

  // ---------------------------------------------------------------- the algorithm's own lengths

  /** Length of symbol `i` from levels `k` upwards: one for every level that takes its leaf. */
  ghost function LengthFrom(w: seq<nat>, levels: seq<Level>, k: nat, i: nat): (n: nat)
    requires AreLevels(w, levels) && k <= |levels| && 0 < |w| <= Pow2(|levels|)
    ensures n <= |levels| - k
    decreases |levels| - k
  {
    if k == |levels| then 0
    else LengthFrom(w, levels, k + 1, i) + (if i < Leaves(w, levels, k) then 1 else 0)
  }

  ghost function Lengths(w: seq<nat>, levels: seq<Level>): (l: seq<nat>)
    requires AreLevels(w, levels) && 0 < |w| <= Pow2(|levels|)
    ensures |l| == |w| && Within(l, |levels|)
  {
    seq(|w|, i requires 0 <= i < |w| => LengthFrom(w, levels, 0, i))
  }

  ghost predicate Usable(w: seq<nat>, levels: seq<Level>) {
    && AreLevels(w, levels) && 0 < |w| <= Pow2(|levels|)
    && Sorted(w) && forall i :: 0 <= i < |w| ==> w[i] > 0
  }

  lemma UsableMeans(w: seq<nat>, levels: seq<Level>)
    requires Usable(w, levels)
    ensures AreLevels(w, levels) && 0 < |w| <= Pow2(|levels|)
    ensures Sorted(w) && forall i :: 0 <= i < |w| ==> w[i] > 0
  {
  }

  lemma {:induction false} LeavesMonotone(w: seq<nat>, levels: seq<Level>, j: nat, k: nat)
    requires Usable(w, levels) && j <= k < |levels|
    ensures Leaves(w, levels, j) <= Leaves(w, levels, k)
    decreases k
  {
    hide *;
    UsableMeans(w, levels);
    if j < k {
      LeavesMonotone(w, levels, j, k - 1);
      LeavesGrow(w, levels, k);
    }
  }

  /** The levels that take a leaf are the upper ones. */
  lemma {:induction false} LengthReaches(w: seq<nat>, levels: seq<Level>, k: nat, j: nat, i: nat)
    requires Usable(w, levels) && k <= j < |levels|
    ensures LengthFrom(w, levels, k, i) >= |levels| - j <==> i < Leaves(w, levels, j)
    decreases |levels| - k
  {
    hide Leaves, AreLevels;
    if k < j {
      LengthReaches(w, levels, k + 1, j, i);
      LeavesMonotone(w, levels, k, j);
    } else if k + 1 < |levels| {
      LengthReaches(w, levels, k + 1, k + 1, i);
      LeavesMonotone(w, levels, k, k + 1);
    }
  }

  lemma {:induction false} PrefixAtLeast(w: seq<nat>, l: seq<nat>, d: nat, a: nat)
    requires |w| == |l| && a <= |l|
    requires forall i :: 0 <= i < |l| ==> (l[i] >= d <==> i < a)
    ensures AtLeast(l, d) == a && WeightAtLeast(w, l, d) == Sum(w[..a])
  {
    hide Sum;
    if l == [] {
      EmptySum(w[..0]);
    } else {
      var n := |l| - 1;
      if a == |l| {
        PrefixAtLeast(w[..n], l[..n], d, n);
        assert w[..n][..n] == w[..n];
        SumStep(w, n);
      } else {
        PrefixAtLeast(w[..n], l[..n], d, a);
        assert w[..n][..a] == w[..a];
      }
    }
  }

  lemma LengthsAre(w: seq<nat>, levels: seq<Level>)
    requires Usable(w, levels)
    ensures forall i :: 0 <= i < |w| ==> Lengths(w, levels)[i] == LengthFrom(w, levels, 0, i)
  {
  }

  lemma TakenPerLevel(w: seq<nat>, levels: seq<Level>, k: nat)
    requires Usable(w, levels) && k < |levels|
    ensures var l := Lengths(w, levels);
            && AtLeast(l, |levels| - k) == Leaves(w, levels, k)
            && WeightAtLeast(w, l, |levels| - k) == Sum(w[..Leaves(w, levels, k)])
  {
    hide *;
    UsableMeans(w, levels);
    LengthsAre(w, levels);
    var l, d, a := Lengths(w, levels), |levels| - k, Leaves(w, levels, k);
    forall i | 0 <= i < |l|
      ensures l[i] >= d <==> i < a
    {
      LengthReaches(w, levels, 0, k, i);
    }
    PrefixAtLeast(w, l, d, a);
  }

  lemma {:induction false} OwnWidth(w: seq<nat>, levels: seq<Level>, k: nat)
    requires Usable(w, levels) && k < |levels|
    ensures WidthUpTo(Lengths(w, levels), |levels|, k + 1) == Shl(Take(w, levels, k), k)
  {
    hide *;
    UsableMeans(w, levels);
    var l := Lengths(w, levels);
    var a := Leaves(w, levels, k);
    WidthStep(l, |levels|, k);
    TakenPerLevel(w, levels, k);
    if k == 0 {
      WidthZero(l, |levels|);
      AllLeavesAtBottom(w, levels);
    } else {
      OwnWidth(w, levels, k - 1);
      TakeUnpacks(w, levels, k);
      var p := Take(w, levels, k) - a;
      ShlDouble(p, k - 1);
      ShlStep(p, k);
      ShlAdd(a, p, k);
    }
  }

  lemma WidthZero(l: seq<nat>, depth: nat)
    ensures WidthUpTo(l, depth, 0) == 0
  {
  }

  lemma TakeUnpacks(w: seq<nat>, levels: seq<Level>, k: nat)
    requires Usable(w, levels) && 0 < k < |levels|
    ensures Leaves(w, levels, k) <= Take(w, levels, k)
    ensures Take(w, levels, k - 1) == 2 * (Take(w, levels, k) - Leaves(w, levels, k))
  {
    TakeBelow(w, levels, k);
  }

  lemma AllLeavesAtBottom(w: seq<nat>, levels: seq<Level>)
    requires Usable(w, levels) && 0 < |levels|
    ensures Take(w, levels, 0) == Leaves(w, levels, 0)
  {
    hide LeafCount, Take, IsMerge;
    TakeFits(w, levels, 0);
    IsLevel(w, levels, 0);
    MergeCounts(w, Below(levels, 0), levels[0], Take(w, levels, 0));
    LeavesAre(w, levels, 0);
  }

  lemma BelowIs(levels: seq<Level>, k: nat)
    requires 0 < k <= |levels|
    ensures Below(levels, k) == Packages(levels[k - 1].weights)
  {
  }

  lemma {:induction false} OwnCost(w: seq<nat>, levels: seq<Level>, k: nat)
    requires Usable(w, levels) && k < |levels|
    ensures Take(w, levels, k) <= |levels[k].weights|
    ensures CostUpTo(w, Lengths(w, levels), |levels|, k + 1) == Sum(levels[k].weights[..Take(w, levels, k)])
  {
    hide *;
    UsableMeans(w, levels);
    var l := Lengths(w, levels);
    CostStep(w, l, |levels|, k);
    TakenPerLevel(w, levels, k);
    TakeFits(w, levels, k);
    LeavesAre(w, levels, k);
    IsLevel(w, levels, k);
    var t, a := Take(w, levels, k), Leaves(w, levels, k);
    MergePrefixSum(w, Below(levels, k), levels[k], t);
    if k == 0 {
      AllLeavesAtBottom(w, levels);
      CostStep(w, l, |levels|, 0);
      EmptySum(Below(levels, k)[..0]);
    } else {
      OwnCost(w, levels, k - 1);
      TakeUnpacks(w, levels, k);
      BelowIs(levels, k);
      PackagePrefixSum(levels[k - 1].weights, t - a);
    }
  }

  // ---------------------------------------------------------------- the theorems

  /** The lengths fill the code space exactly: their Kraft sum is 1. */
  lemma KraftExact(w: seq<nat>, levels: seq<Level>)
    requires Usable(w, levels) && 0 < |levels|
    ensures Kraft(Lengths(w, levels), |levels|) == Pow2(|levels|)
  {
    hide *;
    UsableMeans(w, levels);
    var n, depth := |w|, |levels|;
    OwnWidth(w, levels, depth - 1);
    LastTake(w, levels);
    WidthAll(Lengths(w, levels), depth);
    ShlDouble(n - 1, depth - 1);
    ShlStep(n - 1, depth);
    ShlAdd(n - 1, 1, depth);
    ShlUnit(depth);
  }

  lemma LastTake(w: seq<nat>, levels: seq<Level>)
    requires 0 < |w| && 0 < |levels|
    ensures Take(w, levels, |levels| - 1) == 2 * (|w| - 1)
  {
  }

  /** Every used symbol gets a code of 1 to depth bits. */
  lemma LengthsInRange(w: seq<nat>, levels: seq<Level>)
    requires Usable(w, levels) && 0 < |levels| && |w| >= 2
    ensures forall i :: 0 <= i < |w| ==> 1 <= Lengths(w, levels)[i] <= |levels|
  {
    hide Lengths, Kraft, AreLevels, LengthFrom;
    KraftExact(w, levels);
    var l := Lengths(w, levels);
    forall i | 0 <= i < |w|
      ensures 1 <= l[i] <= |levels|
    {
      KraftShare(l, |levels|, i);
      FullWidth(l[i], |levels|);
    }
  }

  lemma {:induction false} KraftShare(l: seq<nat>, depth: nat, i: nat)
    requires Within(l, depth) && i < |l|
    ensures Kraft(l, depth) >= Pow2(depth - l[i]) + |l| - 1
  {
    var n := |l| - 1;
    if i < n {
      KraftShare(l[..n], depth, i);
    } else {
      KraftAtLeast(l[..n], depth);
    }
  }

  lemma {:induction false} KraftAtLeast(l: seq<nat>, depth: nat)
    requires Within(l, depth)
    ensures Kraft(l, depth) >= |l|
  {
    if l != [] { KraftAtLeast(l[..|l| - 1], depth); }
  }

  /** An assignment that fits the code space pairs up into at least 2(n - 1) items at the top. */
  lemma EnoughItems(l: seq<nat>, depth: nat)
    requires Within(l, depth) && 0 < depth && 0 < |l| && Kraft(l, depth) <= Pow2(depth)
    ensures Items(l, depth, depth - 1) >= 2 * (|l| - 1)
  {
    hide *;
    var n, last := |l|, depth - 1;
    var m := Items(l, depth, last);
    ItemsWidth(l, depth, last);
    WidthAll(l, depth);
    ShlDouble(n - 1, last);
    ShlStep(n - 1, depth);
    ShlAdd(n - 1, 1, depth);
    ShlUnit(depth);
    ShlMono(m + 1, 2 * (n - 1), last);
  }

  /** No assignment of lengths up to the depth limit that fits the code space costs less. */
  lemma Optimal(w: seq<nat>, levels: seq<Level>, l: seq<nat>)
    requires Usable(w, levels) && 0 < |levels|
    requires |l| == |w| && Within(l, |levels|) && Kraft(l, |levels|) <= Pow2(|levels|)
    ensures Cost(w, Lengths(w, levels)) <= Cost(w, l)
  {
    hide *;
    UsableMeans(w, levels);
    var depth := |levels|;
    var last := depth - 1;
    OwnCost(w, levels, last);
    LastTake(w, levels);
    CostAll(w, Lengths(w, levels), depth);
    CostAll(w, l, depth);
    LevelBound(w, levels, l, last);
    EnoughItems(l, depth);
    SumMonotone(levels[last].weights, 2 * (|w| - 1), Items(l, depth, last));
  }
}
