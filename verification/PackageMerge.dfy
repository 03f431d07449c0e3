/** Package-merge: the theory of the level lists.

    Leaves are symbol counts in ascending order. Level 0 holds the leaves; every next level
    merges the leaves with the pairs ("packages") of the level below. A code-length assignment
    is a choice of leaves on every level, level `k` of `depth` standing for code depth
    `depth - k`. */
module PackageMerge {
  import opened Bits

  const NO_LEAF := 65535

  // ---------------------------------------------------------------- sums

  function Sum(s: seq<nat>): nat {
    if s == [] then 0 else Sum(s[..|s| - 1]) + s[|s| - 1]
  }

  ghost predicate Sorted(s: seq<nat>) {
    forall i, j :: 0 <= i <= j < |s| ==> s[i] <= s[j]
  }

  lemma SumStep(s: seq<nat>, k: nat)
    requires k < |s|
    ensures Sum(s[..k + 1]) == Sum(s[..k]) + s[k]
  {
    assert s[..k + 1][..k] == s[..k];
  }

  lemma {:induction false} SumMonotone(s: seq<nat>, a: nat, b: nat)
    requires a <= b <= |s|
    ensures Sum(s[..a]) <= Sum(s[..b])
    decreases b
  {
    if a < b {
      SumMonotone(s, a, b - 1);
      SumStep(s, b - 1);
    }
  }

  /** Trading `count` elements up to `m` of one list for `count` elements from `m` up of another. */
  lemma {:induction false} SumExchange(s: seq<nat>, x: nat, t: seq<nat>, y: nat, count: nat, m: nat)
    requires x + count <= |s| && y + count <= |t|
    requires forall i :: x <= i < x + count ==> s[i] <= m
    requires forall i :: y <= i < y + count ==> m <= t[i]
    ensures Sum(s[..x + count]) - Sum(s[..x]) <= Sum(t[..y + count]) - Sum(t[..y])
    decreases count
  {
    hide Sum;
    if count > 0 {
      SumExchange(s, x, t, y, count - 1, m);
      SumStep(s, x + count - 1);
      SumStep(t, y + count - 1);
    }
  }

  // ---------------------------------------------------------------- packages and merged levels

  /** Sums of neighbours; an odd last item is left out. */
  function Packages(weights: seq<nat>): (p: seq<nat>)
    ensures |p| == |weights| / 2
  {
    seq(|weights| / 2, i requires 0 <= i < |weights| / 2 => weights[2 * i] + weights[2 * i + 1])
  }

  lemma {:induction false} PackagePrefixSum(weights: seq<nat>, p: nat)
    requires p <= |weights| / 2
    ensures Sum(Packages(weights)[..p]) == Sum(weights[..2 * p])
  {
    hide Sum;
    if p == 0 {
      EmptySum(Packages(weights)[..0]);
      EmptySum(weights[..0]);
    } else {
      PackagePrefixSum(weights, p - 1);
      SumStep(Packages(weights), p - 1);
      SumStep(weights, 2 * p - 2);
      SumStep(weights, 2 * p - 1);
    }
  }

  lemma EmptySum(s: seq<nat>)
    requires |s| == 0
    ensures Sum(s) == 0
  {
  }

  lemma PackagesSorted(weights: seq<nat>)
    requires Sorted(weights)
    ensures Sorted(Packages(weights))
  {
  }

  datatype Level = Level(weights: seq<nat>, markers: seq<int>)

  function LeafCount(markers: seq<int>): (n: nat)
    ensures n <= |markers|
  {
    if markers == [] then 0
    else LeafCount(markers[..|markers| - 1]) + (if markers[|markers| - 1] == NO_LEAF then 0 else 1)
  }

  lemma LeafCountStep(markers: seq<int>, k: nat)
    requires k < |markers|
    ensures LeafCount(markers[..k + 1]) == LeafCount(markers[..k]) + (if markers[k] == NO_LEAF then 0 else 1)
  {
    assert markers[..k + 1][..k] == markers[..k];
  }

  lemma {:induction false} LeafCountMonotone(markers: seq<int>, a: nat, b: nat)
    requires a <= b <= |markers|
    ensures LeafCount(markers[..a]) <= LeafCount(markers[..b]) <= LeafCount(markers[..a]) + b - a
    decreases b
  {
    if a < b {
      LeafCountMonotone(markers, a, b - 1);
      LeafCountStep(markers, b - 1);
    }
  }

  /** Item `j` of a merge is the next leaf or the next package; a leaf goes first on a tie. */
  ghost predicate ItemOk(leaves: seq<nat>, packs: seq<nat>, level: Level, j: nat)
    requires |level.markers| == |level.weights| && j < |level.weights|
  {
    var a := LeafCount(level.markers[..j]);
    var b := j - a;
    if level.markers[j] == NO_LEAF then
      b < |packs| && level.weights[j] == packs[b] && (a < |leaves| ==> packs[b] < leaves[a])
    else
      && a < |leaves| && level.markers[j] == a && level.weights[j] == leaves[a]
      && (b < |packs| ==> leaves[a] <= packs[b])
  }

  ghost predicate IsMerge(leaves: seq<nat>, packs: seq<nat>, level: Level) {
    && |leaves| < NO_LEAF
    && |level.weights| == |level.markers| == |leaves| + |packs|
    && LeafCount(level.markers) == |leaves|
    && forall j :: 0 <= j < |level.weights| ==> ItemOk(leaves, packs, level, j)
  }

  /** Counts of leaves and packages among the first `j` items stay within their lists. */
  lemma MergeCounts(leaves: seq<nat>, packs: seq<nat>, level: Level, j: nat)
    requires IsMerge(leaves, packs, level) && j <= |level.weights|
    ensures LeafCount(level.markers[..j]) <= |leaves|
    ensures j - LeafCount(level.markers[..j]) <= |packs|
  {
    assert level.markers[..|level.markers|] == level.markers;
    LeafCountMonotone(level.markers, j, |level.markers|);
  }

  lemma {:induction false} MergePrefixSum(leaves: seq<nat>, packs: seq<nat>, level: Level, j: nat)
    requires IsMerge(leaves, packs, level) && j <= |level.weights|
    ensures var a := LeafCount(level.markers[..j]);
            && a <= |leaves| && j - a <= |packs|
            && Sum(level.weights[..j]) == Sum(leaves[..a]) + Sum(packs[..j - a])
    decreases j
  {
    hide Sum, IsMerge, LeafCount;
    MergeCounts(leaves, packs, level, j);
    if j == 0 {
      NoLeaves(level.markers[..0]);
      EmptySum(level.weights[..0]);
      EmptySum(leaves[..0]);
      EmptySum(packs[..0]);
    } else {
      MergePrefixSum(leaves, packs, level, j - 1);
      MergeItem(leaves, packs, level, j - 1);
      var a := LeafCount(level.markers[..j - 1]);
      LeafCountStep(level.markers, j - 1);
      SumStep(level.weights, j - 1);
      if level.markers[j - 1] == NO_LEAF {
        SumStep(packs, j - 1 - a);
        assert j - 1 - a + 1 == j - a;
      } else {
        SumStep(leaves, a);
      }
    }
  }

  lemma NoLeaves(markers: seq<int>)
    requires |markers| == 0
    ensures LeafCount(markers) == 0
  {
  }

  lemma MergeItem(leaves: seq<nat>, packs: seq<nat>, level: Level, j: nat)
    requires IsMerge(leaves, packs, level) && j < |level.weights|
    ensures |level.markers| == |level.weights| == |leaves| + |packs| && ItemOk(leaves, packs, level, j)
  {
  }

  /** The item that took leaf (or package) number `k`, when it is among the first `j`. */
  lemma {:induction false} FindLeaf(markers: seq<int>, j: nat, k: nat) returns (at: nat)
    requires j <= |markers| && k < LeafCount(markers[..j])
    ensures at < j && markers[at] != NO_LEAF && LeafCount(markers[..at]) == k
    decreases j
  {
    LeafCountStep(markers, j - 1);
    if markers[j - 1] != NO_LEAF && LeafCount(markers[..j - 1]) == k {
      at := j - 1;
    } else {
      at := FindLeaf(markers, j - 1, k);
    }
  }

  lemma {:induction false} FindPackage(markers: seq<int>, j: nat, k: nat) returns (at: nat)
    requires j <= |markers| && k < j - LeafCount(markers[..j])
    ensures at < j && markers[at] == NO_LEAF && at - LeafCount(markers[..at]) == k
    decreases j
  {
    LeafCountStep(markers, j - 1);
    if markers[j - 1] == NO_LEAF && j - 1 - LeafCount(markers[..j - 1]) == k {
      at := j - 1;
    } else {
      at := FindPackage(markers, j - 1, k);
    }
  }

  /** The first `x + y` items of a merge weigh no more than any `x` leaves and `y` packages. */
  lemma MergePrefixLeast(leaves: seq<nat>, packs: seq<nat>, level: Level, x: nat, y: nat)
    requires IsMerge(leaves, packs, level) && Sorted(leaves) && Sorted(packs)
    requires x <= |leaves| && y <= |packs|
    ensures Sum(level.weights[..x + y]) <= Sum(leaves[..x]) + Sum(packs[..y])
  {
    hide Sum, IsMerge, LeafCount;
    MergeSize(leaves, packs, level);
    MergePrefixSum(leaves, packs, level, x + y);
    var a := LeafCount(level.markers[..x + y]);
    var b := x + y - a;
    if a > x {
      TooManyLeaves(leaves, packs, level, x, y, a);
    } else if a < x {
      TooManyPackages(leaves, packs, level, x, y, a);
    }
  }

  lemma TooManyLeaves(leaves: seq<nat>, packs: seq<nat>, level: Level, x: nat, y: nat, a: nat)
    requires IsMerge(leaves, packs, level) && Sorted(leaves) && Sorted(packs) && x <= |leaves| && y <= |packs|
    requires |level.markers| == |level.weights| == |leaves| + |packs|
    requires x < a == LeafCount(level.markers[..x + y]) <= x + y
    requires a <= |leaves|
    ensures Sum(leaves[..a]) + Sum(packs[..x + y - a]) <= Sum(leaves[..x]) + Sum(packs[..y])
  {
    hide Sum, IsMerge, LeafCount;
    var b := x + y - a;
    var at := FindLeaf(level.markers, x + y, a - 1);
    MergeItem(leaves, packs, level, at);
    LeafCountMonotone(level.markers, at, x + y);
    assert leaves[a - 1] <= packs[at - (a - 1)] <= packs[b];
    SumExchange(leaves, x, packs, b, a - x, leaves[a - 1]);
  }

  lemma TooManyPackages(leaves: seq<nat>, packs: seq<nat>, level: Level, x: nat, y: nat, a: nat)
    requires IsMerge(leaves, packs, level) && Sorted(leaves) && Sorted(packs) && x <= |leaves| && y <= |packs|
    requires |level.markers| == |level.weights| == |leaves| + |packs| && LeafCount(level.markers[..x + y]) == a < x
    requires x + y - a <= |packs|
    ensures Sum(leaves[..a]) + Sum(packs[..x + y - a]) <= Sum(leaves[..x]) + Sum(packs[..y])
  {
    hide Sum, IsMerge, LeafCount;
    var b := x + y - a;
    var at := FindPackage(level.markers, x + y, b - 1);
    MergeItem(leaves, packs, level, at);
    LeafCountMonotone(level.markers, at, x + y);
    var c := LeafCount(level.markers[..at]);
    assert packs[b - 1] <= leaves[c] <= leaves[a];
    SumExchange(packs, y, leaves, a, x - a, packs[b - 1]);
  }

  lemma MergeSize(leaves: seq<nat>, packs: seq<nat>, level: Level)
    requires IsMerge(leaves, packs, level)
    ensures |level.markers| == |level.weights| == |leaves| + |packs|
  {
  }

  lemma MergeSorted(leaves: seq<nat>, packs: seq<nat>, level: Level)
    requires IsMerge(leaves, packs, level) && Sorted(leaves) && Sorted(packs)
    ensures Sorted(level.weights)
  {
    hide LeafCount;
    forall j | 0 <= j < |level.weights| - 1
      ensures level.weights[j] <= level.weights[j + 1]
    {
      assert ItemOk(leaves, packs, level, j) && ItemOk(leaves, packs, level, j + 1);
      LeafCountStep(level.markers, j);
    }
    AdjacentSorted(level.weights);
  }

  lemma AdjacentSorted(s: seq<nat>)
    requires forall j :: 0 <= j < |s| - 1 ==> s[j] <= s[j + 1]
    ensures Sorted(s)
  {
    forall i, j | 0 <= i <= j < |s|
      ensures s[i] <= s[j]
    {
      SortedBetween(s, i, j);
    }
  }

  lemma {:induction false} SortedBetween(s: seq<nat>, i: nat, j: nat)
    requires i <= j < |s| && forall j :: 0 <= j < |s| - 1 ==> s[j] <= s[j + 1]
    ensures s[i] <= s[j]
    decreases j
  {
    if i < j { SortedBetween(s, i, j - 1); }
  }

  // ---------------------------------------------------------------- all levels

  ghost function Below(levels: seq<Level>, k: nat): seq<nat>
    requires k <= |levels|
  {
    if k == 0 then [] else Packages(levels[k - 1].weights)
  }

  ghost predicate AreLevels(leaves: seq<nat>, levels: seq<Level>) {
    forall k :: 0 <= k < |levels| ==> IsMerge(leaves, Below(levels, k), levels[k])
  }

  lemma {:induction false} LevelSorted(leaves: seq<nat>, levels: seq<Level>, k: nat)
    requires AreLevels(leaves, levels) && Sorted(leaves) && k < |levels|
    ensures Sorted(levels[k].weights) && Sorted(Below(levels, k))
  {
    hide IsMerge, Sorted, Packages;
    if k > 0 {
      LevelSorted(leaves, levels, k - 1);
      PackagesSorted(levels[k - 1].weights);
    } else {
      NothingSorted();
    }
    MergeSorted(leaves, Below(levels, k), levels[k]);
  }

  lemma NothingSorted()
    ensures Sorted([])
  {
  }

  lemma DoublePow2(n: nat)
    ensures Pow2(n + 1) == 2 * Pow2(n)
  {
  }

  /** Level `k` lacks at most 2^(depth - k) of twice the leaves. */
  lemma {:induction false} LevelSize(leaves: seq<nat>, levels: seq<Level>, k: nat)
    requires AreLevels(leaves, levels) && k < |levels| && 0 < |leaves| <= Pow2(|levels|)
    ensures 2 * |leaves| - Pow2(|levels| - k) <= |levels[k].weights| < 2 * |leaves|
    ensures |levels[k].markers| == |levels[k].weights| == |leaves| + |Below(levels, k)|
  {
    hide IsMerge, Packages, Pow2, AreLevels;
    IsLevel(leaves, levels, k);
    MergeSize(leaves, Below(levels, k), levels[k]);
    if k > 0 {
      LevelSize(leaves, levels, k - 1);
      DoublePow2(|levels| - k);
    }
  }

  // ---------------------------------------------------------------- the selection

  /** Items taken on level `k`: 2(n - 1) on the last, then two per package of the level above. */
  ghost function Take(leaves: seq<nat>, levels: seq<Level>, k: nat): nat
    requires k < |levels| && 0 < |leaves|
    decreases |levels| - k
  {
    if k == |levels| - 1 then 2 * (|leaves| - 1)
    else
      var above := Take(leaves, levels, k + 1);
      if above <= |levels[k + 1].markers|
      then 2 * (above - LeafCount(levels[k + 1].markers[..above]))
      else 0
  }

  lemma {:induction false} TakeFits(leaves: seq<nat>, levels: seq<Level>, k: nat)
    requires AreLevels(leaves, levels) && k < |levels| && 0 < |leaves| <= Pow2(|levels|)
    ensures Take(leaves, levels, k) <= |levels[k].weights| == |levels[k].markers|
    decreases |levels| - k
  {
    hide IsMerge, LeafCount;
    LevelSize(leaves, levels, k);
    if k == |levels| - 1 {
      assert Pow2(1) == 2;
    } else {
      TakeFits(leaves, levels, k + 1);
      MergeCounts(leaves, Below(levels, k + 1), levels[k + 1], Take(leaves, levels, k + 1));
    }
  }

  /** Leaves taken on level `k`: symbols 0 up to this number. */
  ghost function Leaves(leaves: seq<nat>, levels: seq<Level>, k: nat): (a: nat)
    requires AreLevels(leaves, levels) && k < |levels| && 0 < |leaves| <= Pow2(|levels|)
    ensures a <= |leaves| && a <= Take(leaves, levels, k)
  {
    TakeFits(leaves, levels, k);
    MergeCounts(leaves, Below(levels, k), levels[k], Take(leaves, levels, k));
    LeafCount(levels[k].markers[..Take(leaves, levels, k)])
  }

  lemma TakeBelow(leaves: seq<nat>, levels: seq<Level>, k: nat)
    requires AreLevels(leaves, levels) && 0 < k < |levels| && 0 < |leaves| <= Pow2(|levels|)
    ensures Take(leaves, levels, k - 1) == 2 * (Take(leaves, levels, k) - Leaves(leaves, levels, k))
  {
    TakeFits(leaves, levels, k);
  }

  /** A leaf taken on a level is taken on the level above: it was merged before any package
      that contains it. */
  lemma LeavesGrow(leaves: seq<nat>, levels: seq<Level>, k: nat)
    requires AreLevels(leaves, levels) && 0 < k < |levels| && 0 < |leaves| <= Pow2(|levels|)
    requires Sorted(leaves) && forall i :: 0 <= i < |leaves| ==> leaves[i] > 0
    ensures Leaves(leaves, levels, k - 1) <= Leaves(leaves, levels, k)
  {
    hide IsMerge, LeafCount, Take, Leaves, AreLevels, Below, Packages, Sorted;
    TakeFits(leaves, levels, k);
    TakeFits(leaves, levels, k - 1);
    TakeBelow(leaves, levels, k);
    LeavesAre(leaves, levels, k);
    LeavesAre(leaves, levels, k - 1);
    if Leaves(leaves, levels, k - 1) > Leaves(leaves, levels, k) {
      LeafAboveItsPackage(leaves, levels, k, Take(leaves, levels, k));
    }
  }

  /** Among the first `t` items of level `k`, no package starts with items of level `k - 1` that
      hold a leaf the first `t` items do not. */
  lemma LeafAboveItsPackage(leaves: seq<nat>, levels: seq<Level>, k: nat, t: nat)
    requires AreLevels(leaves, levels) && 0 < k < |levels| && 0 < |leaves| <= Pow2(|levels|)
    requires Sorted(leaves) && forall i :: 0 <= i < |leaves| ==> leaves[i] > 0
    requires t <= |levels[k].markers| == |levels[k].weights|
    requires |levels[k - 1].markers| == |levels[k - 1].weights|
    ensures var a := LeafCount(levels[k].markers[..t]);
            && 2 * (t - a) <= |levels[k - 1].markers|
            && LeafCount(levels[k - 1].markers[..2 * (t - a)]) <= a
  {
    hide IsMerge, LeafCount, AreLevels, Packages, Sorted;
    var low, high := levels[k - 1], levels[k];
    var a := LeafCount(high.markers[..t]);
    IsLevel(leaves, levels, k);
    IsLevel(leaves, levels, k - 1);
    MergeCounts(leaves, Below(levels, k), high, t);
    if LeafCount(low.markers[..2 * (t - a)]) > a {
      var at := FindLeaf(low.markers, 2 * (t - a), a);
      MergeItem(leaves, Below(levels, k - 1), low, at);
      PackageContains(leaves, levels, k, at, a);
      var upper := FindPackage(high.markers, t, at / 2);
      PackageBeforeLeaf(leaves, Below(levels, k), high, upper, t);
    }
  }

  /** A package merged among the first `t` items is lighter than the first leaf still waiting. */
  lemma PackageBeforeLeaf(leaves: seq<nat>, packs: seq<nat>, level: Level, at: nat, t: nat)
    requires IsMerge(leaves, packs, level) && Sorted(leaves) && at < t <= |level.weights|
    requires level.markers[at] == NO_LEAF
    ensures LeafCount(level.markers[..at]) <= at
    ensures var a, p := LeafCount(level.markers[..t]), at - LeafCount(level.markers[..at]);
            p < |packs| && (a < |leaves| ==> packs[p] < leaves[a])
  {
    hide LeafCount;
    LeafCountMonotone(level.markers, at, t);
    assert ItemOk(leaves, packs, level, at);
  }

  lemma IsLevel(leaves: seq<nat>, levels: seq<Level>, k: nat)
    requires AreLevels(leaves, levels) && k < |levels|
    ensures IsMerge(leaves, Below(levels, k), levels[k])
  {
  }

  lemma LeavesAre(leaves: seq<nat>, levels: seq<Level>, k: nat)
    requires AreLevels(leaves, levels) && k < |levels| && 0 < |leaves| <= Pow2(|levels|)
    requires Take(leaves, levels, k) <= |levels[k].markers|
    ensures Leaves(leaves, levels, k) == LeafCount(levels[k].markers[..Take(leaves, levels, k)])
  {
  }

  /** A package holding the item of leaf `a` outweighs the leaf. */
  lemma PackageContains(leaves: seq<nat>, levels: seq<Level>, k: nat, at: nat, a: nat)
    requires AreLevels(leaves, levels) && 0 < k < |levels| && 0 < |leaves| <= Pow2(|levels|)
    requires Sorted(leaves) && forall i :: 0 <= i < |leaves| ==> leaves[i] > 0
    requires at / 2 < |levels[k - 1].weights| / 2
    requires a < |leaves| && levels[k - 1].weights[at] == leaves[a]
    ensures leaves[a] <= Below(levels, k)[at / 2]
  {
    hide AreLevels, Packages, Sorted;
    var p, low := at / 2, levels[k - 1].weights;
    assert at == 2 * p || at == 2 * p + 1;
    PackageSum(low, p);
  }

  lemma PackageSum(weights: seq<nat>, p: nat)
    requires p < |weights| / 2
    ensures Packages(weights)[p] == weights[2 * p] + weights[2 * p + 1]
  {
  }
}
