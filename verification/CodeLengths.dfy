/** `build_code_lengths`: package-merge over a symbol histogram, and the depth it is given. */
module CodeLengths {
  import opened Bits
  import opened Permutations
  import opened SymbolSort
  import opened PackageMerge
  import opened PackageMergeOptimal

  const MAX_HUFFMAN_BITS := 11
  const MIN_HUFFMAN_BITS := 5

  // ---------------------------------------------------------------- the depth limit

  function UsedCount(counts: seq<nat>): (used: nat)
    ensures used <= |counts|
  {
    if counts == [] then 0
    else UsedCount(counts[..|counts| - 1]) + (if counts[|counts| - 1] > 0 then 1 else 0)
  }

  /** `find_largest_symbol`, 0 when no symbol is used. */
  function LargestSymbol(counts: seq<nat>): (s: nat)
    ensures s == 0 || s < |counts|
    ensures forall i :: s < i < |counts| ==> counts[i] == 0
  {
    if counts == [] then 0
    else if counts[|counts| - 1] > 0 then |counts| - 1
    else LargestSymbol(counts[..|counts| - 1])
  }

  function GetCheapDepth(counts: seq<nat>, total: nat): nat {
    if total <= 1 then MAX_HUFFMAN_BITS
    else
      var largestSymbol := Max(LargestSymbol(counts), 1);
      var depthNeeded := Min(HighestBit(total) + 1, HighestBit(largestSymbol) + 2);
      var depthWorth := Max(HighestBit(total - 1) - 1, 0);
      Min(Max(Max(Min(depthWorth, MAX_HUFFMAN_BITS), depthNeeded), MIN_HUFFMAN_BITS), MAX_HUFFMAN_BITS)
  }

  lemma {:induction false} UsedBounds(counts: seq<nat>)
    ensures UsedCount(counts) <= Sum(counts)
    ensures UsedCount(counts) <= LargestSymbol(counts) + 1
    ensures UsedCount(counts) <= |counts|
  {
    if counts != [] {
      UsedBounds(counts[..|counts| - 1]);
    }
  }

  /** The depth limit leaves a code for every used symbol of any histogram. */
  lemma CheapDepthSuffices(counts: seq<nat>, total: nat)
    requires |counts| == 256 && total == Sum(counts)
    ensures MIN_HUFFMAN_BITS <= GetCheapDepth(counts, total) <= MAX_HUFFMAN_BITS
    ensures UsedCount(counts) <= Pow2(GetCheapDepth(counts, total))
  {
    hide UsedCount, Sum, LargestSymbol;
    UsedBounds(counts);
    var depth := GetCheapDepth(counts, total);
    DepthPowers();
    hide Pow2, HighestBit;
    if depth < MAX_HUFFMAN_BITS {
      var largestSymbol := Max(LargestSymbol(counts), 1);
      if HighestBit(total) + 1 <= depth {
        Pow2Mono(HighestBit(total) + 1, depth);
      } else {
        Pow2Mono(HighestBit(largestSymbol) + 2, depth);
        Pow2Mono(HighestBit(largestSymbol) + 1, HighestBit(largestSymbol) + 2);
      }
    }
  }

  /** The depth picked is the least from 5 to 11 with no more than four literals to a cell of its table,
      and room for as many codes as there are literals, or twice as many as there are symbols up to the
      largest. */
  lemma CheapDepthExactly(counts: seq<nat>, total: nat, depth: nat)
    requires total > 1 && MIN_HUFFMAN_BITS <= depth < MAX_HUFFMAN_BITS
    ensures GetCheapDepth(counts, total) <= depth
       <==> && total <= Pow2(depth + 2)
            && (total < Pow2(depth) || Max(LargestSymbol(counts), 1) < Pow2(depth - 1))
  {
    hide HighestBit, Pow2, LargestSymbol;
    HighBitBelow(total - 1, depth + 2);
    HighBitBelow(total, depth);
    HighBitBelow(Max(LargestSymbol(counts), 1), depth - 1);
  }

  lemma HighBitBelow(v: nat, n: nat)
    requires v > 0
    ensures HighestBit(v) < n <==> v < Pow2(n)
  {
    hide HighestBit;
    if HighestBit(v) < n {
      Pow2Mono(HighestBit(v) + 1, n);
    } else {
      Pow2Mono(n, HighestBit(v));
    }
  }

  lemma DepthPowers()
    ensures Pow2(11) == 2048
  {
  }

  // ---------------------------------------------------------------- the used symbols

  function UsedSymbols(counts: seq<nat>): (used: seq<UsedSymbol>)
    ensures |used| == UsedCount(counts)
    ensures forall i :: 0 <= i < |used| ==>
              used[i].symbol < |counts| && used[i].count == counts[used[i].symbol] > 0
  {
    if counts == [] then []
    else
      var n := |counts| - 1;
      UsedSymbols(counts[..n]) + (if counts[n] > 0 then [UsedSymbol(counts[n], n)] else [])
  }

  ghost predicate OwnSymbols(s: seq<UsedSymbol>) {
    forall i, j :: 0 <= i < j < |s| ==> s[i].symbol != s[j].symbol
  }

  lemma {:induction false} UsedSymbolsOwn(counts: seq<nat>)
    ensures OwnSymbols(UsedSymbols(counts))
    ensures forall s :: 0 <= s < |counts| && counts[s] > 0 ==> UsedSymbol(counts[s], s) in UsedSymbols(counts)
  {
    if counts != [] { UsedSymbolsOwn(counts[..|counts| - 1]); }
  }

  lemma OwnSymbolsMoved(s: seq<UsedSymbol>, counts: seq<nat>)
    requires multiset(s) == multiset(UsedSymbols(counts))
    ensures |s| == UsedCount(counts) && OwnSymbols(s)
    ensures forall i :: 0 <= i < |s| ==> s[i].symbol < |counts| && s[i].count == counts[s[i].symbol] > 0
  {
    hide UsedSymbols;
    var u := UsedSymbols(counts);
    UsedSymbolsOwn(counts);
    assert |multiset(s)| == |multiset(u)|;
    forall i | 0 <= i < |s|
      ensures s[i].symbol < |counts| && s[i].count == counts[s[i].symbol] > 0
    {
      var q := MultisetElement(s, u, i);
    }
    forall i, j | 0 <= i < j < |s|
      ensures s[i].symbol != s[j].symbol
    {
      if s[i].symbol == s[j].symbol {
        assert s[i] == s[j];
        Twice(s, i, j);
        AtMostOnce(u, s[i]);
      }
    }
  }

  lemma Twice(s: seq<UsedSymbol>, i: nat, j: nat)
    requires i < j < |s| && s[i] == s[j]
    ensures multiset(s)[s[i]] >= 2
  {
    assert s == s[..i] + [s[i]] + s[i + 1..j] + [s[j]] + s[j + 1..];
  }

  lemma {:induction false} AtMostOnce(u: seq<UsedSymbol>, x: UsedSymbol)
    requires OwnSymbols(u)
    ensures multiset(u)[x] <= 1
  {
    if u != [] {
      var n := |u| - 1;
      AtMostOnce(u[..n], x);
      assert u == u[..n] + [u[n]];
      assert u[n] !in u[..n];
    }
  }

  // ---------------------------------------------------------------- cost and Kraft sum of a histogram

  function CostTerm(l: seq<nat>): UsedSymbol -> nat {
    (u: UsedSymbol) => if u.symbol < |l| then u.count * l[u.symbol] else 0
  }

  function KraftTerm(l: seq<nat>, depth: nat): UsedSymbol -> nat {
    (u: UsedSymbol) => if u.symbol < |l| && l[u.symbol] <= depth then Pow2(depth - l[u.symbol]) else 0
  }

  /** Kraft sum of the used symbols' lengths, times 2^depth. */
  function KraftOfUsed(counts: seq<nat>, l: seq<nat>, depth: nat): nat {
    SumOver(UsedSymbols(counts), KraftTerm(l, depth))
  }

  lemma UsedStep(counts: seq<nat>, k: nat)
    requires k < |counts|
    ensures UsedSymbols(counts[..k + 1])
         == UsedSymbols(counts[..k]) + (if counts[k] > 0 then [UsedSymbol(counts[k], k)] else [])
    ensures UsedCount(counts[..k + 1]) == UsedCount(counts[..k]) + (if counts[k] > 0 then 1 else 0)
    ensures UsedCount(counts[..0]) == 0
  {
    assert counts[..k + 1][..k] == counts[..k];
  }

  lemma CostPrefix(w: seq<nat>, l: seq<nat>, k: nat)
    requires |w| == |l| && k < |l|
    ensures Cost(w[..k + 1], l[..k + 1]) == Cost(w[..k], l[..k]) + w[k] * l[k]
  {
    assert w[..k + 1][..k] == w[..k] && l[..k + 1][..k] == l[..k];
  }

  lemma CostNothing(counts: seq<nat>, l: seq<nat>)
    requires |counts| == |l|
    ensures SumOver(UsedSymbols(counts[..0]), CostTerm(l)) == Cost(counts[..0], l[..0])
  {
  }

  lemma {:induction false} CostOverHistogram(counts: seq<nat>, l: seq<nat>, k: nat)
    requires |counts| == |l| && k <= |l|
    ensures SumOver(UsedSymbols(counts[..k]), CostTerm(l)) == Cost(counts[..k], l[..k])
    decreases k
  {
    hide UsedSymbols, SumOver, Cost, UsedCount, CostTerm;
    if k == 0 {
      CostNothing(counts, l);
    } else {
      CostOverHistogram(counts, l, k - 1);
      UsedStep(counts, k - 1);
      CostPrefix(counts, l, k - 1);
      if counts[k - 1] > 0 {
        SumOverConcat(UsedSymbols(counts[..k - 1]), [UsedSymbol(counts[k - 1], k - 1)], CostTerm(l));
        SumOfOne(UsedSymbol(counts[k - 1], k - 1), CostTerm(l));
        CostTermIs(counts[k - 1], k - 1, l);
      } else {
        assert UsedSymbols(counts[..k - 1]) + [] == UsedSymbols(counts[..k - 1]);
      }
    }
  }

  lemma CostTermIs(count: nat, symbol: nat, l: seq<nat>)
    requires symbol < |l|
    ensures CostTerm(l)(UsedSymbol(count, symbol)) == count * l[symbol]
  {
  }

  lemma SumOfOne(u: UsedSymbol, f: UsedSymbol -> nat)
    ensures SumOver([u], f) == f(u)
  {
    assert [u][..0] == [];
  }

  function CountsOf(s: seq<UsedSymbol>): (w: seq<nat>)
    ensures |w| == |s|
  {
    seq(|s|, i requires 0 <= i < |s| => s[i].count)
  }

  function LengthsOf(s: seq<UsedSymbol>, l: seq<nat>): (ls: seq<nat>)
    requires forall i :: 0 <= i < |s| ==> s[i].symbol < |l|
    ensures |ls| == |s|
  {
    seq(|s|, i requires 0 <= i < |s| => l[s[i].symbol])
  }

  lemma {:induction false} SumsOverList(s: seq<UsedSymbol>, l: seq<nat>, depth: nat)
    requires forall i :: 0 <= i < |s| ==> s[i].symbol < |l|
    ensures SumOver(s, CostTerm(l)) == Cost(CountsOf(s), LengthsOf(s, l))
    ensures Within(LengthsOf(s, l), depth) ==> SumOver(s, KraftTerm(l, depth)) == Kraft(LengthsOf(s, l), depth)
  {
    if s != [] {
      var n := |s| - 1;
      SumsOverList(s[..n], l, depth);
      assert CountsOf(s)[..n] == CountsOf(s[..n]);
      assert LengthsOf(s, l)[..n] == LengthsOf(s[..n], l);
    }
  }

  // ---------------------------------------------------------------- one level

  lemma ItemKept(leaves: seq<nat>, packs: seq<nat>, level: Level, weight: nat, marker: int, j: nat)
    requires |level.weights| == |level.markers| && j < |level.weights|
    requires ItemOk(leaves, packs, level, j)
    ensures ItemOk(leaves, packs, Level(level.weights + [weight], level.markers + [marker]), j)
  {
    assert (level.markers + [marker])[..j] == level.markers[..j];
  }

  lemma ItemAdded(leaves: seq<nat>, packs: seq<nat>, level: Level, weight: nat, marker: int)
    requires |level.weights| == |level.markers|
    requires forall j :: 0 <= j < |level.weights| ==> ItemOk(leaves, packs, level, j)
    requires var a := LeafCount(level.markers);
             var b := |level.markers| - a;
             if marker == NO_LEAF then b < |packs| && weight == packs[b] && (a < |leaves| ==> packs[b] < leaves[a])
             else a < |leaves| && marker == a && weight == leaves[a] && (b < |packs| ==> leaves[a] <= packs[b])
    ensures var next := Level(level.weights + [weight], level.markers + [marker]);
            && (forall j :: 0 <= j < |next.weights| ==> ItemOk(leaves, packs, next, j))
            && LeafCount(next.markers) == LeafCount(level.markers) + (if marker == NO_LEAF then 0 else 1)
  {
    hide LeafCount;
    var next := Level(level.weights + [weight], level.markers + [marker]);
    var n := |level.markers|;
    forall j | 0 <= j < |next.weights|
      ensures ItemOk(leaves, packs, next, j)
    {
      if j < n {
        ItemKept(leaves, packs, level, weight, marker, j);
      } else {
        assert next.markers[..n] == level.markers;
      }
    }
    LeafCountStep(next.markers, n);
    assert next.markers[..n] == level.markers && next.markers[..n + 1] == next.markers;
  }

  /** One pass of the level loop: merge the leaves with the packages of the previous level. All
      leaves and all packages are taken, so a level of at most `2n - 1` items is followed by one. */
  method MergeLevel(used: seq<UsedSymbol>, previousWeights: seq<nat>) returns (level: Level)
    requires |used| < NO_LEAF
    ensures IsMerge(CountsOf(used), Packages(previousWeights), level)
    ensures |level.weights| == |level.markers| == |used| + |previousWeights| / 2
    ensures used != [] && |previousWeights| <= 2 * |used| - 1 ==> |level.weights| <= 2 * |used| - 1
  {
    hide LeafCount, ItemOk, Packages;
    ghost var leaves, packs := CountsOf(used), Packages(previousWeights);
    var packageCount := |previousWeights| / 2;
    var leafIndex, packageIndex := 0, 0;
    level := Level([], []);
    NoLeaves([]);
    while leafIndex < |used| || packageIndex < packageCount
      invariant leafIndex <= |used| && packageIndex <= packageCount
      invariant |level.weights| == |level.markers| == leafIndex + packageIndex
      invariant LeafCount(level.markers) == leafIndex
      invariant forall j :: 0 <= j < |level.weights| ==> ItemOk(leaves, packs, level, j)
      decreases |used| - leafIndex + packageCount - packageIndex
    {
      if packageIndex < packageCount {
        PackageSum(previousWeights, packageIndex);
      }
      var takeLeaf;
      if leafIndex >= |used| {
        takeLeaf := false;
      } else if packageIndex >= packageCount {
        takeLeaf := true;
      } else {
        takeLeaf := used[leafIndex].count
                    <= previousWeights[2 * packageIndex] + previousWeights[2 * packageIndex + 1];
      }
      if takeLeaf {
        ItemAdded(leaves, packs, level, used[leafIndex].count, leafIndex);
        level := Level(level.weights + [used[leafIndex].count], level.markers + [leafIndex]);
        leafIndex := leafIndex + 1;
      } else {
        var weight := previousWeights[2 * packageIndex] + previousWeights[2 * packageIndex + 1];
        ItemAdded(leaves, packs, level, weight, NO_LEAF);
        level := Level(level.weights + [weight], level.markers + [NO_LEAF]);
        packageIndex := packageIndex + 1;
      }
    }
  }

  /** The level loop. With 256 symbols no level has more items than the level arrays of 511 hold. */
  method BuildLevels(used: seq<UsedSymbol>, depth: nat) returns (levels: seq<Level>)
    requires 0 < |used| < NO_LEAF
    ensures |levels| == depth && AreLevels(CountsOf(used), levels)
    ensures forall k :: 0 <= k < depth ==> |levels[k].weights| == |levels[k].markers| <= 2 * |used| - 1
  {
    hide IsMerge, Packages;
    levels := [];
    var previousWeights := [];
    NoPackages();
    for levelIndex := 0 to depth
      invariant |levels| == levelIndex && AreLevels(CountsOf(used), levels)
      invariant Packages(previousWeights) == Below(levels, levelIndex) && |previousWeights| <= 2 * |used| - 1
      invariant forall k :: 0 <= k < levelIndex ==> |levels[k].weights| == |levels[k].markers| <= 2 * |used| - 1
    {
      var level := MergeLevel(used, previousWeights);
      LevelsExtended(CountsOf(used), levels, level);
      levels := levels + [level];
      previousWeights := level.weights;
    }
  }

  lemma NoPackages()
    ensures Packages([]) == []
  {
  }

  lemma LevelsExtended(leaves: seq<nat>, levels: seq<Level>, level: Level)
    requires AreLevels(leaves, levels) && IsMerge(leaves, Below(levels, |levels|), level)
    ensures AreLevels(leaves, levels + [level])
    ensures Below(levels + [level], |levels| + 1) == Packages(level.weights)
  {
    hide IsMerge, Packages, Below;
    var next := levels + [level];
    BelowIs(next, |next|);
    forall k | 0 <= k < |next|
      ensures IsMerge(leaves, Below(next, k), next[k])
    {
      SameBelow(levels, level, k);
      if k < |levels| {
        IsLevel(leaves, levels, k);
      }
    }
  }

  lemma SameBelow(levels: seq<Level>, level: Level, k: nat)
    requires k <= |levels|
    ensures Below(levels + [level], k) == Below(levels, k)
  {
  }

  // ---------------------------------------------------------------- the selection

  ghost predicate LengthsSoFar(used: seq<UsedSymbol>, levels: seq<Level>, k: nat, extra: nat, lengths: seq<nat>)
    requires AreLevels(CountsOf(used), levels) && 0 < |used| <= Pow2(|levels|) && k <= |levels|
  {
    && |lengths| == 256
    && (forall i :: 0 <= i < |used| ==> used[i].symbol < 256)
    && (forall i :: 0 <= i < |used| ==>
          lengths[used[i].symbol] == LengthFrom(CountsOf(used), levels, k, i) + (if i < extra then 1 else 0))
    && (forall s :: 0 <= s < 256 && (forall i :: 0 <= i < |used| ==> used[i].symbol != s) ==> lengths[s] == 0)
  }

  /** The items taken on one level: every leaf among them lengthens its symbol's code. */
  method SelectLevel(used: seq<UsedSymbol>, ghost levels: seq<Level>, level: Level, ghost k: nat, take: nat,
                     lengths: array<nat>) returns (packageCount: nat)
    requires |used| < NO_LEAF && AreLevels(CountsOf(used), levels) && 0 < |used| <= Pow2(|levels|)
    requires k < |levels| && levels[k] == level && take == Take(CountsOf(used), levels, k)
    requires OwnSymbols(used) && lengths.Length == 256
    requires LengthsSoFar(used, levels, k + 1, 0, lengths[..])
    modifies lengths
    ensures LengthsSoFar(used, levels, k, 0, lengths[..])
    ensures packageCount == take - Leaves(CountsOf(used), levels, k)
  {
    hide *;
    ghost var leaves := CountsOf(used);
    TakeFits(leaves, levels, k);
    IsLevel(leaves, levels, k);
    LeavesAre(leaves, levels, k);
    packageCount := 0;
    NoLeaves(level.markers[..0]);
    for index := 0 to take
      invariant packageCount == index - LeafCount(level.markers[..index])
      invariant LengthsSoFar(used, levels, k + 1, LeafCount(level.markers[..index]), lengths[..])
    {
      MergeItem(leaves, Below(levels, k), level, index);
      LeafCountStep(level.markers, index);
      var marker := level.markers[index];
      if marker == NO_LEAF {
        packageCount := packageCount + 1;
      } else {
        LeafInRange(leaves, Below(levels, k), level, index);
        AddLength(used, levels, k, marker, lengths);
      }
    }
    LevelDone(used, levels, k, lengths[..]);
  }

  lemma LeafInRange(leaves: seq<nat>, packs: seq<nat>, level: Level, j: nat)
    requires |level.markers| == |level.weights| && j < |level.weights| && ItemOk(leaves, packs, level, j)
    requires level.markers[j] != NO_LEAF
    ensures level.markers[j] == LeafCount(level.markers[..j]) < |leaves|
  {
  }

  method AddLength(used: seq<UsedSymbol>, ghost levels: seq<Level>, ghost k: nat, leaf: nat, lengths: array<nat>)
    requires AreLevels(CountsOf(used), levels) && 0 < |used| <= Pow2(|levels|) && k < |levels|
    requires OwnSymbols(used) && lengths.Length == 256 && leaf < |used|
    requires LengthsSoFar(used, levels, k + 1, leaf, lengths[..])
    modifies lengths
    ensures LengthsSoFar(used, levels, k + 1, leaf + 1, lengths[..])
  {
    hide AreLevels, CountsOf, LengthFrom;
    ghost var before := lengths[..];
    var symbol := used[leaf].symbol;
    lengths[symbol] := lengths[symbol] + 1;
    assert lengths[..] == before[symbol := before[symbol] + 1];
  }

  lemma LevelDone(used: seq<UsedSymbol>, levels: seq<Level>, k: nat, lengths: seq<nat>)
    requires AreLevels(CountsOf(used), levels) && 0 < |used| <= Pow2(|levels|) && k < |levels|
    requires LengthsSoFar(used, levels, k + 1, Leaves(CountsOf(used), levels, k), lengths)
    ensures LengthsSoFar(used, levels, k, 0, lengths)
  {
    hide AreLevels, CountsOf, Leaves;
  }

  lemma StartLengths(used: seq<UsedSymbol>, levels: seq<Level>, lengths: seq<nat>)
    requires AreLevels(CountsOf(used), levels) && 0 < |used| <= Pow2(|levels|)
    requires |lengths| == 256 && forall s :: 0 <= s < 256 ==> lengths[s] == 0
    requires forall i :: 0 <= i < |used| ==> used[i].symbol < 256
    ensures LengthsSoFar(used, levels, |levels|, 0, lengths)
  {
  }

  /** The backward loop over the levels. The source's `min` with the level size never cuts. */
  method SelectLengths(used: seq<UsedSymbol>, levels: seq<Level>) returns (lengths: array<nat>)
    requires |used| < NO_LEAF && AreLevels(CountsOf(used), levels) && 0 < |used| <= Pow2(|levels|)
    requires OwnSymbols(used) && 0 < |levels| && forall i :: 0 <= i < |used| ==> used[i].symbol < 256
    ensures fresh(lengths) && lengths.Length == 256 && LengthsSoFar(used, levels, 0, 0, lengths[..])
  {
    hide AreLevels, CountsOf, Take, Leaves, LengthsSoFar;
    lengths := new nat[256](i => 0);
    StartLengths(used, levels, lengths[..]);
    var prefixSize := 2 * (|used| - 1);
    LastTakeOf(CountsOf(used), levels);
    for levelIndex := |levels| downto 0
      invariant LengthsSoFar(used, levels, levelIndex, 0, lengths[..])
      invariant levelIndex > 0 ==> prefixSize == Take(CountsOf(used), levels, levelIndex - 1)
    {
      TakeFits(CountsOf(used), levels, levelIndex);
      var size := |levels[levelIndex].markers|;
      var take := Min(prefixSize, size);
      var packageCount := SelectLevel(used, levels, levels[levelIndex], levelIndex, take, lengths);
      prefixSize := 2 * packageCount;
      if levelIndex > 0 {
        TakeBelow(CountsOf(used), levels, levelIndex);
      }
    }
  }

  lemma LastTakeOf(leaves: seq<nat>, levels: seq<Level>)
    requires 0 < |leaves| && 0 < |levels|
    ensures Take(leaves, levels, |levels| - 1) == 2 * (|leaves| - 1)
  {
  }

  // ---------------------------------------------------------------- the whole function

  /** Lengths of a complete code: used symbols only, 1 to `depth` bits, Kraft sum exactly 1. */
  ghost predicate IsCompleteCode(counts: seq<nat>, lengths: seq<nat>, depth: nat) {
    && |lengths| == |counts|
    && (forall s :: 0 <= s < |counts| ==> (lengths[s] == 0 <==> counts[s] == 0))
    && (forall s :: 0 <= s < |counts| ==> lengths[s] <= depth)
    && KraftOfUsed(counts, lengths, depth) == Pow2(depth)
  }

  /** Any lengths within the limit that fit the code space. */
  ghost predicate IsCode(counts: seq<nat>, l: seq<nat>, depth: nat) {
    && |l| == |counts|
    && (forall s :: 0 <= s < |counts| && counts[s] > 0 ==> l[s] <= depth)
    && KraftOfUsed(counts, l, depth) <= Pow2(depth)
  }

  lemma CompleteCode(counts: seq<nat>, used: seq<UsedSymbol>, levels: seq<Level>, lengths: seq<nat>)
    requires |counts| == 256 && multiset(used) == multiset(UsedSymbols(counts))
    requires Usable(CountsOf(used), levels) && |used| >= 2 && 0 < |levels|
    requires LengthsSoFar(used, levels, 0, 0, lengths)
    ensures IsCompleteCode(counts, lengths, |levels|)
  {
    hide Usable, UsedSymbols, SumOver, LengthFrom, Kraft, CountsOf, Lengths, Cost;
    UsableMeans(CountsOf(used), levels);
    OwnSymbolsMoved(used, counts);
    var w, depth := CountsOf(used), |levels|;
    KraftExact(w, levels);
    LengthsInRange(w, levels);
    LengthsAre(w, levels);
    assert LengthsOf(used, lengths) == Lengths(w, levels);
    SumsOverList(used, lengths, depth);
    SumOverRearranged(used, UsedSymbols(counts), KraftTerm(lengths, depth));
    UsedSymbolsOwn(counts);
    forall s | 0 <= s < 256
      ensures lengths[s] <= depth && (lengths[s] == 0 <==> counts[s] == 0)
    {
      if counts[s] > 0 {
        var i := FindUsed(counts, used, s);
        assert LengthsOf(used, lengths)[i] == lengths[s];
      }
    }
  }

  lemma FindUsed(counts: seq<nat>, used: seq<UsedSymbol>, s: nat) returns (i: nat)
    requires multiset(used) == multiset(UsedSymbols(counts)) && s < |counts| && counts[s] > 0
    ensures i < |used| && used[i] == UsedSymbol(counts[s], s)
  {
    UsedSymbolsOwn(counts);
    var u := UsedSymbol(counts[s], s);
    assert u in multiset(UsedSymbols(counts));
    assert u in used;
    i :| 0 <= i < |used| && used[i] == u;
  }

  lemma CheapestCode(counts: seq<nat>, used: seq<UsedSymbol>, levels: seq<Level>, lengths: seq<nat>, l: seq<nat>)
    requires |counts| == 256 && multiset(used) == multiset(UsedSymbols(counts))
    requires Usable(CountsOf(used), levels) && |used| >= 2 && 0 < |levels|
    requires LengthsSoFar(used, levels, 0, 0, lengths)
    requires IsCode(counts, l, |levels|)
    ensures |lengths| == 256 && Cost(counts, lengths) <= Cost(counts, l)
  {
    hide Usable, UsedSymbols, SumOver, LengthFrom, Kraft, CountsOf, Lengths, Cost;
    UsableMeans(CountsOf(used), levels);
    OwnSymbolsMoved(used, counts);
    var w, depth := CountsOf(used), |levels|;
    LengthsAre(w, levels);
    assert LengthsOf(used, lengths) == Lengths(w, levels);
    SumsOverList(used, lengths, depth);
    SumsOverList(used, l, depth);
    SumOverRearranged(used, UsedSymbols(counts), CostTerm(lengths));
    SumOverRearranged(used, UsedSymbols(counts), CostTerm(l));
    SumOverRearranged(used, UsedSymbols(counts), KraftTerm(l, depth));
    CostOverHistogram(counts, lengths, 256);
    CostOverHistogram(counts, l, 256);
    assert counts[..256] == counts && lengths[..256] == lengths && l[..256] == l;
    Optimal(w, levels, LengthsOf(used, l));
  }

  method CollectUsedSymbols(counts: seq<nat>) returns (usedSymbols: array<UsedSymbol>, usedSymbolCount: nat)
    requires |counts| == 256
    ensures fresh(usedSymbols) && usedSymbols.Length == 256 && usedSymbolCount == UsedCount(counts) <= 256
    ensures usedSymbols[..usedSymbolCount] == UsedSymbols(counts)
  {
    hide UsedSymbols, UsedCount;
    usedSymbols := new UsedSymbol[256](i => UsedSymbol(0, 0));
    usedSymbolCount := 0;
    UsedStep(counts, 0);
    for symbol := 0 to 256
      invariant usedSymbolCount <= symbol && usedSymbolCount == UsedCount(counts[..symbol])
      invariant usedSymbols[..usedSymbolCount] == UsedSymbols(counts[..symbol])
    {
      UsedStep(counts, symbol);
      if counts[symbol] > 0 {
        usedSymbols[usedSymbolCount] := UsedSymbol(counts[symbol], symbol);
        usedSymbolCount := usedSymbolCount + 1;
      }
    }
    assert counts[..256] == counts;
  }

  /** Package-merge: among all codes within the depth limit, the one returned is complete and
      costs least. */
  method BuildCodeLengths(counts: seq<nat>, depthLimit: nat) returns (lengths: array<nat>, maxBits: nat)
    requires |counts| == 256 && forall s :: 0 <= s < 256 ==> counts[s] < Pow2(32)
    requires 0 < depthLimit && 2 <= UsedCount(counts) <= Pow2(depthLimit)
    ensures fresh(lengths) && lengths.Length == 256
    ensures IsCompleteCode(counts, lengths[..], depthLimit)
    ensures forall l :: IsCode(counts, l, depthLimit) ==> Cost(counts, lengths[..]) <= Cost(counts, l)
    ensures 1 <= maxBits <= depthLimit
    ensures (exists s :: 0 <= s < 256 && lengths[s] == maxBits) && forall s :: 0 <= s < 256 ==> lengths[s] <= maxBits
  {
    hide IsCompleteCode, KraftOfUsed, Cost, LengthsSoFar, Pow2, UsedCount, UsedSymbols, CountsOf, AreLevels, InOrder;
    var usedSymbols, usedSymbolCount := CollectUsedSymbols(counts);
    ghost var original := usedSymbols[..usedSymbolCount];
    forall i | 0 <= i < usedSymbolCount
      ensures usedSymbols[i].count < Pow2(32)
    {
      assert usedSymbols[i] == original[i];
    }
    SortUsedSymbolsByCount(usedSymbols, usedSymbolCount);
    var used := usedSymbols[..usedSymbolCount];
    OwnSymbolsMoved(used, counts);
    var levels := BuildLevels(used, depthLimit);
    UsableLevels(counts, used, levels);
    lengths := SelectLengths(used, levels);
    ghost var result := lengths[..];
    CompleteCode(counts, used, levels, result);
    forall l | IsCode(counts, l, depthLimit)
      ensures Cost(counts, result) <= Cost(counts, l)
    {
      CheapestCode(counts, used, levels, result, l);
    }
    maxBits := LongestLength(lengths);
    SomeLength(counts, result, depthLimit);
  }

  lemma UsableLevels(counts: seq<nat>, used: seq<UsedSymbol>, levels: seq<Level>)
    requires InOrder(used) && multiset(used) == multiset(UsedSymbols(counts))
    requires AreLevels(CountsOf(used), levels) && 0 < |used| <= Pow2(|levels|)
    ensures Usable(CountsOf(used), levels)
  {
    hide AreLevels, UsedSymbols;
    OwnSymbolsMoved(used, counts);
  }

  lemma SomeLength(counts: seq<nat>, lengths: seq<nat>, depth: nat)
    requires |counts| == 256 && UsedCount(counts) > 0 && IsCompleteCode(counts, lengths, depth)
    ensures |lengths| == 256 && exists s :: 0 <= s < 256 && lengths[s] > 0
    ensures forall s :: 0 <= s < 256 ==> lengths[s] <= depth
  {
    var u := UsedSymbols(counts)[0];
    assert lengths[u.symbol] > 0;
  }

  method LongestLength(lengths: array<nat>) returns (longest: nat)
    requires lengths.Length == 256
    ensures forall s :: 0 <= s < 256 ==> lengths[s] <= longest
    ensures exists s :: 0 <= s < 256 && lengths[s] == longest
  {
    longest := lengths[0];
    for s := 1 to 256
      invariant forall i :: 0 <= i < s ==> lengths[i] <= longest
      invariant exists i :: 0 <= i < s && lengths[i] == longest
    {
      if lengths[s] > longest {
        longest := lengths[s];
      }
    }
  }
}
