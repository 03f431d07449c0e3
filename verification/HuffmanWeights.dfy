/** From code lengths to weights, and the weights' way through a stream: the last weight is
    never sent, because the others determine it. */
module HuffmanWeights {
  import opened Bits
  import opened Permutations
  import opened SymbolSort
  import opened PackageMergeOptimal
  import opened CodeLengths
  import opened HuffmanCodes

  // ---------------------------------------------------------------- lengths to weights

  function WeightOfLength(length: nat, maxBits: nat): nat
    requires length <= maxBits
  {
    if length == 0 then 0 else maxBits + 1 - length
  }

  ghost predicate WeightsFrom(weights: seq<nat>, lengths: seq<nat>, maxBits: nat) {
    && |weights| == |lengths|
    && forall s :: 0 <= s < |lengths| ==> lengths[s] <= maxBits && weights[s] == WeightOfLength(lengths[s], maxBits)
  }

  lemma {:induction false} KraftToUnits(counts: seq<nat>, lengths: seq<nat>, weights: seq<nat>, depth: nat,
                                        maxBits: nat, k: nat)
    requires |counts| == |lengths| && WeightsFrom(weights, lengths, maxBits) && maxBits <= depth
    requires forall s :: 0 <= s < |counts| ==> (lengths[s] == 0 <==> counts[s] == 0)
    requires k <= |counts|
    ensures Shl(Units(weights[..k]), depth - maxBits)
         == SumOver(UsedSymbols(counts[..k]), KraftTerm(lengths, depth))
    decreases k
  {
    hide UsedSymbols, SumOver, Units, Shl, Pow2;
    if k == 0 {
      NoKraft(counts, lengths, depth);
      NoUnits(weights);
      ShlZero(depth - maxBits);
    } else {
      KraftToUnits(counts, lengths, weights, depth, maxBits, k - 1);
      UsedStep(counts, k - 1);
      UnitsStep(weights, k - 1);
      ShlAdd(Units(weights[..k - 1]), UnitOf(weights[k - 1]), depth - maxBits);
      var before := UsedSymbols(counts[..k - 1]);
      if counts[k - 1] > 0 {
        var u := UsedSymbol(counts[k - 1], k - 1);
        SumOverConcat(before, [u], KraftTerm(lengths, depth));
        SumOfOne(u, KraftTerm(lengths, depth));
        KraftTermIs(u, lengths, depth);
        ShlPow2(maxBits - lengths[k - 1], depth - maxBits);
      } else {
        assert before + [] == before;
        ShlZero(depth - maxBits);
      }
    }
  }

  lemma NoKraft(counts: seq<nat>, lengths: seq<nat>, depth: nat)
    ensures SumOver(UsedSymbols(counts[..0]), KraftTerm(lengths, depth)) == 0
  {
  }

  lemma KraftTermIs(u: UsedSymbol, lengths: seq<nat>, depth: nat)
    requires u.symbol < |lengths| && lengths[u.symbol] <= depth
    ensures KraftTerm(lengths, depth)(u) == Pow2(depth - lengths[u.symbol])
  {
  }

  /** What the table writer relies on: complete, the last weight present, some longest code. */
  ghost predicate SendableWeights(weights: seq<nat>, maxBits: nat) {
    && Complete(weights, maxBits) && |weights| >= 2 && weights[|weights| - 1] > 0
    && exists s :: 0 <= s < |weights| && weights[s] == 1
  }

  lemma {:induction false} UnitsOfZeros(weights: seq<nat>, k: nat)
    requires k <= |weights| && forall s :: k <= s < |weights| ==> weights[s] == 0
    ensures Units(weights) == Units(weights[..k])
    decreases |weights|
  {
    if k < |weights| {
      var n := |weights| - 1;
      UnitsOfZeros(weights[..n], k);
      assert weights[..n][..k] == weights[..k];
    } else {
      assert weights[..k] == weights;
    }
  }

  lemma WholeSpace(counts: seq<nat>, lengths: seq<nat>, weights: seq<nat>, depth: nat, maxBits: nat)
    requires |counts| == 256 && IsCompleteCode(counts, lengths, depth)
    requires maxBits <= depth && WeightsFrom(weights, lengths, maxBits)
    ensures Units(weights) == Pow2(maxBits)
  {
    hide Units, SumOver, UsedSymbols, Shl, Pow2, WeightsFrom;
    KraftToUnits(counts, lengths, weights, depth, maxBits, 256);
    SameSize(weights, lengths, maxBits);
    assert counts[..256] == counts && weights[..256] == weights;
    ShlPow2(maxBits, depth - maxBits);
    ShlMono(Units(weights), Pow2(maxBits), depth - maxBits);
    ShlMono(Pow2(maxBits), Units(weights), depth - maxBits);
    PowPositive(depth - maxBits);
  }

  lemma SameSize(weights: seq<nat>, lengths: seq<nat>, maxBits: nat)
    requires WeightsFrom(weights, lengths, maxBits)
    ensures |weights| == |lengths|
  {
  }

  /** The weights of a complete set of lengths are complete up to the largest used symbol. */
  lemma LengthsToWeights(counts: seq<nat>, lengths: seq<nat>, weights: seq<nat>, depth: nat, maxBits: nat)
    requires |counts| == 256 && IsCompleteCode(counts, lengths, depth) && depth <= MAX_BITS
    requires 1 <= maxBits <= depth && WeightsFrom(weights, lengths, maxBits)
    requires exists s :: 0 <= s < 256 && lengths[s] == maxBits
    requires UsedCount(counts) >= 2
    ensures var n := LargestSymbol(counts) + 1;
            && n <= 256 && SendableWeights(weights[..n], maxBits)
            && forall s :: n <= s < 256 ==> weights[s] == 0
  {
    hide Units, SumOver, UsedSymbols, UsedCount, Shl, Pow2, KraftOfUsed;
    var n := LargestSymbol(counts) + 1;
    UsedBounds(counts);
    LargestIsUsed(counts);
    hide LargestSymbol;
    WholeSpace(counts, lengths, weights, depth, maxBits);
    UnitsOfZeros(weights, n);
    var s :| 0 <= s < 256 && lengths[s] == maxBits;
    assert weights[..n][s] == 1;
  }

  lemma {:induction false} LargestIsUsed(counts: seq<nat>)
    requires UsedCount(counts) > 0
    ensures LargestSymbol(counts) < |counts| && counts[LargestSymbol(counts)] > 0
  {
    if counts[|counts| - 1] == 0 {
      LargestIsUsed(counts[..|counts| - 1]);
    }
  }

  /** The code lengths that weights stand for. */
  function CodeLengthsOf(weights: seq<nat>, maxBits: nat): (lengths: seq<nat>)
    ensures |lengths| == |weights|
  {
    seq(|weights|, s requires 0 <= s < |weights| =>
          if weights[s] == 0 || weights[s] > maxBits then 0 else maxBits + 1 - weights[s])
  }

  /** A complete code within the limit; none that fits the code space costs less. */
  ghost predicate Cheapest(counts: seq<nat>, lengths: seq<nat>, depth: nat) {
    && IsCompleteCode(counts, lengths, depth)
    && forall l :: IsCode(counts, l, depth) ==> Cost(counts, lengths) <= Cost(counts, l)
  }

  lemma LengthsBack(weights: seq<nat>, lengths: seq<nat>, maxBits: nat)
    requires WeightsFrom(weights, lengths, maxBits)
    ensures CodeLengthsOf(weights, maxBits) == lengths
  {
  }

  lemma CheapestWhen(counts: seq<nat>, lengths: seq<nat>, depth: nat)
    requires IsCompleteCode(counts, lengths, depth)
    requires forall l :: IsCode(counts, l, depth) ==> Cost(counts, lengths) <= Cost(counts, l)
    ensures Cheapest(counts, lengths, depth)
  {
    hide IsCompleteCode, IsCode, Cost;
  }

  /** `build_huffman_encode_table`: the table of a cheapest code. */
  method BuildHuffmanEncodeTable(counts: seq<nat>, table: HuffmanEncodeTable, depthLimit: nat) returns (ok: bool)
    requires |counts| == 256 && forall s :: 0 <= s < 256 ==> counts[s] < Pow2(32)
    requires 0 < depthLimit && UsedCount(counts) <= Pow2(Min(depthLimit, MAX_BITS))
    modifies table
    ensures ok <==> UsedCount(counts) >= 2
    ensures ok ==> |table.weights| == 256 && table.symbolCount == LargestSymbol(counts) + 1 <= 256
    ensures ok ==> table.EncodesBy(table.weights[..table.symbolCount])
                   && SendableWeights(table.weights[..table.symbolCount], table.maxBits)
    ensures ok ==> forall s :: 0 <= s < 256 ==> (table.weights[s] > 0 <==> counts[s] > 0)
    ensures ok ==> forall s :: table.symbolCount <= s < 256 ==> table.weights[s] == 0
    ensures ok ==> Cheapest(counts, CodeLengthsOf(table.weights, table.maxBits), Min(depthLimit, MAX_BITS))
    ensures !ok ==> unchanged(table)
  {
    hide UsedCount, Pow2, IsCode, Units, KraftOfUsed, Complete, Cheapest, Cost, CodeLengthsOf;
    if UsedCount(counts) < 2 {
      return false;
    }
    var depth := Min(depthLimit, MAX_BITS);
    var lengths, longest := BuildCodeLengths(counts, depth);
    table.symbolCount := LargestSymbol(counts) + 1;
    table.maxBits := longest;
    table.weights := seq(256, s requires 0 <= s < 256 reads lengths =>
                       if lengths[s] == 0 || lengths[s] > longest + 1 then 0 else longest + 1 - lengths[s]);
    table.codes := seq(256, _ => HuffmanCode(0, 0));
    assert WeightsFrom(table.weights, lengths[..], longest);
    LengthsToWeights(counts, lengths[..], table.weights, depth, longest);
    LengthsBack(table.weights, lengths[..], longest);
    CheapestWhen(counts, lengths[..], depth);
    assert forall s :: 0 <= s < 256 ==> (table.weights[s] > 0 <==> counts[s] > 0) by {
      assert forall s :: 0 <= s < 256 ==> lengths[..][s] == lengths[s];
    }
    table.AssignCodes();
    return true;
  }

  // ---------------------------------------------------------------- the last weight

  lemma {:induction false} UnitsAppend(weights: seq<nat>, w: nat)
    ensures Units(weights + [w]) == Units(weights) + UnitOf(w)
  {
    assert (weights + [w])[..|weights|] == weights;
  }

  lemma {:induction false} WeightBelowTotal(weights: seq<nat>, s: nat)
    requires s < |weights|
    ensures UnitOf(weights[s]) <= Units(weights)
  {
    if s < |weights| - 1 {
      WeightBelowTotal(weights[..|weights| - 1], s);
    }
  }

  function Ones(weights: seq<nat>): nat {
    if weights == [] then 0 else Ones(weights[..|weights| - 1]) + (if weights[|weights| - 1] == 1 then 1 else 0)
  }

  lemma {:induction false} OnesParity(weights: seq<nat>)
    ensures Units(weights) % 2 == Ones(weights) % 2
    ensures Ones(weights) > 0 <==> exists s :: 0 <= s < |weights| && weights[s] == 1
  {
    if weights != [] {
      var n := |weights| - 1;
      OnesParity(weights[..n]);
      if weights[n] >= 2 {
        assert Pow2(weights[n] - 1) == 2 * Pow2(weights[n] - 2);
      } else if weights[n] == 1 {
        assert Pow2(0) == 1;
      }
      if exists s :: 0 <= s < |weights| && weights[s] == 1 {
        var s :| 0 <= s < |weights| && weights[s] == 1;
        if s < n {
          assert weights[..n][s] == 1;
        }
      }
      if Ones(weights[..n]) > 0 {
        var s :| 0 <= s < n && weights[..n][s] == 1;
        assert weights[s] == 1;
      }
    }
  }

  /** The weight that completes a prefix. */
  ghost predicate Completes(prefix: seq<nat>, w: nat, m: nat) {
    && w > 0 && Complete(prefix + [w], m)
    && exists s :: 0 <= s < |prefix| + 1 && (prefix + [w])[s] == 1
  }

  lemma CompletingCells(prefix: seq<nat>, w: nat, m: nat)
    requires Completes(prefix, w, m)
    ensures 0 < w <= m && 1 <= m <= MAX_BITS && Units(prefix) + Pow2(w - 1) == Pow2(m)
    ensures forall s :: 0 <= s < |prefix| ==> prefix[s] <= MAX_BITS
  {
    hide Units, Pow2;
    var all := prefix + [w];
    UnitsAppend(prefix, w);
    UnitIs(w);
    assert all[|prefix|] == w;
    assert forall s :: 0 <= s < |prefix| ==> all[s] == prefix[s];
  }

  /** Its cells are at least 1 and at most half of the table. */
  lemma CompletingSum(w: nat, m: nat)
    requires 0 < w <= m
    ensures Pow2(m - 1) <= Pow2(m) - Pow2(w - 1) < Pow2(m) && HighestBit(Pow2(w - 1)) == w - 1
  {
    hide HighestBit, Pow2;
    Pow2Mono(w - 1, m - 1);
    Doubled(m);
    Doubled(w);
    PowPositive(w - 1);
    HighestBitUnique(Pow2(w - 1), w - 1);
  }

  /** The completing weight, if any, is the one computed: one bit more than the prefix's cells,
      minus those cells, must be a power of two. */
  lemma CompletesIs(prefix: seq<nat>, w: nat, m: nat)
    requires Completes(prefix, w, m)
    ensures w > 0 && 1 <= m <= MAX_BITS
    ensures var sum := Units(prefix);
            && sum > 0 && HighestBit(sum) + 1 == m
            && Pow2(m) - sum == Pow2(w - 1) && HighestBit(Pow2(w - 1)) == w - 1
            && Ones(prefix + [w]) >= 2 && Ones(prefix + [w]) % 2 == 0
            && forall s :: 0 <= s < |prefix| ==> prefix[s] <= MAX_BITS
  {
    hide Units, HighestBit, Ones, Pow2, Completes;
    CompletingCells(prefix, w, m);
    CompletingSum(w, m);
    PowPositive(m - 1);
    HighestBitUnique(Units(prefix), m - 1);
    TwoOnes(prefix, w, m);
  }

  lemma TwoOnes(prefix: seq<nat>, w: nat, m: nat)
    requires Completes(prefix, w, m)
    ensures Ones(prefix + [w]) >= 2 && Ones(prefix + [w]) % 2 == 0
  {
    hide Units, Ones, Pow2;
    OnesParity(prefix + [w]);
    Doubled(m);
  }

  lemma Doubled(m: nat)
    requires m > 0
    ensures Pow2(m) == 2 * Pow2(m - 1)
  {
  }

  lemma CompletesWhen(prefix: seq<nat>, w: nat, m: nat)
    requires prefix != [] && |prefix| < MAX_WEIGHT_COUNT && m <= MAX_BITS && w > 0
    requires forall s :: 0 <= s < |prefix| ==> prefix[s] <= MAX_BITS
    requires Units(prefix) > 0 && HighestBit(Units(prefix)) + 1 == m
    requires Pow2(m) - Units(prefix) == Pow2(w - 1)
    requires Ones(prefix + [w]) >= 2
    ensures Completes(prefix, w, m)
  {
    hide Units, HighestBit, Ones, UnitOf;
    var sum, all := Units(prefix), prefix + [w];
    UnitsAppend(prefix, w);
    UnitIs(w);
    Doubled(m);
    forall s | 0 <= s < |all|
      ensures all[s] <= m
    {
      WeightBelowTotal(all, s);
      if all[s] > m {
        UnitIs(all[s]);
        Pow2Mono(m, all[s] - 1);
        if s < |prefix| {
          WeightBelowTotal(prefix, s);
        }
      }
    }
    OnesParity(all);
  }

  /** `add_last_weight`. It accepts exactly the prefixes that some last weight completes, and
      stores that weight. */
  method AddLastWeight(weights: array<nat>, weightCount: nat) returns (ok: bool)
    requires weights.Length == MAX_WEIGHT_COUNT
    modifies weights
    ensures ok <==> 0 < weightCount < MAX_WEIGHT_COUNT
                    && exists w: nat, m: nat :: Completes(old(weights[..Min(weightCount, MAX_WEIGHT_COUNT)]), w, m)
    ensures ok ==> exists m: nat :: Completes(old(weights[..weightCount]), weights[weightCount], m)
    ensures ok ==> weights[..weightCount] == old(weights[..weightCount])
  {
    hide Units, HighestBit, Ones, Pow2, Completes, UnitOf;
    if weightCount == 0 || weightCount >= weights.Length {
      return false;
    }
    ghost var prefix := weights[..weightCount];
    assert prefix == old(weights[..Min(weightCount, MAX_WEIGHT_COUNT)]);
    AllCompletions(prefix);
    var weightedSum := 0;
    NoUnits(prefix);
    for s := 0 to weightCount
      modifies {}
      invariant weightedSum == Units(prefix[..s])
      invariant forall i :: 0 <= i < s ==> prefix[i] <= MAX_BITS
    {
      if weights[s] > MAX_BITS {
        assert prefix[s] > MAX_BITS;
        return false;
      }
      UnitsStep(prefix, s);
      if weights[s] > 0 {
        UnitIs(weights[s]);
        weightedSum := weightedSum + Pow2(weights[s] - 1);
      } else {
        NoUnit();
      }
    }
    assert prefix[..weightCount] == prefix;
    if weightedSum == 0 {
      return false;
    }
    var maxBits := HighestBit(weightedSum) + 1;
    if maxBits > MAX_BITS {
      return false;
    }
    var remainder := Pow2(maxBits) - weightedSum;
    var remainderHighestBit := HighestBit(remainder);
    forall w: nat, m: nat | Completes(prefix, w, m)
      ensures Pow2(w - 1) == remainder && w - 1 == remainderHighestBit
    {
      assert m == maxBits && Pow2(w - 1) == remainder;
    }
    if remainder != Pow2(remainderHighestBit) {
      return false;
    }
    var last := remainderHighestBit + 1;
    weights[weightCount] := last;
    assert weights[..weightCount + 1] == prefix + [last];
    var longestCodeCount := CountOnes(weights, weightCount + 1);
    if longestCodeCount < 2 || longestCodeCount % 2 != 0 {
      return false;
    }
    CompletesWhen(prefix, last, maxBits);
    assert weights[..weightCount] == prefix;
    return true;
  }

  lemma AllCompletions(prefix: seq<nat>)
    ensures forall w: nat, m: nat :: Completes(prefix, w, m) ==>
              && w > 0 && 1 <= m <= MAX_BITS
              && Units(prefix) > 0 && HighestBit(Units(prefix)) + 1 == m
              && Pow2(m) - Units(prefix) == Pow2(w - 1)
              && HighestBit(Pow2(w - 1)) == w - 1
              && Ones(prefix + [w]) >= 2 && Ones(prefix + [w]) % 2 == 0
              && forall s :: 0 <= s < |prefix| ==> prefix[s] <= MAX_BITS
  {
    hide Units, HighestBit, Ones, UnitOf;
    forall w: nat, m: nat | Completes(prefix, w, m)
      ensures && w > 0 && 1 <= m <= MAX_BITS
              && Units(prefix) > 0 && HighestBit(Units(prefix)) + 1 == m
              && Pow2(m) - Units(prefix) == Pow2(w - 1)
              && HighestBit(Pow2(w - 1)) == w - 1
              && Ones(prefix + [w]) >= 2 && Ones(prefix + [w]) % 2 == 0
              && forall s :: 0 <= s < |prefix| ==> prefix[s] <= MAX_BITS
    {
      CompletesIs(prefix, w, m);
    }
  }

  method CountOnes(weights: array<nat>, n: nat) returns (count: nat)
    requires n <= weights.Length
    ensures count == Ones(weights[..n])
  {
    count := 0;
    for s := 0 to n
      invariant count == Ones(weights[..s])
    {
      assert weights[..s + 1][..s] == weights[..s];
      if weights[s] == 1 {
        count := count + 1;
      }
    }
  }

  /** Leaving out the last of a sendable set of weights loses nothing. */
  lemma LastWeightRecovered(weights: seq<nat>, maxBits: nat)
    requires SendableWeights(weights, maxBits)
    ensures Completes(weights[..|weights| - 1], weights[|weights| - 1], maxBits)
    ensures var prefix := weights[..|weights| - 1];
            forall w: nat, m: nat :: Completes(prefix, w, m) ==> w == weights[|weights| - 1] && m == maxBits
  {
    hide Units, HighestBit, Ones, UnitOf;
    var n := |weights| - 1;
    var prefix, last := weights[..n], weights[n];
    assert prefix + [last] == weights;
    assert Completes(prefix, last, maxBits);
    hide Completes, SendableWeights, Complete;
    CompletesIs(prefix, last, maxBits);
    forall w: nat, m: nat | Completes(prefix, w, m)
      ensures w == last && m == maxBits
    {
      CompletesIs(prefix, w, m);
    }
  }
}
