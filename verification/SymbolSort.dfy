/** Sorting the used symbols by count: a stable distribution into buckets by bit length, then an
    insertion sort of every bucket. */
module SymbolSort {
  import opened Bits
  import opened Permutations

  datatype UsedSymbol = UsedSymbol(count: nat, symbol: nat)

  predicate Before(a: UsedSymbol, b: UsedSymbol) {
    a.count < b.count || (a.count == b.count && a.symbol <= b.symbol)
  }

  ghost predicate InOrder(s: seq<UsedSymbol>) {
    forall i, j :: 0 <= i <= j < |s| ==> Before(s[i], s[j])
  }

  const SORT_RANK_COUNT := 65

  /** Bit length of the count. */
  function Rank(u: UsedSymbol): nat {
    if u.count == 0 then 0 else HighestBit(u.count) + 1
  }

  lemma RankOrders(u: UsedSymbol, v: UsedSymbol)
    requires Rank(u) < Rank(v)
    ensures Before(u, v)
  {
    hide Pow2, HighestBit;
    Pow2Mono(Rank(u), Rank(v) - 1);
  }

  lemma RankFits(u: UsedSymbol)
    requires u.count < Pow2(32)
    ensures Rank(u) < SORT_RANK_COUNT
  {
    hide Pow2, HighestBit;
    if u.count > 0 && HighestBit(u.count) >= 32 {
      Pow2Mono(32, HighestBit(u.count));
    }
  }

  // ---------------------------------------------------------------- insertion sort

  /** Everything in `lo .. hi` but the element at `hole` is in order, and that element precedes
      the ones after it. */
  ghost predicate OrderedBut(s: seq<UsedSymbol>, lo: nat, hi: nat, hole: nat)
    requires lo <= hole <= hi < |s|
  {
    && (forall i, j :: lo <= i <= j <= hi && i != hole && j != hole ==> Before(s[i], s[j]))
    && (forall j :: hole <= j <= hi ==> Before(s[hole], s[j]))
  }

  lemma SwapKeepsMultiset(s: seq<UsedSymbol>, i: nat, j: nat)
    requires i < |s| && j < |s|
    ensures multiset(s[i := s[j]][j := s[i]]) == multiset(s)
  {
  }

  /** `insertion_sort` of the bucket `lo .. hi`. */
  method InsertionSort(items: array<UsedSymbol>, lo: nat, hi: nat)
    requires lo <= hi <= items.Length
    modifies items
    ensures InOrder(items[lo..hi])
    ensures multiset(items[lo..hi]) == multiset(old(items[lo..hi]))
    ensures items[..lo] == old(items[..lo]) && items[hi..] == old(items[hi..])
  {
    hide Before;
    ghost var whole := items[..];
    assert hi > lo ==> Before(items[lo], items[lo]) by { BeforeItself(items[..]); }
    var unsortedStart := lo + 1;
    while unsortedStart < hi
      invariant lo + 1 <= unsortedStart
      invariant multiset(items[..]) == multiset(whole)
      invariant items[..lo] == whole[..lo] && items[hi..] == whole[hi..]
      invariant forall i, j :: lo <= i <= j < Min(unsortedStart, hi) ==> Before(items[i], items[j])
    {
      InsertOne(items, lo, unsortedStart, hi);
      unsortedStart := unsortedStart + 1;
    }
    RangeRearranged(whole, items[..], lo, hi);
  }

  lemma RangeRearranged(s: seq<UsedSymbol>, t: seq<UsedSymbol>, lo: nat, hi: nat)
    requires |s| == |t| && lo <= hi <= |s| && multiset(s) == multiset(t)
    requires s[..lo] == t[..lo] && s[hi..] == t[hi..]
    ensures multiset(s[lo..hi]) == multiset(t[lo..hi])
  {
    InThree(s, lo, hi);
    InThree(t, lo, hi);
    MultisetMiddle(t[..lo], t[lo..hi], s[lo..hi], t[hi..]);
  }

  lemma InThree(s: seq<UsedSymbol>, lo: nat, hi: nat)
    requires lo <= hi <= |s|
    ensures s == s[..lo] + (s[lo..hi] + s[hi..])
  {
  }

  lemma BeforeItself(s: seq<UsedSymbol>)
    ensures forall i :: 0 <= i < |s| ==> Before(s[i], s[i])
  {
  }

  lemma MultisetMiddle(a: seq<UsedSymbol>, b: seq<UsedSymbol>, c: seq<UsedSymbol>, d: seq<UsedSymbol>)
    requires multiset(a + (b + d)) == multiset(a + (c + d))
    ensures multiset(b) == multiset(c)
  {
    forall x
      ensures multiset(b)[x] == multiset(c)[x]
    {
      assert multiset(a + (b + d))[x] == multiset(a)[x] + multiset(b)[x] + multiset(d)[x];
      assert multiset(a + (c + d))[x] == multiset(a)[x] + multiset(c)[x] + multiset(d)[x];
    }
  }

  method InsertOne(items: array<UsedSymbol>, lo: nat, start: nat, hi: nat)
    requires lo < start < hi <= items.Length
    requires forall i, j :: lo <= i <= j < start ==> Before(items[i], items[j])
    modifies items
    ensures multiset(items[..]) == multiset(old(items[..]))
    ensures items[..lo] == old(items[..lo]) && items[hi..] == old(items[hi..])
    ensures forall i, j :: lo <= i <= j <= start ==> Before(items[i], items[j])
  {
    var position := start;
    while position > lo && !Before(items[position - 1], items[position])
      invariant lo <= position <= start
      invariant multiset(items[..]) == multiset(old(items[..]))
      invariant items[..lo] == old(items[..lo]) && items[hi..] == old(items[hi..])
      invariant OrderedBut(items[..], lo, start, position)
    {
      SwapDown(items, lo, start, hi, position);
      position := position - 1;
    }
    OrderCloses(items[..], lo, start, position);
    assert forall i :: 0 <= i < items.Length ==> items[..][i] == items[i];
  }

  method SwapDown(items: array<UsedSymbol>, lo: nat, start: nat, hi: nat, position: nat)
    requires lo < position <= start < hi <= items.Length
    requires OrderedBut(items[..], lo, start, position) && !Before(items[position - 1], items[position])
    modifies items
    ensures multiset(items[..]) == multiset(old(items[..]))
    ensures items[..lo] == old(items[..lo]) && items[hi..] == old(items[hi..])
    ensures OrderedBut(items[..], lo, start, position - 1)
  {
    hide OrderedBut, Before;
    ghost var before := items[..];
    SwapKeepsMultiset(before, position - 1, position);
    SwapKeepsOrder(before, lo, start, position);
    items[position - 1], items[position] := items[position], items[position - 1];
    assert items[..] == before[position - 1 := before[position]][position := before[position - 1]];
  }

  lemma SwapKeepsOrder(s: seq<UsedSymbol>, lo: nat, hi: nat, hole: nat)
    requires lo < hole <= hi < |s| && OrderedBut(s, lo, hi, hole) && !Before(s[hole - 1], s[hole])
    ensures OrderedBut(s[hole - 1 := s[hole]][hole := s[hole - 1]], lo, hi, hole - 1)
  {
  }

  lemma OrderCloses(s: seq<UsedSymbol>, lo: nat, hi: nat, hole: nat)
    requires lo <= hole <= hi < |s| && OrderedBut(s, lo, hi, hole)
    requires hole == lo || Before(s[hole - 1], s[hole])
    ensures forall i, j :: lo <= i <= j <= hi ==> Before(s[i], s[j])
  {
    forall i, j | lo <= i <= j <= hi
      ensures Before(s[i], s[j])
    {
      if j == hole && i < hole {
        assert Before(s[i], s[hole - 1]);
      }
    }
  }

  // ---------------------------------------------------------------- counting ranks

  ghost function CountEq(ranks: seq<nat>, r: nat): nat {
    if ranks == [] then 0
    else CountEq(ranks[..|ranks| - 1], r) + (if ranks[|ranks| - 1] == r then 1 else 0)
  }

  ghost function CountBelow(ranks: seq<nat>, r: nat): (n: nat)
    ensures n <= |ranks|
  {
    if ranks == [] then 0
    else CountBelow(ranks[..|ranks| - 1], r) + (if ranks[|ranks| - 1] < r then 1 else 0)
  }

  lemma CountEqStep(ranks: seq<nat>, k: nat)
    requires k < |ranks|
    ensures forall r: nat :: CountEq(ranks[..k + 1], r) == CountEq(ranks[..k], r) + (if r == ranks[k] then 1 else 0)
  {
    assert ranks[..k + 1][..k] == ranks[..k];
  }

  lemma {:induction false} CountEqMonotone(ranks: seq<nat>, a: nat, b: nat, r: nat)
    requires a <= b <= |ranks|
    ensures CountEq(ranks[..a], r) <= CountEq(ranks[..b], r)
    decreases b
  {
    hide CountEq;
    if a < b {
      CountEqMonotone(ranks, a, b - 1, r);
      CountEqStep(ranks, b - 1);
    }
  }

  lemma {:induction false} CountBelowStep(ranks: seq<nat>, r: nat)
    ensures CountBelow(ranks, r + 1) == CountBelow(ranks, r) + CountEq(ranks, r)
    ensures CountBelow(ranks, 0) == 0
  {
    if ranks != [] { CountBelowStep(ranks[..|ranks| - 1], r); }
  }

  lemma {:induction false} CountBelowMonotone(ranks: seq<nat>, r: nat, q: nat)
    requires r <= q
    ensures CountBelow(ranks, r) <= CountBelow(ranks, q)
  {
    if ranks != [] { CountBelowMonotone(ranks[..|ranks| - 1], r, q); }
  }

  lemma {:induction false} CountBelowAll(ranks: seq<nat>, r: nat)
    requires forall i :: 0 <= i < |ranks| ==> ranks[i] < r
    ensures CountBelow(ranks, r) == |ranks|
  {
    if ranks != [] { CountBelowAll(ranks[..|ranks| - 1], r); }
  }

  /** Where the stable distribution puts element `i`. */
  ghost function Place(ranks: seq<nat>, i: nat): nat
    requires i < |ranks|
  {
    CountBelow(ranks, ranks[i]) + CountEq(ranks[..i], ranks[i])
  }

  lemma PlaceInBucket(ranks: seq<nat>, i: nat)
    requires i < |ranks|
    ensures CountBelow(ranks, ranks[i]) <= Place(ranks, i) < CountBelow(ranks, ranks[i] + 1) <= |ranks|
  {
    hide CountBelow, CountEq;
    CountEqStep(ranks, i);
    CountEqMonotone(ranks, i + 1, |ranks|, ranks[i]);
    assert ranks[..|ranks|] == ranks;
    CountBelowStep(ranks, ranks[i]);
  }

  lemma PlacesDiffer(ranks: seq<nat>, i: nat, j: nat)
    requires i < j < |ranks|
    ensures Place(ranks, i) != Place(ranks, j)
  {
    hide CountBelow, CountEq;
    PlaceInBucket(ranks, i);
    PlaceInBucket(ranks, j);
    if ranks[i] < ranks[j] {
      CountBelowMonotone(ranks, ranks[i] + 1, ranks[j]);
    } else if ranks[j] < ranks[i] {
      CountBelowMonotone(ranks, ranks[j] + 1, ranks[i]);
    } else {
      CountEqStep(ranks, i);
      CountEqMonotone(ranks, i + 1, j, ranks[i]);
    }
  }

  /** The bucket of a position is the rank of the element that lands there. */
  lemma BucketHolds(ranks: seq<nat>, r: nat, p: nat) returns (i: nat)
    requires CountBelow(ranks, r) <= p < CountBelow(ranks, r + 1)
    ensures i < |ranks| && Place(ranks, i) == p && ranks[i] == r
  {
    hide CountBelow, CountEq, Place;
    var n := |ranks|;
    var places := seq(n, i requires 0 <= i < n => Place(ranks, i));
    forall i | 0 <= i < n
      ensures places[i] < n
    {
      PlaceInBucket(ranks, i);
    }
    forall i, j | 0 <= i < j < n
      ensures places[i] != places[j]
    {
      PlacesDiffer(ranks, i, j);
    }
    DistinctCoversRange(places, n);
    assert p in places;
    i :| 0 <= i < n && places[i] == p;
    PlaceInBucket(ranks, i);
    if ranks[i] < r {
      CountBelowMonotone(ranks, ranks[i] + 1, r);
    } else if ranks[i] > r {
      CountBelowMonotone(ranks, r + 1, ranks[i]);
    }
  }

  // ---------------------------------------------------------------- the distribution

  ghost function Ranks(s: seq<UsedSymbol>): (ranks: seq<nat>)
    ensures |ranks| == |s| && forall i :: 0 <= i < |s| ==> ranks[i] == Rank(s[i])
  {
    seq(|s|, i requires 0 <= i < |s| => Rank(s[i]))
  }

  lemma NoneCounted(ranks: seq<nat>)
    ensures forall r: nat :: CountEq(ranks[..0], r) == 0
  {
  }

  method BucketStarts(used: array<UsedSymbol>, n: nat) returns (bucketStart: array<nat>)
    requires n <= used.Length && forall i :: 0 <= i < n ==> used[i].count < Pow2(32)
    ensures fresh(bucketStart) && bucketStart.Length == SORT_RANK_COUNT + 1
    ensures forall r :: 0 <= r <= SORT_RANK_COUNT ==> bucketStart[r] == CountBelow(Ranks(used[..n]), r)
  {
    hide CountEq, CountBelow, Pow2, Rank, HighestBit;
    ghost var ranks := Ranks(used[..n]);
    var bucketSizes := new nat[SORT_RANK_COUNT](i => 0);
    NoneCounted(ranks);
    for index := 0 to n
      invariant forall r :: 0 <= r < SORT_RANK_COUNT ==> bucketSizes[r] == CountEq(ranks[..index], r)
    {
      assert ranks[index] == Rank(used[index]);
      RankFits(used[index]);
      CountEqStep(ranks, index);
      var rank := Rank(used[index]);
      bucketSizes[rank] := bucketSizes[rank] + 1;
    }
    assert ranks[..n] == ranks;
    bucketStart := new nat[SORT_RANK_COUNT + 1](i => 0);
    CountBelowStep(ranks, 0);
    for rank := 0 to SORT_RANK_COUNT
      invariant forall r :: 0 <= r < SORT_RANK_COUNT ==> bucketSizes[r] == CountEq(ranks, r)
      invariant forall r :: 0 <= r <= rank ==> bucketStart[r] == CountBelow(ranks, r)
    {
      CountBelowStep(ranks, rank);
      bucketStart[rank + 1] := bucketStart[rank] + bucketSizes[rank];
    }
  }

  method Distribute(used: array<UsedSymbol>, n: nat, bucketStart: array<nat>) returns (sorted: array<UsedSymbol>)
    requires n <= used.Length && forall i :: 0 <= i < n ==> used[i].count < Pow2(32)
    requires bucketStart.Length == SORT_RANK_COUNT + 1
    requires forall r :: 0 <= r <= SORT_RANK_COUNT ==> bucketStart[r] == CountBelow(Ranks(used[..n]), r)
    ensures fresh(sorted) && sorted.Length == used.Length
    ensures forall i :: 0 <= i < n ==> Place(Ranks(used[..n]), i) < n
    ensures forall i :: 0 <= i < n ==> sorted[Place(Ranks(used[..n]), i)] == used[i]
  {
    hide CountEq, CountBelow, Pow2, Rank, HighestBit, Place;
    ghost var ranks := Ranks(used[..n]);
    var cursor := new nat[SORT_RANK_COUNT + 1](
      i requires 0 <= i <= SORT_RANK_COUNT reads bucketStart => bucketStart[i]);
    sorted := new UsedSymbol[used.Length](i => UsedSymbol(0, 0));
    NoneCounted(ranks);
    for index := 0 to n
      modifies cursor, sorted
      invariant forall r :: 0 <= r < SORT_RANK_COUNT ==>
                  cursor[r] == CountBelow(ranks, r) + CountEq(ranks[..index], r)
      invariant forall i :: 0 <= i < index ==> Place(ranks, i) < n
      invariant forall i :: 0 <= i < index ==> sorted[Place(ranks, i)] == used[i]
    {
      RankFits(used[index]);
      CountEqStep(ranks, index);
      NextPlace(ranks, index);
      var rank := Rank(used[index]);
      sorted[cursor[rank]] := used[index];
      cursor[rank] := cursor[rank] + 1;
    }
  }

  lemma NextPlace(ranks: seq<nat>, i: nat)
    requires i < |ranks|
    ensures Place(ranks, i) == CountBelow(ranks, ranks[i]) + CountEq(ranks[..i], ranks[i]) < |ranks|
    ensures forall j :: 0 <= j < i ==> Place(ranks, j) != Place(ranks, i)
  {
    hide CountBelow, CountEq;
    PlaceInBucket(ranks, i);
    forall j | 0 <= j < i
      ensures Place(ranks, j) != Place(ranks, i)
    {
      PlacesDiffer(ranks, j, i);
    }
  }

  // ---------------------------------------------------------------- the whole sort

  /** Positions `start(r) ..` hold elements of rank `r`; buckets below `done` are in order. */
  ghost predicate Bucketed(s: seq<UsedSymbol>, ranks: seq<nat>, done: nat) {
    && |s| == |ranks|
    && (forall r: nat, p :: CountBelow(ranks, r) <= p < CountBelow(ranks, r + 1) ==> Rank(s[p]) == r)
    && (forall r: nat :: r < done ==>
          && CountBelow(ranks, r) <= CountBelow(ranks, r + 1)
          && InOrder(s[CountBelow(ranks, r)..CountBelow(ranks, r + 1)]))
  }

  lemma DistributionBuckets(s: seq<UsedSymbol>, original: seq<UsedSymbol>)
    requires |s| == |original|
    requires forall i :: 0 <= i < |s| ==> Place(Ranks(original), i) < |s|
    requires forall i :: 0 <= i < |s| ==> s[Place(Ranks(original), i)] == original[i]
    ensures Bucketed(s, Ranks(original), 0) && multiset(s) == multiset(original)
  {
    hide CountBelow, CountEq, Place, Rank;
    var ranks, n := Ranks(original), |s|;
    forall r: nat, p | CountBelow(ranks, r) <= p < CountBelow(ranks, r + 1)
      ensures Rank(s[p]) == r
    {
      var i := BucketHolds(ranks, r, p);
    }
    var places := seq(n, i requires 0 <= i < n => Place(ranks, i));
    forall i, j | 0 <= i < j < n
      ensures places[i] != places[j]
    {
      PlacesDiffer(ranks, i, j);
    }
    PermutedMultiset(original, s, places);
  }

  lemma {:induction false} MultisetElement(s: seq<UsedSymbol>, t: seq<UsedSymbol>, p: nat) returns (q: nat)
    requires multiset(s) == multiset(t) && p < |s|
    ensures q < |t| && t[q] == s[p]
  {
    assert s[p] in multiset(s);
    assert s[p] in t;
    q :| 0 <= q < |t| && t[q] == s[p];
  }

  /** Sorting one bucket keeps every bucket's rank and every other bucket's order. */
  lemma BucketSorted(s: seq<UsedSymbol>, t: seq<UsedSymbol>, ranks: seq<nat>, done: nat)
    requires Bucketed(s, ranks, done) && |t| == |s|
    requires var lo, hi := CountBelow(ranks, done), CountBelow(ranks, done + 1);
             && lo <= hi <= |s| && t[..lo] == s[..lo] && t[hi..] == s[hi..]
             && multiset(t[lo..hi]) == multiset(s[lo..hi]) && InOrder(t[lo..hi])
    ensures Bucketed(t, ranks, done + 1)
  {
    hide CountBelow, Rank, InOrder;
    var lo, hi := CountBelow(ranks, done), CountBelow(ranks, done + 1);
    forall r: nat, p | CountBelow(ranks, r) <= p < CountBelow(ranks, r + 1)
      ensures Rank(t[p]) == r
    {
      if p < lo {
        assert t[p] == t[..lo][p] == s[..lo][p];
      } else if p >= hi {
        assert t[p] == t[hi..][p - hi] == s[hi..][p - hi];
      } else {
        SameBucket(ranks, r, done, p);
        var q := MultisetElement(t[lo..hi], s[lo..hi], p - lo);
        assert s[lo + q] == t[p];
      }
    }
    forall r: nat | r < done + 1
      ensures CountBelow(ranks, r) <= CountBelow(ranks, r + 1)
      ensures InOrder(t[CountBelow(ranks, r)..CountBelow(ranks, r + 1)])
    {
      CountBelowMonotone(ranks, r, r + 1);
      if r < done {
        CountBelowMonotone(ranks, r + 1, done);
        SamePrefixSlice(s, t, lo, CountBelow(ranks, r), CountBelow(ranks, r + 1));
      }
    }
  }

  lemma SamePrefixSlice(s: seq<UsedSymbol>, t: seq<UsedSymbol>, lo: nat, a: nat, b: nat)
    requires a <= b <= lo <= |s| && lo <= |t| && s[..lo] == t[..lo]
    ensures s[a..b] == t[a..b]
  {
    assert s[..lo][a..b] == s[a..b] && t[..lo][a..b] == t[a..b];
  }

  lemma SameBucket(ranks: seq<nat>, r: nat, q: nat, p: nat)
    requires CountBelow(ranks, r) <= p < CountBelow(ranks, r + 1)
    requires CountBelow(ranks, q) <= p < CountBelow(ranks, q + 1)
    ensures r == q
  {
    hide CountBelow;
    if r < q {
      CountBelowMonotone(ranks, r + 1, q);
    } else if q < r {
      CountBelowMonotone(ranks, q + 1, r);
    }
  }

  lemma {:induction false} FindBucket(ranks: seq<nat>, p: nat, top: nat) returns (r: nat)
    requires p < CountBelow(ranks, top)
    ensures r < top && CountBelow(ranks, r) <= p < CountBelow(ranks, r + 1)
  {
    hide CountBelow;
    if top == 0 {
      CountBelowStep(ranks, 0);
    } else if CountBelow(ranks, top - 1) <= p {
      r := top - 1;
    } else {
      r := FindBucket(ranks, p, top - 1);
    }
  }

  lemma AllBucketsSorted(s: seq<UsedSymbol>, ranks: seq<nat>)
    requires Bucketed(s, ranks, SORT_RANK_COUNT)
    requires forall i :: 0 <= i < |ranks| ==> ranks[i] < SORT_RANK_COUNT
    ensures InOrder(s)
  {
    hide CountBelow, Rank, Before;
    CountBelowAll(ranks, SORT_RANK_COUNT);
    forall i, j | 0 <= i <= j < |s|
      ensures Before(s[i], s[j])
    {
      var r := FindBucket(ranks, i, SORT_RANK_COUNT);
      var q := FindBucket(ranks, j, SORT_RANK_COUNT);
      if r == q {
        var lo := CountBelow(ranks, r);
        assert s[lo..CountBelow(ranks, r + 1)][i - lo] == s[i];
        assert s[lo..CountBelow(ranks, r + 1)][j - lo] == s[j];
      } else {
        if q < r {
          CountBelowMonotone(ranks, q + 1, r);
        }
        RankOrders(s[i], s[j]);
      }
    }
  }

  /** `sort_used_symbols_by_count`. */
  method SortUsedSymbolsByCount(used: array<UsedSymbol>, n: nat)
    requires n <= used.Length && forall i :: 0 <= i < n ==> used[i].count < Pow2(32)
    modifies used
    ensures InOrder(used[..n])
    ensures multiset(used[..n]) == multiset(old(used[..n]))
    ensures used[n..] == old(used[n..])
  {
    hide CountEq, CountBelow, Pow2, Rank, HighestBit, Place, Bucketed, InOrder;
    ghost var original := used[..n];
    ghost var ranks := Ranks(original);
    var bucketStart := BucketStarts(used, n);
    var sorted := Distribute(used, n, bucketStart);
    assert used[..n] == original;
    DistributionBuckets(sorted[..n], original);
    forall i | 0 <= i < n
      ensures ranks[i] < SORT_RANK_COUNT
    {
      RankFits(used[i]);
    }
    for rank := 0 to SORT_RANK_COUNT
      modifies sorted
      invariant Bucketed(sorted[..n], ranks, rank)
      invariant multiset(sorted[..n]) == multiset(original)
    {
      CountBelowMonotone(ranks, rank, rank + 1);
      SortBucket(sorted, n, bucketStart[rank], bucketStart[rank + 1], ranks, rank);
    }
    ghost var result := sorted[..n];
    AllBucketsSorted(result, ranks);
    forall i | 0 <= i < n {
      used[i] := sorted[i];
    }
    assert used[..n] == result;
  }

  method SortBucket(sorted: array<UsedSymbol>, n: nat, lo: nat, hi: nat, ghost ranks: seq<nat>, ghost rank: nat)
    requires n <= sorted.Length && Bucketed(sorted[..n], ranks, rank)
    requires lo == CountBelow(ranks, rank) && hi == CountBelow(ranks, rank + 1) && lo <= hi <= n
    modifies sorted
    ensures Bucketed(sorted[..n], ranks, rank + 1)
    ensures multiset(sorted[..n]) == multiset(old(sorted[..n]))
  {
    hide CountEq, CountBelow, Bucketed, InOrder;
    ghost var before := sorted[..n];
    InsertionSort(sorted, lo, hi);
    ghost var after := sorted[..n];
    assert after[lo..hi] == sorted[lo..hi] && before[lo..hi] == old(sorted[lo..hi]);
    assert after[..lo] == sorted[..lo] && before[..lo] == old(sorted[..lo]);
    assert after[hi..] == sorted[hi..][..n - hi] && before[hi..] == old(sorted[hi..])[..n - hi];
    OneBucketSorted(before, after, ranks, rank, lo, hi);
  }

  lemma OneBucketSorted(s: seq<UsedSymbol>, t: seq<UsedSymbol>, ranks: seq<nat>, done: nat, lo: nat, hi: nat)
    requires Bucketed(s, ranks, done) && |t| == |s|
    requires lo == CountBelow(ranks, done) && hi == CountBelow(ranks, done + 1)
    requires lo <= hi <= |s| && t[..lo] == s[..lo] && t[hi..] == s[hi..]
    requires multiset(t[lo..hi]) == multiset(s[lo..hi]) && InOrder(t[lo..hi])
    ensures Bucketed(t, ranks, done + 1) && multiset(t) == multiset(s)
  {
    hide Bucketed, InOrder, CountBelow;
    BucketSorted(s, t, ranks, done);
    assert s == s[..lo] + (s[lo..hi] + s[hi..]);
    assert t == t[..lo] + (t[lo..hi] + t[hi..]);
  }
}
