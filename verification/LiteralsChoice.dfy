/** Which form a literals section takes, and that no code within the depth limit codes the literals
    in fewer bits than the new table's. */
module LiteralsChoice {
  import opened Bits
  import opened BitReader
  import opened Permutations
  import opened SymbolSort
  import opened PackageMerge
  import opened PackageMergeOptimal
  import opened CodeLengths
  import opened NormalizeCounts
  import opened HuffmanCodes
  import opened HuffmanWeights
  import opened HuffmanTables
  import opened HuffmanStream
  import opened FourStreams
  import opened SectionHeaders
  import opened LiteralsSection

  const MULTI_STREAM_MIN_SIZE := 256
  const MIN_LITERALS_TO_COMPRESS := 64
  const SAMPLE_SIZE := 4096
  const SAMPLE_RATIO := 10
  const SUSPECT_LITERALS_PER_SEQUENCE := 20
  const TABLE_OVERHEAD := 12
  const TABLE_DESCRIPTION_SCRATCH: nat := 512

  // ---------------------------------------------------------------- the fewest bits

  /** Weights for all 256 symbols. */
  function Padded(weights: seq<nat>): (all: seq<nat>)
    requires |weights| <= 256
    ensures |all| == 256
  {
    weights + seq(256 - |weights|, _ => 0)
  }

  function LengthsIn(h: HuffmanTable): (lengths: seq<nat>)
    requires |h.weights| <= 256
    ensures |lengths| == 256
  {
    CodeLengthsOf(Padded(h.weights), h.maxBits)
  }

  lemma LengthIn(h: HuffmanTable, s: nat)
    requires |h.weights| <= 256 && s < |h.weights| && 0 < h.weights[s] <= h.maxBits
    ensures LengthsIn(h)[s] == CodeLength(h.weights, h.maxBits, s)
  {
  }

  lemma {:induction false} CostOneMore(counts: seq<nat>, l: seq<nat>, x: nat)
    requires |counts| == |l| && x < |l|
    ensures Cost(counts[x := counts[x] + 1], l) == Cost(counts, l) + l[x]
  {
    var n, more := |l| - 1, counts[x := counts[x] + 1];
    if x == n {
      assert more[..n] == counts[..n];
      assert (counts[x] + 1) * l[x] == counts[x] * l[x] + l[x];
    } else {
      assert more[..n] == counts[..n][x := counts[x] + 1];
      CostOneMore(counts[..n], l[..n], x);
    }
  }

  lemma {:induction false} CostNothing(counts: seq<nat>, l: seq<nat>)
    requires |counts| == |l| && forall s :: 0 <= s < |counts| ==> counts[s] == 0
    ensures Cost(counts, l) == 0
  {
    if l != [] {
      CostNothing(counts[..|l| - 1], l[..|l| - 1]);
    }
  }

  /** The bits the codes give the literals are counts times code lengths. */
  lemma {:induction false} BitsAreCost(h: HuffmanTable, input: seq<byte>)
    requires |h.weights| <= 256 && Coded(h.weights, h.maxBits, input)
    ensures |EncodeSyms(h.weights, h.maxBits, input)| == Cost(Histogram(input, 256), LengthsIn(h))
  {
    hide Cost, CodeLength, LengthsIn;
    if input == [] {
      CostNothing(Histogram(input, 256), LengthsIn(h));
    } else {
      var rest, x := input[1..], input[0];
      BitsAreCost(h, rest);
      assert input == [x] + rest;
      assert multiset(input) == multiset{x} + multiset(rest);
      assert Histogram(input, 256) == Histogram(rest, 256)[x := Histogram(rest, 256)[x] + 1];
      CostOneMore(Histogram(rest, 256), LengthsIn(h), x);
      LengthIn(h, x);
    }
  }

  lemma LengthsGiven(weights: seq<nat>, maxBits: nat, counts: seq<nat>, s: nat)
    requires s < |weights| == |counts| && weights[s] <= maxBits && (counts[s] > 0 ==> weights[s] > 0)
    ensures counts[s] > 0 ==> CodeLengthsOf(weights, maxBits)[s] <= maxBits && weights[s] > 0
    ensures counts[s] > 0 ==> UnitOf(weights[s]) == Pow2(maxBits - CodeLengthsOf(weights, maxBits)[s])
  {
  }

  /** The codes of the symbols that occur take no more of the code space than all codes do. */
  lemma {:induction false} KraftWithin(counts: seq<nat>, weights: seq<nat>, depth: nat, maxBits: nat, k: nat)
    requires |counts| == |weights| && maxBits <= depth && k <= |counts|
    requires forall s :: 0 <= s < |counts| ==> weights[s] <= maxBits && (counts[s] > 0 ==> weights[s] > 0)
    ensures SumOver(UsedSymbols(counts[..k]), KraftTerm(CodeLengthsOf(weights, maxBits), depth))
         <= Shl(Units(weights[..k]), depth - maxBits)
    decreases k
  {
    hide UsedSymbols, SumOver, Units, Shl, Pow2, KraftTerm, CodeLengthsOf, UnitOf;
    var lengths := CodeLengthsOf(weights, maxBits);
    if k == 0 {
      NoKraft(counts, lengths, depth);
    } else {
      KraftWithin(counts, weights, depth, maxBits, k - 1);
      UsedStep(counts, k - 1);
      UnitsStep(weights, k - 1);
      ShlAdd(Units(weights[..k - 1]), UnitOf(weights[k - 1]), depth - maxBits);
      var before := UsedSymbols(counts[..k - 1]);
      if counts[k - 1] > 0 {
        var u := UsedSymbol(counts[k - 1], k - 1);
        SumOverConcat(before, [u], KraftTerm(lengths, depth));
        SumOfOne(u, KraftTerm(lengths, depth));
        LengthsGiven(weights, maxBits, counts, k - 1);
        KraftTermIs(u, lengths, depth);
        ShlPow2(maxBits - lengths[k - 1], depth - maxBits);
      } else {
        assert before + [] == before;
      }
    }
  }

  lemma CountedOnce(input: seq<byte>, s: nat)
    requires s < 256 && Histogram(input, 256)[s] > 0
    ensures exists i :: 0 <= i < |input| && input[i] == s
  {
    assert s in multiset(input);
  }

  /** Any complete table that codes the literals is a code the package merge has weighed. */
  lemma TableIsCode(h: HuffmanTable, input: seq<byte>, depth: nat)
    requires ValidTable(h) && |h.weights| <= 256 && h.maxBits <= depth && Coded(h.weights, h.maxBits, input)
    ensures IsCode(Histogram(input, 256), LengthsIn(h), depth)
  {
    hide Units, UsedSymbols, SumOver, Shl, Pow2, KraftTerm, Histogram;
    var counts, weights := Histogram(input, 256), Padded(h.weights);
    forall s | 0 <= s < 256 && counts[s] > 0
      ensures weights[s] > 0
    {
      CountedOnce(input, s);
    }
    KraftWithin(counts, weights, depth, h.maxBits, 256);
    assert counts[..256] == counts && weights[..256] == weights;
    UnitsOfZeros(weights, |h.weights|);
    assert weights[..|h.weights|] == h.weights;
    ShlPow2(h.maxBits, depth - h.maxBits);
  }

  /** A table of a cheapest code within the limit. */
  ghost predicate Shortest(h: HuffmanTable, input: seq<byte>, depth: nat) {
    && ValidTable(h) && 2 <= |h.weights| <= 256 && Coded(h.weights, h.maxBits, input)
    && Cheapest(Histogram(input, 256), LengthsIn(h), depth)
  }

  /** Such a table codes the literals in no more bits than any other table within the limit. */
  lemma FewestBits(h: HuffmanTable, other: HuffmanTable, input: seq<byte>, depth: nat)
    requires Shortest(h, input, depth)
    requires ValidTable(other) && |other.weights| <= 256 && other.maxBits <= depth
    requires Coded(other.weights, other.maxBits, input)
    ensures |EncodeSyms(h.weights, h.maxBits, input)| <= |EncodeSyms(other.weights, other.maxBits, input)|
  {
    hide ValidTable, Coded, EncodeSyms, Cost, IsCode, IsCompleteCode, LengthsIn;
    BitsAreCost(h, input);
    BitsAreCost(other, input);
    TableIsCode(other, input, depth);
  }

  // ---------------------------------------------------------------- quick choices

  function GetLargestCount(counts: seq<nat>): (largest: nat)
    ensures forall s :: 0 <= s < |counts| ==> counts[s] <= largest
    ensures counts != [] ==> largest in counts
  {
    if |counts| <= 1 then if counts == [] then 0 else counts[0]
    else Max(GetLargestCount(counts[..|counts| - 1]), counts[|counts| - 1])
  }

  predicate IsTooFlat(largestCount: nat, length: nat) {
    largestCount <= length / 128 + 4
  }

  predicate IsSuspectUncompressible(literalCount: nat, sequenceCount: nat) {
    && literalCount >= SAMPLE_SIZE * SAMPLE_RATIO
    && (sequenceCount == 0 || literalCount / sequenceCount >= SUSPECT_LITERALS_PER_SEQUENCE)
  }

  /** Both ends together are too flat. */
  ghost predicate SampleIsFlat(input: seq<byte>)
    requires |input| >= SAMPLE_SIZE
  {
    IsTooFlat(GetLargestCount(Histogram(input[..SAMPLE_SIZE], 256))
              + GetLargestCount(Histogram(input[|input| - SAMPLE_SIZE..], 256)), 2 * SAMPLE_SIZE)
  }

  ghost predicate IsQuickRaw(input: seq<byte>, sequenceCount: nat, allowQuickRaw: bool) {
    && allowQuickRaw
    && (|| |input| < MIN_LITERALS_TO_COMPRESS
        || (IsSuspectUncompressible(|input|, sequenceCount) && SampleIsFlat(input)))
  }

  /** `pick_stream_count`. */
  function PickStreamCount(length: nat): int {
    if length < MULTI_STREAM_MIN_SIZE then 1
    else if 3 * SegmentSize(length) > length then 1
    else 4
  }

  /** From 256 literals on four streams are always possible, and none is empty. */
  lemma StreamCountIs(length: nat)
    ensures PickStreamCount(length) == if length < MULTI_STREAM_MIN_SIZE then 1 else 4
    ensures PickStreamCount(length) == 4 ==> 3 * SegmentSize(length) < length
  {
    LastSegmentNotEmpty(length);
  }

  // ---------------------------------------------------------------- what a coded section costs

  /** Header and literals of a raw section. */
  function RawSize(n: nat): nat
    requires n <= E.MAX_BLOCK_SIZE
  {
    n + LiteralsHeaderLength(Raw, PickRawSizeFormat(n).value)
  }

  lemma RawSizeIs(n: nat)
    requires n <= E.MAX_BLOCK_SIZE
    ensures PickRawSizeFormat(n).Some?
    ensures RawSize(n) == n + LiteralsHeaderLength(Raw, PickRawSizeFormat(n).value) <= n + 3
    ensures LiteralsHeaderLength(Rle, PickRawSizeFormat(n).value)
         == LiteralsHeaderLength(Raw, PickRawSizeFormat(n).value)
  {
  }

  ghost function StreamsSize(h: HuffmanTable, input: seq<byte>, streamCount: nat): nat
    requires Coded(h.weights, h.maxBits, input)
  {
    if streamCount == 1 then StreamBytes(h.weights, h.maxBits, input)
    else JUMP_TABLE_SIZE + StreamsBytes(input, h.weights, h.maxBits, STREAM_COUNT)
  }

  ghost predicate StreamsFit(h: HuffmanTable, input: seq<byte>, streamCount: nat, room: int)
    requires Coded(h.weights, h.maxBits, input)
  {
    && room >= 0
    && if streamCount == 1 then EncodeStreamCapacity(|input|) <= room
       else RoomFor(input, h.weights, h.maxBits, room, STREAM_COUNT)
  }

  /** The new table of a section, and the counts its weights' own table is built from. */
  datatype Candidate = Candidate(h: HuffmanTable, normalized: seq<int>, log: nat) {
    /** A cheapest table within the depth picked for the literals. */
    ghost predicate Fits(input: seq<byte>) {
      && Shortest(h, input, GetCheapDepth(Histogram(input, 256), |input|))
      && (|h.weights| >= 3 && CanTabulate(h.weights[..|h.weights| - 1]) ==>
            CountsOfWeights(h.weights[..|h.weights| - 1], normalized, log))
    }

    /** The bytes of its description, if it has one. */
    ghost function Described(): Option<nat> {
      if |h.weights| < 2 then None
      else DescriptionSize(h.weights[..|h.weights| - 1], normalized, log, TABLE_DESCRIPTION_SCRATCH)
    }
  }

  /** Header of a coded section. */
  function HeaderSize(n: nat): nat
    requires n <= E.MAX_BLOCK_SIZE
  {
    StreamCountIs(n);
    LiteralsHeaderLength(Compressed, PickSizeFormat(PickStreamCount(n), n).value)
  }

  function CodedLimit(n: nat): nat
    requires n <= E.MAX_BLOCK_SIZE
  {
    StreamCountIs(n);
    LiteralsSizeLimit(PickSizeFormat(PickStreamCount(n), n).value)
  }

  /** What a section is written under: the room, whether the held table may be used, whether quick
      losses count, and the table held. */
  datatype Terms = Terms(capacity: nat, reuse: bool, quick: bool, held: Option<HuffmanTable>) {
    /** The held table is there, may be used, and codes the literals. */
    ghost predicate Able(input: seq<byte>) {
      reuse && held.Some? && Coded(held.value.weights, held.value.maxBits, input)
    }

    ghost predicate QuickLoss(input: seq<byte>, described: nat) {
      quick && described + TABLE_OVERHEAD >= |input|
    }

    /** The held table takes fewer bits than the new one with its description, or the new one is too
        large for a quick choice. */
    ghost predicate HeldWins(input: seq<byte>, c: Candidate)
      requires Coded(c.h.weights, c.h.maxBits, input) && c.Described().Some?
    {
      && Able(input)
      && (|| QuickLoss(input, c.Described().value)
          || |EncodeSyms(held.value.weights, held.value.maxBits, input)|
             < |EncodeSyms(c.h.weights, c.h.maxBits, input)| + 8 * c.Described().value)
    }

    /** Description and streams, under the table that wins. */
    ghost function CodedSize(input: seq<byte>, c: Candidate): nat
      requires Coded(c.h.weights, c.h.maxBits, input) && c.Described().Some?
    {
      if HeldWins(input, c) then StreamsSize(held.value, input, PickStreamCount(|input|))
      else c.Described().value + StreamsSize(c.h, input, PickStreamCount(|input|))
    }

    /** The table that wins has the room it asks for. */
    ghost predicate CodedFits(input: seq<byte>, c: Candidate)
      requires |input| <= E.MAX_BLOCK_SIZE && Coded(c.h.weights, c.h.maxBits, input) && c.Described().Some?
    {
      var room := capacity - HeaderSize(|input|);
      if HeldWins(input, c) then StreamsFit(held.value, input, PickStreamCount(|input|), room)
      else
        && !QuickLoss(input, c.Described().value)
        && StreamsFit(c.h, input, PickStreamCount(|input|), room - c.Described().value)
    }

    /** A coded section is written: there is a new table with a description, the winner has room, and
        the result is smaller than the raw section. */
    ghost predicate CodedPays(input: seq<byte>, c: Candidate)
      requires |input| <= E.MAX_BLOCK_SIZE
    {
      && UsedCount(Histogram(input, 256)) >= 2 && Coded(c.h.weights, c.h.maxBits, input) && c.Described().Some?
      && CodedFits(input, c) && CodedSize(input, c) < CodedLimit(|input|)
      && HeaderSize(|input|) + CodedSize(input, c) < RawSize(|input|)
    }

    /** The form of the whole section: raw, one repeated byte, or coded; the table is kept unless a
        new one wins. */
    ghost predicate Takes(input: seq<byte>, sequenceCount: nat, c: Candidate, bytes: Option<seq<byte>>, kept: bool)
      requires |input| <= E.MAX_BLOCK_SIZE
    {
      if input == [] || IsQuickRaw(input, sequenceCount, quick) then bytes == RawWithin(input, capacity) && kept
      else if IsRepeated(input) then bytes == RleWithin(input, capacity) && kept
      else if quick && IsTooFlat(GetLargestCount(Histogram(input, 256)), |input|) then
        bytes == RawWithin(input, capacity) && kept
      else if CodedPays(input, c) then
        && c.Fits(input) && bytes.Some? && |bytes.value| == HeaderSize(|input|) + CodedSize(input, c)
        && kept == HeldWins(input, c)
      else bytes == RawWithin(input, capacity) && kept
    }
  }

  predicate IsRepeated(input: seq<byte>) {
    forall i :: 0 <= i < |input| ==> input[i] == input[0]
  }

  /** The raw section, where it has room. */
  function RawWithin(input: seq<byte>, capacity: nat): Option<seq<byte>>
    requires |input| <= E.MAX_BLOCK_SIZE
  {
    if RawSize(|input|) <= capacity then
      Some(WriteLiteralsHeader(Raw, PickRawSizeFormat(|input|).value, |input|, |input|) + input)
    else None
  }

  function RleWithin(input: seq<byte>, capacity: nat): Option<seq<byte>>
    requires 0 < |input| <= E.MAX_BLOCK_SIZE
  {
    var header := WriteLiteralsHeader(Rle, PickRawSizeFormat(|input|).value, |input|, 1);
    if |header| + 1 <= capacity then Some(header + [input[0]]) else None
  }
}
