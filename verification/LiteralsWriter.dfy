/** Writing a literals section: raw, one repeated byte, or Huffman-coded with a new table or with
    the table of an earlier block. Whatever is chosen reads back as the literals. */
module LiteralsWriter {
  import opened Bits
  import opened BitReader
  import opened PackageMerge
  import opened CodeLengths
  import opened NormalizeCounts
  import opened FseTables
  import opened HuffmanCodes
  import opened HuffmanWeights
  import opened HuffmanTables
  import opened HuffmanStream
  import opened FourStreams
  import opened SectionHeaders
  import opened LiteralsSection
  import opened LiteralsChoice
  import P = PackageMergeOptimal

  // ---------------------------------------------------------------- round trips of one or four streams

  lemma OneStreamReads(h: HuffmanTable, stream: seq<byte>, symbols: seq<byte>)
    requires ValidTable(h) && Coded(h.weights, h.maxBits, symbols)
    requires MarkedBits(stream) == Some(EncodeSyms(h.weights, h.maxBits, symbols))
    ensures SymbolsOf(h, stream, 1, |symbols|) == Some(symbols)
  {
    hide *;
    CellsBySelf(h);
    OneStreamDecodes(Cells(h), h.maxBits, h.weights, stream, symbols);
    StreamIsSymbols(h, stream, symbols);
    SymbolsWhen(h, stream, 1, |symbols|);
  }

  lemma CellsBySelf(h: HuffmanTable)
    requires ValidTable(h)
    ensures CellsBy(Cells(h), h.maxBits, h.weights) && Usable(Cells(h), h.maxBits)
  {
    hide HuffmanDecodeTable.Filled, Usable, Complete;
  }

  lemma StreamIsSymbols(h: HuffmanTable, stream: seq<byte>, symbols: seq<byte>)
    requires ValidTable(h) && Usable(Cells(h), h.maxBits)
    requires StreamSymbols(stream, Cells(h), h.maxBits, |symbols|) == Some(symbols)
    ensures StreamOf(h, stream, |symbols|) == Some(symbols)
  {
    hide StreamSymbols, ValidTable, Usable;
  }

  lemma FourStreamsRead(h: HuffmanTable, section: seq<byte>, streams: seq<seq<byte>>, input: seq<byte>)
    requires ValidTable(h) && Layout(section, streams) && |streams| == STREAM_COUNT
    requires Streams(streams, input, h.weights, h.maxBits)
    requires 3 * SegmentSize(|input|) < |input|
    ensures SymbolsOf(h, section, 4, |input|) == Some(input)
  {
    hide ValidTable, Layout, MarkedBits, EncodeSyms, Coded, Segment, StreamOf, SegmentSize, Splits;
    SplitGives(section, streams, |input|);
    SymbolsWhen(h, section, 4, |input|);
    CellsBySelf(h);
    forall i: nat | i < 4
      ensures StreamOf(h, streams[i], SegmentLength(|input|, i)) == Some(Segment(input, i))
    {
      FourStreamsDecode(Cells(h), h.maxBits, h.weights, input, streams, i);
      SegmentIs(input, i);
      StreamIsSymbols(h, streams[i], Segment(input, i));
    }
    SegmentsJoin(input);
  }

  lemma SegmentIs(input: seq<byte>, i: nat)
    requires i < 4
    ensures |Segment(input, i)| == SegmentLength(|input|, i)
  {
    hide SegmentStart;
  }

  // ---------------------------------------------------------------- costs

  /** Counts times code lengths, over the first `n` symbols. */
  ghost function CodedCost(counts: seq<nat>, codes: seq<HuffmanCode>, n: nat): nat
    requires n <= |counts| == |codes|
  {
    if n == 0 then 0 else CodedCost(counts, codes, n - 1) + counts[n - 1] * codes[n - 1].bitCount
  }

  lemma {:induction false} CodedIsCost(counts: seq<nat>, codes: seq<HuffmanCode>, lengths: seq<nat>, n: nat)
    requires n <= |counts| == |codes| == |lengths|
    requires forall s :: 0 <= s < n && counts[s] > 0 ==> codes[s].bitCount == lengths[s]
    ensures CodedCost(counts, codes, n) == P.Cost(counts[..n], lengths[..n])
  {
    if n > 0 {
      CodedIsCost(counts, codes, lengths, n - 1);
      assert counts[..n][..n - 1] == counts[..n - 1] && lengths[..n][..n - 1] == lengths[..n - 1];
    }
  }

  lemma CodeLengthIs(table: HuffmanEncodeTable, h: HuffmanTable, s: nat)
    requires ValidTable(h) && table.EncodesBy(h.weights) && table.maxBits == h.maxBits
    requires s < |h.weights| && 0 < h.weights[s] <= h.maxBits && s < 256
    ensures |table.codes| == 256 && table.codes[s].bitCount == CodeLength(h.weights, h.maxBits, s)
  {
    hide Units, CodeOf, Complete;
  }

  /** The cost of a table is the number of bits its codes give the literals. */
  lemma CostIsLength(table: HuffmanEncodeTable, h: HuffmanTable, input: seq<byte>)
    requires ValidTable(h) && table.EncodesBy(h.weights) && table.maxBits == h.maxBits
    requires Coded(h.weights, h.maxBits, input)
    ensures |table.codes| == 256
    ensures CodedCost(Histogram(input, 256), table.codes, 256) == |EncodeSyms(h.weights, h.maxBits, input)|
  {
    hide *;
    HasCodes(table, h);
    TableSize(h);
    var counts := Histogram(input, 256);
    forall s | 0 <= s < 256 && counts[s] > 0
      ensures table.codes[s].bitCount == LengthsIn(h)[s]
    {
      CountedOnce(input, s);
      CodedAt(h, input, s);
      CodeLengthIs(table, h, s);
      LengthIn(h, s);
    }
    CodedIsCost(counts, table.codes, LengthsIn(h), 256);
    assert counts[..256] == counts && LengthsIn(h)[..256] == LengthsIn(h);
    BitsAreCost(h, input);
  }

  lemma TableSize(h: HuffmanTable)
    requires ValidTable(h)
    ensures |h.weights| <= 256
  {
    hide Units;
  }

  lemma CodedAt(h: HuffmanTable, input: seq<byte>, s: nat)
    requires Coded(h.weights, h.maxBits, input) && s < 256 && exists i :: 0 <= i < |input| && input[i] == s
    ensures s < |h.weights| && 0 < h.weights[s] <= h.maxBits
  {
  }

  lemma HasCodes(table: HuffmanEncodeTable, h: HuffmanTable)
    requires table.EncodesBy(h.weights)
    ensures |table.codes| == 256
  {
  }

  /** `estimate_huffman_bit_cost`: none exactly when a symbol that occurs has no code. */
  method EstimateHuffmanBitCost(counts: seq<nat>, table: HuffmanEncodeTable) returns (bits: Option<nat>)
    requires |counts| == |table.codes| == 256
    ensures bits.Some? <==> forall s :: 0 <= s < 256 && counts[s] > 0 ==> table.codes[s].bitCount > 0
    ensures bits.Some? ==> bits.value == CodedCost(counts, table.codes, 256)
  {
    var totalBits: nat := 0;
    for symbol := 0 to 256
      invariant totalBits == CodedCost(counts, table.codes, symbol)
      invariant forall s :: 0 <= s < symbol && counts[s] > 0 ==> table.codes[s].bitCount > 0
    {
      if counts[symbol] != 0 {
        if table.codes[symbol].bitCount == 0 {
          return None;
        }
        totalBits := totalBits + counts[symbol] * table.codes[symbol].bitCount;
      }
    }
    return Some(totalBits);
  }

  /** The encoder's table object stands for the abstract one; without one no symbol has a code. */
  ghost predicate Stands(table: HuffmanEncodeTable, held: Option<HuffmanTable>)
    reads table
  {
    && |table.codes| == 256
    && match held
       case Some(h) => ValidTable(h) && table.EncodesBy(h.weights) && table.maxBits == h.maxBits
       case None => forall s :: 0 <= s < 256 ==> table.codes[s].bitCount == 0
  }

  /** A table with a code for every symbol of the literals is there and codes them. */
  lemma CodedBy(table: HuffmanEncodeTable, held: Option<HuffmanTable>, input: seq<byte>, counts: seq<nat>)
    requires Stands(table, held) && input != [] && counts == Histogram(input, 256)
    requires forall s :: 0 <= s < 256 && counts[s] > 0 ==> table.codes[s].bitCount > 0
    ensures held.Some? && Coded(held.value.weights, held.value.maxBits, input)
  {
    hide Complete, CodeOf, CodeLength;
    forall i | 0 <= i < |input|
      ensures table.codes[input[i]].bitCount > 0
    {
      Occurs(input, i);
    }
    assert table.codes[input[0]].bitCount > 0;
    forall i | 0 <= i < |input|
      ensures held.Some? && input[i] < |held.value.weights| && 0 < held.value.weights[input[i]] <= held.value.maxBits
    {
      CodeMeansWeight(table, held.value, input[i]);
    }
  }

  lemma Occurs(input: seq<byte>, i: nat)
    requires i < |input|
    ensures Histogram(input, 256)[input[i]] > 0
  {
    assert input[i] in multiset(input);
  }

  lemma CodeMeansWeight(table: HuffmanEncodeTable, h: HuffmanTable, s: nat)
    requires ValidTable(h) && table.EncodesBy(h.weights) && table.maxBits == h.maxBits && s < 256
    requires table.codes[s].bitCount > 0
    ensures s < |h.weights| && 0 < h.weights[s] <= h.maxBits
  {
    hide Units, CodeOf, CodeLength;
  }

  method IsSampleUncompressible(input: seq<byte>) returns (flat: bool)
    requires |input| >= SAMPLE_SIZE
    ensures flat <==> SampleIsFlat(input)
  {
    hide IsTooFlat, Histogram, GetLargestCount;
    var atStart := CountSymbols(input[..SAMPLE_SIZE], 256);
    var atEnd := CountSymbols(input[|input| - SAMPLE_SIZE..], 256);
    flat := IsTooFlat(GetLargestCount(atStart) + GetLargestCount(atEnd), 2 * SAMPLE_SIZE);
  }

  method PickQuickRaw(input: seq<byte>, sequenceCount: nat, allowQuickRaw: bool) returns (quick: bool)
    ensures quick <==> IsQuickRaw(input, sequenceCount, allowQuickRaw)
  {
    hide SampleIsFlat;
    if !allowQuickRaw {
      return false;
    }
    if |input| < MIN_LITERALS_TO_COMPRESS {
      return true;
    }
    if !IsSuspectUncompressible(|input|, sequenceCount) {
      return false;
    }
    quick := IsSampleUncompressible(input);
  }

  // ---------------------------------------------------------------- what a written section promises

  /** An encoder that holds a table may reuse it: the decoder holds the same one. */
  ghost predicate Agree(encoder: Option<HuffmanTable>, decoder: Option<HuffmanTable>) {
    encoder.Some? ==> decoder == encoder
  }

  /** The decoder's table after a section: a new one replaces it. */
  ghost function Replaced(decoder: Option<HuffmanTable>, before: Option<HuffmanTable>,
          after: Option<HuffmanTable>): Option<HuffmanTable> { if after == before then decoder else after }

  /** In front of anything, for a decoder in agreement, the bytes read back as the literals. */
  ghost predicate Carries(bytes: seq<byte>, literals: seq<byte>, before: Option<HuffmanTable>,
                          after: Option<HuffmanTable>) {
    forall rest: seq<byte>, decoder: Option<HuffmanTable> :: ValidHeld(decoder) && Agree(before, decoder) ==>
      LiteralsOf(bytes + rest, decoder) == Some(LiteralsRead(literals, |bytes|, Replaced(decoder, before, after)))
  }

  lemma StillAgree(decoder: Option<HuffmanTable>, before: Option<HuffmanTable>, after: Option<HuffmanTable>)
    requires Agree(before, decoder)
    ensures Agree(after, Replaced(decoder, before, after))
  {
  }

  lemma RawCarries(literals: seq<byte>, sizeFormat: nat, held: Option<HuffmanTable>)
    requires RawFormatFits(sizeFormat, |literals|) && |literals| <= E.MAX_BLOCK_SIZE
    ensures Carries(WriteLiteralsHeader(Raw, sizeFormat, |literals|, |literals|) + literals, literals, held, held)
  {
    hide WriteLiteralsHeader, ReadLiteralsHeader, LiteralsHeaderLength, ValidTable;
    var header := WriteLiteralsHeader(Raw, sizeFormat, |literals|, |literals|);
    forall rest: seq<byte>, decoder: Option<HuffmanTable> | ValidHeld(decoder)
      ensures LiteralsOf(header + literals + rest, decoder)
            == Some(LiteralsRead(literals, |header + literals|, decoder))
    {
      RawHeaderRoundTrip(Raw, sizeFormat, |literals|, literals + rest);
      assert header + literals + rest == header + (literals + rest);
      PlainIs(header + literals + rest, decoder);
      assert (header + literals + rest)[|header|..|header| + |literals|] == literals;
    }
  }

  lemma RleCarries(value: byte, n: nat, sizeFormat: nat, held: Option<HuffmanTable>)
    requires RawFormatFits(sizeFormat, n) && n <= E.MAX_BLOCK_SIZE
    ensures Carries(WriteLiteralsHeader(Rle, sizeFormat, n, 1) + [value], seq(n, _ => value), held, held)
  {
    hide WriteLiteralsHeader, ReadLiteralsHeader, LiteralsHeaderLength, ValidTable;
    var header := WriteLiteralsHeader(Rle, sizeFormat, n, 1);
    forall rest: seq<byte>, decoder: Option<HuffmanTable> | ValidHeld(decoder)
      ensures LiteralsOf(header + [value] + rest, decoder)
            == Some(LiteralsRead(seq(n, _ => value), |header + [value]|, decoder))
    {
      RleHeader(sizeFormat, n);
      RawHeaderRoundTrip(Rle, sizeFormat, n, [value] + rest);
      assert header + [value] + rest == header + ([value] + rest);
      PlainIs(header + [value] + rest, decoder);
    }
  }

  lemma RleHeader(sizeFormat: nat, n: nat)
    ensures WriteLiteralsHeader(Rle, sizeFormat, n, 1) == WriteLiteralsHeader(Rle, sizeFormat, n, n)
  {
    hide LeBytes;
  }

  /** The streams of a section under a table. */
  ghost predicate Encodes(h: HuffmanTable, streams: seq<byte>, streamCount: nat, literals: seq<byte>) {
    ValidTable(h) && SymbolsOf(h, streams, streamCount, |literals|) == Some(literals)
  }

  ghost predicate SizesFit(sizeFormat: nat, streamCount: nat, n: nat, compressedSize: nat) {
    && sizeFormat <= 3 && n < LiteralsSizeLimit(sizeFormat) && compressedSize < LiteralsSizeLimit(sizeFormat)
    && n <= E.MAX_BLOCK_SIZE && streamCount == (if sizeFormat == 0 then 1 else 4)
  }

  lemma TreelessCarries(h: HuffmanTable, streams: seq<byte>, streamCount: nat, literals: seq<byte>, sizeFormat: nat)
    requires Encodes(h, streams, streamCount, literals) && SizesFit(sizeFormat, streamCount, |literals|, |streams|)
    ensures Carries(WriteLiteralsHeader(Treeless, sizeFormat, |literals|, |streams|) + streams, literals, Some(h),
                    Some(h))
  {
    hide WriteLiteralsHeader, ReadLiteralsHeader, LiteralsHeaderLength, ValidTable, SymbolsOf, LiteralsSizeLimit;
    var header := WriteLiteralsHeader(Treeless, sizeFormat, |literals|, |streams|);
    forall rest: seq<byte>
      ensures LiteralsOf(header + streams + rest, Some(h)) == Some(LiteralsRead(literals, |header + streams|, Some(h)))
    {
      CodedHeaderRoundTrip(Treeless, sizeFormat, |literals|, |streams|, streams + rest);
      assert header + streams + rest == header + (streams + rest);
      var read := ReadLiteralsHeader(header + streams + rest).value;
      CodedIs(header + streams + rest, read, Some(h));
      assert (header + streams + rest)[|header|..|header| + |streams|] == streams;
      CodedLiteralsIs(h, streams, read);
    }
  }

  lemma CompressedCarries(h: HuffmanTable, description: seq<byte>, streams: seq<byte>, streamCount: nat,
                          literals: seq<byte>, sizeFormat: nat, before: Option<HuffmanTable>)
    requires Encodes(h, streams, streamCount, literals)
    requires DescribedTable(description + streams) == Some((h, |description|))
    requires SizesFit(sizeFormat, streamCount, |literals|, |description + streams|)
    ensures Carries(WriteLiteralsHeader(Compressed, sizeFormat, |literals|, |description + streams|)
                    + (description + streams),
                    literals, before, Some(h))
  {
    hide WriteLiteralsHeader, ReadLiteralsHeader, LiteralsHeaderLength, ValidTable, SymbolsOf, LiteralsSizeLimit,
      DescribedTable;
    var section := description + streams;
    var header := WriteLiteralsHeader(Compressed, sizeFormat, |literals|, |section|);
    forall rest: seq<byte>, decoder: Option<HuffmanTable> | ValidHeld(decoder)
      ensures LiteralsOf(header + section + rest, decoder) == Some(LiteralsRead(literals, |header + section|, Some(h)))
    {
      CodedHeaderRoundTrip(Compressed, sizeFormat, |literals|, |section|, section + rest);
      assert header + section + rest == header + (section + rest);
      var read := ReadLiteralsHeader(header + section + rest).value;
      CodedIs(header + section + rest, read, decoder);
      assert (header + section + rest)[|header|..|header| + |section|] == section;
      assert section[|description|..] == streams;
      CodedLiteralsIs(h, streams, read);
    }
  }

  /** A table the encoder built, written and read back. */
  lemma DescriptionReads(weights: seq<nat>, maxBits: nat, description: seq<byte>, after: seq<byte>)
    requires SendableWeights(weights, maxBits)
    requires TableWeights(description + after) == Some((weights[..|weights| - 1], |description|))
    ensures DescribedTable(description + after) == Some((HuffmanTable(weights, maxBits), |description|))
  {
    hide TableWeights, Units, Completes;
    var prefix, w := weights[..|weights| - 1], weights[|weights| - 1];
    LastWeightRecovered(weights, maxBits);
    assert prefix + [w] == weights;
    PrefixSize(weights, maxBits);
  }

  lemma PrefixSize(weights: seq<nat>, maxBits: nat)
    requires SendableWeights(weights, maxBits)
    ensures 0 < |weights| - 1 < MAX_WEIGHT_COUNT
    ensures forall i :: 0 <= i < |weights| ==> weights[i] <= MAX_WEIGHT_VALUE
  {
    hide Units;
  }

  // ---------------------------------------------------------------- writing

  /** `encode_one_stream` or `encode_four_streams` into `room` bytes. */
  method EncodeLiterals(input: seq<byte>, streamCount: nat, table: HuffmanEncodeTable, room: nat, ghost h: HuffmanTable)
    returns (streams: Option<seq<byte>>)
    requires table.EncodesBy(h.weights) && table.maxBits == h.maxBits && ValidTable(h)
    requires Coded(h.weights, h.maxBits, input)
    requires streamCount == 1 || 3 * SegmentSize(|input|) < |input|
    ensures streams.Some? <==> StreamsFit(h, input, streamCount, room)
    ensures streams.Some? ==>
              && |streams.value| <= room && |streams.value| == StreamsSize(h, input, streamCount)
              && Encodes(h, streams.value, if streamCount == 1 then 1 else 4, input)
  {
    hide *;
    StreamsAre(h, input, streamCount, room);
    var output := new byte[room];
    if streamCount == 1 {
      var ok, size := EncodeOneStream(input, table, h.weights, output, 0);
      if !ok {
        return None;
      }
      OneWritten(input, output, size, h, room);
      StreamSizeIs(output[0..size], h.weights, h.maxBits, input);
      return Some(output[..size]);
    } else {
      var ok, size, parts := EncodeFourStreams(input, table, h.weights, output);
      if !ok {
        return None;
      }
      FourWritten(input, output[..size], h, parts);
      return Some(output[..size]);
    }
  }

  lemma StreamsAre(h: HuffmanTable, input: seq<byte>, streamCount: nat, room: nat)
    requires Coded(h.weights, h.maxBits, input)
    ensures StreamsFit(h, input, streamCount, room)
        <==> if streamCount == 1 then EncodeStreamCapacity(|input|) <= room
             else RoomFor(input, h.weights, h.maxBits, room, STREAM_COUNT)
    ensures StreamsSize(h, input, streamCount)
         == if streamCount == 1 then StreamBytes(h.weights, h.maxBits, input)
            else JUMP_TABLE_SIZE + StreamsBytes(input, h.weights, h.maxBits, STREAM_COUNT)
  {
    hide RoomFor, StreamsBytes, StreamBytes, Coded, EncodeStreamCapacity;
  }

  lemma OneWritten(input: seq<byte>, output: array<byte>, size: nat, h: HuffmanTable, room: nat)
    requires ValidTable(h) && Coded(h.weights, h.maxBits, input) && output.Length == room
    requires size <= EncodeStreamCapacity(|input|) <= room
    requires MarkedBits(output[0..size]) == Some(EncodeSyms(h.weights, h.maxBits, input))
    ensures size <= room && Encodes(h, output[..size], 1, input)
  {
    hide *;
    assert output[0..size] == output[..size];
    OneStreamReads(h, output[..size], input);
    EncodesIs(h, output[..size], 1, input);
  }

  lemma EncodesIs(h: HuffmanTable, streams: seq<byte>, streamCount: nat, literals: seq<byte>)
    requires ValidTable(h) && SymbolsOf(h, streams, streamCount, |literals|) == Some(literals)
    ensures Encodes(h, streams, streamCount, literals)
  {
    hide ValidTable, SymbolsOf;
  }

  lemma FourWritten(input: seq<byte>, section: seq<byte>, h: HuffmanTable, parts: seq<seq<byte>>)
    requires ValidTable(h) && 3 * SegmentSize(|input|) < |input|
    requires Layout(section, parts) && |parts| == STREAM_COUNT && Streams(parts, input, h.weights, h.maxBits)
    ensures Encodes(h, section, 4, input)
  {
    hide ValidTable, SymbolsOf, SegmentSize, Layout, Streams;
    FourStreamsRead(h, section, parts, input);
  }

  /** The new table with its description: there is one for literals of two kinds or more whose
      weights can be described. */
  method BuildCandidate(input: seq<byte>, counts: seq<nat>)
    returns (ok: bool, table: HuffmanEncodeTable, description: seq<byte>, ghost c: Candidate)
    requires counts == Histogram(input, 256) && |input| <= E.MAX_BLOCK_SIZE
    ensures fresh(table)
    ensures UsedCount(counts) >= 2 ==> c.Fits(input)
    ensures ok <==> UsedCount(counts) >= 2 && c.Described().Some?
    ensures ok ==> Stands(table, Some(c.h)) && Coded(c.h.weights, c.h.maxBits, input)
    ensures ok ==> Some(|description|) == c.Described()
    ensures ok ==> forall after: seq<byte> :: DescribedTable(description + after) == Some((c.h, |description|))
  {
    hide *;
    table := new HuffmanEncodeTable();
    c := Candidate(HuffmanTable([], 0), [], 0);
    HistogramFits(input, counts);
    DepthFits(counts, |input|);
    ok := BuildHuffmanEncodeTable(counts, table, GetCheapDepth(counts, |input|));
    if !ok {
      return false, table, [], c;
    }
    var weights := table.weights[..table.symbolCount];
    ghost var h := HuffmanTable(weights, table.maxBits);
    PrefixSize(weights, table.maxBits);
    CandidateStands(table, h, input, counts);
    var scratch := new byte[TABLE_DESCRIPTION_SCRATCH];
    var weightFseTable := new FseEncodeTable();
    var written, size;
    ghost var normalized, log;
    written, size, normalized, log := WriteHuffmanTable(weights, weightFseTable, scratch);
    c := Candidate(h, normalized, log);
    DescribedIs(c);
    CandidateFits(c, table.weights, table.symbolCount, input, counts);
    if !written {
      return false, table, [], c;
    }
    description := scratch[..size];
    forall after: seq<byte>
      ensures DescribedTable(description + after) == Some((h, |description|))
    {
      DescriptionReads(weights, table.maxBits, description, after);
    }
    ok := true;
  }

  lemma DescribedIs(c: Candidate)
    requires |c.h.weights| >= 2
    ensures c.Described()
         == DescriptionSize(c.h.weights[..|c.h.weights| - 1], c.normalized, c.log, TABLE_DESCRIPTION_SCRATCH)
  {
    hide DescriptionSize;
  }

  lemma CandidateFits(c: Candidate, weights: seq<nat>, n: nat, input: seq<byte>, counts: seq<nat>)
    requires |weights| == 256 && n <= 256 && c.h.weights == weights[..n]
    requires forall s :: n <= s < 256 ==> weights[s] == 0
    requires counts == Histogram(input, 256) && SendableWeights(c.h.weights, c.h.maxBits)
    requires Coded(c.h.weights, c.h.maxBits, input)
    requires Cheapest(counts, CodeLengthsOf(weights, c.h.maxBits), Min(GetCheapDepth(counts, |input|), MAX_BITS))
    requires GetCheapDepth(counts, |input|) <= MAX_BITS
    requires |c.h.weights| >= 3 && CanTabulate(c.h.weights[..|c.h.weights| - 1]) ==>
               CountsOfWeights(c.h.weights[..|c.h.weights| - 1], c.normalized, c.log)
    ensures c.Fits(input)
  {
    hide Units, Coded, Cheapest, CanTabulate, CountsOfWeights, GetCheapDepth, Histogram, CodeLengthsOf;
    assert Padded(c.h.weights) == weights;
  }

  lemma DepthFits(counts: seq<nat>, total: nat)
    requires |counts| == 256 && total == Sum(counts)
    ensures 0 < GetCheapDepth(counts, total) <= MAX_BITS
    ensures UsedCount(counts) <= Pow2(Min(GetCheapDepth(counts, total), MAX_BITS))
  {
    hide GetCheapDepth, UsedCount, Sum, Pow2;
    CheapDepthSuffices(counts, total);
  }

  lemma HistogramFits(input: seq<byte>, counts: seq<nat>)
    requires counts == Histogram(input, 256) && |input| <= E.MAX_BLOCK_SIZE
    ensures |counts| == 256 && Sum(counts) == |input| && forall s :: 0 <= s < 256 ==> counts[s] < Pow2(32)
  {
    hide Histogram, Pow2;
    HistogramSum(input, 256);
    HistogramSmall(input, 256);
    BlockBelowWord();
  }

  lemma BlockBelowWord()
    ensures E.MAX_BLOCK_SIZE < Pow2(32)
  {
    Pow2Mono(18, 32);
    EighteenBits();
  }

  lemma EighteenBits()
    ensures Pow2(18) == 262144
  {
    assert Pow2(9) == 512;
  }

  lemma CandidateStands(table: HuffmanEncodeTable, h: HuffmanTable, input: seq<byte>, counts: seq<nat>)
    requires |table.weights| == 256 && table.symbolCount <= 256
    requires h == HuffmanTable(table.weights[..table.symbolCount], table.maxBits)
    requires table.EncodesBy(h.weights) && counts == Histogram(input, 256)
    requires forall s :: 0 <= s < 256 ==> (table.weights[s] > 0 <==> counts[s] > 0)
    ensures Stands(table, Some(h)) && Coded(h.weights, h.maxBits, input)
  {
    hide Units, CodeOf, CodeLength, Histogram;
    forall i | 0 <= i < |input|
      ensures input[i] < |h.weights| && 0 < h.weights[input[i]] <= h.maxBits
    {
      Occurs(input, i);
    }
  }

  /** `write_compressed_literals`: the cheaper of a new table and the held one, or nothing when
      neither beats the raw section. */
  method WriteCompressedLiterals(input: seq<byte>, counts: seq<nat>, capacity: nat, table: HuffmanEncodeTable,
                                 tableReuseAllowed: bool, allowQuickRaw: bool, ghost held: Option<HuffmanTable>)
    returns (bytes: Option<seq<byte>>, newTable: HuffmanEncodeTable, ghost newHeld: Option<HuffmanTable>,
             ghost c: Candidate)
    requires input != [] && counts == Histogram(input, 256) && |input| <= E.MAX_BLOCK_SIZE && Stands(table, held)
    ensures newTable == table || fresh(newTable)
    ensures bytes.Some? <==> Terms(capacity, tableReuseAllowed, allowQuickRaw, held).CodedPays(input, c)
    ensures bytes.Some? ==>
              |bytes.value| <= capacity && Stands(newTable, newHeld) && Carries(bytes.value, input, held, newHeld)
    ensures bytes.Some? ==> |bytes.value| < RawSize(|input|) <= |input| + 3 && c.Fits(input)
    ensures bytes.Some? ==>
              CodedAs(Terms(capacity, tableReuseAllowed, allowQuickRaw, held), input, c, bytes.value,
                      newTable == table, newHeld)
    ensures bytes.None? ==> newTable == table && newHeld == held
  {
    hide *;
    bytes, newTable, newHeld := None, table, held;
    ghost var t := Terms(capacity, tableReuseAllowed, allowQuickRaw, held);
    StandsParts(table, held);
    HistogramFits(input, counts);
    RawSizeIs(|input|);
    var treelessBitCost := None;
    if tableReuseAllowed {
      treelessBitCost := EstimateHuffmanBitCost(counts, table);
    }
    var built, candidate, description;
    built, candidate, description, c := BuildCandidate(input, counts);
    if !built {
      NeverPays(t, input, c);
      return;
    }
    StandsParts(candidate, Some(c.h));
    // Every literal has a code in the new table, so it has a cost.
    var candidateBitCost := EstimateHuffmanBitCost(counts, candidate);
    HeldCost(candidate, c.h, input, counts);
    CostIsLength(candidate, c.h, input);
    if held.Some? {
      HeldCost(table, held.value, input, counts);
    }
    if treelessBitCost.Some? {
      CodedBy(table, held, input, counts);
    }
    AbleIs(t, input);
    var tableIsTooLarge := allowQuickRaw && |description| + TABLE_OVERHEAD >= |input|;
    var tableCost := candidateBitCost.value + 8 * |description|;
    var useTreeless := treelessBitCost.Some? && (tableIsTooLarge || treelessBitCost.value < tableCost);
    WinsIs(t, input, c);
    var streamCount := PickStreamCount(|input|);
    StreamCountIs(|input|);
    FormatFits(|input|);
    PaysIs(t, input, c);
    if !useTreeless && tableIsTooLarge {
      return;
    }
    // Both formats exist for the literals of a block.
    var sizeFormat := PickSizeFormat(streamCount, |input|);
    var rawFormat := PickRawSizeFormat(|input|);
    var kind := if useTreeless then Treeless else Compressed;
    var headerLength := LiteralsHeaderLength(kind, sizeFormat.value);
    var tableBytes := if useTreeless then [] else description;
    var encodeTable := if useTreeless then table else candidate;
    ghost var used := if useTreeless then held.value else c.h;
    NoRoom(used, input, streamCount, capacity - headerLength - |tableBytes|);
    if headerLength + |tableBytes| > capacity {
      return;
    }
    var streams := EncodeLiterals(input, streamCount, encodeTable, capacity - headerLength - |tableBytes|, used);
    if streams.None? {
      return;
    }
    var section := tableBytes + streams.value;
    if |section| >= LiteralsSizeLimit(sizeFormat.value) {
      return;
    }
    if headerLength + |section| >= LiteralsHeaderLength(Raw, rawFormat.value) + |input| {
      return;
    }
    SizesAre(sizeFormat.value, streamCount, |input|, |section|);
    if useTreeless {
      assert section == streams.value;
      TreelessCarries(used, streams.value, streamCount, input, sizeFormat.value);
    } else {
      newTable, newHeld := candidate, Some(c.h);
      CompressedCarries(c.h, description, streams.value, streamCount, input, sizeFormat.value, held);
    }
    bytes := Some(WriteLiteralsHeader(kind, sizeFormat.value, |input|, |section|) + section);
    CodedWhen(t, input, c, bytes.value, newTable == table, newHeld);
  }

  lemma NeverPays(t: Terms, input: seq<byte>, c: Candidate)
    requires |input| <= E.MAX_BLOCK_SIZE
    requires UsedCount(Histogram(input, 256)) < 2 || c.Described().None?
    ensures !t.CodedPays(input, c)
  {
    hide Candidate.Described, Histogram, UsedCount, Coded, Terms.CodedFits, Terms.CodedSize, CodedLimit;
  }

  lemma AbleIs(t: Terms, input: seq<byte>)
    ensures t.Able(input) <==> t.reuse && t.held.Some? && Coded(t.held.value.weights, t.held.value.maxBits, input)
  {
    hide Coded;
  }

  lemma WinsIs(t: Terms, input: seq<byte>, c: Candidate)
    requires Coded(c.h.weights, c.h.maxBits, input) && c.Described().Some?
    ensures t.QuickLoss(input, c.Described().value)
        <==> t.quick && c.Described().value + TABLE_OVERHEAD >= |input|
    ensures t.HeldWins(input, c)
        <==> && t.reuse && t.held.Some? && Coded(t.held.value.weights, t.held.value.maxBits, input)
             && (|| t.QuickLoss(input, c.Described().value)
                 || |EncodeSyms(t.held.value.weights, t.held.value.maxBits, input)|
                    < |EncodeSyms(c.h.weights, c.h.maxBits, input)| + 8 * c.Described().value)
  {
    hide Coded, EncodeSyms, Candidate.Described;
  }

  lemma PaysIs(t: Terms, input: seq<byte>, c: Candidate)
    requires |input| <= E.MAX_BLOCK_SIZE && UsedCount(Histogram(input, 256)) >= 2
    requires Coded(c.h.weights, c.h.maxBits, input) && c.Described().Some?
    requires t.HeldWins(input, c) ==>
               t.held.Some? && Coded(t.held.value.weights, t.held.value.maxBits, input)
    ensures var d, n := c.Described().value, PickStreamCount(|input|);
            var room, wins := t.capacity - HeaderSize(|input|), t.HeldWins(input, c);
            var used, described := if wins then t.held.value else c.h, if wins then 0 else d;
            && t.CodedSize(input, c) == described + StreamsSize(used, input, n)
            && (t.CodedPays(input, c) <==>
                && (wins || !t.QuickLoss(input, d)) && StreamsFit(used, input, n, room - described)
                && described + StreamsSize(used, input, n) < CodedLimit(|input|)
                && HeaderSize(|input|) + described + StreamsSize(used, input, n) < RawSize(|input|))
  {
    hide Coded, Candidate.Described, StreamsSize, StreamsFit, Terms.HeldWins, Terms.QuickLoss, HeaderSize, CodedLimit,
      RawSize, Histogram, UsedCount, PickStreamCount;
  }

  lemma NoRoom(h: HuffmanTable, input: seq<byte>, streamCount: nat, room: int)
    requires Coded(h.weights, h.maxBits, input)
    ensures room < 0 ==> !StreamsFit(h, input, streamCount, room)
  {
    hide Coded, RoomFor;
  }

  lemma CodedWhen(t: Terms, input: seq<byte>, c: Candidate, bytes: seq<byte>, kept: bool,
                  newHeld: Option<HuffmanTable>)
    requires |input| <= E.MAX_BLOCK_SIZE && t.CodedPays(input, c)
    requires Coded(c.h.weights, c.h.maxBits, input) && c.Described().Some?
    requires |bytes| == HeaderSize(|input|) + t.CodedSize(input, c)
    requires kept == t.HeldWins(input, c) && newHeld == if kept then t.held else Some(c.h)
    ensures CodedAs(t, input, c, bytes, kept, newHeld)
  {
    hide Coded, Candidate.Described, Terms.CodedPays, Terms.CodedSize, Terms.HeldWins, HeaderSize;
  }

  /** The size of a coded section, and the table held after it: the new one exactly if the held one
      does not win. */
  ghost predicate CodedAs(t: Terms, input: seq<byte>, c: Candidate, bytes: seq<byte>, kept: bool,
                          newHeld: Option<HuffmanTable>) {
    && |input| <= E.MAX_BLOCK_SIZE && t.CodedPays(input, c)
    && |bytes| == HeaderSize(|input|) + t.CodedSize(input, c)
    && kept == t.HeldWins(input, c) && newHeld == if kept then t.held else Some(c.h)
  }

  /** A held table has a cost exactly when it codes the literals, and then it is their length. */
  lemma HeldCost(table: HuffmanEncodeTable, h: HuffmanTable, input: seq<byte>, counts: seq<nat>)
    requires ValidTable(h) && table.EncodesBy(h.weights) && table.maxBits == h.maxBits
    requires counts == Histogram(input, 256)
    ensures |table.codes| == 256
    ensures Coded(h.weights, h.maxBits, input) ==>
              && (forall s :: 0 <= s < 256 && counts[s] > 0 ==> table.codes[s].bitCount > 0)
              && CodedCost(counts, table.codes, 256) == |EncodeSyms(h.weights, h.maxBits, input)|
  {
    hide ValidTable, HuffmanEncodeTable.EncodesBy, CodedCost, EncodeSyms, CodeLength;
    HasCodes(table, h);
    if Coded(h.weights, h.maxBits, input) {
      CostIsLength(table, h, input);
      forall s | 0 <= s < 256 && counts[s] > 0
        ensures table.codes[s].bitCount > 0
      {
        assert s in multiset(input);
        var i :| 0 <= i < |input| && input[i] == s;
        CodeLengthIs(table, h, s);
        LengthPositive(h, s);
      }
    }
  }

  lemma LengthPositive(h: HuffmanTable, s: nat)
    requires s < |h.weights| && 0 < h.weights[s] <= h.maxBits
    ensures CodeLength(h.weights, h.maxBits, s) > 0
  {
  }

  lemma StandsParts(table: HuffmanEncodeTable, held: Option<HuffmanTable>)
    requires Stands(table, held)
    ensures |table.codes| == 256
    ensures held.Some? ==>
              ValidTable(held.value) && table.EncodesBy(held.value.weights) && table.maxBits == held.value.maxBits
  {
    hide ValidTable;
  }

  /** The literals of a block have formats; both kinds of coded section have the same header. */
  lemma FormatFits(n: nat)
    requires n <= E.MAX_BLOCK_SIZE
    ensures PickRawSizeFormat(n).Some? && PickSizeFormat(PickStreamCount(n), n).Some?
    ensures var f := PickSizeFormat(PickStreamCount(n), n).value;
            && HeaderSize(n) == LiteralsHeaderLength(Compressed, f) == LiteralsHeaderLength(Treeless, f)
            && CodedLimit(n) == LiteralsSizeLimit(f)
    ensures PickStreamCount(n) == 1 || PickStreamCount(n) == 4
  {
    StreamCountIs(n);
  }

  lemma SizesAre(sizeFormat: nat, streamCount: nat, n: nat, compressedSize: nat)
    requires streamCount == 1 || streamCount == 4
    requires PickSizeFormat(streamCount, n) == Some(sizeFormat) && compressedSize < LiteralsSizeLimit(sizeFormat)
    requires n <= E.MAX_BLOCK_SIZE
    ensures SizesFit(sizeFormat, streamCount, n, compressedSize)
  {
  }

  /** `write_raw_literals`. */
  method WriteRawLiterals(input: seq<byte>, capacity: nat, ghost held: Option<HuffmanTable>)
    returns (bytes: Option<seq<byte>>)
    requires |input| <= E.MAX_BLOCK_SIZE
    ensures bytes.Some? ==> |bytes.value| <= capacity && Carries(bytes.value, input, held, held)
    ensures bytes == RawWithin(input, capacity)
    ensures bytes.Some? <==> RawSize(|input|) <= capacity
    ensures bytes.Some? ==> |bytes.value| == RawSize(|input|)
  {
    hide *;
    RawSizeIs(|input|);
    RawWithinIs(input, capacity);
    var sizeFormat := PickRawSizeFormat(|input|);
    RawFits(|input|);
    var header := WriteLiteralsHeader(Raw, sizeFormat.value, |input|, |input|);
    if |header| + |input| > capacity {
      return None;
    }
    RawCarries(input, sizeFormat.value, held);
    return Some(header + input);
  }

  lemma RawWithinIs(input: seq<byte>, capacity: nat)
    requires |input| <= E.MAX_BLOCK_SIZE
    ensures PickRawSizeFormat(|input|).Some?
    ensures RawWithin(input, capacity)
         == if RawSize(|input|) <= capacity then
              Some(WriteLiteralsHeader(Raw, PickRawSizeFormat(|input|).value, |input|, |input|) + input)
            else None
  {
    hide WriteLiteralsHeader, RawSize;
  }

  lemma RleWithinIs(input: seq<byte>, capacity: nat)
    requires 0 < |input| <= E.MAX_BLOCK_SIZE
    ensures PickRawSizeFormat(|input|).Some?
    ensures var header := WriteLiteralsHeader(Rle, PickRawSizeFormat(|input|).value, |input|, 1);
            RleWithin(input, capacity) == if |header| + 1 <= capacity then Some(header + [input[0]]) else None
  {
    hide WriteLiteralsHeader;
  }

  lemma RawFits(n: nat)
    requires n <= E.MAX_BLOCK_SIZE
    ensures PickRawSizeFormat(n).Some? && RawFormatFits(PickRawSizeFormat(n).value, n)
  {
  }

  /** `write_literals`: for every input, table and hint, the section takes the form the terms give it;
      it carries the literals, and a table stays or becomes held exactly when the decoder then holds
      it too. It is never longer than the raw section, and where that has room some section is
      written. */
  method WriteLiterals(input: seq<byte>, capacity: nat, table: HuffmanEncodeTable, tableReuseAllowed: bool,
                       sequenceCount: nat, allowQuickRaw: bool, ghost held: Option<HuffmanTable>)
    returns (bytes: Option<seq<byte>>, newTable: HuffmanEncodeTable, ghost newHeld: Option<HuffmanTable>,
             ghost c: Candidate)
    requires |input| <= E.MAX_BLOCK_SIZE && Stands(table, held)
    ensures newTable == table || fresh(newTable)
    ensures bytes.Some? ==>
              |bytes.value| <= capacity && Stands(newTable, newHeld) && Carries(bytes.value, input, held, newHeld)
    ensures bytes.Some? ==> |bytes.value| <= RawSize(|input|)
    ensures RawSize(|input|) <= capacity ==> bytes.Some?
    ensures Terms(capacity, tableReuseAllowed, allowQuickRaw, held).Takes(input, sequenceCount, c, bytes,
                                                                          newTable == table)
    ensures newHeld == if newTable == table then held else Some(c.h)
  {
    hide *;
    bytes, newTable, newHeld := None, table, held;
    ghost var t := Terms(capacity, tableReuseAllowed, allowQuickRaw, held);
    c := Candidate(HuffmanTable([], 0), [], 0);
    RawFits(|input|);
    RawSizeIs(|input|);
    var quickRaw := PickQuickRaw(input, sequenceCount, allowQuickRaw);
    if input == [] || quickRaw {
      bytes := WriteRawLiterals(input, capacity, held);
      TakesQuickly(t, input, sequenceCount, c);
      return;
    }
    var counts := CountSymbols(input, 256);
    var largestCount := GetLargestCount(counts);
    RepeatedIs(input, counts);
    if largestCount == |input| {
      OnlyByte(input, counts);
      RleWithinIs(input, capacity);
      TakesRepeated(t, input, sequenceCount, c);
      var sizeFormat := PickRawSizeFormat(|input|);
      var header := WriteLiteralsHeader(Rle, sizeFormat.value, |input|, 1);
      if |header| + 1 > capacity {
        return;
      }
      RleCarries(input[0], |input|, sizeFormat.value, held);
      bytes := Some(header + [input[0]]);
      return;
    }
    if allowQuickRaw && IsTooFlat(largestCount, |input|) {
      bytes := WriteRawLiterals(input, capacity, held);
      TakesFlat(t, input, sequenceCount, c);
      return;
    }
    var coded, codedTable;
    ghost var codedHeld;
    coded, codedTable, codedHeld, c := WriteCompressedLiterals(input, counts, capacity, table, tableReuseAllowed,
                                                               allowQuickRaw, held);
    if coded.Some? {
      TakesCoded(t, input, sequenceCount, c, coded.value, codedTable == table, codedHeld);
      return coded, codedTable, codedHeld, c;
    }
    bytes := WriteRawLiterals(input, capacity, held);
    TakesRaw(t, input, sequenceCount, c);
  }

  lemma TakesQuickly(t: Terms, input: seq<byte>, sequenceCount: nat, c: Candidate)
    requires |input| <= E.MAX_BLOCK_SIZE && (input == [] || IsQuickRaw(input, sequenceCount, t.quick))
    ensures t.Takes(input, sequenceCount, c, RawWithin(input, t.capacity), true)
  {
    hide IsQuickRaw, RawWithin, Terms.CodedPays;
  }

  lemma TakesRepeated(t: Terms, input: seq<byte>, sequenceCount: nat, c: Candidate)
    requires 0 < |input| <= E.MAX_BLOCK_SIZE && !IsQuickRaw(input, sequenceCount, t.quick) && IsRepeated(input)
    ensures t.Takes(input, sequenceCount, c, RleWithin(input, t.capacity), true)
  {
    hide IsQuickRaw, RawWithin, RleWithin, IsRepeated, Terms.CodedPays;
  }

  lemma TakesFlat(t: Terms, input: seq<byte>, sequenceCount: nat, c: Candidate)
    requires 0 < |input| <= E.MAX_BLOCK_SIZE && !IsQuickRaw(input, sequenceCount, t.quick) && !IsRepeated(input)
    requires t.quick && IsTooFlat(GetLargestCount(Histogram(input, 256)), |input|)
    ensures t.Takes(input, sequenceCount, c, RawWithin(input, t.capacity), true)
  {
    hide IsQuickRaw, RawWithin, IsRepeated, IsTooFlat, GetLargestCount, Histogram, Terms.CodedPays;
  }

  lemma TakesCoded(t: Terms, input: seq<byte>, sequenceCount: nat, c: Candidate, bytes: seq<byte>, kept: bool,
                   newHeld: Option<HuffmanTable>)
    requires 0 < |input| <= E.MAX_BLOCK_SIZE && !IsQuickRaw(input, sequenceCount, t.quick) && !IsRepeated(input)
    requires !(t.quick && IsTooFlat(GetLargestCount(Histogram(input, 256)), |input|))
    requires CodedAs(t, input, c, bytes, kept, newHeld) && c.Fits(input)
    ensures t.Takes(input, sequenceCount, c, Some(bytes), kept)
    ensures newHeld == if kept then t.held else Some(c.h)
  {
    hide IsQuickRaw, IsRepeated, IsTooFlat, GetLargestCount, Histogram, Terms.CodedFits, Terms.CodedSize,
      Terms.HeldWins, Candidate.Described, Candidate.Fits, UsedCount, CodedLimit, HeaderSize, RawSize, Coded;
  }

  lemma TakesRaw(t: Terms, input: seq<byte>, sequenceCount: nat, c: Candidate)
    requires 0 < |input| <= E.MAX_BLOCK_SIZE && !IsQuickRaw(input, sequenceCount, t.quick) && !IsRepeated(input)
    requires !(t.quick && IsTooFlat(GetLargestCount(Histogram(input, 256)), |input|)) && !t.CodedPays(input, c)
    ensures t.Takes(input, sequenceCount, c, RawWithin(input, t.capacity), true)
  {
    hide IsQuickRaw, RawWithin, IsRepeated, IsTooFlat, GetLargestCount, Histogram, Terms.CodedPays;
  }

  lemma EveryByte(input: seq<byte>, s: nat, i: nat)
    requires s < 256 && Histogram(input, 256)[s] == |input| && i < |input|
    ensures input[i] == s
  {
    var value, all := input[i], multiset(input);
    assert value in all;
    var others := all[s := 0];
    assert |others| == |all| - all[s];
    assert value != s ==> value in others;
  }

  /** The literals are one byte throughout exactly if some byte occurs as often as there are literals. */
  lemma RepeatedIs(input: seq<byte>, counts: seq<nat>)
    requires input != [] && counts == Histogram(input, 256)
    ensures GetLargestCount(counts) == |input| <==> IsRepeated(input)
  {
    hide GetLargestCount, Histogram;
    if GetLargestCount(counts) == |input| {
      var s :| 0 <= s < |counts| && counts[s] == |input|;
      forall i: nat | i < |input|
        ensures input[i] == s
      {
        EveryByte(input, s, i);
      }
    }
    if IsRepeated(input) {
      RepeatedCount(input);
      HistogramSmall(input, 256);
    }
  }

  lemma RepeatedCount(input: seq<byte>)
    requires input != [] && IsRepeated(input)
    ensures Histogram(input, 256)[input[0]] == |input|
  {
    var others := multiset(input)[input[0] := 0];
    assert forall v :: v in others ==> v in multiset(input);
    assert others == multiset{};
    assert |multiset(input)| == |others| + multiset(input)[input[0]];
  }

  lemma OnlyByte(input: seq<byte>, counts: seq<nat>)
    requires input != [] && counts == Histogram(input, 256) && GetLargestCount(counts) == |input|
    ensures input == seq(|input|, _ => input[0])
  {
    hide Histogram, GetLargestCount;
    RepeatedIs(input, counts);
  }
}
