/** A literals section (section 3.1.1.3.1 of RFC 8878): what its bytes mean given the Huffman table
    still held, and the decoder that finds it. */
module LiteralsSection {
  import opened Bits
  import opened BitReader
  import opened HuffmanCodes
  import opened HuffmanWeights
  import opened HuffmanTables
  import opened HuffmanStream
  import opened FourStreams
  import opened HuffmanFast
  import opened SectionHeaders
  import opened FseTables
  import E = SequenceExecution
  import opened BlockDecoder

  /** A Huffman table is its weights; both sides derive their form from them. */
  datatype HuffmanTable = HuffmanTable(weights: seq<nat>, maxBits: nat)

  ghost predicate ValidTable(h: HuffmanTable) {
    Complete(h.weights, h.maxBits)
  }

  // ---------------------------------------------------------------- the decode cells of a table

  ghost function CellFor(h: HuffmanTable, c: nat): DecodeCell {
    if exists s: nat :: Owns(h.weights, s, c) then
      var s: nat :| Owns(h.weights, s, c);
      DecodeCell(s, if h.weights[s] <= h.maxBits then CodeLength(h.weights, h.maxBits, s) else 0)
    else DecodeCell(0, 0)
  }

  ghost function Cells(h: HuffmanTable): (cells: seq<DecodeCell>)
    requires ValidTable(h)
    ensures Usable(cells, h.maxBits) && HuffmanDecodeTable.Filled(cells, h.weights, h.maxBits, Pow2(h.maxBits))
  {
    CellsUsable(h);
    seq(MAX_HUFFMAN_TABLE_SIZE, c requires 0 <= c => CellFor(h, c))
  }

  lemma CellsUsable(h: HuffmanTable)
    requires ValidTable(h)
    ensures var cells := seq(MAX_HUFFMAN_TABLE_SIZE, c requires 0 <= c => CellFor(h, c));
            Usable(cells, h.maxBits) && HuffmanDecodeTable.Filled(cells, h.weights, h.maxBits, Pow2(h.maxBits))
  {
    hide Units, Start, Owns, Pow2, CellFor, Complete;
    TableBounds(h);
    forall s: nat, c: nat | Owns(h.weights, s, c)
      ensures s < |h.weights| && h.weights[s] > 0
      ensures CellFor(h, c)
            == DecodeCell(s, if h.weights[s] <= h.maxBits then CodeLength(h.weights, h.maxBits, s) else 0)
    {
      CellOf(h, s, c);
    }
    forall c: nat | c < Pow2(h.maxBits)
      ensures 1 <= CellFor(h, c).bitCount <= h.maxBits && CellFor(h, c).symbol < 256
    {
      var s := OwnerOf(h.weights, c);
      CellOf(h, s, c);
      CodeBound(h, s);
    }
  }

  lemma TableBounds(h: HuffmanTable)
    requires ValidTable(h)
    ensures 1 <= h.maxBits <= MAX_BITS && Pow2(h.maxBits) <= MAX_HUFFMAN_TABLE_SIZE
    ensures Units(h.weights) == Pow2(h.maxBits)
    ensures |h.weights| <= 256
  {
    hide Units, Pow2;
    TableBound(h.maxBits);
  }

  lemma CellOf(h: HuffmanTable, s: nat, c: nat)
    requires Owns(h.weights, s, c)
    ensures s < |h.weights| && h.weights[s] > 0
    ensures CellFor(h, c) == DecodeCell(s, if h.weights[s] <= h.maxBits then CodeLength(h.weights, h.maxBits, s) else 0)
  {
    hide Units, Start, Pow2;
    forall t: nat | Owns(h.weights, t, c)
      ensures t == s
    {
      OneOwner(h.weights, s, t, c);
    }
  }

  lemma CodeBound(h: HuffmanTable, s: nat)
    requires ValidTable(h) && s < |h.weights| && h.weights[s] > 0
    ensures h.weights[s] <= h.maxBits && 1 <= CodeLength(h.weights, h.maxBits, s) <= h.maxBits && s < 256
  {
    hide Units, Pow2;
  }

  /** Tables filled by the same weights decode alike. */
  lemma FilledAgree(a: seq<DecodeCell>, b: seq<DecodeCell>, h: HuffmanTable, c: nat)
    requires ValidTable(h) && c < Pow2(h.maxBits)
    requires HuffmanDecodeTable.Filled(a, h.weights, h.maxBits, Pow2(h.maxBits))
    requires HuffmanDecodeTable.Filled(b, h.weights, h.maxBits, Pow2(h.maxBits))
    ensures c < |a| && c < |b| && a[c] == b[c]
  {
    hide Units, Start, Owns, Pow2, Complete;
    TableBounds(h);
    var s := OwnerOf(h.weights, c);
    CellOf(h, s, c);
    CodeBound(h, s);
  }

  lemma {:induction false} DecodeAlike(a: seq<DecodeCell>, b: seq<DecodeCell>, h: HuffmanTable, rest: seq<bool>,
                                       overran: bool, n: nat)
    requires ValidTable(h) && Usable(a, h.maxBits) && Usable(b, h.maxBits)
    requires HuffmanDecodeTable.Filled(a, h.weights, h.maxBits, Pow2(h.maxBits))
    requires HuffmanDecodeTable.Filled(b, h.weights, h.maxBits, Pow2(h.maxBits))
    ensures DecodeSyms(a, h.maxBits, rest, overran, n) == DecodeSyms(b, h.maxBits, rest, overran, n)
    decreases n
  {
    hide Usable, Pow2, Complete, HuffmanDecodeTable.Filled, PeekEnd, DropEnd;
    if n > 0 {
      CellAlike(a, b, h, rest);
      var cell := CellAt(a, h.maxBits, rest);
      DecodeAlike(a, b, h, DropEnd(rest, cell.bitCount), overran || cell.bitCount > |rest|, n - 1);
    }
  }

  lemma CellAlike(a: seq<DecodeCell>, b: seq<DecodeCell>, h: HuffmanTable, rest: seq<bool>)
    requires ValidTable(h) && Usable(a, h.maxBits) && Usable(b, h.maxBits)
    requires HuffmanDecodeTable.Filled(a, h.weights, h.maxBits, Pow2(h.maxBits))
    requires HuffmanDecodeTable.Filled(b, h.weights, h.maxBits, Pow2(h.maxBits))
    ensures CellAt(a, h.maxBits, rest) == CellAt(b, h.maxBits, rest)
  {
    hide Pow2, Complete, HuffmanDecodeTable.Filled;
    FilledAgree(a, b, h, PeekEnd(rest, h.maxBits));
  }

  /** The symbols of one stream under a table. */
  ghost function StreamOf(h: HuffmanTable, stream: seq<byte>, n: nat): (symbols: Option<seq<byte>>)
    requires ValidTable(h)
    ensures symbols.Some? ==> |symbols.value| == n
    ensures symbols == StreamSymbols(stream, Cells(h), h.maxBits, n)
  {
    hide DecodeSyms, Usable, HuffmanDecodeTable.Filled, Complete, MarkedBits;
    var symbols := StreamSymbols(stream, Cells(h), h.maxBits, n);
    if symbols.None? then None else SymbolsAreBytes(h, stream, n); Some(symbols.value)
  }

  lemma SymbolsAreBytes(h: HuffmanTable, stream: seq<byte>, n: nat)
    requires ValidTable(h)
    ensures var symbols := StreamSymbols(stream, Cells(h), h.maxBits, n);
            symbols.Some? ==> forall i :: 0 <= i < |symbols.value| ==> symbols.value[i] < 256
  {
    hide Usable, HuffmanDecodeTable.Filled, Complete, MarkedBits;
  }

  // ---------------------------------------------------------------- one or four streams

  /** The streams behind a jump table. */
  ghost function StreamsIn(section: seq<byte>): (streams: Option<seq<seq<byte>>>)
    ensures streams.Some? ==> Layout(section, streams.value)
  {
    if exists streams: seq<seq<byte>> :: Layout(section, streams) then
      var streams: seq<seq<byte>> :| Layout(section, streams);
      Some(streams)
    else None
  }

  lemma LayoutUnique(section: seq<byte>, a: seq<seq<byte>>, b: seq<seq<byte>>)
    requires Layout(section, a) && Layout(section, b)
    ensures a == b
  {
    JoinedFour(a);
    JoinedFour(b);
    var body := section[JUMP_TABLE_SIZE..];
    var i, j, k := |a[0]|, |a[0]| + |a[1]|, |a[0]| + |a[1]| + |a[2]|;
    FourParts(body, a[0], a[1], a[2], a[3]);
    FourParts(body, b[0], b[1], b[2], b[3]);
    assert a == [a[0], a[1], a[2], a[3]] && b == [b[0], b[1], b[2], b[3]];
  }

  lemma JoinedFour(streams: seq<seq<byte>>)
    requires |streams| == STREAM_COUNT
    ensures Joined(streams) == streams[0] + (streams[1] + (streams[2] + streams[3]))
  {
    JoinedStep(streams, 0);
    JoinedStep(streams, 1);
    JoinedStep(streams, 2);
    JoinedStep(streams, 3);
    assert streams[0..] == streams && streams[4..] == [];
    assert streams[3] + [] == streams[3];
  }

  lemma JoinedStep(streams: seq<seq<byte>>, i: nat)
    requires i < |streams|
    ensures Joined(streams[i..]) == streams[i] + Joined(streams[i + 1..])
  {
    assert streams[i..][1..] == streams[i + 1..];
  }

  lemma FourParts(body: seq<byte>, a: seq<byte>, b: seq<byte>, c: seq<byte>, d: seq<byte>)
    requires body == a + (b + (c + d))
    ensures |a| + |b| + |c| <= |body|
    ensures body[..|a|] == a && body[|a|..|a| + |b|] == b
    ensures body[|a| + |b|..|a| + |b| + |c|] == c && body[|a| + |b| + |c|..] == d
  {
  }

  function SegmentLength(n: nat, i: nat): nat
    requires i < STREAM_COUNT
  {
    SegmentStartMono(n, i);
    SegmentStart(n, i + 1) - SegmentStart(n, i)
  }

  /** The four segments, one behind the other. */
  ghost function FourSymbols(h: HuffmanTable, streams: seq<seq<byte>>, n: nat): Option<seq<byte>>
    requires ValidTable(h) && |streams| == STREAM_COUNT
  {
    var a, b := StreamOf(h, streams[0], SegmentLength(n, 0)), StreamOf(h, streams[1], SegmentLength(n, 1));
    var c, d := StreamOf(h, streams[2], SegmentLength(n, 2)), StreamOf(h, streams[3], SegmentLength(n, 3));
    if a.None? || b.None? || c.None? || d.None? then None else Some(a.value + b.value + c.value + d.value)
  }

  /** The literals of a section's streams. */
  ghost function SymbolsOf(h: HuffmanTable, section: seq<byte>, streamCount: nat, n: nat): Option<seq<byte>>
    requires ValidTable(h)
  {
    if streamCount == 1 then StreamOf(h, section, n)
    else
      var streams := StreamsIn(section);
      if Splits(section, n) then FourSymbols(h, streams.value, n) else None
  }

  lemma SymbolsLength(h: HuffmanTable, section: seq<byte>, streamCount: nat, n: nat)
    requires ValidTable(h)
    ensures SymbolsOf(h, section, streamCount, n).Some? ==> |SymbolsOf(h, section, streamCount, n).value| == n
  {
    hide ValidTable, SegmentStart;
    SegmentStartMono(n, 0);
    SegmentStartMono(n, 1);
    SegmentStartMono(n, 2);
    SegmentStartMono(n, 3);
    SegmentEnds(n);
  }

  // ---------------------------------------------------------------- the section

  /** The table a description stands for, and the bytes it takes. */
  ghost function DescribedTable(section: seq<byte>): (t: Option<(HuffmanTable, nat)>)
    ensures t.Some? ==> ValidTable(t.value.0) && t.value.1 <= |section|
  {
    var weights := TableWeights(section);
    if weights.None? || !Completable(weights.value.0) then None
    else
      var prefix := weights.value.0;
      TableBytesFit(section);
      var w: nat, m: nat :| Completes(prefix, w, m);
      Some((HuffmanTable(prefix + [w], m), weights.value.1))
  }

  lemma TableBytesFit(section: seq<byte>)
    ensures TableWeights(section).Some? ==> TableWeights(section).value.1 <= |section|
  {
    hide FseWeights, Nibbles;
  }

  /** Only one weight completes a prefix. */
  lemma OneCompletion(prefix: seq<nat>, w: nat, m: nat, v: nat, n: nat)
    requires Completes(prefix, w, m) && Completes(prefix, v, n)
    ensures w == v && m == n
  {
    hide Units, HighestBit, Ones, Completes;
    CompletesIs(prefix, w, m);
    CompletesIs(prefix, v, n);
  }

  /** The literals, the bytes used, and the table held from then on. */
  datatype LiteralsRead = LiteralsRead(literals: seq<byte>, used: nat, table: Option<HuffmanTable>)

  ghost predicate ValidHeld(held: Option<HuffmanTable>) {
    held.Some? ==> ValidTable(held.value)
  }

  ghost function LiteralsOf(input: seq<byte>, held: Option<HuffmanTable>): (r: Option<LiteralsRead>)
    requires ValidHeld(held)
    ensures r.Some? ==> r.value.used <= |input| && ValidHeld(r.value.table)
  {
    var h := ReadLiteralsHeader(input);
    if h.None? || h.value.regeneratedSize > E.MAX_BLOCK_SIZE then None
    else
      var start, n := h.value.headerLength, h.value.regeneratedSize;
      match h.value.literalsType
      case Raw => if start + n > |input| then None else Some(LiteralsRead(input[start..start + n], start + n, held))
      case Rle => if start >= |input| then None else Some(LiteralsRead(seq(n, _ => input[start]), start + 1, held))
      case Compressed => if start + h.value.compressedSize > |input| then None else OwnTable(input, h.value)
      case Treeless =>
        if held.None? || start + h.value.compressedSize > |input| then None
        else CodedLiterals(held.value, input[start..start + h.value.compressedSize], h.value)
  }

  /** A section that brings its table. */
  ghost function OwnTable(input: seq<byte>, h: LiteralsHeader): (r: Option<LiteralsRead>)
    requires h.headerLength + h.compressedSize <= |input|
    ensures r.Some? ==> r.value.used == h.headerLength + h.compressedSize && ValidHeld(r.value.table)
  {
    var section := input[h.headerLength..h.headerLength + h.compressedSize];
    var table := DescribedTable(section);
    if table.None? then None else CodedLiterals(table.value.0, section[table.value.1..], h)
  }

  ghost function CodedLiterals(table: HuffmanTable, streams: seq<byte>, h: LiteralsHeader): (r: Option<LiteralsRead>)
    requires ValidTable(table)
    ensures r.Some? ==> r.value.used == h.headerLength + h.compressedSize && r.value.table == Some(table)
  {
    var symbols := SymbolsOf(table, streams, h.streamCount, h.regeneratedSize);
    if symbols.None? then None
    else Some(LiteralsRead(symbols.value, h.headerLength + h.compressedSize, Some(table)))
  }

  // ---------------------------------------------------------------- decoding

  /** The decoder's table object stands for the abstract one. */
  ghost predicate Holds(table: HuffmanDecodeTable, held: Option<HuffmanTable>)
    reads table
  {
    && |table.entries| == MAX_HUFFMAN_TABLE_SIZE && (table.isReady <==> held.Some?)
    && (held.Some? ==> table.DecodesBy(held.value.weights) && table.maxBits == held.value.maxBits)
  }

  lemma TableStream(table: HuffmanDecodeTable, h: HuffmanTable, stream: seq<byte>, n: nat)
    requires table.DecodesBy(h.weights) && table.maxBits == h.maxBits
    ensures ValidTable(h) && Usable(table.entries, table.maxBits)
    ensures StreamSymbols(stream, table.entries, table.maxBits, n) == StreamOf(h, stream, n)
  {
    hide Usable, DecodeSyms, HuffmanDecodeTable.Filled, Units, Pow2, MarkedBits;
    ReadyIsUsable(table, h.weights);
    if MarkedBits(stream).Some? {
      DecodeAlike(table.entries, Cells(h), h, MarkedBits(stream).value, false, n);
    }
  }

  lemma SymbolsWhen(h: HuffmanTable, section: seq<byte>, streamCount: nat, n: nat)
    requires ValidTable(h)
    ensures streamCount == 1 ==> SymbolsOf(h, section, streamCount, n) == StreamOf(h, section, n)
    ensures streamCount != 1 && !Splits(section, n) ==> SymbolsOf(h, section, streamCount, n).None?
    ensures streamCount != 1 && Splits(section, n) ==>
              SymbolsOf(h, section, streamCount, n) == FourSymbols(h, StreamsIn(section).value, n)
  {
    hide ValidTable, StreamOf, FourSymbols, Layout;
  }

  /** Four non-empty streams and four non-empty segments. */
  ghost predicate Splits(section: seq<byte>, n: nat) {
    && StreamsIn(section).Some? && 3 * SegmentSize(n) < n
    && forall i :: 0 <= i < STREAM_COUNT ==> StreamsIn(section).value[i] != []
  }

  lemma NotSplit(section: seq<byte>, n: nat, expected: seq<seq<byte>>)
    requires StreamsIn(section).Some? ==> expected == StreamsIn(section).value
    requires !(&& Layout(section, expected) && (forall i :: 0 <= i < 4 ==> expected[i] != [])
               && 3 * SegmentSize(n) < n)
    ensures !Splits(section, n)
  {
  }

  lemma SplitGives(section: seq<byte>, streams: seq<seq<byte>>, n: nat)
    requires Layout(section, streams) && 3 * SegmentSize(n) < n && forall i :: 0 <= i < 4 ==> streams[i] != []
    ensures Splits(section, n) && StreamsIn(section) == Some(streams)
  {
    hide SegmentSize, Layout;
    LayoutUnique(section, streams, StreamsIn(section).value);
    LayoutFour(section, streams);
  }

  lemma LayoutFour(section: seq<byte>, streams: seq<seq<byte>>)
    requires Layout(section, streams)
    ensures |streams| == 4 && forall i :: 0 <= i < 4 ==> |streams[i]| <= |section|
  {
    JoinedFour(streams);
  }

  /** The job of segment `i` of a section whose literals start at `base`. */
  ghost predicate JobOf(job: StreamJob, stream: seq<byte>, entries: seq<DecodeCell>, maxBits: nat, base: nat, n: nat,
                        i: nat) {
    i < 4 && job == StreamJob(stream, entries, maxBits, base + SegmentStart(n, i), SegmentLength(n, i))
  }

  lemma JobsFit(jobs: seq<StreamJob>, section: seq<byte>, streams: seq<seq<byte>>, entries: seq<DecodeCell>,
                maxBits: nat, base: nat, n: nat)
    requires Layout(section, streams) && |streams| == 4 && (forall i :: 0 <= i < 4 ==> streams[i] != [])
    requires |section| <= 262144
    requires Usable(entries, maxBits) && |jobs| == 4
    requires forall i :: 0 <= i < 4 ==> JobOf(jobs[i], streams[i], entries, maxBits, base, n, i)
    ensures JobsApart(jobs)
    ensures forall i :: 0 <= i < |jobs| ==> Decodable(jobs[i], base + n) && base <= jobs[i].output
  {
    hide Layout, Usable, SegmentStart, SegmentLength;
    LayoutFour(section, streams);
    forall i, j | 0 <= i < 4 && 0 <= j < 4 && i != j
      ensures jobs[i].output + jobs[i].length <= jobs[j].output || jobs[j].output + jobs[j].length <= jobs[i].output
    {
      SegmentsOrdered(n, i, j);
      SegmentsOrdered(n, j, i);
    }
    forall i | 0 <= i < 4
      ensures Decodable(jobs[i], base + n) && base <= jobs[i].output
    {
      SegmentsOrdered(n, i, 4);
    }
  }

  lemma SegmentsOrdered(n: nat, i: nat, j: nat)
    requires i < 4 && j <= 4
    ensures SegmentStart(n, i) + SegmentLength(n, i) == SegmentStart(n, i + 1) <= n
    ensures i < j ==> SegmentStart(n, i + 1) <= SegmentStart(n, j)
    decreases j
  {
    hide SegmentStart;
    SegmentStartMono(n, i);
    if i + 1 < j {
      SegmentsOrdered(n, i, j - 1);
      SegmentStartMono(n, j - 1);
    }
  }

  /** Four jobs are accepted exactly when their section has literals, and then deliver them. */
  lemma JobsDeliver(jobs: seq<StreamJob>, streams: seq<seq<byte>>, table: HuffmanDecodeTable, h: HuffmanTable,
                    output: seq<byte>, base: nat, n: nat)
    requires table.DecodesBy(h.weights) && table.maxBits == h.maxBits && |streams| == |jobs| == 4
    requires base + n <= |output|
    requires forall i :: 0 <= i < 4 ==> JobOf(jobs[i], streams[i], table.entries, table.maxBits, base, n, i)
    ensures ValidTable(h)
    ensures (forall i :: 0 <= i < 4 ==> Accepted(jobs[i])) <==> FourSymbols(h, streams, n).Some?
    ensures (forall i :: 0 <= i < 4 ==> Delivered(jobs[i], output)) ==>
              FourSymbols(h, streams, n) == Some(output[base..base + n])
  {
    hide ValidTable, StreamOf, Usable, SegmentStart, StreamSymbols, HuffmanDecodeTable.DecodesBy, Accepted, Delivered,
      JobOf, Segment;
    var literals := output[base..base + n];
    forall i: nat | i < 4
      ensures ValidTable(h) && (Accepted(jobs[i]) <==> StreamOf(h, streams[i], SegmentLength(n, i)).Some?)
      ensures Delivered(jobs[i], output) ==> StreamOf(h, streams[i], SegmentLength(n, i)) == Some(Segment(literals, i))
    {
      JobIs(jobs[i], streams[i], table, h, output, base, n, i);
    }
    SegmentsJoin(literals);
  }

  lemma JobIs(job: StreamJob, stream: seq<byte>, table: HuffmanDecodeTable, h: HuffmanTable, output: seq<byte>,
              base: nat, n: nat, i: nat)
    requires table.DecodesBy(h.weights) && table.maxBits == h.maxBits && base + n <= |output|
    requires JobOf(job, stream, table.entries, table.maxBits, base, n, i)
    ensures ValidTable(h) && (Accepted(job) <==> StreamOf(h, stream, SegmentLength(n, i)).Some?)
    ensures Delivered(job, output) ==>
              StreamOf(h, stream, SegmentLength(n, i)) == Some(Segment(output[base..base + n], i))
  {
    hide ValidTable, StreamOf, Usable, StreamSymbols, HuffmanDecodeTable.DecodesBy, SegmentStart;
    TableStream(table, h, stream, job.length);
    SegmentStartMono(n, i);
    var literals, from, to := output[base..base + n], SegmentStart(n, i), SegmentStart(n, i + 1);
    assert |literals| == n && Segment(literals, i) == literals[from..to];
    SliceOfSlice(output, base, base + n, from, to);
  }

  /** The jobs of one section. */
  function SectionJobs(streams: seq<seq<byte>>, entries: seq<DecodeCell>, maxBits: nat, base: nat,
                       n: nat): (jobs: seq<StreamJob>)
    requires |streams| == 4
    ensures |jobs| == 4 && forall i :: 0 <= i < 4 ==> JobOf(jobs[i], streams[i], entries, maxBits, base, n, i)
  {
    seq(4,
        i requires 0 <= i < 4 => StreamJob(streams[i], entries, maxBits, base + SegmentStart(n, i),
                                           SegmentLength(n, i)))
  }

  /** `decode_streams`: the checked decoder for one stream, the lockstep one for four. */
  method DecodeStreamsOf(streamCount: nat, section: seq<byte>, table: HuffmanDecodeTable, n: nat, ghost h: HuffmanTable)
    returns (ok: bool, literals: seq<byte>)
    requires table.DecodesBy(h.weights) && table.maxBits == h.maxBits && |section| <= 262144
    ensures ValidTable(h) && (ok <==> SymbolsOf(h, section, streamCount, n).Some?)
    ensures ok ==> SymbolsOf(h, section, streamCount, n) == Some(literals)
  {
    hide *;
    TableStream(table, h, section, n);
    SymbolsWhen(h, section, streamCount, n);
    var output := new byte[n];
    if streamCount == 1 {
      IsReady(table, h);
      ok := DecodeOneStream(section, table, output);
      return ok, output[..];
    }
    ghost var expected := if StreamsIn(section).Some? then StreamsIn(section).value else [];
    var streams, lengths;
    ok, streams, lengths := SplitFourStreams(section, n, expected);
    if !ok {
      NotSplit(section, n, expected);
      return false, [];
    }
    SplitGives(section, streams, n);
    LayoutFour(section, streams);
    var jobs := SectionJobs(streams, table.entries, table.maxBits, 0, n);
    JobsFit(jobs, section, streams, table.entries, table.maxBits, 0, n);
    ok := DecodeStreams(jobs, output);
    JobsDeliver(jobs, streams, table, h, output[..], 0, n);
    assert output[..][0..n] == output[..];
    return ok, output[..];
  }

  lemma IsReady(table: HuffmanDecodeTable, h: HuffmanTable)
    requires table.DecodesBy(h.weights)
    ensures table.isReady
  {
  }

  lemma TableRead(table: HuffmanDecodeTable, section: seq<byte>, bytesUsed: nat)
    requires TableWeights(section).Some? && Completable(TableWeights(section).value.0)
    requires bytesUsed == TableWeights(section).value.1
    requires exists w: nat, m: nat ::
               Completes(TableWeights(section).value.0, w, m) && table.DecodesBy(TableWeights(section).value.0 + [w])
    ensures DescribedTable(section).Some? && DescribedTable(section).value.1 == bytesUsed <= |section|
    ensures Holds(table, Some(DescribedTable(section).value.0))
    ensures table.DecodesBy(DescribedTable(section).value.0.weights)
    ensures table.maxBits == DescribedTable(section).value.0.maxBits
  {
    hide TableWeights, Units, Owns, Pow2;
    var prefix, h := TableWeights(section).value.0, DescribedTable(section).value.0;
    var w: nat, m: nat :| Completes(prefix, w, m) && table.DecodesBy(prefix + [w]);
    var v: nat :| Completes(prefix, v, h.maxBits) && h.weights == prefix + [v];
    OneCompletion(prefix, w, m, v, h.maxBits);
    assert Completes(prefix, w, table.maxBits);
    OneCompletion(prefix, w, table.maxBits, w, m);
  }

  lemma NoTable(section: seq<byte>)
    requires !(TableWeights(section).Some? && Completable(TableWeights(section).value.0))
    ensures DescribedTable(section).None?
  {
  }

  /** The bytes of a source that is not in the output. */
  function SourceBytes(source: LiteralSource): seq<byte>
    requires !source.InOutput?
  {
    match source
    case Bytes(bytes) => bytes
    case Rle(value, count) => seq(count, _ => value)
  }

  /** `read_section_table`: the table a Huffman-coded section uses, its own or the one held, and its
      streams. */
  method ReadSectionTable(input: seq<byte>, header: LiteralsHeader, table: HuffmanDecodeTable,
                          ghost held: Option<HuffmanTable>)
    returns (ok: bool, streams: seq<byte>, ghost h: HuffmanTable)
    requires ValidHeld(held) && ReadLiteralsHeader(input) == Some(header) && |table.entries| == MAX_HUFFMAN_TABLE_SIZE
    requires header.literalsType.Treeless? ==> Holds(table, held)
    requires header.regeneratedSize <= E.MAX_BLOCK_SIZE
    requires header.literalsType.Compressed? || header.literalsType.Treeless?
    modifies table
    ensures header.literalsType.Treeless? ==> unchanged(table)
    ensures !ok ==> LiteralsOf(input, held).None?
    ensures ok ==> Holds(table, Some(h)) && ValidTable(h) && |streams| <= 262144
    ensures ok ==> LiteralsOf(input, held) == CodedLiterals(h, streams, header)
  {
    hide *;
    CodedSize(input, header);
    CodedIs(input, header, held);
    h := HuffmanTable([], 0);
    var end := header.headerLength + header.compressedSize;
    if end > |input| {
      return false, [], h;
    }
    var section := input[header.headerLength..end];
    if header.literalsType.Treeless? {
      HeldReady(table, held);
      if !table.isReady {
        return false, [], h;
      }
      ValidIs(held);
      return true, section, held.value;
    }
    var weightFseTable := new FseDecodeTable();
    var read, bytesUsed := ReadHuffmanTable(section, table, weightFseTable);
    if !read {
      NoTable(section);
      return false, [], h;
    }
    TableRead(table, section, bytesUsed);
    return true, section[bytesUsed..], DescribedTable(section).value.0;
  }

  lemma ValidIs(held: Option<HuffmanTable>)
    requires ValidHeld(held)
    ensures held.Some? ==> ValidTable(held.value)
  {
    hide ValidTable;
  }

  /** A Huffman-coded section. */
  method DecodeCoded(input: seq<byte>, header: LiteralsHeader, table: HuffmanDecodeTable,
                     ghost held: Option<HuffmanTable>)
    returns (ok: bool, literals: seq<byte>)
    requires Holds(table, held) && ValidHeld(held) && ReadLiteralsHeader(input) == Some(header)
    requires header.regeneratedSize <= E.MAX_BLOCK_SIZE
    requires header.literalsType.Compressed? || header.literalsType.Treeless?
    modifies table
    ensures ok <==> LiteralsOf(input, held).Some?
    ensures ok ==> var r := LiteralsOf(input, held).value;
                   && literals == r.literals && r.used == header.headerLength + header.compressedSize
                   && Holds(table, r.table)
  {
    hide *;
    HeldReady(table, held);
    var read, streams;
    ghost var h;
    read, streams, h := ReadSectionTable(input, header, table, held);
    if !read {
      return false, [];
    }
    HeldReady(table, Some(h));
    ok, literals := DecodeStreamsOf(header.streamCount, streams, table, header.regeneratedSize, h);
    CodedLiteralsIs(h, streams, header);
  }

  lemma HeldReady(table: HuffmanDecodeTable, held: Option<HuffmanTable>)
    requires Holds(table, held)
    ensures |table.entries| == MAX_HUFFMAN_TABLE_SIZE && (table.isReady <==> held.Some?)
    ensures held.Some? ==> table.DecodesBy(held.value.weights) && table.maxBits == held.value.maxBits
  {
  }

  lemma CodedSize(input: seq<byte>, header: LiteralsHeader)
    requires ReadLiteralsHeader(input) == Some(header)
    ensures header.headerLength <= |input|
    ensures header.literalsType.Compressed? || header.literalsType.Treeless? ==> header.compressedSize < 262144
  {
  }

  lemma CodedIs(input: seq<byte>, header: LiteralsHeader, held: Option<HuffmanTable>)
    requires ValidHeld(held) && ReadLiteralsHeader(input) == Some(header) && header.regeneratedSize <= E.MAX_BLOCK_SIZE
    requires header.literalsType.Compressed? || header.literalsType.Treeless?
    ensures header.headerLength + header.compressedSize > |input| ==> LiteralsOf(input, held).None?
    ensures header.headerLength + header.compressedSize <= |input| ==>
              var section := input[header.headerLength..header.headerLength + header.compressedSize];
              && (header.literalsType.Treeless? ==>
                    LiteralsOf(input, held) == if held.None? then None else CodedLiterals(held.value, section, header))
              && (header.literalsType.Compressed? ==>
                    var table := DescribedTable(section);
                    LiteralsOf(input, held)
                    == if table.None? then None else CodedLiterals(table.value.0, section[table.value.1..], header))
  {
    hide ReadLiteralsHeader, CodedLiterals, DescribedTable, ValidTable;
  }

  lemma CodedLiteralsIs(h: HuffmanTable, streams: seq<byte>, header: LiteralsHeader)
    requires ValidTable(h)
    ensures var symbols := SymbolsOf(h, streams, header.streamCount, header.regeneratedSize);
            CodedLiterals(h, streams, header)
            == if symbols.None? then None
               else Some(LiteralsRead(symbols.value, header.headerLength + header.compressedSize, Some(h)))
  {
    hide SymbolsOf, ValidTable;
  }

  /** `decode_literals`. Raw literals stay in the payload with what follows them; decoded ones have
      the buffer's slack behind them. */
  method DecodeLiterals(input: seq<byte>, table: HuffmanDecodeTable, ghost held: Option<HuffmanTable>)
    returns (ok: bool, source: LiteralSource, after: seq<byte>, used: nat)
    requires Holds(table, held) && ValidHeld(held)
    modifies table
    ensures ok <==> LiteralsOf(input, held).Some?
    ensures ok ==> var r := LiteralsOf(input, held).value;
                   !source.InOutput? && SourceBytes(source) == r.literals && used == r.used && Holds(table, r.table)
  {
    hide *;
    source, after, used := Bytes([]), [], 0;
    var read := ReadLiteralsHeader(input);
    PlainIs(input, held);
    if read.None? || read.value.regeneratedSize > E.MAX_BLOCK_SIZE {
      return false, source, after, used;
    }
    var header := read.value;
    CodedSize(input, header);
    var start, n := header.headerLength, header.regeneratedSize;
    if header.literalsType.Raw? {
      if start + n > |input| {
        return false, source, after, used;
      }
      source, after, used := Bytes(input[start..start + n]), input[start + n..], start + n;
      BytesAre(input[start..start + n]);
      return true, source, after, used;
    }
    if header.literalsType.Rle? {
      if start >= |input| {
        return false, source, after, used;
      }
      source, used := LiteralSource.Rle(input[start], n), start + 1;
      RepeatsAre(input[start], n);
      return true, source, after, used;
    }
    var literals;
    ok, literals := DecodeCoded(input, header, table, held);
    source, after, used := Bytes(literals), seq(32, _ => 0), header.headerLength + header.compressedSize;
    BytesAre(literals);
  }

  lemma PlainIs(input: seq<byte>, held: Option<HuffmanTable>)
    requires ValidHeld(held)
    ensures var h := ReadLiteralsHeader(input);
            && (h.None? || h.value.regeneratedSize > E.MAX_BLOCK_SIZE ==> LiteralsOf(input, held).None?)
            && (h.Some? && h.value.regeneratedSize <= E.MAX_BLOCK_SIZE ==>
                  var start, n := h.value.headerLength, h.value.regeneratedSize;
                  && (h.value.literalsType.Raw? ==>
                        LiteralsOf(input, held)
                        == if start + n > |input| then None
                           else Some(LiteralsRead(input[start..start + n], start + n, held)))
                  && (h.value.literalsType.Rle? ==>
                        LiteralsOf(input, held)
                        == if start >= |input| then None
                           else Some(LiteralsRead(seq(n, _ => input[start]), start + 1, held))))
  {
    hide ReadLiteralsHeader, CodedLiterals, DescribedTable, ValidTable;
  }

  lemma BytesAre(bytes: seq<byte>)
    ensures SourceBytes(Bytes(bytes)) == bytes
  {
  }

  lemma RepeatsAre(value: byte, count: nat)
    ensures SourceBytes(LiteralSource.Rle(value, count)) == seq(count, _ => value)
  {
  }
}
