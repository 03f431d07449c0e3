/** Writing and reading a Huffman table (section 4.2.1 of RFC 8878): its weights without the last,
    either four bits each or FSE-coded. */
module HuffmanTables {
  import opened Bits
  import opened BitReader
  import opened FseSpread
  import opened Fse
  import opened FseTables
  import opened FseDescription
  import opened NormalizeCounts
  import opened PackageMerge
  import opened CodeLengths
  import opened HuffmanCodes
  import opened HuffmanWeights
  import opened WeightStream

  const MAX_DIRECT_WEIGHT_COUNT := 128
  const MAX_WEIGHT_ACCURACY_LOG := 6
  const MAX_WEIGHT_VALUE := 11

  // ---------------------------------------------------------------- four bits each

  /** The nibbles of a byte, high first. */
  function Nibbles(bytes: seq<byte>, count: nat): (ws: seq<nat>)
    requires count <= 2 * |bytes|
    ensures |ws| == count
  {
    seq(count, i requires 0 <= i < count => if i % 2 == 0 then bytes[i / 2] / 16 else bytes[i / 2] % 16)
  }

  /** `write_direct_weights`. */
  method WriteDirectWeights(weights: seq<nat>, weightCount: nat, output: array<byte>) returns (ok: bool, size: nat)
    requires weightCount <= |weights| && forall i :: 0 <= i < weightCount ==> weights[i] <= MAX_WEIGHT_VALUE
    modifies output
    ensures ok <==> 0 < weightCount <= MAX_DIRECT_WEIGHT_COUNT && 1 + (weightCount + 1) / 2 <= output.Length
    ensures ok ==> && size == 1 + (weightCount + 1) / 2 && output[0] == 127 + weightCount
                   && Nibbles(output[1..size], weightCount) == weights[..weightCount]
    ensures !ok ==> unchanged(output)
  {
    size := 0;
    if weightCount == 0 || weightCount > MAX_DIRECT_WEIGHT_COUNT {
      return false, 0;
    }
    var byteCount := (weightCount + 1) / 2;
    size := 1 + byteCount;
    if size > output.Length {
      return false, 0;
    }
    output[0] := 127 + weightCount;
    for pair := 0 to byteCount
      modifies output
      invariant output[0] == 127 + weightCount && PairsIn(output[..], weights, 2 * pair, weightCount)
    {
      hide PairsIn;
      var high := weights[2 * pair] % 16;
      var low := if 2 * pair + 1 < weightCount then weights[2 * pair + 1] % 16 else 0;
      ghost var before := output[..];
      output[1 + pair] := high * 16 + low;
      assert output[..] == before[1 + pair := high * 16 + low];
      NextPair(before, weights, pair, weightCount, high, low);
    }
    ok := true;
    AllPairs(output[..], weights, weightCount);
    assert output[..][1..size] == output[1..size];
  }

  /** The first `n` weights, two to a byte. */
  ghost predicate PairsIn(bytes: seq<byte>, weights: seq<nat>, n: nat, weightCount: nat) {
    && weightCount <= |weights| && 1 + (weightCount + 1) / 2 <= |bytes|
    && forall i :: 0 <= i < n && i < weightCount ==>
         weights[i] == if i % 2 == 0 then bytes[1 + i / 2] / 16 else bytes[1 + i / 2] % 16
  }

  lemma NextPair(bytes: seq<byte>, weights: seq<nat>, pair: nat, weightCount: nat, high: nat, low: nat)
    requires PairsIn(bytes, weights, 2 * pair, weightCount) && 2 * pair < weightCount && high < 16 && low < 16
    requires weights[2 * pair] == high && (2 * pair + 1 < weightCount ==> weights[2 * pair + 1] == low)
    ensures PairsIn(bytes[1 + pair := high * 16 + low], weights, 2 * (pair + 1), weightCount)
  {
    var after := bytes[1 + pair := high * 16 + low];
    forall i | 0 <= i < 2 * pair + 2 && i < weightCount
      ensures weights[i] == if i % 2 == 0 then after[1 + i / 2] / 16 else after[1 + i / 2] % 16
    {
      if i < 2 * pair {
        assert i / 2 < pair;
      } else {
        assert i / 2 == pair;
      }
    }
  }

  lemma AllPairs(bytes: seq<byte>, weights: seq<nat>, weightCount: nat)
    requires PairsIn(bytes, weights, 2 * ((weightCount + 1) / 2), weightCount)
    ensures Nibbles(bytes[1..1 + (weightCount + 1) / 2], weightCount) == weights[..weightCount]
  {
    var packed := bytes[1..1 + (weightCount + 1) / 2];
    forall i | 0 <= i < weightCount
      ensures Nibbles(packed, weightCount)[i] == weights[i]
    {
      assert packed[i / 2] == bytes[1 + i / 2];
    }
  }

  /** `read_direct_weights`. */
  method ReadDirectWeights(input: seq<byte>, weightCount: nat, weights: array<nat>) returns (ok: bool, bytesUsed: nat)
    requires weights.Length == MAX_WEIGHT_COUNT
    modifies weights
    ensures ok <==> 0 < weightCount <= MAX_WEIGHT_COUNT && (weightCount + 1) / 2 <= |input|
    ensures ok ==>
              bytesUsed == (weightCount + 1) / 2 && weights[..weightCount] == Nibbles(input[..bytesUsed], weightCount)
  {
    bytesUsed := 0;
    if weightCount == 0 || weightCount > weights.Length {
      return false, 0;
    }
    bytesUsed := (weightCount + 1) / 2;
    if bytesUsed > |input| {
      return false, 0;
    }
    for pair := 0 to bytesUsed
      modifies weights
      invariant forall i :: 0 <= i < 2 * pair && i < weightCount ==>
                  weights[i] == if i % 2 == 0 then input[i / 2] / 16 else input[i / 2] % 16
    {
      weights[2 * pair] := input[pair] / 16;
      if 2 * pair + 1 < weightCount {
        weights[2 * pair + 1] := input[pair] % 16;
      }
    }
    ok := true;
    assert weights[..weightCount] == Nibbles(input[..bytesUsed], weightCount);
  }

  // ---------------------------------------------------------------- what a table's bytes say

  /** The weights a description holds, without the last, and the bytes it takes. */
  ghost function DirectWeights(input: seq<byte>): Option<(seq<nat>, nat)>
    requires input != [] && input[0] >= 128
  {
    var count := input[0] - 127;
    var bytes := (count + 1) / 2;
    if 1 + bytes > |input| then None else Some((Nibbles(input[1..1 + bytes], count), 1 + bytes))
  }

  ghost function FseWeights(section: seq<byte>): Option<seq<nat>> {
    var p := Parse(section, MAX_WEIGHT_ACCURACY_LOG, 255);
    if p.None? then None
    else
      var bits := MarkedBits(section[p.value.bytesUsed..]);
      if bits.None? then None
      else DecodeWeights(TansOf(p.value.counts, p.value.log), bits.value, MAX_WEIGHTS)
  }

  ghost function TableWeights(input: seq<byte>): Option<(seq<nat>, nat)> {
    if input == [] then None
    else if input[0] >= 128 then DirectWeights(input)
    else if 1 + input[0] > |input| then None
    else
      var ws := FseWeights(input[1..1 + input[0]]);
      if ws.None? then None else Some((ws.value, 1 + input[0]))
  }

  /** `read_fse_weights`. */
  method ReadFseWeights(section: seq<byte>, fseTable: FseDecodeTable) returns (ok: bool, ws: seq<nat>)
    requires |fseTable.entries| == MAX_TABLE_SIZE
    modifies fseTable
    ensures ok <==> FseWeights(section).Some?
    ensures ok ==> ws == FseWeights(section).value
  {
    hide Parse, TansOf, DecodeTurns, FseDecodeTable.Decodes, MarkedBits, ValidTans, PeekEnd, DropEnd, ValidCounts;
    ws := [];
    var bytesUsed;
    ok, bytesUsed := ReadDescription(section, MAX_WEIGHT_ACCURACY_LOG, 255, fseTable);
    if !ok {
      return;
    }
    ghost var p := Parse(section, MAX_WEIGHT_ACCURACY_LOG, 255).value;
    ghost var t := TansOf(p.counts, p.log);
    var reader := BackwardBitReader.New(section[bytesUsed..]);
    if reader == null {
      return false, [];
    }
    var state1 := new FseDecodeState(reader, fseTable, t);
    var state2 := new FseDecodeState(reader, fseTable, t);
    if reader.hasOverflowed {
      return false, [];
    }
    ok, ws := ReadTurns(reader, fseTable, state1, state2, t);
  }

  /** `read_huffman_table`: the last weight added and the table built, or an error exactly when the
      description is bad or no last weight completes it. */
  method ReadHuffmanTable(input: seq<byte>, table: HuffmanDecodeTable, fseTable: FseDecodeTable)
    returns (ok: bool, bytesUsed: nat)
    requires |table.entries| == MAX_HUFFMAN_TABLE_SIZE && |fseTable.entries| == MAX_TABLE_SIZE
    modifies table, fseTable
    ensures ok <==> TableWeights(input).Some? && Completable(TableWeights(input).value.0)
    ensures ok ==> bytesUsed == TableWeights(input).value.1
    ensures ok ==>
              exists w: nat, m: nat ::
                Completes(TableWeights(input).value.0, w, m) && table.DecodesBy(TableWeights(input).value.0 + [w])
  {
    hide Completes, Completable, FseWeights, Nibbles, HuffmanDecodeTable.DecodesBy;
    table.isReady := false;
    bytesUsed := 0;
    if |input| == 0 {
      return false, 0;
    }
    var weights := new nat[MAX_WEIGHT_COUNT](_ => 0);
    var weightCount: nat := 0;
    if input[0] >= 128 {
      weightCount := input[0] - 127;
      var used;
      ok, used := ReadDirectWeights(input[1..], weightCount, weights);
      if !ok {
        return;
      }
      bytesUsed := 1 + used;
      assert input[1..][..used] == input[1..1 + used];
    } else {
      bytesUsed := 1 + input[0];
      if bytesUsed > |input| {
        return false, 0;
      }
      var ws;
      ok, ws := ReadFseWeights(input[1..bytesUsed], fseTable);
      if !ok {
        return;
      }
      FseWeightsFew(input[1..bytesUsed]);
      weightCount := |ws|;
      forall i | 0 <= i < weightCount {
        weights[i] := ws[i];
      }
      assert weights[..weightCount] == ws;
    }
    ok := CompleteTable(weights, weightCount, table);
  }

  /** Some last weight completes the prefix. */
  ghost predicate Completable(prefix: seq<nat>) {
    0 < |prefix| < MAX_WEIGHT_COUNT && exists w: nat, m: nat :: Completes(prefix, w, m)
  }

  lemma FseWeightsFew(section: seq<byte>)
    ensures FseWeights(section).Some? ==> |FseWeights(section).value| <= MAX_WEIGHTS
  {
    hide Parse, TansOf, MarkedBits, ReadState, DecodeTurns;
    var p := Parse(section, MAX_WEIGHT_ACCURACY_LOG, 255);
    if p.Some? && MarkedBits(section[p.value.bytesUsed..]).Some? {
      var t, bits := TansOf(p.value.counts, p.value.log), MarkedBits(section[p.value.bytesUsed..]).value;
      var (first, r1) := ReadState(t, bits);
      var (second, r2) := ReadState(t, r1);
      TurnsFew(t, first, second, r2, MAX_WEIGHTS);
    }
  }

  lemma {:induction false} TurnsFew(t: Tans, first: nat, second: nat, rest: seq<bool>, room: nat)
    requires ValidTans(t) && first < |t.cells| && second < |t.cells|
    ensures DecodeTurns(t, first, second, rest, room).Some? ==>
              |DecodeTurns(t, first, second, rest, room).value| <= room
    decreases room
  {
    hide CellBits, DecodeStep, ValidTans;
    if room > 0 && CellBits(t, first) <= |rest| {
      var (next, left) := DecodeStep(t, first, rest);
      TurnsFew(t, second, next, left, room - 1);
    }
  }

  /** `add_last_weight`, then `build_huffman_decode_table`. */
  method CompleteTable(weights: array<nat>, weightCount: nat, table: HuffmanDecodeTable) returns (ok: bool)
    requires weights.Length == MAX_WEIGHT_COUNT && weightCount <= MAX_WEIGHT_COUNT
    requires |table.entries| == MAX_HUFFMAN_TABLE_SIZE
    modifies weights, table
    ensures ok <==> Completable(old(weights[..weightCount]))
    ensures ok ==> exists w: nat, m: nat :: Completes(old(weights[..weightCount]), w, m)
                     && table.DecodesBy(old(weights[..weightCount]) + [w])
  {
    hide Completes, HuffmanDecodeTable.DecodesBy;
    ghost var prefix := weights[..weightCount];
    assert Min(weightCount, MAX_WEIGHT_COUNT) == weightCount;
    ok := AddLastWeight(weights, weightCount);
    if !ok {
      return;
    }
    ghost var m: nat :| Completes(prefix, weights[weightCount], m);
    assert weights[..weightCount + 1] == prefix + [weights[weightCount]];
    CompletesGives(prefix, weights[weightCount], m);
    ok := table.Build(weights[..weightCount + 1]);
  }

  lemma CompletesGives(prefix: seq<nat>, w: nat, m: nat)
    requires Completes(prefix, w, m)
    ensures Complete(prefix + [w], m)
  {
    hide Complete;
  }

  // ---------------------------------------------------------------- writing

  method CountWeights(ws: seq<nat>) returns (counts: seq<nat>, largest: nat)
    requires ws != [] && forall i :: 0 <= i < |ws| ==> ws[i] <= MAX_WEIGHT_VALUE
    ensures largest <= MAX_WEIGHT_VALUE && counts == Histogram(ws, MAX_WEIGHT_VALUE + 1)
    ensures largest == LargestWeight(ws)
  {
    hide Histogram;
    counts, largest := seq(MAX_WEIGHT_VALUE + 1, _ => 0), 0;
    EmptyHistogram(MAX_WEIGHT_VALUE + 1);
    for i := 0 to |ws|
      invariant largest <= MAX_WEIGHT_VALUE && counts == Histogram(ws[..i], MAX_WEIGHT_VALUE + 1)
      invariant largest == LargestWeight(ws[..i])
    {
      assert ws[..i + 1][..i] == ws[..i];
      HistogramStep(ws[..i], ws[i], MAX_WEIGHT_VALUE + 1);
      assert ws[..i + 1] == ws[..i] + [ws[i]];
      counts := counts[ws[i] := counts[ws[i]] + 1];
      if ws[i] > largest {
        largest := ws[i];
      }
    }
    assert ws[..|ws|] == ws;
  }

  lemma HistogramCut(ws: seq<nat>, n: nat, wide: nat)
    requires n <= wide
    ensures Histogram(ws, wide)[..n] == Histogram(ws, n)
  {
  }

  lemma HistogramSmall(ws: seq<nat>, n: nat)
    ensures forall v :: 0 <= v < n ==> Histogram(ws, n)[v] <= |ws|
  {
    forall v | 0 <= v < n
      ensures multiset(ws)[v] <= |ws|
    {
      assert multiset(ws)[v := 0] <= multiset(ws);
      assert |multiset(ws)| == |ws|;
    }
  }

  /** Two symbols with cells: neither owns them all. */
  lemma NotAllCells(t: Tans, a: nat, b: nat)
    requires a != b && Count(t, b) > 0
    ensures Count(t, a) < |t.cells|
  {
    var m := multiset(t.cells);
    var others := m[a := 0];
    assert others[b] == m[b] > 0;
    assert others != multiset{};
    assert |others| == |m| - m[a];
    assert |m| == |t.cells|;
  }

  /** Normalized weights of two kinds make a stream that ends itself. */
  lemma NormalizedMixed(ws: seq<nat>, counts: seq<nat>, normalized: seq<int>, log: nat)
    requires ValidCounts(normalized, log) && log != 1 && log != 3 && Normalized(counts, normalized, log)
    requires |ws| > 0 && (forall i :: 0 <= i < |ws| ==> ws[i] < |counts|) && counts == Histogram(ws, |counts|)
    requires UsedCount(counts) >= 2
    ensures Mixed(TansOf(normalized, log), ws)
  {
    hide TansOf, UsedCount, Pow2, EffectiveSum, Count;
    var t := TansOf(normalized, log);
    forall i | 0 <= i < |ws|
      ensures ws[i] < 256 && 0 < Count(t, ws[i]) < |t.cells|
    {
      assert multiset(ws)[ws[i]] > 0 by { assert ws[i] in multiset(ws); }
      assert counts[ws[i]] > 0;
      AnotherPresent(counts, ws[i]);
      var v :| 0 <= v < |counts| && v != ws[i] && counts[v] > 0;
      NotAllCells(t, ws[i], v);
    }
  }

  /** The weights are of two kinds at least, and their counts can be normalised at the log picked. */
  ghost predicate CanTabulate(ws: seq<nat>) {
    var cut := Histogram(ws, LargestWeight(ws) + 1);
    UsedCount(cut) >= 2 && CanNormalize(cut, PickAccuracyLog(|ws|, |cut|, MAX_WEIGHT_ACCURACY_LOG))
  }

  /** The counts of the weights' table: those of the weights, shared out at the log picked for them. */
  ghost predicate CountsOfWeights(ws: seq<nat>, normalized: seq<int>, log: nat) {
    && log == PickAccuracyLog(|ws|, LargestWeight(ws) + 1, MAX_WEIGHT_ACCURACY_LOG)
    && CellsGiven(Histogram(ws, LargestWeight(ws) + 1), log, normalized)
  }

  /** The table for the weights, exactly when there is one. */
  method BuildWeightTable(ws: seq<nat>, fseTable: FseEncodeTable) returns (ok: bool, normalized: seq<int>, log: nat)
    requires 2 <= |ws| <= MAX_WEIGHTS && fseTable.Sized() && forall i :: 0 <= i < |ws| ==> ws[i] <= MAX_WEIGHT_VALUE
    modifies fseTable
    ensures ok <==> CanTabulate(ws)
    ensures ok ==> 5 <= log <= MAX_WEIGHT_ACCURACY_LOG && ValidCounts(normalized, log) && |normalized| <= 12
    ensures ok ==> fseTable.Encodes(TansOf(normalized, log)) && Mixed(TansOf(normalized, log), ws)
    ensures ok ==> CountsOfWeights(ws, normalized, log)
  {
    hide CellsGiven, Histogram, Sum, UsedCount, Pow2, EffectiveSum, TansOf, FseEncodeTable.Encodes,
      FseEncodeTable.Sized, Mixed, CanNormalize, PickAccuracyLog, LargestWeight;
    var counts, largest := CountWeights(ws);
    var symbolCount := largest + 1;
    HistogramCut(ws, symbolCount, MAX_WEIGHT_VALUE + 1);
    HistogramSum(ws, symbolCount);
    HistogramSmall(ws, symbolCount);
    normalized, log := [], 0;
    var cut := counts[..symbolCount];
    var distinct, _ := CountPresent(cut);
    if distinct < 2 {
      return false, [], 0;
    }
    log := PickAccuracyLog(|ws|, symbolCount, MAX_WEIGHT_ACCURACY_LOG);
    var slots := new int[MAX_WEIGHT_VALUE + 1];
    ok := Normalize(cut, |ws|, log, slots);
    if !ok {
      return;
    }
    normalized := slots[..symbolCount];
    ok := fseTable.Build(normalized, log);
    if ok {
      NormalizedMixed(ws, cut, normalized, log);
    }
  }

  lemma FseWeightsOf(normalized: seq<int>, log: nat, ws: seq<nat>, description: seq<byte>, stream: seq<byte>)
    requires 5 <= log <= MAX_WEIGHT_ACCURACY_LOG && ValidCounts(normalized, log) && |normalized| <= 12
    requires Mixed(TansOf(normalized, log), ws) && 2 <= |ws| <= MAX_WEIGHTS
    requires At(BytesToBits(description), 0, Description(normalized, log))
    requires 8 * |description| < |Description(normalized, log)| + 8
    requires MarkedBits(stream) == Some(WeightBits(TansOf(normalized, log), ws))
    ensures FseWeights(description + stream) == Some(ws)
  {
    hide Parse, TansOf, MarkedBits, DecodeWeights, Mixed, WeightBits, Description, At, BytesToBits, ValidCounts,
      Trimmed, ValidTans;
    TrimmedShorter(normalized);
    DescriptionRoundTrip(normalized, log, description, stream, MAX_WEIGHT_ACCURACY_LOG, 255);
    assert (description + stream)[|description|..] == stream;
    WeightsRoundTrip(TansOf(normalized, log), ws, MAX_WEIGHTS);
  }

  /** Counts the weights can be coded by. */
  ghost predicate Tabulated(ws: seq<nat>, normalized: seq<int>, log: nat) {
    && 2 <= |ws| && 5 <= log <= MAX_WEIGHT_ACCURACY_LOG && ValidCounts(normalized, log) && |normalized| <= 12
    && Mixed(TansOf(normalized, log), ws)
  }

  /** Bytes of the description and of the stream with its marker. */
  ghost function FseSize(ws: seq<nat>, normalized: seq<int>, log: nat): nat
    requires Tabulated(ws, normalized, log)
  {
    (|Description(normalized, log)| + 7) / 8 + |WeightBits(TansOf(normalized, log), ws)| / 8 + 1
  }

  /** They stay below the limit of the form, and the output has room for them and the size byte. */
  ghost predicate FseFits(ws: seq<nat>, normalized: seq<int>, log: nat, room: nat) {
    Tabulated(ws, normalized, log) && FseSize(ws, normalized, log) < 128 && 1 + FseSize(ws, normalized, log) <= room
  }

  lemma FseFitsWhen(ws: seq<nat>, normalized: seq<int>, log: nat, room: nat, description: nat, stream: nat)
    requires Tabulated(ws, normalized, log)
    requires 8 * description - 8 < |Description(normalized, log)| <= 8 * description
    requires 8 * stream - 8 <= |WeightBits(TansOf(normalized, log), ws)| < 8 * stream
    ensures FseSize(ws, normalized, log) == description + stream
    ensures FseFits(ws, normalized, log, room) <==> description + stream < 128 && 1 + description + stream <= room
  {
    hide TansOf, Mixed, WeightBits, Description, ValidCounts;
  }

  /** Too little room for one of the two parts is too little for both. */
  lemma FseLacksRoom(ws: seq<nat>, normalized: seq<int>, log: nat, room: nat)
    requires Tabulated(ws, normalized, log) && room > 0
    ensures |Description(normalized, log)| > 8 * (room - 1) ==> !FseFits(ws, normalized, log, room)
    ensures forall d: nat | d < room && |Description(normalized, log)| > 8 * d - 8
                            && |WeightBits(TansOf(normalized, log), ws)| + 1 > 8 * (room - 1 - d) ::
              !FseFits(ws, normalized, log, room)
  {
    hide TansOf, Mixed, WeightBits, Description, ValidCounts;
  }

  /** `write_fse_weights`; the description and the stream go to their own parts of the output. It
      succeeds exactly for weights whose counts can be normalised, when both parts together stay
      below 128 bytes and find room. */
  method WriteFseWeights(ws: seq<nat>, fseTable: FseEncodeTable, output: array<byte>)
    returns (ok: bool, size: nat, ghost normalized: seq<int>, ghost log: nat)
    requires |ws| <= MAX_WEIGHTS && fseTable.Sized() && forall i :: 0 <= i < |ws| ==> ws[i] <= MAX_WEIGHT_VALUE
    modifies fseTable, output
    ensures |ws| >= 2 && CanTabulate(ws) ==>
              Tabulated(ws, normalized, log) && CountsOfWeights(ws, normalized, log)
    ensures ok <==> |ws| >= 2 && CanTabulate(ws) && FseFits(ws, normalized, log, output.Length)
    ensures ok ==> size == 1 + FseSize(ws, normalized, log)
    ensures ok ==> 1 < size <= output.Length && output[0] == size - 1 < 128 && FseWeights(output[1..size]) == Some(ws)
  {
    hide TansOf, FseEncodeTable.Encodes, FseEncodeTable.Sized, Mixed, MarkedBits, Description, At, BytesToBits,
      FseWeights, WeightBits, EffectiveSum, Pow2, CanTabulate, FseFits, FseSize, ValidCounts,
      CountsOfWeights;
    size, normalized, log := 0, [], 0;
    if |ws| < 2 {
      ok := false;
      return;
    }
    var counts, accuracyLog;
    ok, counts, accuracyLog := BuildWeightTable(ws, fseTable);
    normalized, log := counts, accuracyLog;
    if !ok {
      return;
    }
    if output.Length < 1 {
      NoRoomAtAll(ws, normalized, log);
      ok := false;
      return;
    }
    FseLacksRoom(ws, normalized, log, output.Length);
    var body := new byte[output.Length - 1];
    var descriptionBytes;
    ok, descriptionBytes := WriteDescription(counts, accuracyLog, body);
    if !ok {
      return;
    }
    var streamOutput := new byte[body.Length - descriptionBytes];
    var streamBytes;
    ok, streamBytes := WriteInterleaved(streamOutput, fseTable, ws, TansOf(normalized, log));
    if !ok {
      return;
    }
    FseFitsWhen(ws, normalized, log, output.Length, descriptionBytes, streamBytes);
    var compressedSize := descriptionBytes + streamBytes;
    if compressedSize >= 128 {
      ok := false;
      return;
    }
    FseWeightsOf(normalized, log, ws, body[..descriptionBytes], streamOutput[..streamBytes]);
    SomeBytes(streamOutput[..streamBytes]);
    var content := body[..descriptionBytes] + streamOutput[..streamBytes];
    forall i | 0 <= i < compressedSize {
      output[1 + i] := content[i];
    }
    output[0] := compressedSize;
    size := 1 + compressedSize;
    assert output[1..size] == content;
  }

  lemma NoRoomAtAll(ws: seq<nat>, normalized: seq<int>, log: nat)
    ensures !FseFits(ws, normalized, log, 0)
  {
    hide Tabulated, FseSize;
  }

  lemma SomeBytes(stream: seq<byte>)
    ensures MarkedBits(stream).Some? ==> |stream| > 0
  {
  }

  /** Bytes of the weights one by one, two to a byte. */
  function DirectSize(weightCount: nat): nat {
    1 + (weightCount + 1) / 2
  }

  /** The size of the form that is sent: FSE-coded where that is possible and shorter, or the only
      form; else one by one; none where the weights are too many for that, or the room too little. */
  ghost function DescriptionSize(ws: seq<nat>, normalized: seq<int>, log: nat, room: nat): Option<nat> {
    var direct := |ws| <= MAX_DIRECT_WEIGHT_COUNT;
    if |ws| >= 2 && CanTabulate(ws) && FseFits(ws, normalized, log, room)
       && (!direct || 1 + FseSize(ws, normalized, log) < DirectSize(|ws|)) then
      Some(1 + FseSize(ws, normalized, log))
    else if direct && DirectSize(|ws|) <= room then Some(DirectSize(|ws|))
    else None
  }

  /** `write_huffman_table`: the shorter form, which reads back as the weights without the last, in
      the same number of bytes, whatever follows. */
  method WriteHuffmanTable(weights: seq<nat>, fseTable: FseEncodeTable, output: array<byte>)
    returns (ok: bool, size: nat, ghost normalized: seq<int>, ghost log: nat)
    requires |weights| <= MAX_WEIGHT_COUNT && fseTable.Sized()
    requires forall i :: 0 <= i < |weights| ==> weights[i] <= MAX_WEIGHT_VALUE
    modifies fseTable, output
    ensures |weights| >= 3 && CanTabulate(weights[..|weights| - 1]) ==>
              CountsOfWeights(weights[..|weights| - 1], normalized, log)
    ensures ok <==> |weights| >= 2
                    && DescriptionSize(weights[..|weights| - 1], normalized, log, output.Length).Some?
    ensures ok ==> Some(size) == DescriptionSize(weights[..|weights| - 1], normalized, log, output.Length)
    ensures ok ==> size <= output.Length
    ensures ok ==>
              forall after: seq<byte> :: TableWeights(output[..size] + after) == Some((weights[..|weights| - 1], size))
  {
    hide FseWeights, Nibbles, FseEncodeTable.Sized, CountsOfWeights, CanTabulate, FseFits, FseSize, Tabulated;
    size, normalized, log := 0, [], 0;
    if |weights| < 2 {
      ok := false;
      return;
    }
    var weightCount := |weights| - 1;
    var ws := weights[..weightCount];
    var fseOk, fseSize;
    fseOk, fseSize, normalized, log := WriteFseWeights(ws, fseTable, output);
    var directPossible := weightCount <= MAX_DIRECT_WEIGHT_COUNT;
    if fseOk && (!directPossible || fseSize < 1 + (weightCount + 1) / 2) {
      FseTableBytes(output[..fseSize], ws);
      ok, size := true, fseSize;
      return;
    }
    if !directPossible {
      ok := false;
      return;
    }
    ok, size := WriteDirectWeights(weights, weightCount, output);
    if ok {
      DirectTableBytes(output[..size], ws);
    }
  }

  lemma FseTableBytes(written: seq<byte>, ws: seq<nat>)
    requires |written| > 1 && written[0] == |written| - 1 < 128 && FseWeights(written[1..]) == Some(ws)
    ensures forall after: seq<byte> :: TableWeights(written + after) == Some((ws, |written|))
  {
    hide FseWeights;
    forall after: seq<byte>
      ensures TableWeights(written + after) == Some((ws, |written|))
    {
      assert (written + after)[1..1 + written[0]] == written[1..];
    }
  }

  lemma DirectTableBytes(written: seq<byte>, ws: seq<nat>)
    requires 0 < |ws| <= MAX_DIRECT_WEIGHT_COUNT && |written| == 1 + (|ws| + 1) / 2 && written[0] == 127 + |ws|
    requires Nibbles(written[1..], |ws|) == ws
    ensures forall after: seq<byte> :: TableWeights(written + after) == Some((ws, |written|))
  {
    hide Nibbles;
    forall after: seq<byte>
      ensures TableWeights(written + after) == Some((ws, |written|))
    {
      assert (written + after)[1..|written|] == written[1..];
    }
  }
}
