/** Four Huffman streams behind a jump table (section 4.2.2 of RFC 8878). */
module FourStreams {
  import opened Bits
  import opened BitReader
  import opened HuffmanCodes
  import opened HuffmanStream

  const STREAM_COUNT := 4
  const JUMP_TABLE_SIZE := 6
  const U16_MAX := 65535

  // ---------------------------------------------------------------- segments

  function SegmentSize(n: nat): nat {
    (n + STREAM_COUNT - 1) / STREAM_COUNT
  }

  function SegmentStart(n: nat, i: nat): (start: nat)
    ensures start <= n
  {
    if i == STREAM_COUNT then n else Min(i * SegmentSize(n), n)
  }

  function Segment(input: seq<byte>, i: nat): seq<byte>
    requires i < STREAM_COUNT
  {
    SegmentStartMono(|input|, i);
    input[SegmentStart(|input|, i)..SegmentStart(|input|, i + 1)]
  }

  lemma SegmentStartMono(n: nat, i: nat)
    requires i < STREAM_COUNT
    ensures SegmentStart(n, i) <= SegmentStart(n, i + 1) <= SegmentStart(n, i) + SegmentSize(n)
    ensures i < 3 && 3 * SegmentSize(n) < n ==> SegmentStart(n, i + 1) == SegmentStart(n, i) + SegmentSize(n)
    ensures 3 * SegmentSize(n) < n ==> SegmentStart(n, i) == i * SegmentSize(n)
  {
  }

  /** The last segment is not empty exactly for these sizes; the literals writer starts at 256. */
  lemma LastSegmentNotEmpty(n: nat)
    ensures 3 * SegmentSize(n) < n <==> n == 4 || n == 7 || n == 8 || n >= 10
  {
  }

  /** The segments are the input. */
  lemma SegmentsJoin(input: seq<byte>)
    ensures Segment(input, 0) + Segment(input, 1) + Segment(input, 2) + Segment(input, 3) == input
  {
    SegmentStartMono(|input|, 0);
    SegmentStartMono(|input|, 1);
    SegmentStartMono(|input|, 2);
    SegmentStartMono(|input|, 3);
    SegmentEnds(|input|);
    JoinSlices(input, SegmentStart(|input|, 1), SegmentStart(|input|, 2), SegmentStart(|input|, 3));
  }

  lemma SegmentEnds(n: nat)
    ensures SegmentStart(n, 0) == 0 && SegmentStart(n, 4) == n
  {
  }

  lemma JoinSlices(s: seq<byte>, a: nat, b: nat, c: nat)
    requires a <= b <= c <= |s|
    ensures s[0..a] + s[a..b] + s[b..c] + s[c..|s|] == s
  {
  }

  // ---------------------------------------------------------------- layout

  function Joined(streams: seq<seq<byte>>): seq<byte> {
    if streams == [] then [] else streams[0] + Joined(streams[1..])
  }

  lemma {:induction false} JoinedPush(streams: seq<seq<byte>>, stream: seq<byte>)
    ensures Joined(streams + [stream]) == Joined(streams) + stream
  {
    if streams == [] {
      assert [stream][1..] == [];
    } else {
      assert (streams + [stream])[1..] == streams[1..] + [stream];
      JoinedPush(streams[1..], stream);
    }
  }

  /** Three little-endian sizes, then the four streams. */
  ghost predicate Layout(input: seq<byte>, streams: seq<seq<byte>>) {
    && |streams| == STREAM_COUNT && |input| >= JUMP_TABLE_SIZE
    && (forall i :: 0 <= i < 3 ==> |streams[i]| <= U16_MAX && SizeAt(input, i) == |streams[i]|)
    && input[JUMP_TABLE_SIZE..] == Joined(streams)
  }

  /** `read_little_endian_u16` in the jump table. */
  function SizeAt(input: seq<byte>, i: nat): nat
    requires i < 3 && |input| >= JUMP_TABLE_SIZE
  {
    input[2 * i] as int + 256 * input[2 * i + 1] as int
  }

  // ---------------------------------------------------------------- writing

  ghost predicate Streams(streams: seq<seq<byte>>, input: seq<byte>, weights: seq<nat>, maxBits: nat) {
    && |streams| <= STREAM_COUNT
    && forall i :: 0 <= i < |streams| ==>
         && streams[i] != [] && Coded(weights, maxBits, Segment(input, i))
         && MarkedBits(streams[i]) == Some(EncodeSyms(weights, maxBits, Segment(input, i)))
  }

  lemma SegmentCoded(input: seq<byte>, weights: seq<nat>, maxBits: nat, i: nat)
    requires Coded(weights, maxBits, input) && i < STREAM_COUNT
    ensures Coded(weights, maxBits, Segment(input, i)) && |Segment(input, i)| <= SegmentSize(|input|)
  {
    SegmentStartMono(|input|, i);
  }

  lemma StreamsPush(streams: seq<seq<byte>>, stream: seq<byte>, input: seq<byte>, weights: seq<nat>, maxBits: nat)
    requires Streams(streams, input, weights, maxBits) && |streams| < STREAM_COUNT && stream != []
    requires Coded(weights, maxBits, Segment(input, |streams|))
    requires MarkedBits(stream) == Some(EncodeSyms(weights, maxBits, Segment(input, |streams|)))
    ensures Streams(streams + [stream], input, weights, maxBits)
  {
    hide Coded, MarkedBits, EncodeSyms, Segment;
  }

  lemma CapacityMono(a: nat, b: nat)
    requires a <= b
    ensures EncodeStreamCapacity(a) <= EncodeStreamCapacity(b)
    ensures b <= 32768 ==> EncodeStreamCapacity(b) <= U16_MAX
  {
  }

  lemma AppendedSlice(before: seq<byte>, after: seq<byte>, a: nat, b: nat, c: nat)
    requires a <= b <= c <= |after| && b <= |before| && after[..b] == before[..b]
    ensures after[a..c] == before[a..b] + after[b..c]
  {
    assert after[a..b] == after[..b][a..];
    assert before[a..b] == before[..b][a..];
  }

  /** Bytes of the first `k` streams: each its bits, the marker, and zeros up to a byte. */
  ghost function StreamsBytes(input: seq<byte>, weights: seq<nat>, maxBits: nat, k: nat): nat
    requires Coded(weights, maxBits, input) && k <= STREAM_COUNT
  {
    if k == 0 then 0
    else
      SegmentCoded(input, weights, maxBits, k - 1);
      StreamsBytes(input, weights, maxBits, k - 1) + StreamBytes(weights, maxBits, Segment(input, k - 1))
  }

  /** Each of the first `k` streams finds the room its encoder asks for, and a size of two bytes. */
  ghost predicate RoomFor(input: seq<byte>, weights: seq<nat>, maxBits: nat, room: nat, k: nat)
    requires Coded(weights, maxBits, input) && k <= STREAM_COUNT
  {
    if k == 0 then JUMP_TABLE_SIZE <= room
    else
      SegmentCoded(input, weights, maxBits, k - 1);
      var segment := Segment(input, k - 1);
      && RoomFor(input, weights, maxBits, room, k - 1)
      && JUMP_TABLE_SIZE + StreamsBytes(input, weights, maxBits, k - 1) + EncodeStreamCapacity(|segment|) <= room
      && (k < STREAM_COUNT ==> StreamBytes(weights, maxBits, segment) <= U16_MAX)
  }

  lemma {:induction false} RoomEarlier(input: seq<byte>, weights: seq<nat>, maxBits: nat, room: nat, j: nat, k: nat)
    requires Coded(weights, maxBits, input) && j <= k <= STREAM_COUNT && RoomFor(input, weights, maxBits, room, k)
    ensures RoomFor(input, weights, maxBits, room, j)
    decreases k
  {
    hide Coded, Segment, StreamBytes, StreamsBytes, EncodeStreamCapacity;
    if j < k {
      RoomEarlier(input, weights, maxBits, room, j, k - 1);
    }
  }

  /** One stream more: its room, its size, and whether the next one still has room. */
  lemma OneStreamMore(input: seq<byte>, weights: seq<nat>, maxBits: nat, room: nat, i: nat)
    requires Coded(weights, maxBits, input) && i < STREAM_COUNT && RoomFor(input, weights, maxBits, room, i)
    ensures Coded(weights, maxBits, Segment(input, i))
    ensures var segment := Segment(input, i);
            && StreamsBytes(input, weights, maxBits, i + 1)
               == StreamsBytes(input, weights, maxBits, i) + StreamBytes(weights, maxBits, segment)
            && (RoomFor(input, weights, maxBits, room, i + 1) <==>
                && JUMP_TABLE_SIZE + StreamsBytes(input, weights, maxBits, i) + EncodeStreamCapacity(|segment|) <= room
                && (i < 3 ==> StreamBytes(weights, maxBits, segment) <= U16_MAX))
            && (RoomFor(input, weights, maxBits, room, 4) ==> RoomFor(input, weights, maxBits, room, i + 1))
  {
    hide Coded, Segment, StreamBytes, EncodeStreamCapacity;
    SegmentCoded(input, weights, maxBits, i);
    if RoomFor(input, weights, maxBits, room, 4) {
      RoomEarlier(input, weights, maxBits, room, i + 1, 4);
    }
  }

  lemma RoomStarts(input: seq<byte>, weights: seq<nat>, maxBits: nat, room: nat)
    requires Coded(weights, maxBits, input)
    ensures RoomFor(input, weights, maxBits, room, 0) <==> JUMP_TABLE_SIZE <= room
    ensures RoomFor(input, weights, maxBits, room, 4) ==> JUMP_TABLE_SIZE <= room
    ensures StreamsBytes(input, weights, maxBits, 0) == 0
  {
    hide Coded, Segment, StreamBytes, EncodeStreamCapacity;
    if RoomFor(input, weights, maxBits, room, 4) {
      RoomEarlier(input, weights, maxBits, room, 0, 4);
    }
  }

  /** `encode_four_streams`. */
  method EncodeFourStreams(input: seq<byte>, table: HuffmanEncodeTable, ghost weights: seq<nat>, output: array<byte>)
    returns (ok: bool, size: nat, ghost streams: seq<seq<byte>>)
    requires table.EncodesBy(weights) && Coded(weights, table.maxBits, input)
    modifies output
    ensures ok ==> size <= output.Length && Layout(output[..size], streams)
    ensures ok ==> |streams| == STREAM_COUNT && Streams(streams, input, weights, table.maxBits)
    ensures ok <==> RoomFor(input, weights, table.maxBits, output.Length, STREAM_COUNT)
    ensures ok ==> size == JUMP_TABLE_SIZE + StreamsBytes(input, weights, table.maxBits, STREAM_COUNT)
    ensures |input| <= 131072 && output.Length >= JUMP_TABLE_SIZE + 4 * EncodeStreamCapacity(SegmentSize(|input|)) ==>
              ok
  {
    hide *;
    Shape(|input|);
    streams := [];
    RoomStarts(input, weights, table.maxBits, output.Length);
    var segmentSize := SegmentSize(|input|);
    if output.Length < JUMP_TABLE_SIZE {
      return false, 0, [];
    }
    var sizes: seq<nat> := [];
    var position: nat := JUMP_TABLE_SIZE;
    var inputPosition := 0;
    NoStreams(input, weights, table.maxBits, output[6..6]);
    WithinStart(EncodeStreamCapacity(segmentSize));
    for streamIndex := 0 to STREAM_COUNT
      modifies output
      invariant |streams| == streamIndex && |sizes| == Min3(streamIndex)
      invariant forall i :: 0 <= i < |sizes| ==> sizes[i] == |streams[i]| && sizes[i] <= U16_MAX
      invariant JUMP_TABLE_SIZE <= position <= output.Length
      invariant Within(position, streamIndex, EncodeStreamCapacity(segmentSize))
      invariant RoomFor(input, weights, table.maxBits, output.Length, streamIndex)
      invariant position == JUMP_TABLE_SIZE + StreamsBytes(input, weights, table.maxBits, streamIndex)
      invariant inputPosition == SegmentStart(|input|, streamIndex)
      invariant output[6..position] == Joined(streams)
      invariant Streams(streams, input, weights, table.maxBits)
    {
      var isLastStream := streamIndex == STREAM_COUNT - 1;
      var segmentEnd := if isLastStream then |input| else Min(inputPosition + segmentSize, |input|);
      NextSegment(input, streamIndex, segmentEnd);
      var segment := input[inputPosition..segmentEnd];
      SegmentCoded(input, weights, table.maxBits, streamIndex);
      CapacityMono(|segment|, segmentSize);
      RoomLeft(position, streamIndex, EncodeStreamCapacity(segmentSize));
      OneStreamMore(input, weights, table.maxBits, output.Length, streamIndex);
      ghost var before := output[..];
      var encoded, streamSize := EncodeOneStream(segment, table, weights, output, position);
      if !encoded {
        return false, 0, [];
      }
      StreamSizeIs(output[position..position + streamSize], weights, table.maxBits, segment);
      if !isLastStream {
        if streamSize > U16_MAX {
          return false, 0, [];
        }
        sizes := sizes + [streamSize];
      }
      ghost var stream := output[position..position + streamSize];
      AppendedSlice(before, output[..], 6, position, position + streamSize);
      JoinedPush(streams, stream);
      StreamsPush(streams, stream, input, weights, table.maxBits);
      streams := streams + [stream];
      WithinStep(position, streamIndex, EncodeStreamCapacity(segmentSize), streamSize);
      position := position + streamSize;
      inputPosition := segmentEnd;
    }
    WriteJumpTable(output, sizes, position, streams);
    return true, position, streams;
  }

  ghost predicate Within(position: nat, i: nat, capacity: nat) {
    position <= JUMP_TABLE_SIZE + i * capacity
  }

  lemma WithinStart(capacity: nat)
    ensures Within(JUMP_TABLE_SIZE, 0, capacity)
  {
  }

  lemma WithinStep(position: nat, i: nat, capacity: nat, size: nat)
    requires Within(position, i, capacity) && size <= capacity
    ensures Within(position + size, i + 1, capacity)
  {
    assert (i + 1) * capacity == i * capacity + capacity;
  }

  lemma RoomLeft(position: nat, i: nat, capacity: nat)
    requires Within(position, i, capacity) && i < STREAM_COUNT
    ensures position + capacity <= JUMP_TABLE_SIZE + 4 * capacity
  {
    assert i * capacity <= 3 * capacity;
  }

  function Min3(n: nat): nat { if n < 3 then n else 3 }

  lemma Shape(n: nat)
    ensures STREAM_COUNT == 4 && JUMP_TABLE_SIZE == 6 && U16_MAX == 65535 && SegmentStart(n, 0) == 0
    ensures Min3(0) == 0 && Min3(1) == 1 && Min3(2) == 2 && Min3(3) == 3 && Min3(4) == 3
    ensures n <= 131072 ==> SegmentSize(n) <= 32768
  {
  }

  lemma NoStreams(input: seq<byte>, weights: seq<nat>, maxBits: nat, none: seq<byte>)
    requires none == []
    ensures Streams([], input, weights, maxBits) && Joined([]) == none
  {
  }

  lemma NextSegment(input: seq<byte>, i: nat, end: int)
    requires i < STREAM_COUNT
    requires end
           == if i == STREAM_COUNT - 1 then |input| else Min(SegmentStart(|input|, i) + SegmentSize(|input|), |input|)
    ensures SegmentStart(|input|, i) <= end == SegmentStart(|input|, i + 1) <= |input|
    ensures input[SegmentStart(|input|, i)..end] == Segment(input, i)
  {
    SegmentStartMono(|input|, i);
  }

  method WriteJumpTable(output: array<byte>, sizes: seq<nat>, position: nat, ghost streams: seq<seq<byte>>)
    requires |sizes| == 3 && |streams| == STREAM_COUNT && 6 <= position <= output.Length
    requires forall i :: 0 <= i < 3 ==> sizes[i] == |streams[i]| && sizes[i] <= U16_MAX
    requires output[6..position] == Joined(streams)
    modifies output
    ensures Layout(output[..position], streams)
  {
    hide Joined;
    ghost var before := output[..];
    for i := 0 to 3
      modifies output
      invariant forall j :: 0 <= j < i ==> output[2 * j] as int + 256 * output[2 * j + 1] as int == sizes[j]
      invariant output[6..] == before[6..]
    {
      output[2 * i] := sizes[i] % 256;
      output[2 * i + 1] := sizes[i] / 256;
    }
    assert output[6..position] == before[6..position];
    assert output[..position][6..] == output[6..position];
  }

  // ---------------------------------------------------------------- reading

  /** `split_four_streams`: it accepts exactly the layouts of four non-empty streams with a
      non-empty last segment, and finds their streams. */
  method SplitFourStreams(input: seq<byte>, regeneratedSize: nat, ghost expected: seq<seq<byte>>)
    returns (ok: bool, streams: seq<seq<byte>>, lengths: seq<nat>)
    ensures ok ==> Layout(input, streams) && 3 * SegmentSize(regeneratedSize) < regeneratedSize
    ensures ok ==> forall i :: 0 <= i < 4 ==> streams[i] != []
    ensures ok ==> |lengths| == 4
    ensures ok ==> forall i :: 0 <= i < 4 ==>
              lengths[i] == SegmentStart(regeneratedSize, i + 1) - SegmentStart(regeneratedSize, i)
    ensures (&& Layout(input, expected) && (forall i :: 0 <= i < 4 ==> expected[i] != [])
             && 3 * SegmentSize(regeneratedSize) < regeneratedSize)
            ==> ok && streams == expected
  {
    hide *;
    Shape(regeneratedSize);
    streams, lengths := [], [];
    LayoutParts(input, expected, 0);
    if |input| < JUMP_TABLE_SIZE {
      return false, [], [];
    }
    var remainingInput := input[JUMP_TABLE_SIZE..];
    var segmentSize := SegmentSize(regeneratedSize);
    if segmentSize * (STREAM_COUNT - 1) > regeneratedSize {
      return false, [], [];
    }
    var remainingOutput: nat := regeneratedSize;
    NothingTaken(input, expected);
    for streamIndex := 0 to STREAM_COUNT
      invariant |streams| == |lengths| == streamIndex
      invariant Taken(input, streams, remainingInput) && Follows(input, expected, streams, remainingInput)
      invariant remainingOutput == regeneratedSize - SegmentStart(regeneratedSize, streamIndex)
      invariant forall i :: 0 <= i < streamIndex ==>
                  lengths[i] == SegmentStart(regeneratedSize, i + 1) - SegmentStart(regeneratedSize, i)
      invariant streamIndex == 4 ==> 3 * segmentSize < regeneratedSize
    {
      var isLastStream := streamIndex == STREAM_COUNT - 1;
      var streamSize := |remainingInput|;
      if !isLastStream {
        streamSize := SizeAt(input, streamIndex);
        SizesFit(input, expected, streams, remainingInput);
        if streamSize > |remainingInput| {
          return false, [], [];
        }
      }
      TakeStream(input, expected, streams, remainingInput, streamSize);
      var stream := remainingInput[..streamSize];
      remainingInput := remainingInput[streamSize..];
      var segmentLength := if isLastStream then remainingOutput else segmentSize;
      SegmentLengths(regeneratedSize, streamIndex);
      if isLastStream && segmentLength == 0 {
        return false, [], [];
      }
      remainingOutput := remainingOutput - segmentLength;
      streams := streams + [stream];
      lengths := lengths + [segmentLength];
    }
    AllTaken(input, expected, streams, remainingInput);
    if exists i :: 0 <= i < 4 && streams[i] == [] {
      return false, [], [];
    }
    return true, streams, lengths;
  }

  /** The streams taken so far and what is left of the input. */
  ghost predicate Taken(input: seq<byte>, streams: seq<seq<byte>>, rest: seq<byte>) {
    && |input| >= JUMP_TABLE_SIZE && |streams| <= STREAM_COUNT
    && input[JUMP_TABLE_SIZE..] == Joined(streams) + rest
    && (|streams| == STREAM_COUNT ==> rest == [])
    && forall i :: 0 <= i < |streams| && i < 3 ==> |streams[i]| <= U16_MAX && SizeAt(input, i) == |streams[i]|
  }

  ghost predicate Follows(input: seq<byte>, expected: seq<seq<byte>>, streams: seq<seq<byte>>, rest: seq<byte>) {
    Layout(input, expected) && |streams| <= STREAM_COUNT ==>
      streams == expected[..|streams|] && rest == Joined(expected[|streams|..])
  }

  lemma TakeStream(input: seq<byte>, expected: seq<seq<byte>>, streams: seq<seq<byte>>, rest: seq<byte>, size: nat)
    requires Taken(input, streams, rest) && Follows(input, expected, streams, rest)
    requires |streams| < STREAM_COUNT && size <= |rest|
    requires if |streams| == 3 then size == |rest| else size == SizeAt(input, |streams|)
    ensures Taken(input, streams + [rest[..size]], rest[size..])
    ensures Follows(input, expected, streams + [rest[..size]], rest[size..])
  {
    hide Joined, Layout;
    var i := |streams|;
    JoinedPush(streams, rest[..size]);
    if i < 3 {
      SizeFits(input, i);
    }
    assert Joined(streams) + rest == Joined(streams) + rest[..size] + rest[size..];
    LayoutParts(input, expected, i);
    if Layout(input, expected) {
      if i == 3 {
        assert rest[size..] == [];
        assert rest[..size] == rest;
      }
      assert rest[..size] == expected[i];
      assert expected[..i + 1] == expected[..i] + [expected[i]];
    }
  }

  lemma SizesFit(input: seq<byte>, expected: seq<seq<byte>>, streams: seq<seq<byte>>, rest: seq<byte>)
    requires Follows(input, expected, streams, rest) && |streams| < 3 && |input| >= JUMP_TABLE_SIZE
    ensures Layout(input, expected) ==> SizeAt(input, |streams|) <= |rest|
  {
    hide Joined;
    LayoutParts(input, expected, |streams|);
  }

  lemma AllTaken(input: seq<byte>, expected: seq<seq<byte>>, streams: seq<seq<byte>>, rest: seq<byte>)
    requires Taken(input, streams, rest) && Follows(input, expected, streams, rest) && |streams| == STREAM_COUNT
    ensures Layout(input, streams) && (Layout(input, expected) ==> streams == expected)
  {
    hide Joined;
    assert Joined(streams) + [] == Joined(streams);
  }

  lemma NothingTaken(input: seq<byte>, expected: seq<seq<byte>>)
    requires |input| >= JUMP_TABLE_SIZE
    ensures Taken(input, [], input[6..]) && Follows(input, expected, [], input[6..])
  {
    assert Joined([]) + input[6..] == input[6..];
    if |expected| == 4 {
      assert expected[0..] == expected;
    }
  }

  lemma SizeFits(input: seq<byte>, i: nat)
    requires i < 3 && |input| >= JUMP_TABLE_SIZE
    ensures SizeAt(input, i) <= U16_MAX
  {
  }

  lemma LayoutParts(input: seq<byte>, expected: seq<seq<byte>>, i: nat)
    requires i < STREAM_COUNT
    ensures Layout(input, expected) ==>
              && |input| >= JUMP_TABLE_SIZE && |expected| == STREAM_COUNT
              && (i < 3 ==> SizeAt(input, i) == |expected[i]|)
              && Joined(expected[i..]) == expected[i] + Joined(expected[i + 1..])
              && (i == 3 ==> Joined(expected[i..]) == expected[i] && Joined(expected[i + 1..]) == [])
  {
    if Layout(input, expected) {
      assert expected[i..][1..] == expected[i + 1..];
    }
  }

  lemma SegmentLengths(n: nat, i: nat)
    requires i < STREAM_COUNT && 3 * SegmentSize(n) <= n
    ensures i < 3 ==> SegmentStart(n, i + 1) == SegmentStart(n, i) + SegmentSize(n)
    ensures i == 3 ==> SegmentStart(n, 4) == n && SegmentStart(n, 3) == 3 * SegmentSize(n)
  {
  }

  // ---------------------------------------------------------------- round trip

  /** What `EncodeFourStreams` lays out, `SplitFourStreams` takes apart and a Huffman decoder
      accepts segment by segment; joined in order the segments are the input. */
  lemma FourStreamsDecode(entries: seq<DecodeCell>, maxBits: nat, weights: seq<nat>, input: seq<byte>,
                          streams: seq<seq<byte>>, i: nat)
    requires CellsBy(entries, maxBits, weights) && Usable(entries, maxBits)
    requires Streams(streams, input, weights, maxBits) && |streams| == STREAM_COUNT && i < STREAM_COUNT
    ensures StreamSymbols(streams[i], entries, maxBits, |Segment(input, i)|) == Some(Segment(input, i))
  {
    hide CellsBy, Usable, Coded, MarkedBits, EncodeSyms, Segment, StreamSymbols;
    OneStreamDecodes(entries, maxBits, weights, streams[i], Segment(input, i));
  }
}
