/** Executing sequences into the output, and the checked loop over a sequences section. */
module BlockDecoder {
  import opened Bits
  import opened BitReader
  import opened SequenceBits
  import opened SequenceExecution
  import opened SequenceDecoder
  import opened MatchCopy
  import R = RepeatOffsets

  /** Where the literals come from: their own buffer, a stretch of the output further on, or one
      repeated byte. */
  datatype LiteralSource = Bytes(bytes: seq<byte>) | InOutput(start: nat, count: nat) | Rle(value: byte, count: nat)

  function SourceLength(source: LiteralSource): nat {
    match source
    case Bytes(bytes) => |bytes|
    case InOutput(_, count) => count
    case Rle(_, count) => count
  }

  /** Literals parked in the output lie past everything this block may touch. */
  ghost predicate Parked(source: LiteralSource, blockStart: nat, size: nat) {
    source.InOutput? ==> blockStart + MAX_BLOCK_SIZE + 15 <= source.start && source.start + source.count <= size
  }

  ghost function LiteralBytes(source: LiteralSource, output: seq<byte>): (bytes: seq<byte>)
    requires Parked(source, 0, |output|) || !source.InOutput?
    ensures |bytes| == SourceLength(source)
  {
    match source
    case Bytes(bytes) => bytes
    case InOutput(start, count) => output[start..start + count]
    case Rle(value, count) => seq(count, _ => value)
  }

  lemma StillParked(source: LiteralSource, before: seq<byte>, after: seq<byte>, blockStart: nat, low: nat, high: nat)
    requires Parked(source, blockStart, |before|) && KeptOutside(before, after, low, high)
    requires high <= blockStart + MAX_BLOCK_SIZE + 15
    ensures Parked(source, 0, |before|) && Parked(source, 0, |after|)
    ensures LiteralBytes(source, after) == LiteralBytes(source, before)
  {
  }

  /** `take_literals`. */
  method TakeLiterals(source: LiteralSource, cursor: nat, length: nat, output: array<byte>, position: nat)
    returns (ok: bool, newPosition: nat)
    requires Parked(source, 0, output.Length) && position <= output.Length
    modifies output
    ensures ok <==> cursor + length <= SourceLength(source) && position + length <= output.Length
    ensures ok ==> newPosition == position + length
                   && output[..newPosition]
                      == old(output[..position]) + LiteralBytes(source, old(output[..]))[cursor..cursor + length]
                   && KeptOutside(old(output[..]), output[..], position, position + length)
    ensures !ok ==> unchanged(output)
  {
    var end := cursor + length;
    if end > SourceLength(source) {
      return false, 0;
    }
    newPosition := position + length;
    if newPosition > output.Length {
      return false, 0;
    }
    var taken := LoadLiterals(source, cursor, end, output);
    StoreBytes(output, position, taken);
    ok := true;
  }

  method LoadLiterals(source: LiteralSource, cursor: nat, end: nat, output: array<byte>) returns (taken: seq<byte>)
    requires Parked(source, 0, output.Length) && cursor <= end <= SourceLength(source)
    ensures taken == LiteralBytes(source, output[..])[cursor..end]
  {
    match source {
      case Bytes(bytes) => taken := bytes[cursor..end];
      case InOutput(start, count) =>
        taken := output[start + cursor..start + end];
        assert taken == output[..][start..start + count][cursor..end];
      case Rle(value, count) =>
        taken := seq(end - cursor, _ => value);
        assert taken == seq(count, _ => value)[cursor..end];
    }
  }

  method StoreBytes(output: array<byte>, position: nat, bytes: seq<byte>)
    requires position + |bytes| <= output.Length
    modifies output
    ensures output[..position + |bytes|] == old(output[..position]) + bytes
    ensures KeptOutside(old(output[..]), output[..], position, position + |bytes|)
  {
    forall i | 0 <= i < |bytes| {
      output[position + i] := bytes[i];
    }
  }

  /** The decoder's output, cursor and literals as the abstract machine has them. */
  ghost predicate Matches(env: Env, m: Machine, source: LiteralSource, output: array<byte>, position: nat, cursor: nat,
                          blockStart: nat)
    reads output
  {
    && blockStart <= position <= output.Length && output[..position] == m.out
    && Parked(source, blockStart, output.Length) && LiteralBytes(source, output[..]) == env.literals
    && cursor == m.cursor <= |env.literals| && env.start == blockStart && env.capacity == output.Length
  }

  /** Literals, then the match, then the block limit. */
  method ExecuteSequence(source: LiteralSource, cursor: nat, sequence: Sequence, output: array<byte>, position: nat,
                         blockStart: nat, ghost env: Env, ghost m: Machine, ghost record: SequenceRecord)
    returns (ok: bool, newPosition: nat, newCursor: nat)
    requires Matches(env, m, source, output, position, cursor, blockStart)
    requires sequence
           == Sequence(record.literalLength, record.matchLength,
                       R.OffsetOf(m.history, record.offsetValue, record.literalLength))
    requires sequence.offset > 0
    modifies output
    ensures ok <==> ExecuteOne(env, m, record).Some?
    ensures ok ==> Matches(env, ExecuteOne(env, m, record).value, source, output, newPosition, newCursor, blockStart)
    ensures ok ==> KeptOutside(old(output[..]), output[..], position, blockStart + MAX_BLOCK_SIZE + 15)
  {
    hide CopyMatch, R.OffsetOf, R.After;
    ghost var before := output[..];
    newCursor := cursor + sequence.literalLength;
    ok, newPosition := TakeLiterals(source, cursor, sequence.literalLength, output, position);
    if !ok {
      return;
    }
    ghost var middle := output[..];
    var literalEnd := newPosition;
    assert output[..literalEnd] == m.out + env.literals[cursor..newCursor];
    ok, newPosition := CopyMatchInto(output, literalEnd, sequence.offset, sequence.matchLength);
    if !ok {
      return;
    }
    if newPosition - blockStart > MAX_BLOCK_SIZE {
      ok := false;
      return;
    }
    KeptInTurn(before, middle, output[..], position, literalEnd, newPosition + 15);
    StillParked(source, before, output[..], blockStart, position, newPosition + 15);
  }

  lemma KeptInTurn(before: seq<byte>, middle: seq<byte>, after: seq<byte>, low: nat, mid: nat, high: nat)
    requires KeptOutside(before, middle, low, mid) && KeptOutside(middle, after, mid, high) && low <= mid <= high
    ensures KeptOutside(before, after, low, high)
  {
  }

  /** The literals after the last sequence. */
  method TakeRemaining(source: LiteralSource, cursor: nat, output: array<byte>, position: nat, blockStart: nat,
                       ghost env: Env, ghost m: Machine) returns (ok: bool, newPosition: nat)
    requires Matches(env, m, source, output, position, cursor, blockStart)
    modifies output
    ensures ok <==> TakeRest(env, m).Some?
    ensures ok ==> newPosition <= output.Length && output[..newPosition] == TakeRest(env, m).value.out
    ensures ok ==> KeptOutside(old(output[..]), output[..], position, blockStart + MAX_BLOCK_SIZE + 15)
  {
    ok, newPosition := true, position;
    if cursor < SourceLength(source) {
      ok, newPosition := TakeLiterals(source, cursor, SourceLength(source) - cursor, output, position);
      assert env.literals[cursor..|env.literals|] == env.literals[cursor..];
      if ok && newPosition - blockStart > MAX_BLOCK_SIZE {
        ok := false;
      }
    }
  }

  /** The checked loop of `decode_sequences_section`. */
  method DecodeSequencesChecked(bitstream: seq<byte>, tables: SequenceTables, sequenceCount: nat, source: LiteralSource,
                                output: array<byte>, outputPosition: nat, repeatOffsets: R.RepeatOffsets,
                                ghost t: Tables, ghost env: Env, ghost m: Machine)
    returns (ok: bool, newPosition: nat)
    requires tables.Decode(t) && Matches(env, m, source, output, outputPosition, 0, outputPosition)
    requires m.history == repeatOffsets.State() && sequenceCount > 0
    modifies output, repeatOffsets
    ensures ok <==> Section(t, bitstream, sequenceCount, env, m).Some?
    ensures ok ==> var r := Section(t, bitstream, sequenceCount, env, m).value;
                   && newPosition <= output.Length && output[..newPosition] == r.out
                   && repeatOffsets.State() == r.history
    ensures ok ==> KeptOutside(old(output[..]), output[..], outputPosition, outputPosition + MAX_BLOCK_SIZE + 15)
  {
    hide *;
    TablesValid(tables, t);
    MatchesCursor(env, m, source, output, outputPosition, 0, outputPosition);
    var reader := BackwardBitReader.New(bitstream);
    SectionParts(t, bitstream, sequenceCount, env, m);
    if reader == null {
      return false, 0;
    }
    ghost var first := Opened(t, reader.Rest());
    var stream := new SequenceStream(reader, tables, sequenceCount, t);
    ghost var c, rest, overran, machine := first.cells, first.rest, first.overran, m;
    BlockLimit();
    ghost var before, limit := output[..], outputPosition + MAX_BLOCK_SIZE + 15;
    Unmoved(before, outputPosition, limit);
    var position, cursor := outputPosition, 0;
    while stream.sequencesLeft > 0
      modifies output, repeatOffsets, stream, reader, stream.literalLengthState, stream.offsetState
      modifies stream.matchLengthState
      invariant tables.Decode(t) && ValidTables(t) && ValidCells(t, c) && stream.At(t, c, rest, overran)
      invariant Matches(env, machine, source, output, position, cursor, outputPosition)
      invariant machine.history == repeatOffsets.State()
      invariant KeptOutside(before, output[..], outputPosition, limit)
      invariant stream.sequencesLeft <= sequenceCount && (stream.sequencesLeft < sequenceCount ==> !overran)
      invariant RunSection(t, first.cells, first.rest, first.overran, sequenceCount, env, m)
             == RunSection(t, c, rest, overran, stream.sequencesLeft, env, machine)
      decreases stream.sequencesLeft
    {
      RunOne(t, c, rest, overran, stream.sequencesLeft, env, machine);
      TablesValid(tables, t);
      ghost var reading := ReadRecord(t, c, rest, overran);
      ghost var left := stream.sequencesLeft;
      if reading.Some? {
        ZeroOffsetFails(env, machine, reading.value.record);
      }
      var next := stream.NextSequence(tables, repeatOffsets, t, c, rest, overran);
      if next == Failed {
        return false, 0;
      }
      ghost var moved := AfterReading(t, c, reading.value, left);
      MatchesPosition(env, machine, source, output, position, cursor, outputPosition);
      ghost var middle := output[..];
      var executed, newPosition', newCursor :=
        ExecuteSequence(source, cursor, next.sequence, output, position, outputPosition, env, machine,
                        reading.value.record);
      if !executed {
        return false, 0;
      }
      KeptWider(before, middle, output[..], outputPosition, limit, position);
      position, cursor := newPosition', newCursor;
      machine := ExecuteOne(env, machine, reading.value.record).value;
      c, rest, overran := moved.cells, moved.rest, moved.overran;
    }
    RunNone(t, c, rest, overran, env, machine);
    StreamAt(stream, t, c, rest, overran);
    if !reader.IsFinished() {
      return false, 0;
    }
    MatchesPosition(env, machine, source, output, position, cursor, outputPosition);
    ghost var middle := output[..];
    ok, newPosition := TakeRemaining(source, cursor, output, position, outputPosition, env, machine);
    if ok {
      KeptWider(before, middle, output[..], outputPosition, limit, position);
    }
  }

  lemma TablesValid(tables: SequenceTables, t: Tables)
    requires tables.Decode(t)
    ensures ValidTables(t)
  {
    hide ValidTables;
  }

  lemma MatchesCursor(env: Env, m: Machine, source: LiteralSource, output: array<byte>, position: nat, cursor: nat,
                      blockStart: nat)
    requires Matches(env, m, source, output, position, cursor, blockStart)
    ensures m.cursor <= |env.literals|
  {
  }

  lemma MatchesPosition(env: Env, m: Machine, source: LiteralSource, output: array<byte>, position: nat, cursor: nat,
                        blockStart: nat)
    requires Matches(env, m, source, output, position, cursor, blockStart)
    ensures blockStart <= position <= output.Length
  {
  }

  lemma StreamAt(stream: SequenceStream, t: Tables, c: Cells, rest: seq<bool>, overran: bool)
    requires stream.At(t, c, rest, overran)
    ensures stream.reader.Valid() && (stream.reader.IsFinished() <==> rest == [] && !overran)
  {
  }
}
