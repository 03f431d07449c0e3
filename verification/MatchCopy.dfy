/** Copying a match. The meaning is one byte after another from `offset` bytes back, so a match
    may run into its own copy; the copies here move 16 bytes or doubling stretches at a time. */
module MatchCopy {
  import opened Bits

  const FAST_PATH_SLACK := 32

  /** One byte after another. */
  function CopyMatch(out: seq<byte>, offset: nat, n: nat): (r: seq<byte>)
    requires 1 <= offset <= |out|
    ensures |r| == |out| + n && r[..|out|] == out
    decreases n
  {
    if n == 0 then out
    else
      var before := CopyMatch(out, offset, n - 1);
      before + [before[|before| - offset]]
  }

  // ---------------------------------------------------------------- the repeating pattern

  /** `i % offset`. */
  function Cycle(i: nat, offset: nat): (r: nat)
    requires offset > 0
    ensures r < offset
  {
    if i < offset then i else Cycle(i - offset, offset)
  }

  predicate Multiple(n: nat, offset: nat)
    requires offset > 0
  {
    n == 0 || (n >= offset && Multiple(n - offset, offset))
  }

  lemma {:induction false} MultipleAdd(a: nat, b: nat, offset: nat)
    requires offset > 0 && Multiple(a, offset) && Multiple(b, offset)
    ensures Multiple(a + b, offset)
    decreases a
  {
    if a > 0 {
      MultipleAdd(a - offset, b, offset);
    }
  }

  lemma {:induction false} CycleShift(step: nat, i: nat, offset: nat)
    requires offset > 0 && Multiple(step, offset)
    ensures Cycle(step + i, offset) == Cycle(i, offset)
    decreases step
  {
    if step > 0 {
      CycleShift(step - offset, i, offset);
    }
  }

  /** From `offset` bytes before the end the bytes repeat. */
  lemma {:induction false} CopyMatchAt(out: seq<byte>, offset: nat, n: nat, i: nat)
    requires 1 <= offset <= |out| && i < offset + n
    ensures CopyMatch(out, offset, n)[|out| - offset + i] == out[|out| - offset + Cycle(i, offset)]
    decreases n, i
  {
    if i < offset {
      assert CopyMatch(out, offset, n)[..|out|][|out| - offset + i] == out[|out| - offset + i];
    } else if i + 1 < offset + n {
      CopyMatchAt(out, offset, n - 1, i);
    } else {
      CopyMatchAt(out, offset, n - 1, i - offset);
    }
  }

  /** A longer copy starts with the shorter one. */
  lemma {:induction false} CopyMatchPrefix(out: seq<byte>, offset: nat, n: nat, m: nat)
    requires 1 <= offset <= |out| && m <= n
    ensures CopyMatch(out, offset, n)[..|out| + m] == CopyMatch(out, offset, m)
    decreases n
  {
    if m < n {
      CopyMatchPrefix(out, offset, n - 1, m);
    }
  }

  /** `output` holds `extent` bytes of the pattern from `offset` before `start`. */
  ghost predicate Patterned(output: seq<byte>, base: seq<byte>, start: nat, extent: nat) {
    && 0 < |base| <= start && start - |base| + extent <= |output|
    && forall i: nat :: i < extent ==> output[start - |base| + i] == base[Cycle(i, |base|)]
  }

  lemma PatternStarts(output: seq<byte>, start: nat, offset: nat)
    requires 1 <= offset <= start <= |output|
    ensures Patterned(output, output[start - offset..start], start, offset)
  {
  }

  /** A pattern long enough is the copied match. */
  lemma PatternIsCopy(before: seq<byte>, after: seq<byte>, start: nat, offset: nat, length: nat)
    requires 1 <= offset <= start <= |before| && start + length <= |after| && before[..start] == after[..start]
    requires Patterned(after, before[start - offset..start], start, offset + length)
    ensures after[..start + length] == CopyMatch(before[..start], offset, length)
  {
    hide CopyMatch, Cycle;
    var copy := CopyMatch(before[..start], offset, length);
    forall k | 0 <= k < start + length
      ensures after[k] == copy[k]
    {
      if k < start {
        assert copy[..start][k] == before[..start][k] == after[..start][k];
      } else {
        CopyMatchAt(before[..start], offset, length, k - start + offset);
      }
    }
  }

  /** `count` bytes loaded, then stored. */
  ghost predicate Moved(before: seq<byte>, after: seq<byte>, source: nat, destination: nat, count: nat) {
    && |before| == |after| && source + count <= |before| && destination + count <= |before|
    && KeptOutside(before, after, destination, destination + count)
    && forall j :: destination <= j < destination + count ==> after[j] == before[source + (j - destination)]
  }

  /** Copying pattern bytes forward by a multiple of the offset extends the pattern. */
  lemma PatternExtends(before: seq<byte>, after: seq<byte>, base: seq<byte>, start: nat, extent: nat,
                       from: nat, step: nat, count: nat, moved: nat)
    requires Patterned(before, base, start, extent) && Multiple(step, |base|)
    requires Moved(before, after, start - |base| + from, start - |base| + from + step, moved)
    requires count <= moved && from + count <= extent && from + step <= extent
    ensures Patterned(after, base, start, from + step + count)
  {
    hide Multiple, Cycle;
    forall i: nat | i < from + step + count
      ensures after[start - |base| + i] == base[Cycle(i, |base|)]
    {
      if i >= from + step {
        var k: nat := i - step;
        CycleShift(step, k, |base|);
        assert before[start - |base| + k] == base[Cycle(k, |base|)];
        assert step + k == i;
        assert after[start - |base| + i] == before[start - |base| + k];
      } else {
        assert before[start - |base| + i] == base[Cycle(i, |base|)];
      }
    }
  }

  /** Bytes outside the destination stay. */
  ghost predicate KeptOutside(before: seq<byte>, after: seq<byte>, low: nat, high: nat) {
    && |before| == |after|
    && forall j :: 0 <= j < |after| && (j < low || high <= j) ==> after[j] == before[j]
  }

  lemma MovedKeeps(before: seq<byte>, middle: seq<byte>, after: seq<byte>, source: nat, destination: nat, count: nat,
                   low: nat, high: nat)
    requires KeptOutside(before, middle, low, high) && Moved(middle, after, source, destination, count)
    requires low <= destination && destination + count <= high
    ensures KeptOutside(before, after, low, high)
  {
    forall j | 0 <= j < |after| && (j < low || high <= j)
      ensures after[j] == before[j]
    {
      assert after[j] == middle[j];
    }
  }

  // ---------------------------------------------------------------- the copies

  /** The vector moves (16 bytes) and `copy_within`. */
  method MoveBytes(output: array<byte>, source: nat, destination: nat, count: nat)
    requires source + count <= output.Length && destination + count <= output.Length
    modifies output
    ensures Moved(old(output[..]), output[..], source, destination, count)
  {
    var loaded := output[source..source + count];
    forall i | 0 <= i < count {
      output[destination + i] := loaded[i];
    }
  }

  /** `copy_bytes_overshoot_unchecked` within one buffer, from 16 or more bytes back. */
  method CopyForward(output: array<byte>, destination: nat, step: nat, length: nat, ghost base: seq<byte>,
                     ghost start: nat)
    requires 16 <= step && 0 < |base| <= start && destination == start - |base| + step
    requires destination + length + 15 <= output.Length
    requires Patterned(output[..], base, start, step) && Multiple(step, |base|)
    modifies output
    ensures Patterned(output[..], base, start, step + length)
    ensures KeptOutside(old(output[..]), output[..], destination, destination + length + 15)
  {
    hide Patterned, Multiple, Moved, KeptOutside;
    var position: nat := 0;
    Unmoved(output[..], destination, destination + length + 15);
    while position < length
      invariant position <= length + 15
      invariant Patterned(output[..], base, start, step + position)
      invariant KeptOutside(old(output[..]), output[..], destination, destination + length + 15)
    {
      ghost var before := output[..];
      MoveBytes(output, destination - step + position, destination + position, 16);
      PatternExtends(before, output[..], base, start, step + position, position, step, 16, 16);
      MovedKeeps(old(output[..]), before, output[..], destination - step + position, destination + position, 16,
                 destination, destination + length + 15);
      position := position + 16;
    }
    PatternShorter(output[..], base, start, step + position, step + length);
  }

  lemma Unmoved(output: seq<byte>, low: nat, high: nat)
    ensures KeptOutside(output, output, low, high)
  {
  }

  lemma KeptWider(before: seq<byte>, middle: seq<byte>, after: seq<byte>, low: nat, high: nat, low2: nat)
    requires KeptOutside(before, middle, low, high) && KeptOutside(middle, after, low2, high) && low <= low2
    ensures KeptOutside(before, after, low, high)
  {
  }

  lemma PatternShorter(output: seq<byte>, base: seq<byte>, start: nat, extent: nat, less: nat)
    requires Patterned(output, base, start, extent) && less <= extent
    ensures Patterned(output, base, start, less)
  {
  }

  lemma KeptPrefix(before: seq<byte>, after: seq<byte>, low: nat, high: nat)
    requires KeptOutside(before, after, low, high) && low <= |before|
    ensures before[..low] == after[..low]
  {
  }

  /** `copy_match_overshoot_unchecked`: vectors of 16, the step doubling until they no longer
      overlap; at most 15 bytes past the match are touched. */
  method CopyMatchOvershoot(output: array<byte>, start: nat, offset: nat, length: nat)
    requires 1 <= offset <= start && start + length + 15 <= output.Length
    modifies output
    ensures output[..start + length] == CopyMatch(old(output[..start]), offset, length)
    ensures KeptOutside(old(output[..]), output[..], start, start + length + 15)
  {
    hide Patterned, Multiple, CopyMatch, Moved, KeptOutside;
    ghost var first := output[..];
    ghost var base := output[start - offset..start];
    var written: nat := 0;
    var step: nat := offset;
    PatternStarts(output[..], start, offset);
    assert output[..][start - offset..start] == base;
    OneMultiple(offset);
    Unmoved(first, start, start + length + 15);
    while step < 16 && written < length
      invariant step == written + offset && Multiple(step, offset)
      invariant Patterned(output[..], base, start, step)
      invariant KeptOutside(first, output[..], start, start + length + 15)
      decreases 16 - step as int
    {
      ghost var before := output[..];
      MoveBytes(output, start + written - step, start + written, 16);
      PatternExtends(before, output[..], base, start, step, 0, step, step, 16);
      MovedKeeps(first, before, output[..], start + written - step, start + written, 16, start, start + length + 15);
      MultipleAdd(step, step, offset);
      written := written + step;
      step := step * 2;
    }
    if written < length {
      ghost var before := output[..];
      CopyForward(output, start + written, step, length - written, base, start);
      KeptWider(first, before, output[..], start, start + length + 15, start + written);
    } else {
      PatternShorter(output[..], base, start, step, offset + length);
    }
    KeptPrefix(first, output[..], start, start + length + 15);
    assert first[..start] == old(output[..start]);
    PatternIsCopy(first, output[..], start, offset, length);
    assert output[..][..start + length] == output[..start + length];
  }

  lemma OneMultiple(offset: nat)
    requires offset > 0
    ensures Multiple(offset, offset)
  {
  }

  /** The two paths that move exactly `length` bytes. */
  method CopyMatchExact(output: array<byte>, position: nat, offset: nat, length: nat)
    requires 1 <= offset <= position && position + length <= output.Length
    modifies output
    ensures output[..position + length] == CopyMatch(old(output[..position]), offset, length)
    ensures KeptOutside(old(output[..]), output[..], position, position + length)
  {
    hide Patterned, Multiple, CopyMatch, Moved, KeptOutside;
    ghost var first := output[..];
    ghost var base := output[position - offset..position];
    PatternStarts(first, position, offset);
    assert first[position - offset..position] == base;
    OneMultiple(offset);
    Unmoved(first, position, position + length);
    if offset >= length {
      MoveBytes(output, position - offset, position, length);
      PatternExtends(first, output[..], base, position, offset, 0, offset, length, length);
      MovedKeeps(first, first, output[..], position - offset, position, length, position, position + length);
    } else {
      MoveBytes(output, position - offset, position, offset);
      PatternExtends(first, output[..], base, position, offset, 0, offset, offset, offset);
      MovedKeeps(first, first, output[..], position - offset, position, offset, position, position + length);
      var written: nat := offset;
      while written < length
        invariant written <= length && (Multiple(written, offset) || written == length)
        invariant Patterned(output[..], base, position, offset + written)
        invariant KeptOutside(first, output[..], position, position + length)
      {
        var copySize := if written < length - written then written else length - written;
        ghost var before := output[..];
        MoveBytes(output, position, position + written, copySize);
        PatternExtends(before, output[..], base, position, offset + written, offset, written, copySize, copySize);
        MovedKeeps(first, before, output[..], position, position + written, copySize, position, position + length);
        MultipleAdd(written, written, offset);
        written := written + copySize;
      }
    }
    KeptPrefix(first, output[..], position, position + length);
    assert first[..position] == old(output[..position]);
    PatternIsCopy(first, output[..], position, offset, length);
    assert output[..][..position + length] == output[..position + length];
  }

  /** `copy_match`: byte-by-byte copying on each of its paths, and an error exactly when the offset
      or the room is wrong. */
  method CopyMatchInto(output: array<byte>, position: nat, offset: nat, length: nat)
    returns (ok: bool, newPosition: nat)
    requires position <= output.Length
    modifies output
    ensures ok <==> 1 <= offset <= position && position + length <= output.Length
    ensures ok ==>
              && newPosition == position + length
              && output[..newPosition] == CopyMatch(old(output[..position]), offset, length)
    ensures ok ==> KeptOutside(old(output[..]), output[..], position, position + length + 15)
    ensures !ok ==> unchanged(output)
  {
    hide CopyMatch;
    if offset == 0 || offset > position {
      return false, 0;
    }
    newPosition := position + length;
    if newPosition > output.Length {
      return false, 0;
    }
    ok := true;
    if output.Length - newPosition >= FAST_PATH_SLACK {
      CopyMatchOvershoot(output, position, offset, length);
      return;
    }
    CopyMatchExact(output, position, offset, length);
  }
}
