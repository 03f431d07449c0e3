/** The bit readers. Each is proved against the same reference: the list of bits still unread,
    consumed from its end (`BackwardBitReader`, `FastBitReader`) or by an index from its start
    (`ForwardBitReader`). */
module BitReader {
  import opened Bits

  // ---------------------------------------------------------------- the reference reader

  /** The next `count` bits from the end of `rest`, zero-padded below when too few are left. */
  function PeekEnd(rest: seq<bool>, count: nat): (v: nat)
    ensures v < Pow2(count)
  {
    if count <= |rest| then FromBits(rest[|rest| - count..])
    else
      ShlBound(FromBits(rest), |rest|, count - |rest|);
      Shl(FromBits(rest), count - |rest|)
  }

  function DropEnd(rest: seq<bool>, count: nat): seq<bool> {
    if count <= |rest| then rest[..|rest| - count] else []
  }

  /** What was pushed last is peeked first. */
  lemma PeekPushed(rest: seq<bool>, value: nat, count: nat)
    ensures PeekEnd(rest + ToBits(value, count), count) == LowBits(value, count)
    ensures DropEnd(rest + ToBits(value, count), count) == rest
  {
    hide ToBits, FromBits, LowBits;
    var all := rest + ToBits(value, count);
    assert all[|all| - count..] == ToBits(value, count);
    FromToBits(value, count);
  }

  /** A window of `wide` bits starts with the window of `narrow` bits. */
  lemma PeekNarrow(rest: seq<bool>, wide: nat, narrow: nat)
    requires narrow <= wide
    ensures Shr(PeekEnd(rest, wide), wide - narrow) == PeekEnd(rest, narrow)
  {
    hide Shr, Shl, FromBits, LowBits;
    if wide <= |rest| {
      var low, high := rest[|rest| - wide..|rest| - narrow], rest[|rest| - narrow..];
      assert rest[|rest| - wide..] == low + high;
      FromBitsConcat(low, high);
      SplitUnique(FromBits(low), FromBits(high), wide - narrow);
    } else if narrow <= |rest| {
      var low, high := rest[..|rest| - narrow], rest[|rest| - narrow..];
      assert rest == low + high;
      FromBitsConcat(low, high);
      PeekNarrowMixed(FromBits(low), FromBits(high), |low|, wide - |rest|);
    } else {
      ShlShl(FromBits(rest), narrow - |rest|, wide - narrow);
      ShrShl(Shl(FromBits(rest), narrow - |rest|), wide - narrow);
    }
  }

  lemma PeekNarrowMixed(low: nat, high: nat, k: nat, m: nat)
    requires low < Pow2(k)
    ensures Shr(Shl(low + Shl(high, k), m), k + m) == high
  {
    hide *;
    ShlAdd(low, Shl(high, k), m);
    ShlShl(high, k, m);
    ShlBound(low, k, m);
    PositivePow2(m);
    SplitUnique(Shl(low, m), high, k + m);
  }

  lemma PositivePow2(m: nat)
    ensures Pow2(m) > 0
  {
  }

  lemma ShrShl(v: nat, n: nat)
    ensures Shr(Shl(v, n), n) == v
  {
    hide *;
    PositivePow2(n);
    SplitUnique(0, v, n);
  }

  /** Writes are read back in reverse order: the fields, widest use first last. */
  function Fields(fields: seq<(nat, nat)>): seq<bool> {
    if fields == [] then []
    else Fields(fields[..|fields| - 1]) + ToBits(fields[|fields| - 1].0, fields[|fields| - 1].1)
  }

  function ReadFields(rest: seq<bool>, widths: seq<nat>): (seq<nat>, seq<bool>)
    decreases |widths|
  {
    if widths == [] then ([], rest)
    else
      var n := widths[|widths| - 1];
      var (values, left) := ReadFields(DropEnd(rest, n), widths[..|widths| - 1]);
      (values + [PeekEnd(rest, n)], left)
  }

  /** Every list of (value, width) pairs is read back, masked to the widths, and nothing is left. */
  lemma {:induction false} FieldsReadBack(before: seq<bool>, fields: seq<(nat, nat)>)
    ensures var widths := seq(|fields|, i requires 0 <= i < |fields| => fields[i].1);
            var values := seq(|fields|, i requires 0 <= i < |fields| => LowBits(fields[i].0, fields[i].1));
            ReadFields(before + Fields(fields), widths) == (values, before)
  {
    hide ToBits, LowBits, PeekEnd, DropEnd;
    var widths := seq(|fields|, i requires 0 <= i < |fields| => fields[i].1);
    var values := seq(|fields|, i requires 0 <= i < |fields| => LowBits(fields[i].0, fields[i].1));
    if fields == [] {
      assert before + Fields(fields) == before;
      assert values == [];
    } else {
      var init, last := fields[..|fields| - 1], fields[|fields| - 1];
      FieldsReadBack(before, init);
      PeekPushed(before + Fields(init), last.0, last.1);
      assert before + Fields(fields) == before + Fields(init) + ToBits(last.0, last.1);
      assert widths[..|widths| - 1] == seq(|init|, i requires 0 <= i < |init| => init[i].1);
      assert values
             == seq(|init|, i requires 0 <= i < |init| => LowBits(init[i].0, init[i].1)) + [LowBits(last.0, last.1)];
    }
  }

  // ---------------------------------------------------------------- streams with an end marker

  datatype Option<+T> = None | Some(value: T)

  /** The bits below the end marker, the highest set bit of the last byte. */
  function MarkedBits(input: seq<byte>): (rest: Option<seq<bool>>)
    ensures rest.Some? <==> input != [] && input[|input| - 1] != 0
    ensures rest.Some? ==> var n := |rest.value|; 8 * (|input| - 1) <= n < 8 * |input| && n < |BytesToBits(input)|
  {
    if input == [] || input[|input| - 1] == 0 then None
    else
      var pad := HighestBit(input[|input| - 1]);
      PadBelow8(input[|input| - 1]);
      Some(BytesToBits(input)[..8 * (|input| - 1) + pad])
  }

  lemma PadBelow8(b: nat)
    requires 0 < b < 256
    ensures HighestBit(b) < 8
  {
    assert Pow2(8) == 256;
    if HighestBit(b) >= 8 {
      Pow2Mono(8, HighestBit(b));
    }
  }

  /** A marker followed by fewer than eight zeros is found again: the stream a backward writer
      finishes opens to exactly the bits it was given. */
  lemma MarkerFound(input: seq<byte>, content: seq<bool>, pad: nat)
    requires pad < 8 && BytesToBits(input) == content + [true] + Zeros(pad)
    ensures MarkedBits(input) == Some(content)
  {
    hide BytesToBits, FromBits, ToBits, HighestBit;
    var n := |input|;
    assert 8 * n == |content| + 1 + pad;
    var last := input[n - 1];
    var top := BytesToBits(input)[8 * (n - 1)..8 * n];
    BytesToBitsSlice(input, n - 1, n);
    assert input[n - 1..n] == [last];
    var kept := content[8 * (n - 1)..];
    assert top == kept + ([true] + Zeros(pad));
    LastByteValue(last, kept, pad);
    assert BytesToBits(input)[..8 * (n - 1) + (7 - pad)] == content;
  }

  lemma LastByteValue(last: byte, kept: seq<bool>, pad: nat)
    requires |kept| + 1 + pad == 8
    requires BytesToBits([last]) == kept + ([true] + Zeros(pad))
    ensures last != 0 && HighestBit(last) == 7 - pad
  {
    OneByteBits(last);
    MarkerValue(pad);
    hide *;
    FromBitsConcat(kept, [true] + Zeros(pad));
    ShlPow2(0, |kept|);
    Pow2Zero();
    Pow2Step(|kept|);
    HighestBitUnique(last, |kept|);
  }

  lemma OneByteBits(b: byte)
    ensures FromBits(BytesToBits([b])) == b
  {
    LeWordBits([b]);
  }

  lemma MarkerValue(pad: nat)
    ensures FromBits([true] + Zeros(pad)) == 1
  {
    ToBitsZero(pad);
    assert ([true] + Zeros(pad))[1..] == Zeros(pad);
  }

  lemma Pow2Zero()
    ensures Pow2(0) == 1
  {
  }

  lemma Pow2Step(n: nat)
    ensures Pow2(n + 1) == 2 * Pow2(n)
  {
  }

  // ---------------------------------------------------------------- words of the input

  /** `read_little_endian_word_from`: eight bytes, zeros past the end of the input. */
  function WordFrom(input: seq<byte>, start: nat): nat {
    if start <= |input| then LeWord(input[start..Min(start + 8, |input|)]) else 0
  }

  /** A field of the word is the same field of the stream. */
  lemma WordField(input: seq<byte>, start: nat, from: nat, to: nat)
    requires start <= |input| && from <= to <= 64 && 8 * start + to <= 8 * |input|
    ensures 8 * start + from <= 8 * start + to <= |BytesToBits(input)|
    ensures LowBits(Shr(WordFrom(input, start), from), to - from)
         == FromBits(BytesToBits(input)[8 * start + from..8 * start + to])
  {
    hide BytesToBits, FromBits, Shr, LowBits, LeWord;
    var end := Min(start + 8, |input|);
    var word := input[start..end];
    LeWordBits(word);
    BytesToBitsSlice(input, start, end);
    FromBitsSlice(BytesToBits(word), from, to);
    SliceOfSlice(BytesToBits(input), 8 * start, 8 * end, from, to);
  }

  lemma SliceOfSlice<T>(s: seq<T>, a: nat, b: nat, from: nat, to: nat)
    requires a <= b <= |s| && from <= to <= b - a
    ensures s[a..b][from..to] == s[a + from..a + to]
  {
    var l, r := s[a..b][from..to], s[a + from..a + to];
    assert |l| == |r|;
    forall i | 0 <= i < |l| ensures l[i] == r[i] {
      assert l[i] == s[a..b][from + i];
    }
  }

  // ---------------------------------------------------------------- the checked reader

  class BackwardBitReader {
    const input: seq<byte>
    var container: nat
    var bitsInContainer: nat
    var bytePosition: nat
    var hasOverflowed: bool

    ghost predicate Valid()
      reads this
    {
      && bytePosition <= |input|
      && bitsInContainer <= 64 && 8 * bytePosition + bitsInContainer <= 8 * |input|
      && container == WordFrom(input, bytePosition)
      && (hasOverflowed ==> bytePosition == 0 && bitsInContainer == 0)
    }

    /** The bits not read yet. */
    ghost function Rest(): (rest: seq<bool>)
      requires Valid()
      reads this
      ensures |rest| == 8 * bytePosition + bitsInContainer
    {
      BytesToBits(input)[..8 * bytePosition + bitsInContainer]
    }

    constructor Over(input: seq<byte>)
      requires MarkedBits(input).Some?
      ensures this.input == input && Valid() && !hasOverflowed
      ensures Rest() == MarkedBits(input).value
    {
      var padding := HighestBit(input[|input| - 1]);
      PadBelow8(input[|input| - 1]);
      var totalBitsLeft := 8 * (|input| - 1) + padding;
      var startByte := |input| - Min(|input|, 8);
      this.input := input;
      container := WordFrom(input, startByte);
      bitsInContainer := totalBitsLeft - startByte * 8;
      bytePosition := startByte;
      hasOverflowed := false;
    }

    /** `None`'s two errors, empty input and a last byte without a marker, give no reader. */
    static method New(input: seq<byte>) returns (reader: BackwardBitReader?)
      ensures reader == null <==> MarkedBits(input).None?
      ensures reader != null ==> fresh(reader) && reader.input == input && reader.Valid()
                                 && !reader.hasOverflowed && reader.Rest() == MarkedBits(input).value
    {
      if input == [] || input[|input| - 1] == 0 {
        return null;
      }
      reader := new BackwardBitReader.Over(input);
    }

    method LoadMoreBytes()
      requires Valid()
      modifies this
      ensures Valid() && hasOverflowed == old(hasOverflowed) && Rest() == old(Rest())
      ensures bytePosition == 0 || bitsInContainer > 56
    {
      if bytePosition == 0 {
        return;
      }
      if bitsInContainer > 56 {
        return;
      }
      var capacityBits := 64 - bitsInContainer;
      var bytesToAdd := Min(bytePosition, capacityBits / 8);
      if bytesToAdd == 0 {
        return;
      }
      var newBytePosition := bytePosition - bytesToAdd;
      container := WordFrom(input, newBytePosition);
      bitsInContainer := bitsInContainer + bytesToAdd * 8;
      bytePosition := newBytePosition;
    }

    method PeekBits(count: nat) returns (value: nat)
      requires Valid() && count <= 56
      modifies this
      ensures Valid() && hasOverflowed == old(hasOverflowed) && Rest() == old(Rest())
      ensures value == PeekEnd(Rest(), count)
    {
      hide BytesToBits, FromBits, Shr, Shl, LowBits, WordFrom, Shl64;
      if count == 0 {
        EmptyPeek(Rest());
        return 0;
      }
      if count > bitsInContainer {
        LoadMoreBytes();
      }
      if count <= bitsInContainer {
        var shift := bitsInContainer - count;
        WordField(input, bytePosition, shift, bitsInContainer);
        assert Rest()[|Rest()| - count..]
            == BytesToBits(input)[8 * bytePosition + shift..8 * bytePosition + bitsInContainer];
        value := LowBits(Shr(container, shift), count);
      } else {
        WordField(input, 0, 0, bitsInContainer);
        ShrNothing(container);
        assert Rest() == BytesToBits(input)[8 * 0 + 0..8 * 0 + bitsInContainer];
        value := LowBits(container, bitsInContainer);
        Shl64Exact(value, bitsInContainer, count - bitsInContainer);
        value := Shl64(value, count - bitsInContainer);
      }
    }

    method SkipBits(count: nat)
      requires Valid() && count <= 56
      modifies this
      ensures Valid() && Rest() == DropEnd(old(Rest()), count)
      ensures hasOverflowed <==> old(hasOverflowed) || count > |old(Rest())|
    {
      if count > bitsInContainer {
        LoadMoreBytes();
      }
      if count <= bitsInContainer {
        bitsInContainer := bitsInContainer - count;
      } else {
        bitsInContainer := 0;
        hasOverflowed := true;
      }
    }

    method ReadBits(count: nat) returns (value: nat)
      requires Valid() && count <= 56
      modifies this
      ensures Valid() && Rest() == DropEnd(old(Rest()), count)
      ensures value == PeekEnd(old(Rest()), count)
      ensures hasOverflowed <==> old(hasOverflowed) || count > |old(Rest())|
    {
      value := PeekBits(count);
      SkipBits(count);
    }

    method Refill()
      requires Valid()
      modifies this
      ensures Valid() && hasOverflowed == old(hasOverflowed) && Rest() == old(Rest())
    {
      LoadMoreBytes();
    }

    function BitsLeft(): (left: nat)
      requires Valid()
      reads this
      ensures left == |Rest()|
    {
      bitsInContainer + bytePosition * 8
    }

    predicate IsFinished()
      requires Valid()
      reads this
      ensures IsFinished() <==> Rest() == [] && !hasOverflowed
    {
      BitsLeft() == 0 && !hasOverflowed
    }
  }

  lemma EmptyPeek(rest: seq<bool>)
    ensures PeekEnd(rest, 0) == 0
  {
    assert rest[|rest|..] == [];
  }

  lemma ShrNothing(v: nat)
    ensures Shr(v, 0) == v
  {
  }

  // ---------------------------------------------------------------- the fast reader

  datatype ReloadStatus = Unfinished | EndOfBuffer | Completed | Overflow

  /** Pointers are indices into `buffer`; `start` is 0 and `limit` is 8. The window is the eight
      bytes at `position`, `bitsConsumed` of which, counted from the top, are already used. */
  class FastBitReader {
    const buffer: seq<byte>
    var container: nat
    var bitsConsumed: nat
    var position: nat

    ghost predicate Valid()
      reads this
    {
      && position + 8 <= |buffer|
      && container == WordFrom(buffer, position)
    }

    /** The bits not read yet, as long as the window is not overdrawn. */
    ghost function Rest(): (rest: seq<bool>)
      requires Valid() && bitsConsumed <= 64
      reads this
      ensures |rest| == 8 * position + 64 - bitsConsumed
    {
      BytesToBits(buffer)[..8 * position + 64 - bitsConsumed]
    }

    constructor (input: seq<byte>)
      requires |input| >= 8 && MarkedBits(input).Some?
      ensures Valid() && 1 <= bitsConsumed <= 8 && buffer == input && position == |input| - 8
      ensures Rest() == MarkedBits(input).value
    {
      hide BytesToBits, FromBits, WordFrom, HighestBit;
      PadBelow8(input[|input| - 1]);
      var padding := HighestBit(input[|input| - 1]);
      buffer := input;
      bitsConsumed := 8 - padding;
      position := |input| - 8;
      container := WordFrom(input, |input| - 8);
    }

    /** Fewer than eight bytes are read from a zeroed buffer of sixteen. */
    constructor Padded(input: seq<byte>)
      requires 0 < |input| < 8 && MarkedBits(input).Some?
      ensures Valid() && bitsConsumed <= 64 && position == 0 && |buffer| == 16
      ensures Rest() == MarkedBits(input).value
    {
      hide BytesToBits, FromBits, WordFrom, HighestBit;
      PadBelow8(input[|input| - 1]);
      var padding := HighestBit(input[|input| - 1]);
      var filled := input + seq(16 - |input|, i => 0);
      var phantomBits := (8 - |input|) * 8;
      buffer := filled;
      bitsConsumed := 8 - padding + phantomBits;
      position := 0;
      container := WordFrom(filled, 0);
      BytesToBitsConcat(input, seq(16 - |input|, i => 0));
    }

    /** Within the window the reader agrees with the reference; past it only the width is known. */
    function Peek(count: nat): (value: nat)
      requires Valid() && count <= 56
      reads this
      ensures value < Pow2(count)
      ensures bitsConsumed + count <= 64 ==> value == PeekEnd(Rest(), count)
    {
      var shift := (64 - bitsConsumed - count) % 64;
      FastPeekCorrect();
      LowBits(Shr(container, shift), count)
    }

    lemma FastPeekCorrect()
      requires Valid()
      ensures forall count: nat :: count <= 56 && bitsConsumed + count <= 64 ==>
                LowBits(Shr(container, (64 - bitsConsumed - count) % 64), count) == PeekEnd(Rest(), count)
    {
      hide BytesToBits, FromBits, Shr, LowBits, WordFrom;
      forall count: nat | count <= 56 && bitsConsumed + count <= 64
        ensures LowBits(Shr(container, (64 - bitsConsumed - count) % 64), count) == PeekEnd(Rest(), count)
      {
        if count == 0 {
          EmptyPeek(Rest());
          NoLowBits(Shr(container, (64 - bitsConsumed) % 64));
        } else {
          var from := 64 - bitsConsumed - count;
          assert from % 64 == from;
          WordField(buffer, position, from, from + count);
          assert Rest()[|Rest()| - count..]
              == BytesToBits(buffer)[8 * position + from..8 * position + (from + count)];
        }
      }
    }

    method Skip(count: nat)
      requires Valid()
      modifies this`bitsConsumed
      ensures Valid() && bitsConsumed == old(bitsConsumed) + count
      ensures bitsConsumed <= 64 ==> Rest() == DropEnd(old(Rest()), count)
    {
      bitsConsumed := bitsConsumed + count;
    }

    method Read(count: nat) returns (value: nat)
      requires Valid() && count <= 56
      modifies this`bitsConsumed
      ensures Valid() && bitsConsumed == old(bitsConsumed) + count && value < Pow2(count)
      ensures bitsConsumed <= 64 ==>
                value == PeekEnd(old(Rest()), count) && Rest() == DropEnd(old(Rest()), count)
    {
      value := Peek(count);
      Skip(count);
    }

    method Refill() returns (status: ReloadStatus)
      requires Valid()
      modifies this
      ensures Valid()
      ensures status == Overflow <==> old(bitsConsumed) > 64
      ensures status == Overflow ==> bitsConsumed == old(bitsConsumed) && position == old(position)
      ensures status != Overflow ==> bitsConsumed <= 64 && Rest() == old(Rest())
                                     && (bitsConsumed <= 7 || position == 0)
    {
      if bitsConsumed > 64 {
        return Overflow;
      }
      if position >= 8 {
        var consumedBytes := bitsConsumed / 8;
        position := position - consumedBytes;
        container := WordFrom(buffer, position);
        bitsConsumed := bitsConsumed % 8;
        return Unfinished;
      }
      if position == 0 {
        return if bitsConsumed < 64 then EndOfBuffer else Completed;
      }
      var available := position;
      var consumedBytes := bitsConsumed / 8;
      status := Unfinished;
      if consumedBytes > available {
        consumedBytes := available;
        status := EndOfBuffer;
      }
      position := position - consumedBytes;
      bitsConsumed := bitsConsumed - consumedBytes * 8;
      container := WordFrom(buffer, position);
    }

    /** `window` and `move_window_unchecked`: the Huffman rounds advance the window themselves. */
    method MoveWindow(newPosition: nat, newBitsConsumed: nat)
      requires Valid() && newPosition + 8 <= |buffer| && newBitsConsumed <= 64
      modifies this
      ensures Valid() && position == newPosition && bitsConsumed == newBitsConsumed
    {
      position := newPosition;
      container := WordFrom(buffer, newPosition);
      bitsConsumed := newBitsConsumed;
    }

    predicate IsFinished()
      requires Valid()
      reads this
      ensures IsFinished() <==> bitsConsumed <= 64 && Rest() == []
    {
      position == 0 && bitsConsumed == 64
    }

    function BitsLeft(): (left: nat)
      requires Valid()
      reads this
      ensures bitsConsumed <= 64 ==> left == |Rest()|
    {
      position * 8 + (if bitsConsumed > 64 then 0 else 64 - bitsConsumed)
    }
  }

  lemma NoLowBits(v: nat)
    ensures LowBits(v, 0) == 0
  {
  }

  // ---------------------------------------------------------------- the forward reader

  /** Bits `pos ..` of a stream that continues with zeros past its end. */
  function PaddedField(s: seq<bool>, pos: nat, count: nat): (field: seq<bool>)
    ensures |field| == count
  {
    seq(count, i requires 0 <= i < count => pos + i < |s| && s[pos + i])
  }

  /** `extract_bits_starting_at`. */
  function ExtractBits(input: seq<byte>, bitPosition: nat, count: nat): (value: nat)
    requires count <= 56
    ensures value == FromBits(PaddedField(BytesToBits(input), bitPosition, count))
  {
    ExtractCorrect(input, bitPosition, count);
    if count == 0 then 0
    else LowBits(Shr(WordFrom(input, bitPosition / 8), bitPosition % 8), count)
  }

  lemma ExtractCorrect(input: seq<byte>, bitPosition: nat, count: nat)
    requires count <= 56
    ensures (if count == 0 then 0 else LowBits(Shr(WordFrom(input, bitPosition / 8), bitPosition % 8), count))
         == FromBits(PaddedField(BytesToBits(input), bitPosition, count))
  {
    hide BytesToBits, FromBits, Shr, LowBits, LeWord;
    if count == 0 {
      NothingFromBits(PaddedField(BytesToBits(input), bitPosition, count));
    } else {
      var start, offset := bitPosition / 8, bitPosition % 8;
      var padding: seq<byte> := seq(8 + start, i => 0);
      var padded := input + padding;
      BytesToBitsConcat(input, padding);
      PaddingBits(8 + start);
      WordPadded(input, start, 8 + start);
      WordField(padded, start, offset, offset + count);
      assert BytesToBits(padded)[8 * start + offset..8 * start + (offset + count)]
          == PaddedField(BytesToBits(input), bitPosition, count);
    }
  }

  lemma NothingFromBits(s: seq<bool>)
    requires |s| == 0
    ensures FromBits(s) == 0
  {
  }

  lemma {:induction false} PaddingBits(n: nat)
    ensures BytesToBits(seq(n, i => 0 as byte)) == Zeros(8 * n)
  {
    hide ToBits;
    if n > 0 {
      PaddingBits(n - 1);
      assert seq(n, i => 0 as byte)[1..] == seq(n - 1, i => 0 as byte);
      ToBitsZero(8);
    }
  }

  /** Zero bytes past the end do not change the word. */
  lemma WordPadded(input: seq<byte>, start: nat, n: nat)
    requires start + 8 <= |input| + n
    ensures WordFrom(input + seq(n, i => 0 as byte), start) == WordFrom(input, start)
  {
    hide LeWord;
    var padded := input + seq(n, i => 0 as byte);
    if start <= |input| {
      var end := Min(start + 8, |input|);
      var zeros: seq<byte> := seq(start + 8 - end, i => 0);
      assert padded[start..Min(start + 8, |padded|)] == input[start..end] + zeros;
      LeWordZeros(input[start..end], start + 8 - end);
    } else {
      assert padded[start..Min(start + 8, |padded|)] == [] + seq(8, i => 0 as byte);
      LeWordZeros([], 8);
      LeWordEmpty();
    }
  }

  lemma LeWordEmpty()
    ensures LeWord([]) == 0
  {
  }

  lemma {:induction false} LeWordZeros(bs: seq<byte>, n: nat)
    ensures LeWord(bs + seq(n, i => 0 as byte)) == LeWord(bs)
    decreases |bs| + n
  {
    if bs != [] {
      assert (bs + seq(n, i => 0 as byte))[1..] == bs[1..] + seq(n, i => 0 as byte);
      LeWordZeros(bs[1..], n);
    } else if n > 0 {
      assert (bs + seq(n, i => 0 as byte))[1..] == bs + seq(n - 1, i => 0 as byte);
      LeWordZeros(bs, n - 1);
    }
  }

  class ForwardBitReader {
    const input: seq<byte>
    var bitPosition: nat

    constructor (input: seq<byte>)
      ensures this.input == input && bitPosition == 0
    {
      this.input := input;
      bitPosition := 0;
    }

    method ReadBits(count: nat) returns (value: nat)
      requires count <= 56
      modifies this
      ensures value == FromBits(PaddedField(BytesToBits(input), old(bitPosition), count))
      ensures bitPosition == old(bitPosition) + count
    {
      value := ExtractBits(input, bitPosition, count);
      bitPosition := bitPosition + count;
    }

    function BytesUsed(): (n: nat)
      reads this
      ensures 8 * n - 8 < bitPosition <= 8 * n
    {
      (bitPosition + 7) / 8
    }
  }
}
