/** The fast Huffman decoder: five symbols per 64-bit window, several streams in lockstep. A
    marker in the lowest bit of the window counts, by its trailing zeros, the bits consumed. */
module HuffmanFast {
  import opened Bits
  import opened BitReader
  import opened HuffmanCodes
  import opened HuffmanStream

  // ---------------------------------------------------------------- the marked window

  function TrailingZeros(v: nat): nat
    requires v > 0
  {
    if v % 2 == 1 then 0 else 1 + TrailingZeros(v / 2)
  }

  /** `(word | 1) << count`. */
  function Marked(word: nat, count: nat): nat {
    Shl64(Or(word, 1), count)
  }

  lemma OrOne(word: nat)
    ensures Or(word, 1) % 2 == 1 && Or(word, 1) / 2 == word / 2
  {
    if word > 0 {
      assert Or(word / 2, 0) == word / 2;
    }
  }

  lemma {:induction false} ZerosBelow(v: nat, count: nat)
    requires v % 2 == 1
    ensures Shl(v, count) > 0 && TrailingZeros(Shl(v, count)) == count
    decreases count
  {
    if count > 0 {
      ZerosBelow(v, count - 1);
    }
  }

  lemma OddLow(v: nat, n: nat)
    requires v % 2 == 1 && n > 0
    ensures LowBits(v, n) % 2 == 1
  {
  }

  /** As long as the marker is not shifted out it tells how far the window was shifted. */
  lemma MarkerStays(word: nat, count: nat)
    requires count < 64
    ensures Marked(word, count) > 0 && TrailingZeros(Marked(word, count)) == count
  {
    hide Or, Shl, Shr, LowBits, TrailingZeros, Pow2, Shl64;
    var v := Or(word, 1);
    OrOne(word);
    Shl64Def(v, count);
    MaskedShift(v, 64, count);
    OddLow(v, 64 - count);
    ZerosBelow(LowBits(v, 64 - count), count);
  }

  /** Shifting on consumes more of the same window. */
  lemma MarkedMore(word: nat, count: nat, more: nat)
    requires count + more <= 64
    ensures Shl64(Marked(word, count), more) == Marked(word, count + more)
  {
    hide Or, Shl, Shr, LowBits, Pow2, Shl64;
    var v := Or(word, 1);
    var n := 64 - more;
    Shl64Def(v, count);
    Shl64Def(v, count + more);
    Shl64Def(Marked(word, count), more);
    MaskedShift(v, 64, count);
    MaskedShift(v, 64, count + more);
    MaskedShift(Marked(word, count), 64, more);
    LowOfLow(v, n, count);
    ShlShl(LowBits(v, n - count), count, more);
  }

  lemma LowOfLow(v: nat, n: nat, count: nat)
    requires count <= n <= 64
    ensures LowBits(Shl(LowBits(v, 64 - count), count), n) == Shl(LowBits(v, n - count), count)
  {
    hide *;
    MaskedShift(LowBits(v, 64 - count), n, count);
    LowLow(v, 64 - count, n - count);
  }

  lemma {:induction false} ShrLow(v: nat, n: nat, k: nat)
    requires k <= n
    ensures Shr(LowBits(v, n), k) == LowBits(Shr(v, k), n - k)
    decreases k
  {
    if k > 0 {
      ShrLow(v / 2, n - 1, k - 1);
      assert LowBits(v, n) / 2 == LowBits(v / 2, n - 1);
    }
  }

  lemma ShrHalf(v: nat, w: nat, k: nat)
    requires k > 0 && v / 2 == w / 2
    ensures Shr(v, k) == Shr(w, k)
  {
  }

  /** The top bits of a marked window are the word's, if the marker stays below them. */
  lemma MarkedTop(word: nat, count: nat, width: nat)
    requires count + width <= 63
    ensures Shr(Marked(word, count), 64 - width) == LowBits(Shr(word, 64 - count - width), width)
  {
    hide Or, Shl, Shr, LowBits, Pow2, Shl64;
    var v := Or(word, 1);
    var low := LowBits(v, 64 - count);
    Shl64Def(v, count);
    MaskedShift(v, 64, count);
    ShrShr(Shl(low, count), count, 64 - width - count);
    ShrShl(low, count);
    ShrLow(v, 64 - count, 64 - count - width);
    OrOne(word);
    ShrHalf(v, word, 64 - count - width);
  }

  // ---------------------------------------------------------------- cursors

  datatype StreamCursor = StreamCursor(
    reader: FastBitReader, bits: nat, window: nat, output: nat, remaining: nat,
    entries: seq<DecodeCell>, indexShift: nat, windowMoved: bool)

  /** The bits below a window with `consumed` of its 64 bits used. */
  ghost function Below(buffer: seq<byte>, window: nat, consumed: nat): (rest: seq<bool>)
    requires window + 8 <= |buffer| && consumed <= 64
    ensures |rest| == 8 * window + 64 - consumed
  {
    BytesToBits(buffer)[..8 * window + 64 - consumed]
  }

  /** The cursor's shifted window describes its unread bits: those of its reader until the first
      round, those below the marker afterwards. A window of 64 used bits is never shifted. */
  ghost predicate Ready(c: StreamCursor)
    reads c.reader
  {
    && c.reader.Valid() && 53 <= c.indexShift <= 63 && Usable(c.entries, 64 - c.indexShift)
    && c.window + 8 <= |c.reader.buffer| && 8 * |c.reader.buffer| < 0x1_0000_0000 && c.bits > 0
    && (if c.windowMoved then
          TrailingZeros(c.bits) <= 7 && c.bits == Marked(WordFrom(c.reader.buffer, c.window), TrailingZeros(c.bits))
        else
          && c.reader.position == c.window && c.reader.bitsConsumed <= 64
          && (c.reader.bitsConsumed <= 8 || c.window == 0)
          && (c.reader.bitsConsumed < 64 ==>
                c.bits == Marked(WordFrom(c.reader.buffer, c.window), c.reader.bitsConsumed)))
  }

  /** The bits the cursor has not decoded. */
  ghost function Unread(c: StreamCursor): seq<bool>
    reads c.reader
  {
    if !c.windowMoved then (if c.reader.Valid() && c.reader.bitsConsumed <= 64 then c.reader.Rest() else [])
    else MovedRest(c.reader.buffer, c.window, c.bits)
  }

  ghost function MovedRest(buffer: seq<byte>, window: nat, bits: nat): seq<bool> {
    if window + 8 <= |buffer| && bits > 0 && TrailingZeros(bits) <= 64 then Below(buffer, window, TrailingZeros(bits))
    else []
  }

  /** Away from the stream start the window is marked and its consumed bits are the marker's. */
  lemma InWindow(c: StreamCursor)
    requires Ready(c) && c.window > 0
    ensures TrailingZeros(c.bits) <= 8
    ensures c.bits == Marked(WordFrom(c.reader.buffer, c.window), TrailingZeros(c.bits))
    ensures Unread(c) == Below(c.reader.buffer, c.window, TrailingZeros(c.bits))
  {
    hide Marked, TrailingZeros, WordFrom, BytesToBits, Usable;
    if !c.windowMoved {
      MarkerStays(WordFrom(c.reader.buffer, c.window), c.reader.bitsConsumed);
    }
  }

  /** `StreamCursor::new_unchecked` and `make_reader_unchecked`. */
  method NewCursor(stream: seq<byte>, entries: seq<DecodeCell>, maxBits: nat, output: nat, length: nat)
    returns (ok: bool, c: Option<StreamCursor>)
    requires stream != [] && 8 * |stream| + 128 < 0x1_0000_0000 && Usable(entries, maxBits)
    ensures ok <==> MarkedBits(stream).Some?
    ensures ok <==> c.Some?
    ensures ok ==> && fresh(c.value.reader) && Ready(c.value) && Unread(c.value) == MarkedBits(stream).value
                   && c.value.entries == entries && c.value.indexShift + maxBits == 64
                   && c.value.output == output && c.value.remaining == length
  {
    hide *;
    UsableMaxBits(entries, maxBits);
    MarkedWhen(stream);
    if stream[|stream| - 1] == 0 {
      return false, None;
    }
    var reader: FastBitReader;
    if |stream| >= 8 {
      reader := new FastBitReader(stream);
      InBuffer(reader);
    } else {
      reader := new FastBitReader.Padded(stream);
    }
    var bits: nat := 0x8000_0000_0000_0000;
    if reader.bitsConsumed < 64 {
      bits := Shl64(Or(WordFrom(reader.buffer, reader.position), 1), reader.bitsConsumed);
      MarkerStays(WordFrom(reader.buffer, reader.position), reader.bitsConsumed);
      IsMarked(WordFrom(reader.buffer, reader.position), reader.bitsConsumed);
    }
    var cursor := StreamCursor(reader, bits, reader.position, output, length, entries, 64 - maxBits, false);
    FreshReady(cursor);
    return true, Some(cursor);
  }

  lemma FreshReady(c: StreamCursor)
    requires c.reader.Valid() && 53 <= c.indexShift <= 63 && Usable(c.entries, 64 - c.indexShift)
    requires c.window + 8 <= |c.reader.buffer| && 8 * |c.reader.buffer| < 0x1_0000_0000 && c.bits > 0
    requires !c.windowMoved && c.reader.position == c.window && c.reader.bitsConsumed <= 64
    requires c.reader.bitsConsumed <= 8 || c.window == 0
    requires c.reader.bitsConsumed < 64 ==>
               c.bits == Marked(WordFrom(c.reader.buffer, c.window), c.reader.bitsConsumed)
    ensures Ready(c) && Unread(c) == c.reader.Rest()
  {
    hide Marked, TrailingZeros, WordFrom, Usable, FastBitReader.Rest, FastBitReader.Valid;
  }

  lemma IsMarked(word: nat, count: nat)
    ensures Shl64(Or(word, 1), count) == Marked(word, count)
  {
  }

  lemma InBuffer(reader: FastBitReader)
    requires reader.Valid()
    ensures reader.position + 8 <= |reader.buffer|
  {
  }

  lemma MarkedWhen(stream: seq<byte>)
    requires stream != []
    ensures MarkedBits(stream).Some? <==> stream[|stream| - 1] != 0
  {
  }

  // ---------------------------------------------------------------- one round

  /** `safe_rounds`: rounds that can neither lose the marker nor leave the stream. */
  function SafeRounds(c: StreamCursor): (rounds: nat)
    requires c.bits > 0
    ensures rounds > 0 ==> 7 * rounds + TrailingZeros(c.bits) / 8 <= c.window
    ensures 5 * rounds <= c.remaining
  {
    var consumedBytes := TrailingZeros(c.bits) / 8;
    Min(Max(c.window - consumedBytes, 0) / 7, c.remaining / 5)
  }

  ghost predicate WindowAt(buffer: seq<byte>, window: nat, bits: nat, zeros: nat) {
    window + 8 <= |buffer| && zeros <= 63 && bits == Marked(WordFrom(buffer, window), zeros)
  }

  /** Decoding from `from` gives these symbols, leaves `rest` and does not overrun. */
  ghost predicate Yields(entries: seq<DecodeCell>, width: int, from: seq<bool>, symbols: seq<nat>, rest: seq<bool>) {
    && width >= 0 && Usable(entries, width)
    && DecodeSyms(entries, width, from, false, |symbols|) == Decoded(symbols, rest, false)
  }

  lemma YieldsMore(entries: seq<DecodeCell>, width: nat, from: seq<bool>, symbols: seq<nat>, rest: seq<bool>,
                   more: seq<nat>, left: seq<bool>)
    requires Yields(entries, width, from, symbols, rest) && Yields(entries, width, rest, more, left)
    ensures Yields(entries, width, from, symbols + more, left)
  {
    hide DecodeSyms, Usable;
    DecodeOn(entries, width, from, false, |symbols|, |more|);
  }

  lemma YieldsNone(entries: seq<DecodeCell>, width: nat, from: seq<bool>)
    requires Usable(entries, width)
    ensures Yields(entries, width, from, [], from)
  {
  }

  lemma YieldsOne(entries: seq<DecodeCell>, width: nat, from: seq<bool>)
    requires Usable(entries, width)
    ensures var cell := CellAt(entries, width, from);
            cell.bitCount <= |from| ==> Yields(entries, width, from, [cell.symbol], DropEnd(from, cell.bitCount))
  {
    hide CellAt, DropEnd, Usable;
    DecodeOne(entries, width, from, false);
  }

  lemma WindowIndex(buffer: seq<byte>, window: nat, count: nat, width: nat)
    requires window + 8 <= |buffer| && count + width <= 63
    ensures Shr(Marked(WordFrom(buffer, window), count), 64 - width) == PeekEnd(Below(buffer, window, count), width)
  {
    hide Marked, WordFrom, BytesToBits, Shr, LowBits, FromBits;
    var from := 64 - count - width;
    var rest := Below(buffer, window, count);
    MarkedTop(WordFrom(buffer, window), count, width);
    WordField(buffer, window, from, from + width);
    assert rest[|rest| - width..] == BytesToBits(buffer)[8 * window + from..8 * window + (from + width)];
  }

  lemma BelowDrop(buffer: seq<byte>, window: nat, count: nat, more: nat)
    requires window + 8 <= |buffer| && count + more <= 64
    ensures DropEnd(Below(buffer, window, count), more) == Below(buffer, window, count + more)
    ensures more <= |Below(buffer, window, count)|
  {
    hide BytesToBits;
    var bits, kept := BytesToBits(buffer), 8 * window + 64 - count;
    assert bits[..kept][..kept - more] == bits[..kept - more];
  }

  /** Moving the window down by whole bytes. */
  lemma BelowMoved(buffer: seq<byte>, window: nat, count: nat)
    requires window + 8 <= |buffer| && count <= 64 && count / 8 <= window
    ensures Below(buffer, window - count / 8, count % 8) == Below(buffer, window, count)
  {
    hide BytesToBits;
  }

  /** One more symbol from the window. */
  lemma WindowSymbol(c: StreamCursor, bits: nat, zeros: nat, entry: DecodeCell)
    requires c.indexShift <= 64 && Usable(c.entries, 64 - c.indexShift)
    requires WindowAt(c.reader.buffer, c.window, bits, zeros) && zeros <= 52
    requires entry == CellAt(c.entries, 64 - c.indexShift, Below(c.reader.buffer, c.window, zeros))
    ensures entry.bitCount <= 11 && entry.symbol < 256
    ensures WindowAt(c.reader.buffer, c.window, Shl64(bits, entry.bitCount), zeros + entry.bitCount)
    ensures Yields(c.entries, 64 - c.indexShift, Below(c.reader.buffer, c.window, zeros), [entry.symbol],
                   Below(c.reader.buffer, c.window, zeros + entry.bitCount))
  {
    hide Marked, WordFrom, Shl64, CellAt, DropEnd, Yields, Below;
    ghost var rest := Below(c.reader.buffer, c.window, zeros);
    UsableMaxBits(c.entries, 64 - c.indexShift);
    BelowDrop(c.reader.buffer, c.window, zeros, entry.bitCount);
    MarkedMore(WordFrom(c.reader.buffer, c.window), zeros, entry.bitCount);
    YieldsOne(c.entries, 64 - c.indexShift, rest);
  }

  /** The symbol at the top of the window. */
  method TopEntry(c: StreamCursor, bits: nat, ghost zeros: nat) returns (entry: DecodeCell)
    requires 53 <= c.indexShift <= 63 && Usable(c.entries, 64 - c.indexShift)
    requires WindowAt(c.reader.buffer, c.window, bits, zeros) && zeros <= 52
    ensures entry == CellAt(c.entries, 64 - c.indexShift, Below(c.reader.buffer, c.window, zeros))
  {
    hide Marked, WordFrom, Shr, CellAt, Below, Usable, PeekEnd;
    WindowIndex(c.reader.buffer, c.window, zeros, 64 - c.indexShift);
    entry := EntryAt(c.entries, 64 - c.indexShift, Shr(bits, c.indexShift), Below(c.reader.buffer, c.window, zeros));
  }

  /** Five symbols from one window. */
  method DecodeWindow(c: StreamCursor, output: array<byte>) returns (bits: nat, ghost zeros: nat)
    requires Ready(c) && c.window > 0 && c.output + 5 <= output.Length
    modifies output
    ensures WindowAt(c.reader.buffer, c.window, bits, zeros)
    ensures TrailingZeros(c.bits) <= 8 && zeros <= TrailingZeros(c.bits) + 55
    ensures Yields(c.entries, 64 - c.indexShift, old(Unread(c)), output[c.output..c.output + 5],
                   Below(c.reader.buffer, c.window, zeros))
    ensures output[..c.output] == old(output[..c.output]) && output[c.output + 5..] == old(output[c.output + 5..])
  {
    hide *;
    InWindow(c);
    ghost var unread := Unread(c);
    ReadyShape(c);
    ghost var width: nat := 64 - c.indexShift;
    bits := c.bits;
    zeros := TrailingZeros(c.bits);
    WindowIs(c.reader.buffer, c.window, bits, zeros);
    YieldsNone(c.entries, width, unread);
    assert output[c.output..c.output + 0] == [];
    for i := 0 to 5
      modifies output
      invariant WindowAt(c.reader.buffer, c.window, bits, zeros)
      invariant zeros <= TrailingZeros(c.bits) + 11 * i
      invariant Yields(c.entries, width, unread, output[c.output..c.output + i],
                       Below(c.reader.buffer, c.window, zeros))
      invariant output[..c.output] == old(output[..c.output]) && output[c.output + 5..] == old(output[c.output + 5..])
    {
      ghost var before := output[c.output..c.output + i];
      var entry := TopEntry(c, bits, zeros);
      WindowSymbol(c, bits, zeros, entry);
      output[c.output + i] := entry.symbol;
      assert output[c.output..c.output + (i + 1)] == before + [entry.symbol];
      YieldsMore(c.entries, width, unread, before, Below(c.reader.buffer, c.window, zeros), [entry.symbol],
                 Below(c.reader.buffer, c.window, zeros + entry.bitCount));
      bits := Shl64(bits, entry.bitCount);
      zeros := zeros + entry.bitCount;
    }
  }

  lemma WindowIs(buffer: seq<byte>, window: nat, bits: nat, zeros: nat)
    requires window + 8 <= |buffer| && zeros <= 63
    ensures WindowAt(buffer, window, bits, zeros) <==> bits == Marked(WordFrom(buffer, window), zeros)
  {
    hide Marked, WordFrom;
  }

  lemma ReadyShape(c: StreamCursor)
    requires Ready(c)
    ensures 53 <= c.indexShift <= 63 && Usable(c.entries, 64 - c.indexShift) && c.bits > 0
    ensures c.window + 8 <= |c.reader.buffer|
  {
    hide Usable, Marked, WordFrom, TrailingZeros;
  }

  /** `decode_round_unchecked`: five symbols, then the window moves below the bytes they used. */
  method DecodeRound(c: StreamCursor, output: array<byte>) returns (next: StreamCursor)
    requires c.bits > 0 && c.remaining >= 5 && c.window >= 7 + TrailingZeros(c.bits) / 8
    requires c.output + 5 <= output.Length && Ready(c)
    modifies output
    ensures next.bits > 0 && next.windowMoved && next.window + 7 >= c.window && TrailingZeros(next.bits) <= 7
    ensures Ready(next)
    ensures next == c.(bits := next.bits, window := next.window, windowMoved := true,
                       output := c.output + 5, remaining := c.remaining - 5)
    ensures Yields(c.entries, 64 - c.indexShift, old(Unread(c)), output[c.output..c.output + 5], Unread(next))
    ensures output[..c.output] == old(output[..c.output]) && output[c.output + 5..] == old(output[c.output + 5..])
  {
    hide *;
    ReadyShape(c);
    var bits, zeros := DecodeWindow(c, output);
    WindowMarker(c.reader.buffer, c.window, bits, zeros);
    BelowMoved(c.reader.buffer, c.window, zeros);
    var trailing := TrailingZeros(bits);
    var window := c.window - trailing / 8;
    MarkerStays(WordFrom(c.reader.buffer, window), trailing % 8);
    IsMarked(WordFrom(c.reader.buffer, window), trailing % 8);
    bits := Shl64(Or(WordFrom(c.reader.buffer, window), 1), trailing % 8);
    next := c.(bits := bits, window := window, windowMoved := true, output := c.output + 5,
               remaining := c.remaining - 5);
    MovedReady(c, next);
  }

  lemma WindowMarker(buffer: seq<byte>, window: nat, bits: nat, zeros: nat)
    requires WindowAt(buffer, window, bits, zeros)
    ensures zeros <= 63 && bits > 0 && TrailingZeros(bits) == zeros
  {
    hide WordFrom, Marked, TrailingZeros;
    MarkerStays(WordFrom(buffer, window), zeros);
  }

  lemma MovedReady(c: StreamCursor, next: StreamCursor)
    requires Ready(c) && next.windowMoved && next.bits > 0 && next.reader == c.reader
    requires next.entries == c.entries && next.indexShift == c.indexShift && next.window <= c.window
    requires TrailingZeros(next.bits) <= 7
    requires next.bits == Marked(WordFrom(c.reader.buffer, next.window), TrailingZeros(next.bits))
    ensures Ready(next) && Unread(next) == Below(c.reader.buffer, next.window, TrailingZeros(next.bits))
  {
    hide Marked, TrailingZeros, WordFrom, BytesToBits, Usable;
  }

  // ---------------------------------------------------------------- the last symbols

  /** `peek_window_padded`: fewer bits than the window wants are read as if zeros followed. */
  method PeekWindowPadded(reader: FastBitReader, width: nat) returns (index: nat)
    requires reader.Valid() && 0 < width <= 11 && 8 * |reader.buffer| < 0x1_0000_0000
    requires reader.bitsConsumed <= 7 || reader.position == 0
    ensures index == PeekEnd(if reader.bitsConsumed <= 64 then reader.Rest() else [], width)
  {
    hide *;
    var left := reader.BitsLeft();
    Available(reader, width);
    var available := if left % 0x1_0000_0000 < width then left % 0x1_0000_0000 else width;
    index := reader.Peek(available);
    if available < width {
      Shl64Exact(index, available, width - available);
      if reader.bitsConsumed <= 64 {
        PeekShort(reader.Rest(), width);
      } else {
        PeekShort([], width);
        PeekNothing(reader);
      }
      index := Shl64(index, width - available);
    }
  }

  lemma Available(reader: FastBitReader, width: nat)
    requires reader.Valid() && 0 < width <= 11 && 8 * |reader.buffer| < 0x1_0000_0000
    requires reader.bitsConsumed <= 7 || reader.position == 0
    ensures reader.BitsLeft() < 0x1_0000_0000
    ensures reader.bitsConsumed > 64 ==> reader.BitsLeft() == 0
    ensures reader.bitsConsumed <= 64 ==> reader.bitsConsumed + Min(|reader.Rest()|, width) <= 64
    ensures width <= reader.BitsLeft() ==> reader.bitsConsumed + width <= 64
    ensures forall a, b :: Min(a, b) == if a < b then a else b
  {
    hide BytesToBits, WordFrom;
  }

  lemma PeekShort(rest: seq<bool>, width: nat)
    requires |rest| < width
    ensures PeekEnd(rest, width) == Shl(PeekEnd(rest, |rest|), width - |rest|)
  {
    assert rest[0..] == rest;
  }

  lemma PeekNothing(reader: FastBitReader)
    requires reader.Valid()
    ensures reader.Peek(0) == PeekEnd([], 0)
  {
    NothingBelow(reader.Peek(0));
    EmptyPeek([]);
  }

  lemma NothingBelow(v: nat)
    requires v < Pow2(0)
    ensures v == 0
  {
  }

  /** The fast reader after `d`: past the stream start it is overdrawn exactly when `d` overran. */
  ghost predicate Follows(reader: FastBitReader, d: Decoded)
    reads reader
  {
    && reader.Valid()
    && (reader.bitsConsumed > 64 <==> d.overran)
    && (d.overran ==> d.rest == [] && reader.position == 0)
    && (!d.overran ==> reader.Rest() == d.rest)
  }

  /** One symbol at a time. */
  method FinishSymbol(reader: FastBitReader, entries: seq<DecodeCell>, width: nat, ghost d: Decoded)
    returns (symbol: byte)
    requires Follows(reader, d) && Usable(entries, width) && 8 * |reader.buffer| < 0x1_0000_0000
    modifies reader
    ensures Follows(reader, DecodeSyms(entries, width, d.rest, d.overran, 1))
    ensures DecodeSyms(entries, width, d.rest, d.overran, 1).symbols == [symbol]
  {
    hide PeekEnd, BytesToBits, WordFrom, Usable, DecodeSyms, FastBitReader.Peek, DropEnd;
    UsableMaxBits(entries, width);
    var _ := reader.Refill();
    var index := PeekWindowPadded(reader, width);
    var entry := EntryAt(entries, width, index, d.rest);
    reader.Skip(entry.bitCount);
    DecodeOne(entries, width, d.rest, d.overran);
    DropNone(d.rest, entry.bitCount);
    symbol := entry.symbol;
  }

  lemma DropNone(rest: seq<bool>, n: nat)
    ensures |rest| <= n ==> DropEnd(rest, n) == []
  {
  }

  /** `finish_unchecked`. */
  method FinishCursor(c: StreamCursor, output: array<byte>) returns (finished: bool)
    requires Ready(c) && c.output + c.remaining <= output.Length
    modifies c.reader, output
    ensures var d := Remaining(c, old(Unread(c)));
            && output[c.output..c.output + c.remaining] == d.symbols
            && (finished <==> d.rest == [] && !d.overran)
    ensures output[..c.output] == old(output[..c.output])
    ensures output[c.output + c.remaining..] == old(output[c.output + c.remaining..])
  {
    hide *;
    ReadyShape(c);
    ghost var unread := Unread(c);
    ghost var d := Decoded([], unread, false);
    var reader := c.reader;
    ghost var width: nat := 64 - c.indexShift;
    StartFinish(c);
    if c.windowMoved {
      reader.MoveWindow(c.window, TrailingZeros(c.bits));
      MovedFollows(reader, unread);
    }
    NothingDecoded(c.entries, width, unread, false);
    var done: nat := 0;
    while done < c.remaining
      modifies reader, output
      invariant done <= c.remaining && d == DecodeSyms(c.entries, width, unread, false, done)
      invariant Follows(reader, d) && output[c.output..c.output + done] == d.symbols
      invariant output[..c.output] == old(output[..c.output])
      invariant output[c.output + c.remaining..] == old(output[c.output + c.remaining..])
    {
      DecodeOn(c.entries, width, unread, false, done, 1);
      ghost var one := DecodeSyms(c.entries, width, d.rest, d.overran, 1);
      var symbol := FinishSymbol(reader, c.entries, 64 - c.indexShift, d);
      output[c.output + done] := symbol;
      assert output[c.output..c.output + (done + 1)] == d.symbols + [symbol];
      d := Decoded(d.symbols + one.symbols, one.rest, one.overran);
      FollowsAlike(reader, one, d);
      done := done + 1;
    }
    FollowsEnd(reader, d);
    RemainingIs(c, unread);
    return reader.IsFinished();
  }

  lemma StartFinish(c: StreamCursor)
    requires Ready(c)
    ensures c.reader.Valid() && c.window + 8 <= |c.reader.buffer| && 8 * |c.reader.buffer| < 0x1_0000_0000
    ensures !c.windowMoved ==> Follows(c.reader, Decoded([], Unread(c), false))
    ensures c.windowMoved ==> TrailingZeros(c.bits) <= 7
                              && Unread(c) == Below(c.reader.buffer, c.window, TrailingZeros(c.bits))
  {
    hide Usable, Marked, WordFrom, TrailingZeros, BytesToBits;
  }

  lemma MovedFollows(reader: FastBitReader, unread: seq<bool>)
    requires reader.Valid() && reader.bitsConsumed <= 64 && reader.position + 8 <= |reader.buffer|
    requires unread == Below(reader.buffer, reader.position, reader.bitsConsumed)
    ensures Follows(reader, Decoded([], unread, false))
  {
    hide WordFrom, BytesToBits;
  }

  lemma FollowsAlike(reader: FastBitReader, d: Decoded, e: Decoded)
    requires Follows(reader, d) && e.rest == d.rest && e.overran == d.overran
    ensures Follows(reader, e)
  {
  }

  lemma FollowsEnd(reader: FastBitReader, d: Decoded)
    requires Follows(reader, d)
    ensures reader.Valid() && (reader.IsFinished() <==> d.rest == [] && !d.overran)
  {
    hide WordFrom, BytesToBits;
  }

  lemma RemainingIs(c: StreamCursor, unread: seq<bool>)
    requires c.indexShift <= 64 && Usable(c.entries, 64 - c.indexShift)
    ensures Remaining(c, unread) == DecodeSyms(c.entries, 64 - c.indexShift, unread, false, c.remaining)
  {
  }

  /** What is left to decode. */
  ghost function Remaining(c: StreamCursor, unread: seq<bool>): Decoded
    requires c.indexShift <= 64 && Usable(c.entries, 64 - c.indexShift)
  {
    DecodeSyms(c.entries, 64 - c.indexShift, unread, false, c.remaining)
  }

  // ---------------------------------------------------------------- lockstep

  /** How far the cursor `c` has come since it was `first`, with `unread` before it. */
  ghost predicate Advanced(first: StreamCursor, c: StreamCursor, unread: seq<bool>, output: seq<byte>)
    reads c.reader
  {
    && first.output <= c.output <= |output|
    && c.output - first.output == first.remaining - c.remaining
    && Yields(c.entries, 64 - c.indexShift, unread, output[first.output..c.output], Unread(c))
    && c.reader == first.reader && c.entries == first.entries && c.indexShift == first.indexShift
    && Ready(c)
  }

  ghost predicate CanRun(c: StreamCursor, rounds: nat) {
    rounds > 0 ==> c.bits > 0 && c.window >= 7 * rounds + TrailingZeros(c.bits) / 8 && c.remaining >= 5 * rounds
  }

  ghost predicate AllAdvanced(firsts: seq<StreamCursor>, cursors: seq<StreamCursor>, unread: seq<seq<bool>>,
                              output: seq<byte>)
    reads set i | 0 <= i < |cursors| :: cursors[i].reader
  {
    && |firsts| == |cursors| == |unread|
    && forall i :: 0 <= i < |cursors| ==> Advanced(firsts[i], cursors[i], unread[i], output)
  }

  /** Every stream has its own part of the output. */
  ghost predicate Apart(firsts: seq<StreamCursor>, size: nat) {
    && (forall i :: 0 <= i < |firsts| ==> firsts[i].output + firsts[i].remaining <= size)
    && forall i, j :: 0 <= i < |firsts| && 0 <= j < |firsts| && i != j ==>
         || firsts[i].output + firsts[i].remaining <= firsts[j].output
         || firsts[j].output + firsts[j].remaining <= firsts[i].output
  }

  lemma SameSlice(before: seq<byte>, after: seq<byte>, lo: nat, hi: nat, a: nat, b: nat)
    requires |before| == |after| && lo <= hi <= |before| && a <= b <= |before|
    requires before[..lo] == after[..lo] && before[hi..] == after[hi..] && (b <= lo || hi <= a)
    ensures before[a..b] == after[a..b]
  {
    forall i | a <= i < b
      ensures before[i] == after[i]
    {
      if b <= lo {
        assert before[i] == before[..lo][i];
        assert after[i] == after[..lo][i];
      } else {
        assert before[i] == before[hi..][i - hi];
        assert after[i] == after[hi..][i - hi];
      }
    }
  }

  lemma AdvancedElsewhere(first: StreamCursor, c: StreamCursor, unread: seq<bool>, before: seq<byte>, after: seq<byte>,
                          lo: nat, hi: nat)
    requires Advanced(first, c, unread, before) && |before| == |after| && lo <= hi <= |before|
    requires before[..lo] == after[..lo] && before[hi..] == after[hi..]
    requires c.output <= lo || hi <= first.output
    ensures Advanced(first, c, unread, after)
  {
    hide Ready, Unread, Yields;
    SameSlice(before, after, lo, hi, first.output, c.output);
  }

  lemma AdvancedOn(first: StreamCursor, c: StreamCursor, next: StreamCursor, unread: seq<bool>, before: seq<byte>,
                   after: seq<byte>)
    requires Advanced(first, c, unread, before) && |before| == |after| && c.output + 5 <= |before| && c.remaining >= 5
    requires before[..c.output] == after[..c.output] && Ready(next)
    requires next == c.(bits := next.bits, window := next.window, windowMoved := true,
                        output := c.output + 5, remaining := c.remaining - 5)
    requires Yields(c.entries, 64 - c.indexShift, Unread(c), after[c.output..c.output + 5], Unread(next))
    ensures Advanced(first, next, unread, after)
  {
    hide Ready, Unread, Yields;
    ReadyShape(c);
    SameSlice(before, after, c.output, |before|, first.output, c.output);
    assert after[first.output..next.output] == before[first.output..c.output] + after[c.output..c.output + 5];
    YieldsMore(c.entries, 64 - c.indexShift, unread, before[first.output..c.output], Unread(c),
               after[c.output..c.output + 5], Unread(next));
  }

  /** Nothing is written but in the streams' own parts. */
  ghost predicate KeptElsewhere(firsts: seq<StreamCursor>, before: seq<byte>, after: seq<byte>) {
    && |before| == |after|
    && forall p :: 0 <= p < |before| && OutsideAll(firsts, p) ==> before[p] == after[p]
  }

  ghost predicate OutsideAll(firsts: seq<StreamCursor>, p: nat) {
    forall i :: 0 <= i < |firsts| ==> p < firsts[i].output || firsts[i].output + firsts[i].remaining <= p
  }

  lemma KeptStep(firsts: seq<StreamCursor>, i: nat, before: seq<byte>, middle: seq<byte>, after: seq<byte>, lo: nat,
                 hi: nat)
    requires KeptElsewhere(firsts, before, middle) && |middle| == |after| && i < |firsts|
    requires firsts[i].output <= lo <= hi <= firsts[i].output + firsts[i].remaining && hi <= |middle|
    requires middle[..lo] == after[..lo] && middle[hi..] == after[hi..]
    ensures KeptElsewhere(firsts, before, after)
  {
    forall p | 0 <= p < |before| && OutsideAll(firsts, p)
      ensures before[p] == after[p]
    {
      assert p < firsts[i].output || firsts[i].output + firsts[i].remaining <= p;
      if p < lo {
        assert middle[..lo][p] == after[..lo][p];
      } else {
        assert middle[hi..][p - hi] == after[hi..][p - hi];
      }
    }
  }

  lemma KeptSame(firsts: seq<StreamCursor>, output: seq<byte>)
    ensures KeptElsewhere(firsts, output, output)
  {
  }

  lemma KeptOn(firsts: seq<StreamCursor>, a: seq<byte>, b: seq<byte>, c: seq<byte>)
    requires KeptElsewhere(firsts, a, b) && KeptElsewhere(firsts, b, c)
    ensures KeptElsewhere(firsts, a, c)
  {
    hide OutsideAll;
  }

  /** One round of every stream. */
  method LockstepRound(cursors: seq<StreamCursor>, output: array<byte>, rounds: nat,
                       ghost firsts: seq<StreamCursor>, ghost unread: seq<seq<bool>>)
    returns (moved: seq<StreamCursor>)
    requires rounds > 0 && AllAdvanced(firsts, cursors, unread, output[..]) && Apart(firsts, output.Length)
    requires forall i :: 0 <= i < |cursors| ==> CanRun(cursors[i], rounds)
    modifies output
    ensures AllAdvanced(firsts, moved, unread, output[..])
    ensures forall i :: 0 <= i < |moved| ==> CanRun(moved[i], rounds - 1)
    ensures |moved| == |cursors| && forall i :: 0 <= i < |moved| ==> moved[i].remaining == cursors[i].remaining - 5
    ensures KeptElsewhere(firsts, old(output[..]), output[..])
  {
    hide Ready, Unread, Yields, Apart, CanRun, Advanced, TrailingZeros, KeptElsewhere;
    moved := cursors;
    ghost var start := output[..];
    KeptSame(firsts, start);
    for i := 0 to |cursors|
      modifies output
      invariant |moved| == |cursors| && AllAdvanced(firsts, moved, unread, output[..])
      invariant KeptElsewhere(firsts, start, output[..])
      invariant forall j :: 0 <= j < i ==>
                  CanRun(moved[j], rounds - 1) && moved[j].remaining == cursors[j].remaining - 5
      invariant forall j :: i <= j < |moved| ==> moved[j] == cursors[j]
    {
      var c := moved[i];
      RoundShape(firsts[i], c, unread[i], output[..], rounds);
      SegmentFits(firsts, output.Length, i);
      ghost var before := output[..];
      var next := DecodeRound(c, output);
      assert output[c.output..c.output + 5] == output[..][c.output..c.output + 5];
      assert before[..c.output] == output[..][..c.output] && before[c.output + 5..] == output[..][c.output + 5..];
      AdvancedOn(firsts[i], c, next, unread[i], before, output[..]);
      KeptStep(firsts, i, start, before, output[..], c.output, c.output + 5);
      forall j | 0 <= j < |moved| && j != i
        ensures Advanced(firsts[j], moved[j], unread[j], output[..])
      {
        PartsApart(firsts, moved[j], unread[j], before, output.Length, i, j);
        AdvancedElsewhere(firsts[j], moved[j], unread[j], before, output[..], c.output, c.output + 5);
      }
      ReadyShape(next);
      RunsOn(c, next, rounds);
      moved := moved[i := next];
    }
  }

  lemma RoundShape(first: StreamCursor, c: StreamCursor, unread: seq<bool>, output: seq<byte>, rounds: nat)
    requires Advanced(first, c, unread, output) && CanRun(c, rounds) && rounds > 0
    ensures c.remaining >= 5 && c.bits > 0 && c.window >= 7 + TrailingZeros(c.bits) / 8 && Ready(c)
    ensures first.output <= c.output && c.output + c.remaining == first.output + first.remaining
  {
    hide Ready, Unread, Yields, TrailingZeros;
  }

  lemma FinishedApart(firsts: seq<StreamCursor>, size: nat, i: nat, j: nat)
    requires Apart(firsts, size) && i < |firsts| && j < |firsts| && i != j
    ensures firsts[j].output + firsts[j].remaining <= firsts[i].output
            || firsts[i].output + firsts[i].remaining <= firsts[j].output
  {
  }

  lemma SegmentFits(firsts: seq<StreamCursor>, size: nat, i: nat)
    requires Apart(firsts, size) && i < |firsts|
    ensures firsts[i].output + firsts[i].remaining <= size
  {
  }

  lemma PartsApart(firsts: seq<StreamCursor>, c: StreamCursor, unread: seq<bool>, output: seq<byte>, size: nat, i: nat,
                   j: nat)
    requires Apart(firsts, size) && i < |firsts| && j < |firsts| && i != j
    requires Advanced(firsts[j], c, unread, output)
    ensures c.output <= firsts[i].output || firsts[i].output + firsts[i].remaining <= firsts[j].output
    ensures firsts[j].output <= c.output
  {
    hide Ready, Unread, Yields;
  }

  lemma RunsOn(c: StreamCursor, next: StreamCursor, rounds: nat)
    requires CanRun(c, rounds) && rounds > 0 && next.bits > 0 && TrailingZeros(next.bits) <= 7
    requires next.window + 7 >= c.window && next.remaining + 5 == c.remaining
    ensures CanRun(next, rounds - 1)
  {
    hide TrailingZeros;
  }

  /** The rounds every stream can still make. */
  method FewestRounds(cursors: seq<StreamCursor>) returns (rounds: nat)
    requires |cursors| > 0 && forall i :: 0 <= i < |cursors| ==> cursors[i].bits > 0
    ensures forall i :: 0 <= i < |cursors| ==> CanRun(cursors[i], rounds) && 5 * rounds <= cursors[i].remaining
  {
    hide TrailingZeros;
    rounds := SafeRounds(cursors[0]);
    for i := 1 to |cursors|
      invariant forall j :: 0 <= j < i ==> CanRun(cursors[j], rounds) && 5 * rounds <= cursors[j].remaining
    {
      rounds := Min(rounds, SafeRounds(cursors[i]));
    }
  }

  /** `decode_rounds_unchecked`: any number of streams, as long as all can make whole rounds. */
  method DecodeRounds(start: seq<StreamCursor>, output: array<byte>, ghost firsts: seq<StreamCursor>,
                      ghost unread: seq<seq<bool>>)
    returns (cursors: seq<StreamCursor>)
    requires |start| > 0 && AllAdvanced(firsts, start, unread, output[..]) && Apart(firsts, output.Length)
    modifies output
    ensures |cursors| == |start| && AllAdvanced(firsts, cursors, unread, output[..])
    ensures KeptElsewhere(firsts, old(output[..]), output[..])
  {
    hide Ready, Unread, Yields, Apart, CanRun, Advanced, KeptElsewhere;
    cursors := start;
    ghost var before := output[..];
    KeptSame(firsts, before);
    while true
      modifies output
      invariant |cursors| == |start| && AllAdvanced(firsts, cursors, unread, output[..])
      invariant KeptElsewhere(firsts, before, output[..])
      decreases cursors[0].remaining
    {
      BitsPositive(firsts, cursors, unread, output[..]);
      var rounds := FewestRounds(cursors);
      if rounds == 0 {
        return;
      }
      ghost var whole := cursors[0].remaining;
      var left: nat := rounds;
      while left > 0
        modifies output
        invariant |cursors| == |start| && left <= rounds && 5 * left <= cursors[0].remaining <= whole
        invariant left < rounds ==> cursors[0].remaining < whole
        invariant AllAdvanced(firsts, cursors, unread, output[..])
        invariant KeptElsewhere(firsts, before, output[..])
        invariant forall i :: 0 <= i < |cursors| ==> CanRun(cursors[i], left)
      {
        ghost var now := output[..];
        cursors := LockstepRound(cursors, output, left, firsts, unread);
        KeptOn(firsts, before, now, output[..]);
        left := left - 1;
      }
    }
  }

  /** A group of the streams runs on by itself. */
  method DecodeGroup(cursors: seq<StreamCursor>, lo: nat, hi: nat, output: array<byte>, ghost firsts: seq<StreamCursor>,
                     ghost unread: seq<seq<bool>>)
    returns (moved: seq<StreamCursor>)
    requires AllAdvanced(firsts, cursors, unread, output[..]) && Apart(firsts, output.Length) && lo < hi <= |cursors|
    modifies output
    ensures AllAdvanced(firsts, moved, unread, output[..])
  {
    hide Ready, Unread, Yields, Apart, Advanced, KeptElsewhere;
    ghost var before := output[..];
    GroupApart(firsts, output.Length, lo, hi);
    var group := DecodeRounds(cursors[lo..hi], output, firsts[lo..hi], unread[lo..hi]);
    moved := cursors[..lo] + group + cursors[hi..];
    forall j | 0 <= j < |moved|
      ensures Advanced(firsts[j], moved[j], unread[j], output[..])
    {
      if lo <= j < hi {
        assert moved[j] == group[j - lo] && firsts[lo..hi][j - lo] == firsts[j] && unread[lo..hi][j - lo] == unread[j];
      } else {
        assert moved[j] == cursors[j];
        AdvancedBeside(firsts, cursors[j], unread[j], before, output[..], lo, hi, j);
      }
    }
  }

  lemma GroupApart(firsts: seq<StreamCursor>, size: nat, lo: nat, hi: nat)
    requires Apart(firsts, size) && lo <= hi <= |firsts|
    ensures Apart(firsts[lo..hi], size)
  {
  }

  /** What a group writes does not reach the others' parts. */
  lemma AdvancedBeside(firsts: seq<StreamCursor>, c: StreamCursor, unread: seq<bool>, before: seq<byte>,
                       after: seq<byte>, lo: nat, hi: nat, j: nat)
    requires Apart(firsts, |before|) && lo <= hi <= |firsts| && j < |firsts| && !(lo <= j < hi)
    requires KeptElsewhere(firsts[lo..hi], before, after) && Advanced(firsts[j], c, unread, before)
    ensures Advanced(firsts[j], c, unread, after)
  {
    hide Ready, Unread, Yields;
    forall p | firsts[j].output <= p < c.output
      ensures before[p] == after[p]
    {
      forall i | 0 <= i < hi - lo
        ensures p < firsts[lo..hi][i].output || firsts[lo..hi][i].output + firsts[lo..hi][i].remaining <= p
      {
        FinishedApart(firsts, |before|, lo + i, j);
      }
      assert OutsideAll(firsts[lo..hi], p);
    }
    assert before[firsts[j].output..c.output] == after[firsts[j].output..c.output];
  }

  lemma BitsPositive(firsts: seq<StreamCursor>, cursors: seq<StreamCursor>, unread: seq<seq<bool>>, output: seq<byte>)
    requires AllAdvanced(firsts, cursors, unread, output)
    ensures forall i :: 0 <= i < |cursors| ==> cursors[i].bits > 0
  {
    hide Ready, Unread, Yields;
    forall i | 0 <= i < |cursors|
      ensures cursors[i].bits > 0
    {
      ReadyShape(cursors[i]);
    }
  }

  // ---------------------------------------------------------------- whole sections

  /** A cursor's stream, decoded to its end: its part of the output and whether it was used up. */
  ghost predicate Finished(first: StreamCursor, unread: seq<bool>, output: seq<byte>, finished: bool) {
    && first.indexShift <= 64 && Usable(first.entries, 64 - first.indexShift)
    && first.output + first.remaining <= |output|
    && var d := Remaining(first, unread);
       && output[first.output..first.output + first.remaining] == d.symbols
       && (finished <==> d.rest == [] && !d.overran)
  }

  ghost predicate AllFinished(firsts: seq<StreamCursor>, unread: seq<seq<bool>>, output: seq<byte>, done: seq<bool>) {
    && |firsts| == |unread| == |done|
    && forall i :: 0 <= i < |firsts| ==> Finished(firsts[i], unread[i], output, done[i])
  }

  lemma FinishedElsewhere(first: StreamCursor, unread: seq<bool>, before: seq<byte>, after: seq<byte>, lo: nat, hi: nat,
                          finished: bool)
    requires Finished(first, unread, before, finished) && |before| == |after| && lo <= hi <= |before|
    requires before[..lo] == after[..lo] && before[hi..] == after[hi..]
    requires first.output + first.remaining <= lo || hi <= first.output
    ensures Finished(first, unread, after, finished)
  {
    hide Usable, Remaining;
    SameSlice(before, after, lo, hi, first.output, first.output + first.remaining);
  }

  /** Rounds first, single symbols after: together the checked decoder's symbols. */
  lemma FinishedWhole(first: StreamCursor, c: StreamCursor, unread: seq<bool>, rest: seq<bool>,
                      before: seq<byte>, after: seq<byte>, finished: bool)
    requires first.output <= c.output <= |before| == |after| && c.remaining <= first.remaining
    requires c.output - first.output == first.remaining - c.remaining && c.output + c.remaining <= |after|
    requires c.entries == first.entries && c.indexShift == first.indexShift <= 64
    requires Usable(c.entries, 64 - c.indexShift)
    requires DecodeSyms(c.entries, 64 - c.indexShift, unread, false, first.remaining - c.remaining)
          == Decoded(before[first.output..c.output], rest, false)
    requires before[..c.output] == after[..c.output]
    requires var d := Remaining(c, rest);
             && after[c.output..c.output + c.remaining] == d.symbols && (finished <==> d.rest == [] && !d.overran)
    ensures Finished(first, unread, after, finished)
  {
    hide *;
    DecodeOn(c.entries, 64 - c.indexShift, unread, false, first.remaining - c.remaining, c.remaining);
    RemainingIs(c, rest);
    RemainingIs(first, unread);
    SameSlice(before, after, c.output, |before|, first.output, c.output);
    assert after[first.output..first.output + first.remaining]
        == after[first.output..c.output] + after[c.output..c.output + c.remaining];
    FinishedIs(first, unread, after, finished);
  }

  lemma AdvancedParts(first: StreamCursor, c: StreamCursor, unread: seq<bool>, output: seq<byte>)
    requires Advanced(first, c, unread, output)
    ensures first.output <= c.output <= |output| && c.remaining <= first.remaining && Ready(c)
    ensures c.output - first.output == first.remaining - c.remaining
    ensures c.reader == first.reader && c.entries == first.entries && c.indexShift == first.indexShift <= 64
    ensures Usable(c.entries, 64 - c.indexShift)
    ensures DecodeSyms(c.entries, 64 - c.indexShift, unread, false, first.remaining - c.remaining)
         == Decoded(output[first.output..c.output], Unread(c), false)
  {
    hide DecodeSyms, Usable, Unread, Ready;
    ReadyShape(c);
  }

  lemma FinishedIs(first: StreamCursor, unread: seq<bool>, output: seq<byte>, finished: bool)
    requires first.indexShift <= 64 && Usable(first.entries, 64 - first.indexShift)
    requires first.output + first.remaining <= |output|
    requires output[first.output..first.output + first.remaining] == Remaining(first, unread).symbols
    requires finished <==> Remaining(first, unread).rest == [] && !Remaining(first, unread).overran
    ensures Finished(first, unread, output, finished)
  {
    hide Usable, Remaining;
  }

  /** Finishing stream `i` leaves the streams before it as they were. */
  lemma OthersFinished(firsts: seq<StreamCursor>, unread: seq<seq<bool>>, before: seq<byte>, after: seq<byte>,
                       i: nat, done: seq<bool>, lo: nat, hi: nat)
    requires i < |firsts| == |unread| && |done| == i && |before| == |after| && Apart(firsts, |before|)
    requires firsts[i].output <= lo <= hi == firsts[i].output + firsts[i].remaining <= |before|
    requires before[..lo] == after[..lo] && before[hi..] == after[hi..]
    requires forall j :: 0 <= j < i ==> Finished(firsts[j], unread[j], before, done[j])
    ensures forall j :: 0 <= j < i ==> Finished(firsts[j], unread[j], after, done[j])
  {
    hide Apart, Finished;
    forall j | 0 <= j < i
      ensures Finished(firsts[j], unread[j], after, done[j])
    {
      FinishedApart(firsts, |before|, i, j);
      FinishedElsewhere(firsts[j], unread[j], before, after, lo, hi, done[j]);
    }
  }

  /** Nor does it disturb the streams after it. */
  lemma OthersAdvanced(firsts: seq<StreamCursor>, cursors: seq<StreamCursor>, unread: seq<seq<bool>>, before: seq<byte>,
                       after: seq<byte>, i: nat, lo: nat, hi: nat)
    requires i < |firsts| == |cursors| == |unread| && |before| == |after| && Apart(firsts, |before|)
    requires firsts[i].output <= lo <= hi == firsts[i].output + firsts[i].remaining <= |before|
    requires before[..lo] == after[..lo] && before[hi..] == after[hi..]
    requires forall j :: i < j < |cursors| ==> Advanced(firsts[j], cursors[j], unread[j], before)
    ensures forall j :: i < j < |cursors| ==> Advanced(firsts[j], cursors[j], unread[j], after)
  {
    hide Apart, Advanced;
    forall j | i < j < |cursors|
      ensures Advanced(firsts[j], cursors[j], unread[j], after)
    {
      PartsApart(firsts, cursors[j], unread[j], before, |before|, i, j);
      AdvancedElsewhere(firsts[j], cursors[j], unread[j], before, after, lo, hi);
    }
  }

  lemma AllDone(done: seq<bool>, finished: bool, all: bool)
    requires all <==> forall j :: 0 <= j < |done| ==> done[j]
    ensures all && finished <==> forall j :: 0 <= j < |done| + 1 ==> (done + [finished])[j]
  {
    if forall j :: 0 <= j < |done| + 1 ==> (done + [finished])[j] {
      assert (done + [finished])[|done|];
      assert forall j :: 0 <= j < |done| ==> done[j] == (done + [finished])[j];
    }
  }

  /** `finish_cursors_unchecked`: every stream is finished, even after one has failed. */
  method FinishCursors(ghost firsts: seq<StreamCursor>, cursors: seq<StreamCursor>, output: array<byte>,
                       ghost unread: seq<seq<bool>>)
    returns (allFinished: bool)
    requires AllAdvanced(firsts, cursors, unread, output[..]) && Apart(firsts, output.Length)
    requires forall i, j :: 0 <= i < j < |cursors| ==> cursors[i].reader != cursors[j].reader
    modifies set i | 0 <= i < |cursors| :: cursors[i].reader, output
    ensures exists done: seq<bool> :: AllFinished(firsts, unread, output[..], done)
              && (allFinished <==> forall i :: 0 <= i < |firsts| ==> done[i])
  {
    hide Ready, Unread, Yields, Apart, Advanced, Finished, Remaining;
    allFinished := true;
    ghost var done: seq<bool> := [];
    for i := 0 to |cursors|
      modifies set i | 0 <= i < |cursors| :: cursors[i].reader, output
      invariant |done| == i && (allFinished <==> forall j :: 0 <= j < i ==> done[j])
      invariant forall j :: 0 <= j < i ==> Finished(firsts[j], unread[j], output[..], done[j])
      invariant forall j :: i <= j < |cursors| ==> Advanced(firsts[j], cursors[j], unread[j], output[..])
    {
      var c := cursors[i];
      ghost var before := output[..];
      AdvancedParts(firsts[i], c, unread[i], before);
      SegmentFits(firsts, output.Length, i);
      ghost var rest := Unread(c);
      var finished := FinishCursor(c, output);
      ghost var after := output[..];
      ghost var lo, hi := c.output, c.output + c.remaining;
      assert before[..lo] == after[..lo] && before[hi..] == after[hi..];
      assert after[lo..hi] == output[lo..hi];
      FinishedWhole(firsts[i], c, unread[i], rest, before, after, finished);
      OthersFinished(firsts, unread, before, after, i, done, lo, hi);
      assert forall j :: i < j < |cursors| ==> Advanced(firsts[j], cursors[j], unread[j], before);
      OthersAdvanced(firsts, cursors, unread, before, after, i, lo, hi);
      AllDone(done, finished, allFinished);
      done := done + [finished];
      allFinished := allFinished && finished;
    }
    assert AllFinished(firsts, unread, output[..], done);
  }

  /** One stream to decode: its bytes, its table and its part of the output. */
  datatype StreamJob = StreamJob(stream: seq<byte>, entries: seq<DecodeCell>, maxBits: nat, output: nat, length: nat)

  ghost predicate Decodable(job: StreamJob, size: nat) {
    && job.stream != [] && 8 * |job.stream| + 128 < 0x1_0000_0000
    && Usable(job.entries, job.maxBits) && job.output + job.length <= size
  }

  ghost predicate JobsApart(jobs: seq<StreamJob>) {
    forall i, j :: 0 <= i < |jobs| && 0 <= j < |jobs| && i != j ==>
      jobs[i].output + jobs[i].length <= jobs[j].output || jobs[j].output + jobs[j].length <= jobs[i].output
  }

  /** The checked decoder accepts the job's stream. */
  ghost predicate Accepted(job: StreamJob) {
    && Usable(job.entries, job.maxBits)
    && StreamSymbols(job.stream, job.entries, job.maxBits, job.length).Some?
  }

  /** The job's part of the output is what the checked decoder decodes. */
  ghost predicate Delivered(job: StreamJob, output: seq<byte>) {
    && Usable(job.entries, job.maxBits) && job.output + job.length <= |output|
    && StreamSymbols(job.stream, job.entries, job.maxBits, job.length)
       == Some(output[job.output..job.output + job.length])
  }

  /** The cursor belongs to the job. */
  ghost predicate SameJob(job: StreamJob, c: StreamCursor, unread: seq<bool>) {
    && MarkedBits(job.stream) == Some(unread) && c.entries == job.entries && c.indexShift + job.maxBits == 64
    && c.output == job.output && c.remaining == job.length
  }

  ghost predicate Started(job: StreamJob, c: StreamCursor, unread: seq<bool>)
    reads c.reader
  {
    Ready(c) && Unread(c) == unread && SameJob(job, c, unread)
  }

  /** `start_section_unchecked`. */
  method StartSection(jobs: seq<StreamJob>, size: nat)
    returns (ok: bool, cursors: seq<StreamCursor>, ghost unread: seq<seq<bool>>)
    requires forall i :: 0 <= i < |jobs| ==> Decodable(jobs[i], size)
    ensures ok <==> forall i :: 0 <= i < |jobs| ==> MarkedBits(jobs[i].stream).Some?
    ensures ok ==> |cursors| == |unread| == |jobs|
    ensures ok ==> forall i :: 0 <= i < |jobs| ==> Started(jobs[i], cursors[i], unread[i])
    ensures ok ==> forall i :: 0 <= i < |jobs| ==> fresh(cursors[i].reader)
    ensures ok ==> forall i, j :: 0 <= i < j < |cursors| ==> cursors[i].reader != cursors[j].reader
  {
    hide MarkedBits, Usable, Ready, Unread;
    cursors, unread := [], [];
    for i := 0 to |jobs|
      modifies {}
      invariant |cursors| == |unread| == i
      invariant forall j :: 0 <= j < i ==> Started(jobs[j], cursors[j], unread[j]) && fresh(cursors[j].reader)
      invariant forall j, k :: 0 <= j < k < i ==> cursors[j].reader != cursors[k].reader
    {
      var marked, c := NewCursor(jobs[i].stream, jobs[i].entries, jobs[i].maxBits, jobs[i].output, jobs[i].length);
      if !marked {
        return false, [], [];
      }
      cursors := cursors + [c.value];
      unread := unread + [MarkedBits(jobs[i].stream).value];
    }
    ok := true;
  }

  lemma AllStarted(jobs: seq<StreamJob>, cursors: seq<StreamCursor>, unread: seq<seq<bool>>, output: seq<byte>)
    requires |cursors| == |unread| == |jobs| && JobsApart(jobs)
    requires forall i :: 0 <= i < |jobs| ==> Decodable(jobs[i], |output|) && Started(jobs[i], cursors[i], unread[i])
    ensures AllAdvanced(cursors, cursors, unread, output) && Apart(cursors, |output|)
  {
    hide MarkedBits, Usable, Ready, Unread, Yields;
    forall i | 0 <= i < |cursors|
      ensures Advanced(cursors[i], cursors[i], unread[i], output)
    {
      var c := cursors[i];
      assert Decodable(jobs[i], |output|) && Started(jobs[i], c, unread[i]);
      assert output[c.output..c.output] == [];
      YieldsNone(c.entries, 64 - c.indexShift, unread[i]);
    }
    forall i | 0 <= i < |cursors|
      ensures cursors[i].output == jobs[i].output && cursors[i].remaining == jobs[i].length
    {
      assert Decodable(jobs[i], |output|) && Started(jobs[i], cursors[i], unread[i]);
    }
  }

  lemma JobChecked(job: StreamJob, first: StreamCursor, unread: seq<bool>, output: seq<byte>, finished: bool)
    requires Decodable(job, |output|) && Finished(first, unread, output, finished) && SameJob(job, first, unread)
    ensures finished <==> Accepted(job)
    ensures finished ==> Delivered(job, output)
  {
    hide MarkedBits, Usable, DecodeSyms;
  }

  lemma JobUnmarked(job: StreamJob)
    requires MarkedBits(job.stream).None?
    ensures !Accepted(job)
  {
    hide MarkedBits, Usable;
  }

  /** Cursors that have advanced, finished: accepted exactly when the checked decoder accepts every
      job, and then with its symbols. */
  method FinishJobs(jobs: seq<StreamJob>, cursors: seq<StreamCursor>, output: array<byte>,
                    ghost firsts: seq<StreamCursor>, ghost unread: seq<seq<bool>>)
    returns (ok: bool)
    requires |jobs| == |firsts| == |unread| && AllAdvanced(firsts, cursors, unread, output[..])
    requires Apart(firsts, output.Length)
    requires forall i :: 0 <= i < |jobs| ==> Decodable(jobs[i], output.Length) && SameJob(jobs[i], firsts[i], unread[i])
    requires forall i, j :: 0 <= i < j < |firsts| ==> firsts[i].reader != firsts[j].reader
    modifies set i | 0 <= i < |cursors| :: cursors[i].reader, output
    ensures ok <==> forall i :: 0 <= i < |jobs| ==> Accepted(jobs[i])
    ensures ok ==> forall i :: 0 <= i < |jobs| ==> Delivered(jobs[i], output[..])
  {
    hide MarkedBits, Usable, Ready, Unread, Finished, Apart, Yields, Accepted, Delivered, Decodable, SameJob;
    ok := FinishCursors(firsts, cursors, output, unread);
    ghost var done: seq<bool> :| AllFinished(firsts, unread, output[..], done)
                                 && (ok <==> forall i :: 0 <= i < |firsts| ==> done[i]);
    forall i | 0 <= i < |jobs|
      ensures done[i] <==> Accepted(jobs[i])
      ensures done[i] ==> Delivered(jobs[i], output[..])
    {
      JobChecked(jobs[i], firsts[i], unread[i], output[..], done[i]);
    }
  }

  /** `decode_four_streams_unchecked`: any number of streams, each with its own table. */
  method DecodeStreams(jobs: seq<StreamJob>, output: array<byte>) returns (ok: bool)
    requires jobs != [] && JobsApart(jobs)
    requires forall i :: 0 <= i < |jobs| ==> Decodable(jobs[i], output.Length)
    modifies output
    ensures ok <==> forall i :: 0 <= i < |jobs| ==> Accepted(jobs[i])
    ensures ok ==> forall i :: 0 <= i < |jobs| ==> Delivered(jobs[i], output[..])
  {
    ok := DecodeInGroups(jobs, |jobs|, output);
  }

  /** `decode_two_sections_unchecked`: all streams in lockstep, then the first `split` and the others
      each by themselves. */
  method DecodeInGroups(jobs: seq<StreamJob>, split: nat, output: array<byte>) returns (ok: bool)
    requires jobs != [] && JobsApart(jobs) && split <= |jobs|
    requires forall i :: 0 <= i < |jobs| ==> Decodable(jobs[i], output.Length)
    modifies output
    ensures ok <==> forall i :: 0 <= i < |jobs| ==> Accepted(jobs[i])
    ensures ok ==> forall i :: 0 <= i < |jobs| ==> Delivered(jobs[i], output[..])
  {
    hide MarkedBits, Usable, Ready, Unread, Finished, Apart, Yields, Accepted, Delivered, Decodable, KeptElsewhere;
    var started, cursors, unread := StartSection(jobs, output.Length);
    if !started {
      var i :| 0 <= i < |jobs| && MarkedBits(jobs[i].stream).None?;
      JobUnmarked(jobs[i]);
      return false;
    }
    AllStarted(jobs, cursors, unread, output[..]);
    assert forall i :: 0 <= i < |jobs| ==> SameJob(jobs[i], cursors[i], unread[i]);
    var advanced := DecodeRounds(cursors, output, cursors, unread);
    if 0 < split < |jobs| {
      advanced := DecodeGroup(advanced, 0, split, output, cursors, unread);
      advanced := DecodeGroup(advanced, split, |jobs|, output, cursors, unread);
    }
    ok := FinishJobs(jobs, advanced, output, cursors, unread);
  }
}
