/** Huffman-coded streams (section 4.2.2 of RFC 8878): symbols are written last to first, so
    that a reader going backwards meets them in order. */
module HuffmanStream {
  import opened Bits
  import opened BitReader
  import opened BitWriter
  import opened HuffmanCodes

  // ---------------------------------------------------------------- decoding, one symbol at a time

  /** Every window selects a code of 1 to maxBits bits. */
  ghost predicate Usable(entries: seq<DecodeCell>, maxBits: nat) {
    && 1 <= maxBits <= MAX_BITS && |entries| == MAX_HUFFMAN_TABLE_SIZE && Pow2(maxBits) <= |entries|
    && forall c: nat :: c < Pow2(maxBits) ==> 1 <= entries[c].bitCount <= maxBits && entries[c].symbol < 256
  }

  lemma ReadyIsUsable(table: HuffmanDecodeTable, weights: seq<nat>)
    requires table.DecodesBy(weights)
    ensures Usable(table.entries, table.maxBits)
  {
    TableBound(table.maxBits);
    forall c: nat | c < Pow2(table.maxBits)
      ensures 1 <= table.entries[c].bitCount <= table.maxBits && table.entries[c].symbol < 256
    {
      var s := table.CellOwner(weights, c);
    }
  }

  /** What a decoder has produced: symbols, bits still unread, and whether it read past the start. */
  datatype Decoded = Decoded(symbols: seq<nat>, rest: seq<bool>, overran: bool)

  function CellAt(entries: seq<DecodeCell>, maxBits: nat, rest: seq<bool>): (cell: DecodeCell)
    requires Usable(entries, maxBits)
    ensures 1 <= cell.bitCount <= maxBits && cell.symbol < 256
  {
    entries[PeekEnd(rest, maxBits)]
  }

  function DecodeSyms(entries: seq<DecodeCell>, maxBits: nat, rest: seq<bool>, overran: bool, n: nat): (d: Decoded)
    requires Usable(entries, maxBits)
    ensures |d.symbols| == n && forall i :: 0 <= i < n ==> d.symbols[i] < 256
    decreases n
  {
    if n == 0 then Decoded([], rest, overran)
    else
      var cell := CellAt(entries, maxBits, rest);
      var d := DecodeSyms(entries, maxBits, DropEnd(rest, cell.bitCount), overran || cell.bitCount > |rest|, n - 1);
      Decoded([cell.symbol] + d.symbols, d.rest, d.overran)
  }

  /** Decoding goes on where it stopped. */
  lemma {:induction false} DecodeOn(entries: seq<DecodeCell>, maxBits: nat, rest: seq<bool>, overran: bool, n: nat,
                                    m: nat)
    requires Usable(entries, maxBits)
    ensures var first := DecodeSyms(entries, maxBits, rest, overran, n);
            var second := DecodeSyms(entries, maxBits, first.rest, first.overran, m);
            DecodeSyms(entries, maxBits, rest, overran, n + m)
            == Decoded(first.symbols + second.symbols, second.rest, second.overran)
    decreases n
  {
    hide Usable, CellAt, DropEnd;
    if n == 0 {
      var second := DecodeSyms(entries, maxBits, rest, overran, m);
      assert [] + second.symbols == second.symbols;
    } else {
      var cell := CellAt(entries, maxBits, rest);
      var left, over := DropEnd(rest, cell.bitCount), overran || cell.bitCount > |rest|;
      DecodeOn(entries, maxBits, left, over, n - 1, m);
      var first := DecodeSyms(entries, maxBits, left, over, n - 1);
      var second := DecodeSyms(entries, maxBits, first.rest, first.overran, m);
      ConcatAssoc([cell.symbol], first.symbols, second.symbols);
    }
  }

  lemma DecodeOne(entries: seq<DecodeCell>, maxBits: nat, rest: seq<bool>, overran: bool)
    requires Usable(entries, maxBits)
    ensures var cell := CellAt(entries, maxBits, rest);
            DecodeSyms(entries, maxBits, rest, overran, 1)
            == Decoded([cell.symbol], DropEnd(rest, cell.bitCount), overran || cell.bitCount > |rest|)
  {
    hide CellAt, DropEnd, Usable;
    var cell := CellAt(entries, maxBits, rest);
    assert [cell.symbol] + [] == [cell.symbol];
  }

  // ---------------------------------------------------------------- encoding

  /** The stream of a list of symbols: the first symbol's code is on top. */
  ghost function EncodeSyms(weights: seq<nat>, maxBits: nat, symbols: seq<byte>): seq<bool>
    requires Coded(weights, maxBits, symbols)
  {
    if symbols == [] then []
    else EncodeSyms(weights, maxBits, symbols[1..]) + CodeBits(weights, maxBits, symbols[0])
  }

  /** Every symbol has a code. */
  ghost predicate Coded(weights: seq<nat>, maxBits: nat, symbols: seq<byte>) {
    forall i :: 0 <= i < |symbols| ==> symbols[i] < |weights| && 0 < weights[symbols[i]] <= maxBits
  }

  ghost function CodeBits(weights: seq<nat>, maxBits: nat, s: nat): (bits: seq<bool>)
    requires s < |weights| && 0 < weights[s] <= maxBits
    ensures |bits| == CodeLength(weights, maxBits, s)
  {
    ToBits(CodeOf(weights, s), CodeLength(weights, maxBits, s))
  }

  /** Decode cells made from these weights. */
  ghost predicate CellsBy(entries: seq<DecodeCell>, maxBits: nat, weights: seq<nat>) {
    Complete(weights, maxBits) && HuffmanDecodeTable.Filled(entries, weights, maxBits, Pow2(maxBits))
  }

  /** A window that starts with a symbol's code selects that symbol's cell. */
  lemma CodeSelects(entries: seq<DecodeCell>, maxBits: nat, weights: seq<nat>, before: seq<bool>, s: nat)
    requires CellsBy(entries, maxBits, weights) && Usable(entries, maxBits)
    requires s < |weights| && 0 < weights[s] <= maxBits
    ensures var rest := before + CodeBits(weights, maxBits, s);
            && CellAt(entries, maxBits, rest) == DecodeCell(s, CodeLength(weights, maxBits, s))
            && DropEnd(rest, CodeLength(weights, maxBits, s)) == before
  {
    hide PeekEnd, DropEnd, Start, CodeOf, Pow2, LowBits, Shr, ToBits;
    var m, length := maxBits, CodeLength(weights, maxBits, s);
    var rest := before + CodeBits(weights, m, s);
    PeekPushed(before, CodeOf(weights, s), length);
    CodeFits(weights, m, s);
    LowBitsId(CodeOf(weights, s), length);
    PeekNarrow(rest, m, length);
    OwnsByPrefix(weights, m, s, PeekEnd(rest, m));
  }

  /** One-stream coding loses nothing, whatever the symbols. */
  lemma {:induction false} StreamRoundTrip(entries: seq<DecodeCell>, maxBits: nat, weights: seq<nat>, before: seq<bool>,
                                           symbols: seq<byte>)
    requires CellsBy(entries, maxBits, weights) && Usable(entries, maxBits)
    requires Coded(weights, maxBits, symbols)
    ensures DecodeSyms(entries, maxBits, before + EncodeSyms(weights, maxBits, symbols), false, |symbols|)
         == Decoded(symbols, before, false)
    decreases |symbols|
  {
    hide Usable, CellAt, DropEnd, CodeBits, CellsBy;
    if symbols == [] {
      assert before + [] == before;
    } else {
      var s, m := symbols[0], maxBits;
      var tail := before + EncodeSyms(weights, m, symbols[1..]);
      CodeSelects(entries, maxBits, weights, tail, s);
      StreamRoundTrip(entries, maxBits, weights, before, symbols[1..]);
      ConcatAssoc(before, EncodeSyms(weights, m, symbols[1..]), CodeBits(weights, m, s));
      assert symbols == [s] + symbols[1..];
    }
  }

  // ---------------------------------------------------------------- the checked decoder

  /** Dropping bits from a window leaves the window of the bits below. */
  lemma PeekAfterDrop(rest: seq<bool>, wide: nat, count: nat)
    requires count <= wide
    ensures LowBits(PeekEnd(rest, wide), wide - count) == PeekEnd(DropEnd(rest, count), wide - count)
  {
    hide Shr, Shl, FromBits, LowBits;
    if wide <= |rest| {
      var low, high := rest[|rest| - wide..|rest| - count], rest[|rest| - count..];
      assert rest[|rest| - wide..] == low + high;
      FromBitsConcat(low, high);
      SplitUnique(FromBits(low), FromBits(high), wide - count);
      assert DropEnd(rest, count)[|rest| - wide..] == low;
    } else if count <= |rest| {
      var low, high := rest[..|rest| - count], rest[|rest| - count..];
      assert rest == low + high;
      FromBitsConcat(low, high);
      PaddedDrop(FromBits(low), FromBits(high), |low|, wide - |rest|);
    } else {
      PaddedAway(FromBits(rest), wide - count, count - |rest|);
      EmptyBits();
      ShlZero(wide - count);
      if wide == count {
        assert DropEnd(rest, count)[0..] == [];
      }
    }
  }

  lemma EmptyBits()
    ensures FromBits([]) == 0
  {
  }

  lemma PaddedDrop(low: nat, high: nat, k: nat, m: nat)
    requires low < Pow2(k)
    ensures LowBits(Shl(low + Shl(high, k), m), k + m) == Shl(low, m)
  {
    hide *;
    ShlAdd(low, Shl(high, k), m);
    ShlShl(high, k, m);
    ShlBound(low, k, m);
    PositivePow2(m);
    SplitUnique(Shl(low, m), high, k + m);
  }

  lemma PaddedAway(v: nat, n: nat, m: nat)
    ensures LowBits(Shl(v, n + m), n) == 0
  {
    hide *;
    ShlShl(v, m, n);
    PositivePow2(n);
    SplitUnique(0, Shl(v, m), n);
  }

  lemma DropDrop(rest: seq<bool>, a: nat, b: nat)
    ensures DropEnd(DropEnd(rest, a), b) == DropEnd(rest, a + b)
  {
  }

  /** The second index of a pair window is the window after the first code. */
  lemma SecondIndex(rest: seq<bool>, maxBits: nat, count: nat)
    requires count <= maxBits
    ensures Shr(LowBits(Shl(PeekEnd(rest, 2 * maxBits), count), 2 * maxBits), maxBits)
         == PeekEnd(DropEnd(rest, count), maxBits)
  {
    hide PeekEnd, DropEnd, Shl, Shr, LowBits;
    var window := PeekEnd(rest, 2 * maxBits);
    var left := DropEnd(rest, count);
    var low := LowBits(window, 2 * maxBits - count);
    MaskedShift(window, 2 * maxBits, count);
    PeekAfterDrop(rest, 2 * maxBits, count);
    PeekNarrow(left, 2 * maxBits - count, maxBits);
    ShrShr(Shl(low, count), count, maxBits - count);
    ShrShl(low, count);
  }

  ghost predicate Reads(reader: BackwardBitReader, d: Decoded)
    reads reader
  {
    reader.Valid() && reader.Rest() == d.rest && reader.hasOverflowed == d.overran
  }

  lemma Reading(reader: BackwardBitReader)
    requires reader.Valid()
    ensures Reads(reader, Decoded([], reader.Rest(), reader.hasOverflowed))
  {
  }

  lemma ReadsState(reader: BackwardBitReader, d: Decoded)
    requires Reads(reader, d)
    ensures reader.Valid() && reader.Rest() == d.rest && reader.hasOverflowed == d.overran
  {
  }

  lemma ReadsAlike(reader: BackwardBitReader, d: Decoded, e: Decoded)
    requires Reads(reader, d) && e.rest == d.rest && e.overran == d.overran
    ensures Reads(reader, e)
  {
  }

  /** `decode_symbol`. */
  method DecodeSymbol(reader: BackwardBitReader, entries: seq<DecodeCell>, maxBits: nat) returns (symbol: byte)
    requires reader.Valid() && Usable(entries, maxBits)
    modifies reader
    ensures Reads(reader, DecodeSyms(entries, maxBits, old(reader.Rest()), old(reader.hasOverflowed), 1))
    ensures DecodeSyms(entries, maxBits, old(reader.Rest()), old(reader.hasOverflowed), 1).symbols == [symbol]
  {
    DecodeOne(entries, maxBits, reader.Rest(), reader.hasOverflowed);
    hide PeekEnd, DropEnd, DecodeSyms, BytesToBits;
    reader.Refill();
    var window := reader.PeekBits(maxBits);
    var entry := entries[window];
    reader.SkipBits(entry.bitCount);
    symbol := entry.symbol;
  }

  /** `decode_symbol_pair`: two symbols from one window, as if decoded one after the other. */
  method DecodeSymbolPair(reader: BackwardBitReader, entries: seq<DecodeCell>, maxBits: nat, windowBits: nat)
    returns (first: byte, second: byte)
    requires reader.Valid() && Usable(entries, maxBits) && windowBits == 2 * maxBits
    modifies reader
    ensures Reads(reader, DecodeSyms(entries, maxBits, old(reader.Rest()), old(reader.hasOverflowed), 2))
    ensures DecodeSyms(entries, maxBits, old(reader.Rest()), old(reader.hasOverflowed), 2).symbols == [first, second]
  {
    hide PeekEnd, DropEnd, DecodeSyms, BytesToBits, Shl, Shr, LowBits, Usable;
    ghost var rest, over := reader.Rest(), reader.hasOverflowed;
    UsableMaxBits(entries, maxBits);
    reader.Refill();
    var window := reader.PeekBits(windowBits);
    PeekNarrow(rest, windowBits, maxBits);
    var firstEntry := EntryAt(entries, maxBits, Shr(window, maxBits), rest);
    var shifted := LowBits(Shl(window, firstEntry.bitCount), windowBits);
    SecondIndex(rest, maxBits, firstEntry.bitCount);
    ghost var left := DropEnd(rest, firstEntry.bitCount);
    var secondEntry := EntryAt(entries, maxBits, Shr(shifted, maxBits), left);
    reader.SkipBits(firstEntry.bitCount + secondEntry.bitCount);
    DropDrop(rest, firstEntry.bitCount, secondEntry.bitCount);
    DropLength(rest, firstEntry.bitCount);
    DecodeOn(entries, maxBits, rest, over, 1, 1);
    DecodeOne(entries, maxBits, rest, over);
    DecodeOne(entries, maxBits, left, over || firstEntry.bitCount > |rest|);
    return firstEntry.symbol, secondEntry.symbol;
  }

  lemma UsableMaxBits(entries: seq<DecodeCell>, maxBits: nat)
    requires Usable(entries, maxBits)
    ensures 1 <= maxBits <= MAX_BITS == 11
  {
  }

  lemma DropLength(rest: seq<bool>, n: nat)
    ensures |DropEnd(rest, n)| == if n <= |rest| then |rest| - n else 0
  {
  }

  /** `decode_entry_unchecked`. */
  function EntryAt(entries: seq<DecodeCell>, maxBits: nat, index: nat, ghost rest: seq<bool>): (entry: DecodeCell)
    requires Usable(entries, maxBits) && index == PeekEnd(rest, maxBits)
    ensures entry == CellAt(entries, maxBits, rest)
    ensures 1 <= entry.bitCount <= maxBits && entry.symbol < 256
  {
    entries[index]
  }

  /** The first `position` symbols are decoded and stored. */
  ghost predicate StoredSo(reader: BackwardBitReader, entries: seq<DecodeCell>, maxBits: nat, rest: seq<bool>,
                           over: bool, output: array<byte>, position: nat)
    reads reader, output
    requires Usable(entries, maxBits)
  {
    && position <= output.Length && reader.Valid()
    && Reads(reader, DecodeSyms(entries, maxBits, rest, over, position))
    && output[..position] == DecodeSyms(entries, maxBits, rest, over, position).symbols
  }

  lemma StoredParts(reader: BackwardBitReader, entries: seq<DecodeCell>, maxBits: nat, rest: seq<bool>, over: bool,
                    output: array<byte>, position: nat)
    requires Usable(entries, maxBits)
    ensures StoredSo(reader, entries, maxBits, rest, over, output, position)
       <==> && position <= output.Length && reader.Valid()
            && Reads(reader, DecodeSyms(entries, maxBits, rest, over, position))
            && output[..position] == DecodeSyms(entries, maxBits, rest, over, position).symbols
  {
    hide Usable, Reads, DecodeSyms, BackwardBitReader.Valid;
  }

  /** Symbols decoded from where the reader stands are the next ones. */
  lemma StoredMore(reader: BackwardBitReader, entries: seq<DecodeCell>, maxBits: nat, rest: seq<bool>, over: bool,
                   output: array<byte>, position: nat, d: Decoded, more: seq<byte>)
    requires Usable(entries, maxBits) && d == DecodeSyms(entries, maxBits, rest, over, position) && reader.Valid()
    requires Reads(reader, DecodeSyms(entries, maxBits, d.rest, d.overran, |more|))
    requires DecodeSyms(entries, maxBits, d.rest, d.overran, |more|).symbols == more
    requires position + |more| <= output.Length && output[..position + |more|] == d.symbols + more
    ensures StoredSo(reader, entries, maxBits, rest, over, output, position + |more|)
  {
    hide *;
    DecodeOn(entries, maxBits, rest, over, position, |more|);
    ReadsAlike(reader, DecodeSyms(entries, maxBits, d.rest, d.overran, |more|),
               DecodeSyms(entries, maxBits, rest, over, position + |more|));
    StoredParts(reader, entries, maxBits, rest, over, output, position + |more|);
  }

  /** The body of the paired loop. */
  method StorePair(reader: BackwardBitReader, entries: seq<DecodeCell>, maxBits: nat, windowBits: nat,
                   output: array<byte>, position: nat, ghost rest: seq<bool>, ghost over: bool)
    requires Usable(entries, maxBits) && windowBits == 2 * maxBits && position + 2 <= output.Length
    requires StoredSo(reader, entries, maxBits, rest, over, output, position)
    modifies reader, output
    ensures StoredSo(reader, entries, maxBits, rest, over, output, position + 2)
  {
    hide *;
    StoredParts(reader, entries, maxBits, rest, over, output, position);
    ghost var d := DecodeSyms(entries, maxBits, rest, over, position);
    ReadsState(reader, d);
    var first, second := DecodeSymbolPair(reader, entries, maxBits, windowBits);
    ReadsState(reader, DecodeSyms(entries, maxBits, d.rest, d.overran, 2));
    output[position] := first;
    output[position + 1] := second;
    assert output[..position + 2] == d.symbols + [first, second];
    StoredMore(reader, entries, maxBits, rest, over, output, position, d, [first, second]);
  }

  /** An odd symbol at the end. */
  method StoreLast(reader: BackwardBitReader, entries: seq<DecodeCell>, maxBits: nat, output: array<byte>,
                   position: nat, ghost rest: seq<bool>, ghost over: bool)
    requires Usable(entries, maxBits) && position + 1 <= output.Length
    requires StoredSo(reader, entries, maxBits, rest, over, output, position)
    modifies reader, output
    ensures StoredSo(reader, entries, maxBits, rest, over, output, position + 1)
  {
    hide *;
    StoredParts(reader, entries, maxBits, rest, over, output, position);
    ghost var d := DecodeSyms(entries, maxBits, rest, over, position);
    ReadsState(reader, d);
    var symbol := DecodeSymbol(reader, entries, maxBits);
    ReadsState(reader, DecodeSyms(entries, maxBits, d.rest, d.overran, 1));
    output[position] := symbol;
    assert output[..position + 1] == d.symbols + [symbol];
    StoredMore(reader, entries, maxBits, rest, over, output, position, d, [symbol]);
  }

  /** `decode_symbols`. */
  method DecodeSymbols(reader: BackwardBitReader, entries: seq<DecodeCell>, maxBits: nat, output: array<byte>)
    requires reader.Valid() && Usable(entries, maxBits)
    modifies reader, output
    ensures Reads(reader, DecodeSyms(entries, maxBits, old(reader.Rest()), old(reader.hasOverflowed), output.Length))
    ensures output[..]
          == DecodeSyms(entries, maxBits, old(reader.Rest()), old(reader.hasOverflowed), output.Length).symbols
  {
    hide *;
    ghost var rest, over := reader.Rest(), reader.hasOverflowed;
    Reading(reader);
    var pairedLength := output.Length - output.Length % 2;
    var position := 0;
    NothingDecoded(entries, maxBits, rest, over);
    StoredParts(reader, entries, maxBits, rest, over, output, 0);
    while position < pairedLength
      invariant position <= pairedLength && position % 2 == 0
      invariant StoredSo(reader, entries, maxBits, rest, over, output, position)
    {
      StorePair(reader, entries, maxBits, maxBits * 2, output, position, rest, over);
      position := position + 2;
    }
    if position < output.Length {
      StoreLast(reader, entries, maxBits, output, position, rest, over);
      position := position + 1;
    }
    StoredParts(reader, entries, maxBits, rest, over, output, position);
    assert output[..] == output[..position];
  }

  lemma NothingDecoded(entries: seq<DecodeCell>, maxBits: nat, rest: seq<bool>, over: bool)
    requires Usable(entries, maxBits)
    ensures DecodeSyms(entries, maxBits, rest, over, 0) == Decoded([], rest, over)
  {
  }

  /** The `n` symbols of a stream, if it has a marker and they use it up exactly. */
  ghost function StreamSymbols(input: seq<byte>, entries: seq<DecodeCell>, maxBits: nat,
                               n: nat): (symbols: Option<seq<nat>>)
    requires Usable(entries, maxBits)
    ensures symbols.Some? ==> |symbols.value| == n
  {
    if MarkedBits(input).None? then None
    else
      var d := DecodeSyms(entries, maxBits, MarkedBits(input).value, false, n);
      if d.rest == [] && !d.overran then Some(d.symbols) else None
  }

  /** `decode_one_stream`: accepts exactly the streams of `output.Length` symbols. */
  method DecodeOneStream(input: seq<byte>, table: HuffmanDecodeTable, output: array<byte>) returns (ok: bool)
    requires table.isReady ==> Usable(table.entries, table.maxBits)
    modifies output
    ensures ok <==> table.isReady && StreamSymbols(input, table.entries, table.maxBits, output.Length).Some?
    ensures ok ==> StreamSymbols(input, table.entries, table.maxBits, output.Length) == Some(output[..])
  {
    hide DecodeSyms, BytesToBits, Usable, MarkedBits;
    if !table.isReady {
      return false;
    }
    var reader := BackwardBitReader.New(input);
    if reader == null {
      return false;
    }
    DecodeSymbols(reader, table.entries, table.maxBits, output);
    return reader.IsFinished();
  }

  // ---------------------------------------------------------------- the unrolled encoder

  /** `encode_stream_capacity`. */
  function EncodeStreamCapacity(inputLength: nat): nat {
    inputLength * 11 / 8 + 16
  }

  /** `pick_unroll_count`: with up to seven bits pending, that many codes fit a container. */
  function PickUnrollCount(maxBits: nat): (unroll: nat)
    ensures 4 <= unroll <= 9
    ensures 1 <= maxBits <= MAX_BITS ==> unroll * maxBits + 7 < 64
  {
    if maxBits == 0 then 4 else Max(4, Min(56 / maxBits, 9))
  }

  /** The container of the unrolled loop together with the bytes already stored from `base`. */
  class StreamPacker {
    const output: array<byte>
    const base: nat
    var writePosition: nat
    var container: nat
    var bitsInContainer: nat

    ghost predicate Valid()
      reads this, output
    {
      && base + writePosition <= output.Length
      && bitsInContainer <= 64 && container < Pow2(bitsInContainer)
    }

    ghost function Contents(): (s: seq<bool>)
      requires Valid()
      reads this, output
      ensures |s| == 8 * writePosition + bitsInContainer
    {
      BytesToBits(output[base..base + writePosition]) + ToBits(container, bitsInContainer)
    }

    constructor (output: array<byte>, base: nat)
      requires base <= output.Length
      ensures Valid() && this.output == output && this.base == base && Contents() == [] && bitsInContainer == 0
    {
      this.output, this.base := output, base;
      writePosition, container, bitsInContainer := 0, 0, 0;
    }

    /** `container |= code << bits_in_container`. */
    method Add(code: nat, bitCount: nat)
      requires Valid() && bitsInContainer + bitCount < 64 && code < Pow2(bitCount)
      modifies this`container, this`bitsInContainer
      ensures Valid() && bitsInContainer == old(bitsInContainer) + bitCount
      ensures Contents() == old(Contents()) + ToBits(code, bitCount)
    {
      hide Pow2, Shl, Shr, LowBits, Shl64, Or, ToBits, FromBits, BytesToBits;
      ContainerAdd(container, bitsInContainer, code, bitCount);
      LowBitsId(code, bitCount);
      container := Or(container, Shl64(code, bitsInContainer));
      bitsInContainer := bitsInContainer + bitCount;
    }

    /** `flush_container_unchecked`: stores all eight bytes, keeps the whole ones. */
    method Flush()
      requires Valid() && bitsInContainer < 64 && base + writePosition + 8 <= output.Length
      modifies this, output
      ensures Valid() && Contents() == old(Contents()) && bitsInContainer < 8
      ensures output[..base] == old(output[..base])
      ensures bitsInContainer == old(bitsInContainer) % 8
      ensures forall i :: base + old(writePosition) + 8 <= i < output.Length ==> output[i] == old(output[i])
    {
      hide Pow2, Shl, Shr, LowBits, Shl64, Or, ToBits, FromBits, BytesToBits, LeBytes;
      var byteCount := bitsInContainer / 8;
      var bytes := LeBytes(container, 8);
      ghost var before := output[..];
      forall i | 0 <= i < 8 {
        output[base + writePosition + i] := bytes[i];
      }
      LeBytesPrefix(container, 8, byteCount);
      assert output[base..base + writePosition + byteCount] == before[base..base + writePosition] + bytes[..byteCount];
      BytesToBitsConcat(before[base..base + writePosition], bytes[..byteCount]);
      ContainerDrain(container, bitsInContainer, byteCount);
      writePosition := writePosition + byteCount;
      bitsInContainer := bitsInContainer - byteCount * 8;
      container := Shr(container, byteCount * 8);
      assert output[..base] == before[..base];
    }
  }

  lemma EncodeStep(weights: seq<nat>, maxBits: nat, symbols: seq<byte>, k: nat)
    requires Complete(weights, maxBits) && Coded(weights, maxBits, symbols) && k < |symbols|
    ensures Coded(weights, maxBits, symbols[k..]) && Coded(weights, maxBits, symbols[k + 1..])
    ensures symbols[k] < |weights| && 0 < weights[symbols[k]] <= maxBits
    ensures EncodeSyms(weights, maxBits, symbols[k..])
         == EncodeSyms(weights, maxBits, symbols[k + 1..]) + CodeBits(weights, maxBits, symbols[k])
    ensures CodeBits(weights, maxBits, symbols[k])
         == ToBits(CodeOf(weights, symbols[k]), CodeLength(weights, maxBits, symbols[k]))
    ensures 1 <= CodeLength(weights, maxBits, symbols[k]) <= maxBits
    ensures CodeOf(weights, symbols[k]) < Pow2(CodeLength(weights, maxBits, symbols[k]))
  {
    hide CodeOf, Start, Units, ToBits;
    assert symbols[k..][1..] == symbols[k + 1..];
    CodeFits(weights, maxBits, symbols[k]);
  }

  lemma TableCode(table: HuffmanEncodeTable, weights: seq<nat>, s: nat)
    requires table.EncodesBy(weights) && s < |weights| && weights[s] > 0
    ensures Complete(weights, table.maxBits) && |table.codes| == 256 && s < 256 && weights[s] <= table.maxBits
    ensures table.codes[s] == HuffmanCode(CodeOf(weights, s), CodeLength(weights, table.maxBits, s))
  {
    hide CodeOf, Units;
    assert table.weights[..table.symbolCount][s] == table.weights[s];
  }

  /** The codes of `input[index - count..index]`, last symbol first. */
  method AddCodes(packer: StreamPacker, table: HuffmanEncodeTable, ghost weights: seq<nat>, input: seq<byte>,
                  index: nat, count: nat)
    requires packer.Valid() && table.EncodesBy(weights) && count <= index <= |input|
    requires Coded(weights, table.maxBits, input) && Coded(weights, table.maxBits, input[index..])
    requires packer.bitsInContainer + count * table.maxBits < 64
    requires packer.Contents() == EncodeSyms(weights, table.maxBits, input[index..])
    modifies packer`container, packer`bitsInContainer
    ensures packer.Valid() && Coded(weights, table.maxBits, input[index - count..])
    ensures packer.Contents() == EncodeSyms(weights, table.maxBits, input[index - count..])
    ensures packer.bitsInContainer <= old(packer.bitsInContainer) + count * table.maxBits
  {
    hide *;
    var done := 0;
    while done < count
      invariant done <= count && packer.Valid() && Coded(weights, table.maxBits, input[index - done..])
      invariant packer.Contents() == EncodeSyms(weights, table.maxBits, input[index - done..])
      invariant packer.bitsInContainer <= old(packer.bitsInContainer) + done * table.maxBits
      modifies packer`container, packer`bitsInContainer
    {
      var at := index - done - 1;
      AtCoded(weights, table.maxBits, input, at);
      TableCode(table, weights, input[at]);
      EncodeStep(weights, table.maxBits, input, at);
      Product(done, count, table.maxBits);
      var code := table.codes[input[at]];
      packer.Add(code.code, code.bitCount);
      done := done + 1;
    }
  }

  lemma AtCoded(weights: seq<nat>, maxBits: nat, symbols: seq<byte>, k: nat)
    requires Coded(weights, maxBits, symbols) && k < |symbols|
    ensures symbols[k] < |weights| && 0 < weights[symbols[k]] <= maxBits
  {
  }

  lemma Product(done: nat, count: nat, maxBits: nat)
    requires done < count
    ensures done * maxBits + maxBits == (done + 1) * maxBits <= count * maxBits
  {
  }

  lemma {:induction false} EncodedLength(weights: seq<nat>, maxBits: nat, symbols: seq<byte>)
    requires Coded(weights, maxBits, symbols)
    ensures |EncodeSyms(weights, maxBits, symbols)| <= maxBits * |symbols|
  {
    hide *;
    TailCoded(weights, maxBits, symbols);
    if symbols != [] {
      EncodedLength(weights, maxBits, symbols[1..]);
      Product(|symbols| - 1, |symbols|, maxBits);
    }
  }

  lemma TailCoded(weights: seq<nat>, maxBits: nat, symbols: seq<byte>)
    requires Coded(weights, maxBits, symbols)
    ensures symbols == [] ==> EncodeSyms(weights, maxBits, symbols) == [] && maxBits * |symbols| == 0
    ensures symbols != [] ==>
              && Coded(weights, maxBits, symbols[1..])
              && |EncodeSyms(weights, maxBits, symbols)| <= |EncodeSyms(weights, maxBits, symbols[1..])| + maxBits
  {
    hide CodeOf, CodeBits;
  }

  lemma FitsCapacity(weights: seq<nat>, maxBits: nat, input: seq<byte>, index: nat, written: nat, pending: nat)
    requires maxBits <= MAX_BITS && index <= |input| && Coded(weights, maxBits, input[index..])
    requires 8 * written + pending == |EncodeSyms(weights, maxBits, input[index..])|
    ensures written + 8 < EncodeStreamCapacity(|input|)
  {
    hide EncodeSyms, Coded;
    EncodedLength(weights, maxBits, input[index..]);
  }

  /** The codes of the input from `index` on are in the packer, whole bytes stored. */
  ghost predicate Encoded(packer: StreamPacker, weights: seq<nat>, maxBits: nat, input: seq<byte>, index: nat)
    reads packer, packer.output
  {
    && packer.Valid() && packer.bitsInContainer < 8 && index <= |input|
    && Coded(weights, maxBits, input[index..])
    && packer.Contents() == EncodeSyms(weights, maxBits, input[index..])
  }

  /** One container's worth of codes, then a flush. */
  method EncodeGroup(packer: StreamPacker, table: HuffmanEncodeTable, ghost weights: seq<nat>, input: seq<byte>,
                     index: nat, count: nat)
    requires table.EncodesBy(weights) && Coded(weights, table.maxBits, input)
    requires Encoded(packer, weights, table.maxBits, input, index) && count <= index
    requires count * table.maxBits < 57 && packer.base + EncodeStreamCapacity(|input|) <= packer.output.Length
    modifies packer, packer.output
    ensures Encoded(packer, weights, table.maxBits, input, index - count)
    ensures packer.output[..packer.base] == old(packer.output[..packer.base])
  {
    hide Coded, EncodeSyms, StreamPacker.Contents, StreamPacker.Valid, HuffmanEncodeTable.EncodesBy,
      EncodeStreamCapacity;
    AddCodes(packer, table, weights, input, index, count);
    TableShape(table, weights);
    FitsCapacity(weights, table.maxBits, input, index - count, packer.writePosition, packer.bitsInContainer);
    packer.Flush();
  }

  /** `encode_stream_unrolled_unchecked` at `base`: the coded symbols, a marker, zeros to a byte. */
  method EncodeStream(input: seq<byte>, table: HuffmanEncodeTable, ghost weights: seq<nat>, output: array<byte>,
                      base: nat)
    returns (size: nat)
    requires table.EncodesBy(weights) && Coded(weights, table.maxBits, input)
    requires base + EncodeStreamCapacity(|input|) <= output.Length
    modifies output
    ensures 0 < size <= EncodeStreamCapacity(|input|) && output[..base] == old(output[..base])
    ensures MarkedBits(output[base..base + size]) == Some(EncodeSyms(weights, table.maxBits, input))
  {
    hide *;
    TableShape(table, weights);
    var unroll := PickUnrollCount(table.maxBits);
    var packer := new StreamPacker(output, base);
    var index: nat := |input|;
    NothingEncoded(packer, weights, table.maxBits, input);
    var remainder := |input| % unroll;
    Budget(unroll, remainder, table.maxBits);
    AfterRemainder(|input|, unroll);
    if remainder > 0 {
      EncodeGroup(packer, table, weights, input, index, remainder);
      index := index - remainder;
    }
    while index > 0
      invariant WholeGroups(index, unroll)
      invariant Encoded(packer, weights, table.maxBits, input, index)
      invariant output[..base] == old(output[..base])
      modifies packer, output
    {
      NextGroup(index, unroll);
      EncodeGroup(packer, table, weights, input, index, unroll);
      index := index - unroll;
    }
    AllEncoded(packer, weights, table.maxBits, input);
    size := FinishStream(packer, EncodeSyms(weights, table.maxBits, input));
  }

  lemma AllEncoded(packer: StreamPacker, weights: seq<nat>, maxBits: nat, input: seq<byte>)
    requires Encoded(packer, weights, maxBits, input, 0) && Coded(weights, maxBits, input) && maxBits <= MAX_BITS
    ensures packer.Valid() && packer.bitsInContainer < 8
    ensures packer.Contents() == EncodeSyms(weights, maxBits, input)
    ensures packer.writePosition + 8 < EncodeStreamCapacity(|input|)
  {
    hide EncodeSyms, Coded, EncodeStreamCapacity;
    assert input[0..] == input;
    FitsCapacity(weights, maxBits, input, 0, packer.writePosition, packer.bitsInContainer);
  }

  lemma TableShape(table: HuffmanEncodeTable, weights: seq<nat>)
    requires table.EncodesBy(weights)
    ensures 1 <= table.maxBits <= MAX_BITS
  {
  }

  lemma NothingEncoded(packer: StreamPacker, weights: seq<nat>, maxBits: nat, input: seq<byte>)
    requires packer.Valid() && packer.bitsInContainer == 0 && packer.Contents() == []
    ensures Encoded(packer, weights, maxBits, input, |input|)
  {
    hide StreamPacker.Contents, StreamPacker.Valid;
  }

  lemma Budget(unroll: nat, remainder: nat, maxBits: nat)
    requires remainder < unroll == PickUnrollCount(maxBits) && 1 <= maxBits <= MAX_BITS
    ensures remainder * maxBits <= unroll * maxBits < 57
  {
    assert remainder * maxBits <= unroll * maxBits;
  }

  /** What is left is a number of whole groups. */
  ghost predicate WholeGroups(index: nat, unroll: nat) {
    unroll > 0 && exists groups: nat :: AreGroups(index, unroll, groups)
  }

  ghost predicate AreGroups(index: nat, unroll: nat, groups: nat) {
    index == groups * unroll
  }

  lemma AfterRemainder(n: nat, unroll: nat)
    requires unroll > 0
    ensures n % unroll <= n && WholeGroups(n - n % unroll, unroll)
  {
    assert AreGroups(n - n % unroll, unroll, n / unroll);
  }

  lemma NextGroup(index: nat, unroll: nat)
    requires WholeGroups(index, unroll) && index > 0
    ensures unroll <= index && WholeGroups(index - unroll, unroll)
  {
    var groups: nat :| AreGroups(index, unroll, groups);
    assert groups * unroll == (groups - 1) * unroll + unroll;
    assert AreGroups(index - unroll, unroll, groups - 1);
  }

  /** The end marker and the last partial byte. */
  method FinishStream(packer: StreamPacker, ghost content: seq<bool>) returns (size: nat)
    requires packer.Valid() && packer.bitsInContainer < 8 && packer.Contents() == content
    requires packer.base + packer.writePosition + 8 < packer.output.Length
    modifies packer, packer.output
    ensures 0 < size <= old(packer.writePosition) + 1 && packer.base + size <= packer.output.Length
    ensures packer.output[..packer.base] == old(packer.output[..packer.base])
    ensures MarkedBits(packer.output[packer.base..packer.base + size]) == Some(content)
  {
    hide Pow2, Shl, Shr, LowBits, Shl64, Or, ToBits, FromBits, BytesToBits, LeBytes, MarkedBits;
    var output, base := packer.output, packer.base;
    OnePow();
    packer.Add(1, 1);
    MarkerBits();
    packer.Flush();
    size := packer.writePosition;
    if packer.bitsInContainer > 0 {
      ghost var stored := output[base..base + size];
      output[base + size] := packer.container % 256;
      size := size + 1;
      assert output[base..base + size] == stored + [packer.container % 256];
      BytesToBitsConcat(stored, [packer.container % 256]);
      LastByteBits(packer.container, packer.bitsInContainer);
      ConcatAssoc(BytesToBits(stored), ToBits(packer.container, packer.bitsInContainer),
                  Zeros(8 - packer.bitsInContainer));
      MarkerFound(output[base..base + size], content, 8 - packer.bitsInContainer);
    } else {
      assert content + [true] + Zeros(0) == content + [true];
      assert packer.Contents() == BytesToBits(output[base..base + size]);
      MarkerFound(output[base..base + size], content, 0);
    }
  }

  lemma OnePow()
    ensures 1 < Pow2(1)
  {
  }

  /** `encode_one_stream`. */
  method EncodeOneStream(input: seq<byte>, table: HuffmanEncodeTable, ghost weights: seq<nat>, output: array<byte>,
                         base: nat)
    returns (ok: bool, size: nat)
    requires table.EncodesBy(weights) && Coded(weights, table.maxBits, input) && base <= output.Length
    modifies output
    ensures ok <==> base + EncodeStreamCapacity(|input|) <= output.Length
    ensures ok ==> 0 < size <= EncodeStreamCapacity(|input|) && output[..base] == old(output[..base])
    ensures ok ==> MarkedBits(output[base..base + size]) == Some(EncodeSyms(weights, table.maxBits, input))
    ensures !ok ==> unchanged(output)
  {
    hide *;
    if output.Length - base < EncodeStreamCapacity(|input|) {
      return false, 0;
    }
    size := EncodeStream(input, table, weights, output, base);
    ok := true;
  }

  /** Bytes of a stream: its bits, the marker, and zeros up to a byte. */
  ghost function StreamBytes(weights: seq<nat>, maxBits: nat, symbols: seq<byte>): nat
    requires Coded(weights, maxBits, symbols)
  {
    |EncodeSyms(weights, maxBits, symbols)| / 8 + 1
  }

  lemma StreamSizeIs(stream: seq<byte>, weights: seq<nat>, maxBits: nat, symbols: seq<byte>)
    requires Coded(weights, maxBits, symbols)
    requires MarkedBits(stream) == Some(EncodeSyms(weights, maxBits, symbols))
    ensures |stream| == StreamBytes(weights, maxBits, symbols)
  {
    hide Coded, EncodeSyms;
  }

  /** What one side encodes the other decodes. */
  lemma OneStreamDecodes(entries: seq<DecodeCell>, maxBits: nat, weights: seq<nat>, stream: seq<byte>,
                         symbols: seq<byte>)
    requires CellsBy(entries, maxBits, weights) && Usable(entries, maxBits)
    requires Coded(weights, maxBits, symbols)
    requires MarkedBits(stream) == Some(EncodeSyms(weights, maxBits, symbols))
    ensures StreamSymbols(stream, entries, maxBits, |symbols|) == Some(symbols)
  {
    hide *;
    StreamRoundTrip(entries, maxBits, weights, [], symbols);
    assert [] + EncodeSyms(weights, maxBits, symbols) == EncodeSyms(weights, maxBits, symbols);
    StreamIs(stream, entries, maxBits, symbols);
  }

  lemma StreamIs(stream: seq<byte>, entries: seq<DecodeCell>, maxBits: nat, symbols: seq<nat>)
    requires Usable(entries, maxBits) && MarkedBits(stream).Some?
    requires DecodeSyms(entries, maxBits, MarkedBits(stream).value, false, |symbols|) == Decoded(symbols, [], false)
    ensures StreamSymbols(stream, entries, maxBits, |symbols|) == Some(symbols)
  {
  }
}
