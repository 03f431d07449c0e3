/** The headers of blocks, literals sections and sequences sections (sections 3.1.1.2, 3.1.1.3.1.1
    and 3.1.1.3.2.1 of RFC 8878): each is written and read as one little-endian word. */
module SectionHeaders {
  import opened Bits
  import opened BitReader
  import E = SequenceExecution

  const BLOCK_HEADER_LENGTH := 3

  // ---------------------------------------------------------------- little-endian words

  function Pow256(n: nat): (p: nat)
    ensures p > 0
  {
    if n == 0 then 1 else 256 * Pow256(n - 1)
  }

  lemma {:induction false} LeWordReadsBack(v: nat, n: nat, after: seq<byte>)
    requires v < Pow256(n)
    ensures |LeBytes(v, n) + after| >= n && LeWord((LeBytes(v, n) + after)[..n]) == v
    decreases n
  {
    assert (LeBytes(v, n) + after)[..n] == LeBytes(v, n);
    if n > 0 {
      LeWordReadsBack(v / 256, n - 1, after);
      assert (LeBytes(v / 256, n - 1) + after)[..n - 1] == LeBytes(v / 256, n - 1);
      assert LeBytes(v, n)[1..] == LeBytes(v / 256, n - 1);
    }
  }

  lemma SmallWords()
    ensures Pow256(1) == 256 && Pow256(2) == 65536 && Pow256(3) == 16_777_216
    ensures Pow256(4) == 4_294_967_296 && Pow256(5) == 1_099_511_627_776
  {
    assert Pow256(3) == 256 * Pow256(2);
    assert Pow256(5) == 256 * Pow256(4);
  }

  // ---------------------------------------------------------------- blocks

  datatype BlockType = RawBlock | RleBlock | CompressedBlock

  datatype BlockHeader = BlockHeader(blockType: BlockType, blockSize: nat, isLast: bool)

  function GetBlockTypeBits(t: BlockType): nat {
    match t
    case RawBlock => 0
    case RleBlock => 1
    case CompressedBlock => 2
  }

  /** `write_block_header`: size, type and last flag share one word. */
  function WriteBlockHeader(h: BlockHeader): (bytes: seq<byte>)
    ensures |bytes| == BLOCK_HEADER_LENGTH
  {
    LeBytes(8 * h.blockSize + 2 * GetBlockTypeBits(h.blockType) + (if h.isLast then 1 else 0), 3)
  }

  /** `read_block_header`: none for too little input, the reserved type, or an oversized block. */
  function ReadBlockHeader(input: seq<byte>): (h: Option<BlockHeader>)
    ensures h.Some? ==> |input| >= BLOCK_HEADER_LENGTH && h.value.blockSize <= E.MAX_BLOCK_SIZE
  {
    if |input| < BLOCK_HEADER_LENGTH then None
    else
      var raw := LeWord(input[..3]);
      var typeBits, size := (raw / 2) % 4, raw / 8;
      if typeBits == 3 || size > E.MAX_BLOCK_SIZE then None
      else Some(BlockHeader(if typeBits == 0 then RawBlock else if typeBits == 1 then RleBlock else CompressedBlock,
                            size, raw % 2 == 1))
  }

  lemma BlockHeaderRoundTrip(h: BlockHeader, after: seq<byte>)
    requires h.blockSize <= E.MAX_BLOCK_SIZE
    ensures ReadBlockHeader(WriteBlockHeader(h) + after) == Some(h)
  {
    hide LeBytes, LeWord, Pow256;
    SmallWords();
    LeWordReadsBack(8 * h.blockSize + 2 * GetBlockTypeBits(h.blockType) + (if h.isLast then 1 else 0), 3, after);
  }

  // ---------------------------------------------------------------- literals

  datatype LiteralsType = Raw | Rle | Compressed | Treeless

  datatype LiteralsHeader = LiteralsHeader(literalsType: LiteralsType, regeneratedSize: nat, compressedSize: nat,
                                           streamCount: nat, headerLength: nat)

  function LiteralsTypeBits(t: LiteralsType): nat {
    match t
    case Raw => 0
    case Rle => 1
    case Compressed => 2
    case Treeless => 3
  }

  /** `literals_header_length`. */
  function LiteralsHeaderLength(t: LiteralsType, sizeFormat: nat): (n: nat)
    ensures 1 <= n <= 5
  {
    if t.Raw? || t.Rle? then if sizeFormat == 0 then 1 else if sizeFormat == 1 then 2 else 3
    else if sizeFormat <= 1 then 3 else if sizeFormat == 2 then 4 else 5
  }

  /** Two to the power of `literals_size_bits`. */
  function LiteralsSizeLimit(sizeFormat: nat): nat {
    if sizeFormat <= 1 then 1024 else if sizeFormat == 2 then 16384 else 262144
  }

  /** `pick_raw_size_format`; the format 2 is never used. */
  function PickRawSizeFormat(length: nat): (f: Option<nat>)
    ensures f.Some? <==> length < 1048576
    ensures f.Some? ==> f.value in {0, 1, 3}
  {
    if length < 32 then Some(0) else if length < 4096 then Some(1) else if length < 1048576 then Some(3) else None
  }

  /** `pick_size_format_from_regenerated_size`. */
  function PickSizeFormat(streamCount: nat, length: nat): (f: Option<nat>)
    ensures f.Some? <==> length < if streamCount == 1 then LiteralsSizeLimit(0) else LiteralsSizeLimit(3)
    ensures f.Some? ==> length < LiteralsSizeLimit(f.value) && f.value <= 3 && (f.value == 0 <==> streamCount == 1)
    ensures f.Some? && f.value >= 2 ==> length >= LiteralsSizeLimit(f.value - 1)
  {
    if streamCount == 1 then if length <= 1023 then Some(0) else None
    else if length <= 1023 then Some(1) else if length <= 16383 then Some(2) else if length <= 262143 then Some(3)
    else None
  }

  /** The header word of `write_literals_header`: its fields lie side by side, so `|` is `+`. */
  function LiteralsWord(t: LiteralsType, sizeFormat: nat, regeneratedSize: nat, compressedSize: nat): nat {
    if t.Raw? || t.Rle? then
      if sizeFormat == 0 then LiteralsTypeBits(t) + 8 * regeneratedSize
      else LiteralsTypeBits(t) + (if sizeFormat == 1 then 4 else 12) + 16 * regeneratedSize
    else
      LiteralsTypeBits(t) + 4 * sizeFormat + 16 * regeneratedSize
      + 16 * LiteralsSizeLimit(sizeFormat) * compressedSize
  }

  function WriteLiteralsHeader(t: LiteralsType, sizeFormat: nat, regeneratedSize: nat,
                               compressedSize: nat): (bytes: seq<byte>)
    ensures |bytes| == LiteralsHeaderLength(t, sizeFormat)
  {
    LeBytes(LiteralsWord(t, sizeFormat, regeneratedSize, compressedSize), LiteralsHeaderLength(t, sizeFormat))
  }

  function LiteralsTypeFromBits(bits: nat): LiteralsType {
    if bits == 0 then Raw else if bits == 1 then Rle else if bits == 2 then Compressed else Treeless
  }

  /** `read_literals_header`. */
  function ReadLiteralsHeader(input: seq<byte>): (h: Option<LiteralsHeader>)
    ensures h.Some? ==> h.value.headerLength <= |input|
    ensures h.Some? && (h.value.literalsType.Compressed? || h.value.literalsType.Treeless?) ==>
              h.value.compressedSize < 262144
  {
    if input == [] then None
    else
      var t, sizeFormat := LiteralsTypeFromBits(input[0] % 4), (input[0] / 4) % 4;
      if t.Raw? || t.Rle? then
        var length := if sizeFormat == 0 || sizeFormat == 2 then 1 else if sizeFormat == 1 then 2 else 3;
        if |input| < length then None else Some(RawHeader(t, length, LeWord(input[..length])))
      else
        var length := LiteralsHeaderLength(t, sizeFormat);
        if |input| < length then None else Some(CodedHeader(t, sizeFormat, LeWord(input[..length])))
  }

  function RawHeader(t: LiteralsType, length: nat, word: nat): (h: LiteralsHeader)
    ensures h.literalsType == t && h.headerLength == length
  {
    var size := if length == 1 then word / 8 else (word / 16) % (if length == 2 then 4096 else 1048576);
    LiteralsHeader(t, size, if t.Raw? then size else 1, 1, length)
  }

  function CodedHeader(t: LiteralsType, sizeFormat: nat, word: nat): (h: LiteralsHeader)
    ensures h.literalsType == t && h.headerLength == LiteralsHeaderLength(t, sizeFormat) && h.compressedSize < 262144
  {
    var limit := LiteralsSizeLimit(sizeFormat);
    LiteralsHeader(t, (word / 16) % limit, (word / 16 / limit) % limit, if sizeFormat == 0 then 1 else 4,
                   LiteralsHeaderLength(t, sizeFormat))
  }

  /** The format fits the size. */
  predicate RawFormatFits(sizeFormat: nat, size: nat) {
    (sizeFormat == 0 && size < 32) || (sizeFormat == 1 && size < 4096) || (sizeFormat == 3 && size < 1048576)
  }

  lemma {:induction false} FirstByte(v: nat, n: nat)
    requires n > 0
    ensures LeBytes(v, n)[0] == v % 256
  {
  }

  lemma RawHeaderRoundTrip(t: LiteralsType, sizeFormat: nat, size: nat, after: seq<byte>)
    requires (t.Raw? || t.Rle?) && RawFormatFits(sizeFormat, size)
    ensures ReadLiteralsHeader(WriteLiteralsHeader(t, sizeFormat, size, size) + after)
         == Some(LiteralsHeader(t, size, if t.Raw? then size else 1, 1, LiteralsHeaderLength(t, sizeFormat)))
  {
    hide LeBytes, LeWord, Pow256, LiteralsWord, RawHeader, CodedHeader;
    var length, word := LiteralsHeaderLength(t, sizeFormat), LiteralsWord(t, sizeFormat, size, size);
    RawFields(t, sizeFormat, size);
    LeWordReadsBack(word, length, after);
    FirstByte(word, length);
  }

  lemma RawFields(t: LiteralsType, sizeFormat: nat, size: nat)
    requires (t.Raw? || t.Rle?) && RawFormatFits(sizeFormat, size)
    ensures var length, word := LiteralsHeaderLength(t, sizeFormat), LiteralsWord(t, sizeFormat, size, size);
            && word < Pow256(length) && LiteralsTypeFromBits(word % 256 % 4) == t
            && (length == 1 <==> (word % 256 / 4) % 4 in {0, 2}) && (length == 2 <==> (word % 256 / 4) % 4 == 1)
            && RawHeader(t, length, word) == LiteralsHeader(t, size, if t.Raw? then size else 1, 1, length)
  {
    hide *;
    SmallWords();
    TypeReadsBack(t);
    RawParts(t, sizeFormat, size);
    var bits, word := LiteralsTypeBits(t), LiteralsWord(t, sizeFormat, size, size);
    if sizeFormat == 0 {
      ShortWord(bits, size);
      RawHeaderIs(t, 1, word);
    } else if sizeFormat == 1 {
      LongWord(bits, 1, size, 4096);
      RawHeaderIs(t, 2, word);
    } else {
      LongWord(bits, 3, size, 1048576);
      RawHeaderIs(t, 3, word);
    }
  }

  lemma RawParts(t: LiteralsType, sizeFormat: nat, size: nat)
    requires (t.Raw? || t.Rle?) && RawFormatFits(sizeFormat, size)
    ensures LiteralsWord(t, sizeFormat, size, size)
         == if sizeFormat == 0 then LiteralsTypeBits(t) + 8 * size else LiteralsTypeBits(t) + 4 * sizeFormat + 16 * size
    ensures LiteralsHeaderLength(t, sizeFormat) == if sizeFormat == 0 then 1 else if sizeFormat == 1 then 2 else 3
    ensures sizeFormat == 0 ==> size < 32
    ensures sizeFormat == 1 ==> size < 4096
    ensures sizeFormat != 0 && sizeFormat != 1 ==> sizeFormat == 3 && size < 1048576
  {
  }

  lemma RawHeaderIs(t: LiteralsType, length: nat, word: nat)
    requires length in {1, 2, 3}
    ensures RawHeader(t, length, word).literalsType == t && RawHeader(t, length, word).streamCount == 1
    ensures var size :=
              if length == 1 then word / 8 else if length == 2 then (word / 16) % 4096 else (word / 16) % 1048576;
            && RawHeader(t, length, word).regeneratedSize == size
            && RawHeader(t, length, word).compressedSize == if t.Raw? then size else 1
  {
  }

  lemma TypeReadsBack(t: LiteralsType)
    ensures LiteralsTypeFromBits(LiteralsTypeBits(t)) == t && LiteralsTypeBits(t) < 4
    ensures t.Raw? || t.Rle? ==> LiteralsTypeBits(t) < 2
  {
  }

  lemma LongWord(typeBits: nat, format: nat, size: nat, limit: nat)
    requires typeBits < 4 && format < 4 && size < limit
    ensures var word := typeBits + 4 * format + 16 * size;
            && word < 16 * limit && word % 256 % 4 == typeBits && (word % 256 / 4) % 4 == format
            && (word / 16) % limit == size
  {
    WordStart(typeBits + 4 * format + 16 * size);
    LowFields(typeBits, format, size);
    SmallRemainder(size, limit);
  }

  lemma SmallRemainder(a: nat, m: nat)
    requires a < m
    ensures a % m == a
  {
  }

  lemma ShortWord(typeBits: nat, size: nat)
    requires typeBits < 2 && size < 32
    ensures var word := typeBits + 8 * size;
            word < 256 && word % 4 == typeBits && word / 8 == size && (word / 4) % 4 in {0, 2}
  {
  }

  /** The first byte holds the low fields. */
  lemma WordStart(v: nat)
    ensures v % 256 % 4 == v % 4 && (v % 256 / 4) % 4 == (v / 4) % 4
  {
    var q, r := v / 256, v % 256;
    var fours, rest := r / 4, r % 4;
    assert v == 4 * (64 * q + fours) + rest;
    QuarterIs(v, 64 * q + fours, rest);
    QuarterIs(64 * q + fours, 16 * q + fours / 4, fours % 4);
  }

  lemma QuarterIs(v: nat, q: nat, r: nat)
    requires v == 4 * q + r && r < 4
    ensures v / 4 == q && v % 4 == r
  {
  }

  lemma CodedHeaderRoundTrip(t: LiteralsType, sizeFormat: nat, size: nat, compressedSize: nat, after: seq<byte>)
    requires (t.Compressed? || t.Treeless?) && sizeFormat <= 3
    requires size < LiteralsSizeLimit(sizeFormat) && compressedSize < LiteralsSizeLimit(sizeFormat)
    ensures ReadLiteralsHeader(WriteLiteralsHeader(t, sizeFormat, size, compressedSize) + after)
         == Some(LiteralsHeader(t, size, compressedSize, if sizeFormat == 0 then 1 else 4,
                                LiteralsHeaderLength(t, sizeFormat)))
  {
    hide LeBytes, LeWord, Pow256, LiteralsWord, RawHeader, CodedHeader;
    var length, word := LiteralsHeaderLength(t, sizeFormat), LiteralsWord(t, sizeFormat, size, compressedSize);
    CodedFields(t, sizeFormat, size, compressedSize);
    LeWordReadsBack(word, length, after);
    FirstByte(word, length);
  }

  lemma CodedFields(t: LiteralsType, sizeFormat: nat, size: nat, compressedSize: nat)
    requires (t.Compressed? || t.Treeless?) && sizeFormat <= 3
    requires size < LiteralsSizeLimit(sizeFormat) && compressedSize < LiteralsSizeLimit(sizeFormat)
    ensures var length, word := LiteralsHeaderLength(t, sizeFormat), LiteralsWord(t, sizeFormat, size, compressedSize);
            && word < Pow256(length) && LiteralsTypeFromBits(word % 256 % 4) == t && (word % 256 / 4) % 4 == sizeFormat
            && CodedHeader(t, sizeFormat, word)
               == LiteralsHeader(t, size, compressedSize, if sizeFormat == 0 then 1 else 4, length)
  {
    hide Pow256, LiteralsTypeBits, LiteralsTypeFromBits;
    SmallWords();
    TypeReadsBack(t);
    WordStart(LiteralsWord(t, sizeFormat, size, compressedSize));
    var limit := LiteralsSizeLimit(sizeFormat);
    Fields(LiteralsTypeBits(t), sizeFormat, size, compressedSize, limit);
    CodedBound(LiteralsTypeBits(t), sizeFormat, size, compressedSize, limit);
  }

  lemma CodedBound(typeBits: nat, sizeFormat: nat, size: nat, compressedSize: nat, limit: nat)
    requires typeBits < 4 && sizeFormat < 4 && size < limit && compressedSize < limit && limit in {1024, 16384, 262144}
    ensures typeBits + 4 * sizeFormat + 16 * size + 16 * limit * compressedSize < 16 * limit * limit
    ensures 0 <= compressedSize % limit == compressedSize
  {
    assert size + limit * compressedSize < limit * limit;
    assert 16 * limit * compressedSize == 16 * (limit * compressedSize) && 16 * limit * limit == 16 * (limit * limit);
  }

  lemma Fields(typeBits: nat, sizeFormat: nat, size: nat, compressedSize: nat, limit: nat)
    requires typeBits < 4 && sizeFormat < 4 && size < limit && limit in {1024, 16384, 262144}
    ensures var word := typeBits + 4 * sizeFormat + 16 * size + 16 * limit * compressedSize;
            && word % 4 == typeBits && (word / 4) % 4 == sizeFormat && (word / 16) % limit == size
            && word / 16 / limit == compressedSize
  {
    var upper := size + limit * compressedSize;
    var word := typeBits + 4 * sizeFormat + 16 * size + 16 * limit * compressedSize;
    TwoSizes(size, compressedSize, limit);
    assert 16 * limit * compressedSize == 16 * (limit * compressedSize);
    LowFields(typeBits, sizeFormat, upper);
  }

  lemma LowFields(typeBits: nat, sizeFormat: nat, upper: nat)
    requires typeBits < 4 && sizeFormat < 4
    ensures var word := typeBits + 4 * sizeFormat + 16 * upper;
            word % 4 == typeBits && (word / 4) % 4 == sizeFormat && word / 16 == upper
  {
  }

  lemma TwoSizes(size: nat, compressedSize: nat, limit: nat)
    requires size < limit && limit in {1024, 16384, 262144}
    ensures (size + limit * compressedSize) % limit == size && (size + limit * compressedSize) / limit == compressedSize
  {
    if limit == 1024 {
      assert (size + 1024 * compressedSize) / 1024 == compressedSize;
    } else if limit == 16384 {
      assert (size + 16384 * compressedSize) / 16384 == compressedSize;
    } else {
      assert (size + 262144 * compressedSize) / 262144 == compressedSize;
    }
  }

  // ---------------------------------------------------------------- sequences

  datatype TableMode = PredefinedMode | RleMode | CompressedMode | RepeatMode

  datatype SequencesHeader = SequencesHeader(sequenceCount: nat, literalLengthMode: TableMode, offsetMode: TableMode,
                                             matchLengthMode: TableMode, headerLength: nat)

  function ModeBits(mode: TableMode): nat {
    match mode
    case PredefinedMode => 0
    case RleMode => 1
    case CompressedMode => 2
    case RepeatMode => 3
  }

  function TableModeFromBits(bits: nat): TableMode {
    if bits == 0 then PredefinedMode
    else if bits == 1 then RleMode else if bits == 2 then CompressedMode else RepeatMode
  }

  /** `write_sequence_count`: one, two or three bytes, and an error above 0x17EFF. */
  function WriteSequenceCount(n: nat): (bytes: Option<seq<byte>>)
    ensures bytes.Some? <==> n <= 0x17EFF
  {
    if n < 128 then Some([n])
    else if n <= 126 * 256 + 255 then Some([128 + n / 256, n % 256])
    else if n - 0x7F00 > 0xFFFF then None
    else Some([255, (n - 0x7F00) % 256, (n - 0x7F00) / 256])
  }

  /** The count and its length in bytes. */
  function ReadSequenceCount(input: seq<byte>): (c: Option<(nat, nat)>)
    ensures c.Some? ==> c.value.1 <= |input|
  {
    if input == [] then None
    else if input[0] < 128 then Some((input[0] as int, 1))
    else if input[0] < 255 then
      if |input| < 2 then None else Some(((input[0] as int - 128) * 256 + input[1] as int, 2))
    else
      if |input| < 3 then None else Some((input[1] as int + 256 * input[2] as int + 0x7F00, 3))
  }

  lemma SequenceCountRoundTrip(n: nat, after: seq<byte>)
    requires n <= 0x17EFF
    ensures ReadSequenceCount(WriteSequenceCount(n).value + after) == Some((n, |WriteSequenceCount(n).value|))
  {
  }

  /** The count and the three modes; the descriptions follow. */
  function WriteSequencesHeader(n: nat, ll: TableMode, of: TableMode, ml: TableMode): Option<seq<byte>> {
    if WriteSequenceCount(n).None? then None
    else Some(WriteSequenceCount(n).value + [64 * ModeBits(ll) + 16 * ModeBits(of) + 4 * ModeBits(ml)])
  }

  /** `read_sequences_header`: no modes for no sequences, and reserved bits must be zero. */
  function ReadSequencesHeader(input: seq<byte>): (h: Option<SequencesHeader>)
    ensures h.Some? ==> h.value.headerLength <= |input|
  {
    var count := ReadSequenceCount(input);
    if count.None? then None
    else
      var (n, length) := count.value;
      if n == 0 then Some(SequencesHeader(0, PredefinedMode, PredefinedMode, PredefinedMode, length))
      else if length >= |input| || input[length] % 4 != 0 then None
      else
        var modes := input[length];
        Some(SequencesHeader(n, TableModeFromBits(modes / 64), TableModeFromBits((modes / 16) % 4),
                             TableModeFromBits((modes / 4) % 4),
                             length + 1))
  }

  lemma SequencesHeaderRoundTrip(n: nat, ll: TableMode, of: TableMode, ml: TableMode, after: seq<byte>)
    requires 0 < n <= 0x17EFF
    ensures ReadSequencesHeader(WriteSequencesHeader(n, ll, of, ml).value + after)
         == Some(SequencesHeader(n, ll, of, ml, |WriteSequenceCount(n).value| + 1))
  {
    hide WriteSequenceCount, ReadSequenceCount;
    var count := WriteSequenceCount(n).value;
    var modes := 64 * ModeBits(ll) + 16 * ModeBits(of) + 4 * ModeBits(ml);
    assert count + [modes] + after == count + ([modes] + after);
    SequenceCountRoundTrip(n, [modes] + after);
    ModesRoundTrip(ll, of, ml);
  }

  lemma ModesRoundTrip(ll: TableMode, of: TableMode, ml: TableMode)
    ensures var modes := 64 * ModeBits(ll) + 16 * ModeBits(of) + 4 * ModeBits(ml);
            && modes < 256 && modes % 4 == 0 && TableModeFromBits(modes / 64) == ll
            && TableModeFromBits((modes / 16) % 4) == of && TableModeFromBits((modes / 4) % 4) == ml
  {
  }
}
