/** Codes of literal lengths, match lengths and offset values (section 3.1.1.3.2.1.1 of RFC 8878):
    a code picks a base and a number of extra bits. */
module SequenceCodes {
  import opened Bits

  const LITERAL_LENGTH_CODE_COUNT := 36
  const MATCH_LENGTH_CODE_COUNT := 53
  const MAX_LITERAL_LENGTH := 131071
  const MIN_MATCH_LENGTH := 3
  const MAX_MATCH_LENGTH := 131074

  /** A base and its number of extra bits. */
  datatype Range = Range(base: nat, bits: nat)

  const LITERAL_LENGTH_EXTRA_BASE: seq<Range> := [
    Range(16, 1), Range(18, 1), Range(20, 1), Range(22, 1), Range(24, 2), Range(28, 2), Range(32, 3), Range(40, 3),
    Range(48, 4), Range(64, 6), Range(128, 7), Range(256, 8), Range(512, 9), Range(1024, 10), Range(2048, 11),
    Range(4096, 12), Range(8192, 13), Range(16384, 14), Range(32768, 15), Range(65536, 16)]

  const MATCH_LENGTH_EXTRA_BASE: seq<Range> := [
    Range(35, 1), Range(37, 1), Range(39, 1), Range(41, 1), Range(43, 2), Range(47, 2), Range(51, 3), Range(59, 3),
    Range(67, 4), Range(83, 4), Range(99, 5), Range(131, 7), Range(259, 8), Range(515, 9), Range(1027, 10),
    Range(2051, 11), Range(4099, 12), Range(8195, 13), Range(16387, 14), Range(32771, 15), Range(65539, 16)]

  /** `get_literal_length_base` and `get_literal_length_extra_bits`; codes past the last act as it. */
  function LiteralLengthRange(code: nat): (r: Range)
    ensures r.bits <= 16 && r.base <= 65536
  {
    var c := Min(code, LITERAL_LENGTH_CODE_COUNT - 1);
    if c <= 15 then Range(c, 0) else LITERAL_LENGTH_EXTRA_BASE[c - 16]
  }

  function MatchLengthRange(code: nat): (r: Range)
    ensures r.bits <= 16 && 3 <= r.base <= 65539
  {
    var c := Min(code, MATCH_LENGTH_CODE_COUNT - 1);
    if c <= 31 then Range(c + 3, 0) else MATCH_LENGTH_EXTRA_BASE[c - 32]
  }

  /** The first range of `table` that holds the length: the loops that build the small tables. */
  function FindRange(table: seq<Range>, length: nat, i: nat): (k: nat)
    requires i <= |table|
    ensures i <= k <= |table|
    ensures k < |table| ==> table[k].base <= length < table[k].base + Pow2(table[k].bits)
    decreases |table| - i
  {
    if i == |table| then i
    else if table[i].base <= length < table[i].base + Pow2(table[i].bits) then i
    else FindRange(table, length, i + 1)
  }

  datatype Coded = Coded(code: nat, extra: nat)

  /** `get_literal_length_code`. */
  function LiteralLengthCode(length: nat): Coded
    requires length <= MAX_LITERAL_LENGTH
  {
    if length <= 15 then Coded(length, 0)
    else if length <= 63 then
      var k := FindRange(LITERAL_LENGTH_EXTRA_BASE, length, 0);
      var code := if k < 20 then k + 16 else LITERAL_LENGTH_CODE_COUNT - 1;
      Coded(code, Max(length - LiteralLengthRange(code).base, 0))
    else
      var h := HighestBit(length);
      Coded(h + 19, Max(length - Pow2(h), 0))
  }

  /** `get_match_length_code`. */
  function MatchLengthCode(length: nat): Coded
    requires MIN_MATCH_LENGTH <= length <= MAX_MATCH_LENGTH
  {
    if length <= 34 then Coded(length - 3, 0)
    else if length <= 130 then
      var k := FindRange(MATCH_LENGTH_EXTRA_BASE, length, 0);
      var code := if k < 21 then k + 32 else MATCH_LENGTH_CODE_COUNT - 1;
      Coded(code, Max(length - MatchLengthRange(code).base, 0))
    else
      var h := HighestBit(length - 3);
      Coded(h + 36, Max(length - (Pow2(h) + 3), 0))
  }

  /** `get_offset_code`: the highest bit and the bits below it. */
  function OffsetCode(value: nat): Coded
    requires value >= 1
  {
    Coded(HighestBit(value), value - Pow2(HighestBit(value)))
  }

  // ---------------------------------------------------------------- powers of two used above

  lemma SmallPowers()
    ensures Pow2(1) == 2 && Pow2(2) == 4 && Pow2(3) == 8 && Pow2(4) == 16 && Pow2(5) == 32 && Pow2(6) == 64
    ensures Pow2(7) == 128 && Pow2(8) == 256 && Pow2(9) == 512 && Pow2(10) == 1024
  {
  }

  lemma LargePowers()
    ensures Pow2(11) == 2048 && Pow2(12) == 4096 && Pow2(13) == 8192 && Pow2(14) == 16384
    ensures Pow2(15) == 32768 && Pow2(16) == 65536 && Pow2(17) == 131072
  {
    assert Pow2(10) == 1024;
  }

  lemma HighBitRange(v: nat, low: nat, high: nat)
    requires Pow2(low) <= v < Pow2(high)
    ensures low <= HighestBit(v) < high
  {
    hide HighestBit;
    var h := HighestBit(v);
    if h < low { Pow2Mono(h + 1, low); }
    if h >= high { Pow2Mono(high, h); }
  }

  /** From 64 up the ranges are the powers of two. */
  lemma PowerRanges(h: nat)
    requires 6 <= h <= 16
    ensures LITERAL_LENGTH_EXTRA_BASE[h + 3] == Range(Pow2(h), h)
    ensures h >= 7 ==> MATCH_LENGTH_EXTRA_BASE[h + 4] == Range(Pow2(h) + 3, h)
  {
    hide Pow2;
    SmallPowers();
    LargePowers();
  }

  // ---------------------------------------------------------------- the ranges

  /** Each literal-length range begins where the one before it ends, from nothing to the largest. */
  lemma LiteralRangesTile(code: nat)
    requires code < LITERAL_LENGTH_CODE_COUNT
    ensures LiteralLengthRange(0).base == 0
    ensures var end := LiteralLengthRange(code).base + Pow2(LiteralLengthRange(code).bits);
            end == if code + 1 < LITERAL_LENGTH_CODE_COUNT then LiteralLengthRange(code + 1).base
                   else MAX_LITERAL_LENGTH + 1
  {
    hide Pow2;
    PowerOfNone();
    SmallPowers();
    LargePowers();
  }

  lemma MatchRangesTile(code: nat)
    requires code < MATCH_LENGTH_CODE_COUNT
    ensures MatchLengthRange(0).base == MIN_MATCH_LENGTH
    ensures var end := MatchLengthRange(code).base + Pow2(MatchLengthRange(code).bits);
            end == if code + 1 < MATCH_LENGTH_CODE_COUNT then MatchLengthRange(code + 1).base
                   else MAX_MATCH_LENGTH + 1
  {
    hide Pow2;
    PowerOfNone();
    SmallPowers();
    LargePowers();
  }

  lemma PowerOfNone()
    ensures Pow2(0) == 1
  {
  }

  // ---------------------------------------------------------------- codes are inverted by base and extra bits

  ghost predicate Inverts(r: Range, length: nat, c: Coded) {
    r.base + c.extra == length && c.extra < Pow2(r.bits)
  }

  lemma SmallLiteralRange(length: nat)
    requires 16 <= length <= 63
    ensures FindRange(LITERAL_LENGTH_EXTRA_BASE, length, 0) < 9
  {
    hide Pow2, FindRange;
    SmallPowers();
    var t := LITERAL_LENGTH_EXTRA_BASE;
    FindsEarly(t, length, 0, if length < 24 then (length - 16) / 2 else if length < 32 then 4 + (length - 24) / 4
                             else if length < 48 then 6 + (length - 32) / 8 else 8);
  }

  /** The search stops at the latest where a range holds the length. */
  lemma {:induction false} FindsEarly(table: seq<Range>, length: nat, i: nat, k: nat)
    requires i <= k < |table| && table[k].base <= length < table[k].base + Pow2(table[k].bits)
    ensures FindRange(table, length, i) <= k
    decreases k - i
  {
    if i < k && !(table[i].base <= length < table[i].base + Pow2(table[i].bits)) {
      FindsEarly(table, length, i + 1, k);
    }
  }

  lemma SmallMatchRange(length: nat)
    requires 35 <= length <= 130
    ensures FindRange(MATCH_LENGTH_EXTRA_BASE, length, 0) < 11
  {
    hide Pow2, FindRange;
    SmallPowers();
    var t := MATCH_LENGTH_EXTRA_BASE;
    FindsEarly(t, length, 0, if length < 43 then (length - 35) / 2 else if length < 51 then 4 + (length - 43) / 4
                             else if length < 67 then 6 + (length - 51) / 8
                             else if length < 99 then 8 + (length - 67) / 16 else 10);
  }

  lemma LiteralLengthInverts(length: nat)
    requires length <= MAX_LITERAL_LENGTH
    ensures LiteralLengthCode(length).code < LITERAL_LENGTH_CODE_COUNT
    ensures Inverts(LiteralLengthRange(LiteralLengthCode(length).code), length, LiteralLengthCode(length))
  {
    hide Pow2, HighestBit, FindRange;
    if length <= 15 {
      PositivePower(0);
    } else if length <= 63 {
      SmallLiteralRange(length);
    } else {
      SmallPowers();
      LargePowers();
      HighBitRange(length, 6, 17);
      PowerRanges(HighestBit(length));
      DoublePower(HighestBit(length));
    }
  }

  lemma MatchLengthInverts(length: nat)
    requires MIN_MATCH_LENGTH <= length <= MAX_MATCH_LENGTH
    ensures MatchLengthCode(length).code < MATCH_LENGTH_CODE_COUNT
    ensures Inverts(MatchLengthRange(MatchLengthCode(length).code), length, MatchLengthCode(length))
  {
    hide Pow2, HighestBit, FindRange;
    if length <= 34 {
      PositivePower(0);
    } else if length <= 130 {
      SmallMatchRange(length);
    } else {
      SmallPowers();
      LargePowers();
      HighBitRange(length - 3, 7, 17);
      PowerRanges(HighestBit(length - 3));
      DoublePower(HighestBit(length - 3));
    }
  }

  lemma OffsetInverts(value: nat)
    requires 1 <= value < 0x1_0000_0000
    ensures OffsetCode(value).code <= 31
    ensures Pow2(OffsetCode(value).code) + OffsetCode(value).extra == value
    ensures OffsetCode(value).extra < Pow2(OffsetCode(value).code)
  {
    hide Pow2, HighestBit;
    DoublePower(HighestBit(value));
    WordPower();
    PositivePower(0);
    assert Pow2(0) == 1 by { OnePower(); }
    HighBitRange(value, 0, 32);
  }

  lemma OnePower()
    ensures Pow2(0) == 1
  {
  }

  lemma WordPower()
    ensures Pow2(32) == 0x1_0000_0000
  {
    LargePowers();
    assert Pow2(24) == 0x100_0000;
  }

  lemma PositivePower(h: nat)
    ensures Pow2(h) > 0
  {
  }

  lemma DoublePower(h: nat)
    ensures Pow2(h + 1) == 2 * Pow2(h)
  {
  }

  // ---------------------------------------------------------------- the quick finders

  /** `find_literal_length_code`: a table below 64, the highest bit above. */
  function FindLiteralLengthCode(length: nat): nat
    requires length <= MAX_LITERAL_LENGTH
  {
    if length < 64 then LiteralLengthCode(length).code else HighestBit(length) + 19
  }

  /** `find_match_length_code`. */
  function FindMatchLengthCode(length: nat): nat
    requires MIN_MATCH_LENGTH <= length <= MAX_MATCH_LENGTH
  {
    if length - 3 < 128 then MatchLengthCode(length).code else HighestBit(length - 3) + 36
  }

  /** Every base is a multiple of its range's size. */
  const LITERAL_QUOTIENTS: seq<nat> := [8, 9, 10, 11, 6, 7, 4, 5, 3, 1, 1, 1, 1, 1, 1, 1, 1, 1, 1, 1]
  const MATCH_QUOTIENTS: seq<nat> := [16, 17, 18, 19, 10, 11, 6, 7, 4, 5, 3, 1, 1, 1, 1, 1, 1, 1, 1, 1, 1]

  lemma BasesAligned(i: nat)
    requires i < 21
    ensures i < 20 ==>
              LITERAL_LENGTH_EXTRA_BASE[i].base == LITERAL_QUOTIENTS[i] * Pow2(LITERAL_LENGTH_EXTRA_BASE[i].bits)
    ensures MATCH_LENGTH_EXTRA_BASE[i].base - 3 == MATCH_QUOTIENTS[i] * Pow2(MATCH_LENGTH_EXTRA_BASE[i].bits)
  {
    hide Pow2;
    SmallPowers();
    LargePowers();
  }

  lemma LowOfAligned(q: nat, bits: nat, extra: nat)
    requires extra < Pow2(bits)
    ensures LowBits(q * Pow2(bits) + extra, bits) == extra
  {
    ShlTimes(q, bits);
    SplitUnique(extra, q, bits);
  }

  /** The quick finders give the same codes, and masking the length gives the extra bits. */
  lemma QuickLiteralAgrees(length: nat)
    requires length <= MAX_LITERAL_LENGTH
    ensures FindLiteralLengthCode(length) == LiteralLengthCode(length).code
    ensures LowBits(length, LiteralLengthRange(LiteralLengthCode(length).code).bits) == LiteralLengthCode(length).extra
  {
    hide Pow2, HighestBit, LowBits, LiteralLengthCode;
    assert FindLiteralLengthCode(length) == LiteralLengthCode(length).code by { LargeLiteral(length); }
    LiteralLengthInverts(length);
    var c := LiteralLengthCode(length);
    if c.code <= 15 {
      NoLow(length);
      assert Pow2(0) == 1 by { OnePower(); }
    } else {
      BasesAligned(c.code - 16);
      LowOfAligned(LITERAL_QUOTIENTS[c.code - 16], LITERAL_LENGTH_EXTRA_BASE[c.code - 16].bits, c.extra);
    }
  }

  lemma LargeLiteral(length: nat)
    requires length <= MAX_LITERAL_LENGTH
    ensures length >= 64 ==> LiteralLengthCode(length).code == HighestBit(length) + 19
  {
  }

  lemma LargeMatch(length: nat)
    requires MIN_MATCH_LENGTH <= length <= MAX_MATCH_LENGTH
    ensures length >= 131 ==> MatchLengthCode(length).code == HighestBit(length - 3) + 36
  {
  }

  lemma NoLow(v: nat)
    ensures LowBits(v, 0) == 0
  {
  }

  lemma QuickMatchAgrees(length: nat)
    requires MIN_MATCH_LENGTH <= length <= MAX_MATCH_LENGTH
    ensures FindMatchLengthCode(length) == MatchLengthCode(length).code
    ensures LowBits(length - 3, MatchLengthRange(MatchLengthCode(length).code).bits) == MatchLengthCode(length).extra
  {
    hide Pow2, HighestBit, LowBits, MatchLengthCode;
    assert FindMatchLengthCode(length) == MatchLengthCode(length).code by { LargeMatch(length); }
    MatchLengthInverts(length);
    var c := MatchLengthCode(length);
    if c.code <= 31 {
      NoLow(length - 3);
      assert Pow2(0) == 1 by { OnePower(); }
    } else {
      BasesAligned(c.code - 32);
      LowOfAligned(MATCH_QUOTIENTS[c.code - 32], MATCH_LENGTH_EXTRA_BASE[c.code - 32].bits, c.extra);
    }
  }

  lemma QuickOffsetAgrees(value: nat)
    requires 1 <= value < 0x1_0000_0000
    ensures LowBits(value, OffsetCode(value).code) == OffsetCode(value).extra
  {
    hide Pow2, HighestBit, LowBits;
    OffsetInverts(value);
    LowOfAligned(1, OffsetCode(value).code, OffsetCode(value).extra);
  }
}
