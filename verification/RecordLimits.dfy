/** How many extra bits the records of a short input can have: a long literal run, a long match and
    a far offset exclude each other. */
module RecordLimits {
  import opened Bits
  import opened SequenceCodes
  import opened SequenceBits
  import opened SequenceExecution
  import opened MatchCopy
  import opened ValidParse
  import R = RepeatOffsets

  /** In an input of this length no record has more than 38 extra bits; one byte more has room for
      13 + 13 + 13. */
  const ROOMY_INPUT := 16386

  /** The lengths and values that take 13 extra bits and more. */
  lemma LongLiterals(length: nat)
    requires length <= MAX_LITERAL_LENGTH
    ensures var bits := LiteralLengthRange(LiteralLengthCode(length).code).bits;
            (bits >= 13 ==> length >= 8192) && (bits >= 14 ==> length >= 16384)
  {
    hide LiteralLengthCode, Pow2;
    LiteralLengthInverts(length);
  }

  lemma LongMatch(length: nat)
    requires MIN_MATCH_LENGTH <= length <= MAX_MATCH_LENGTH
    ensures var bits := MatchLengthRange(MatchLengthCode(length).code).bits;
            (bits > 0 ==> length >= 35) && (bits >= 13 ==> length >= 8195) && (bits >= 14 ==> length >= 16387)
  {
    hide MatchLengthCode, Pow2;
    MatchLengthInverts(length);
  }

  lemma LargeOffset(value: nat)
    requires 1 <= value < 0x1_0000_0000
    ensures (OffsetCode(value).code >= 14 ==> value >= 16384) && (OffsetCode(value).code >= 15 ==> value >= 32768)
  {
    hide OffsetCode, Pow2;
    OffsetInverts(value);
    LargePowers();
    if OffsetCode(value).code >= 14 {
      Pow2Mono(14, OffsetCode(value).code);
    }
    if OffsetCode(value).code >= 15 {
      Pow2Mono(15, OffsetCode(value).code);
    }
  }

  /** Literals before `start`, an offset that reaches back from it and a match behind it. */
  lemma FewExtras(r: SequenceRecord, start: nat, end: nat)
    requires ValidRecord(r) && r.literalLength <= start && r.offsetValue <= start + 3
    requires start + r.matchLength <= end <= ROOMY_INPUT
    ensures Short(r)
  {
    hide LiteralLengthCode, MatchLengthCode, OffsetCode, LiteralLengthRange, MatchLengthRange, Extras;
    ExtrasLength(r);
    LongLiterals(r.literalLength);
    LongMatch(r.matchLength);
    LargeOffset(r.offsetValue);
  }

  /** A record that can be executed lies inside the output. */
  lemma ExecutedShort(env: Env, m: Machine, r: SequenceRecord)
    requires ValidRecord(r) && ExecuteOne(env, m, r).Some? && env.capacity <= ROOMY_INPUT
    ensures Short(r)
  {
    hide R.After, CopyMatch, Short, ValidRecord;
    FewExtras(r, |m.out| + r.literalLength, env.capacity);
  }

  lemma {:induction false} ReachedShort(env: Env, from: Machine, records: seq<SequenceRecord>, to: Machine, window: nat)
    requires Reaches(env, from, records, to, window) && env.capacity <= ROOMY_INPUT
    ensures forall i :: 0 <= i < |records| ==> Short(records[i])
    decreases |records|
  {
    hide ExecuteOne, R.OffsetOf, ValidRecord, Short;
    if records != [] {
      ExecutedShort(env, from, records[0]);
      ReachedShort(env, ExecuteOne(env, from, records[0]).value, records[1..], to, window);
      forall i | 0 <= i < |records|
        ensures Short(records[i])
      {
        assert i > 0 ==> records[i] == records[1..][i - 1];
      }
    }
  }

  /** Whatever finder parsed it, an input of that length has short records only. */
  lemma ParsedShort(input: seq<byte>, blockStart: nat, window: nat, literals: seq<byte>, records: seq<SequenceRecord>,
                    from: R.History, to: R.History)
    requires Parses(input, blockStart, window, literals, records, from, to) && |input| <= ROOMY_INPUT
    ensures forall i :: 0 <= i < |records| ==> Short(records[i])
  {
    hide ExecuteAll, TakeRest, Reaches, Short;
    var env, start := Env(literals, blockStart, |input|), Machine(input[..blockStart], 0, from);
    ReachedShort(env, start, records, ExecuteAll(env, start, records).value, window);
  }
}
