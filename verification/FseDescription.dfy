/** The description of an FSE table (section 4.1.1 of RFC 8878): counts in as many bits as what
    remains needs, and runs of zero counts in repeat flags. */
module FseDescription {
  import opened Bits
  import opened BitReader
  import opened BitWriter
  import opened FseSpread
  import opened FseTables

  /** A count as it is sent: 0 for the low probability, else one more than the count. */
  function ValueOf(count: int): nat {
    if count < 0 then 0 else count + 1
  }

  function CountOf(value: nat): int {
    if value == 0 then -1 else value - 1
  }

  /** `count_bits_needed`. */
  function BitsNeeded(remaining: nat): (bits: nat)
    requires remaining > 0
    ensures bits > 0 && Pow2(bits - 1) <= remaining < Pow2(bits)
  {
    HighestBit(remaining) + 1
  }

  /** Values below this need one bit less. */
  function Threshold(remaining: nat): (t: nat)
    requires remaining > 0
    ensures t < Pow2(BitsNeeded(remaining) - 1)
  {
    Pow2Step(BitsNeeded(remaining) - 1);
    Pow2(BitsNeeded(remaining)) - 1 - remaining
  }

  /** What is left of the table after a value. */
  function RemainingAfter(remaining: nat, value: nat): int {
    if value == 0 then remaining - 1 else remaining - (value - 1)
  }

  // ---------------------------------------------------------------- the description as bits

  /** One value: the low half of the range in one bit less, a flag above it for the rest. */
  function ValueBits(value: nat, remaining: nat): (bits: seq<bool>)
    requires remaining > 0
  {
    var n, t := BitsNeeded(remaining) - 1, Threshold(remaining);
    if value < t then ToBits(value, n)
    else if value < Pow2(n) then ToBits(value, n) + ToBits(0, 1)
    else ToBits(Max(value + t - Pow2(n), 0), n) + ToBits(1, 1)
  }

  /** A run of zero counts: flags of 3 as long as three or more follow. */
  function RunBits(run: nat): seq<bool> {
    if run >= 3 then ToBits(3, 2) + RunBits(run - 3) else ToBits(run, 2)
  }

  function ZeroRun(counts: seq<int>): (run: nat)
    ensures run <= |counts|
    ensures forall i :: 0 <= i < run ==> counts[i] == 0
  {
    if counts == [] || counts[0] != 0 then 0 else 1 + ZeroRun(counts[1..])
  }

  lemma {:induction false} SumFirst(counts: seq<int>)
    requires counts != []
    ensures EffectiveSum(counts) == CellsOf(counts[0]) + EffectiveSum(counts[1..])
  {
    var n := |counts| - 1;
    if n > 0 {
      SumFirst(counts[..n]);
      assert counts[..n][1..] == counts[1..][..n - 1];
    }
  }

  lemma {:induction false} SumAfterRun(counts: seq<int>, run: nat)
    requires run <= |counts| && forall i :: 0 <= i < run ==> counts[i] == 0
    ensures EffectiveSum(counts[run..]) == EffectiveSum(counts)
    decreases run
  {
    if run > 0 {
      SumFirst(counts);
      assert counts[1..][run - 1..] == counts[run..];
      SumAfterRun(counts[1..], run - 1);
    } else {
      assert counts[0..] == counts;
    }
  }

  ghost predicate Describable(counts: seq<int>, remaining: nat) {
    (forall i :: 0 <= i < |counts| ==> counts[i] >= -1) && remaining == EffectiveSum(counts) + 1
  }

  lemma DescribableTail(counts: seq<int>, remaining: nat)
    requires Describable(counts, remaining) && remaining > 1
    ensures counts != [] && ValueOf(counts[0]) <= remaining
    ensures RemainingAfter(remaining, ValueOf(counts[0])) >= 1
    ensures Describable(counts[1..], RemainingAfter(remaining, ValueOf(counts[0])))
    ensures counts[0] == 0 ==>
              var run := ZeroRun(counts[1..]);
              run < |counts| - 1 && Describable(counts[1 + run..], remaining) && ValueOf(counts[0]) == 1
  {
    SumFirst(counts);
    if counts[0] == 0 {
      var run := ZeroRun(counts[1..]);
      SumAfterRun(counts[1..], run);
      assert counts[1..][run..] == counts[1 + run..];
      NonEmptySum(counts[1 + run..]);
    }
  }

  /** The values from here on. Trailing zero counts are not sent. */
  function DescriptionBits(counts: seq<int>, remaining: nat): seq<bool>
    requires Describable(counts, remaining)
    decreases |counts|
  {
    if remaining <= 1 then []
    else
      DescribableTail(counts, remaining);
      var value := ValueOf(counts[0]);
      if counts[0] == 0 then
        var run := ZeroRun(counts[1..]);
        ValueBits(1, remaining) + RunBits(run) + DescriptionBits(counts[1 + run..], remaining)
      else
        ValueBits(value, remaining) + DescriptionBits(counts[1..], RemainingAfter(remaining, value))
  }

  lemma ValueShort(value: nat, remaining: nat)
    requires 0 < remaining <= 513
    ensures |ValueBits(value, remaining)| <= 10
  {
    assert Pow2(10) == 1024;
    hide Pow2, HighestBit, ToBits;
    if BitsNeeded(remaining) > 10 {
      Pow2Mono(10, BitsNeeded(remaining) - 1);
    }
  }

  lemma {:induction false} RunShort(run: nat)
    ensures |RunBits(run)| <= 2 * run + 2
    decreases run
  {
    hide ToBits;
    if run >= 3 {
      RunShort(run - 3);
    }
  }

  /** At most twelve bits for every count. */
  lemma {:induction false} DescriptionShort(counts: seq<int>, remaining: nat)
    requires Describable(counts, remaining) && remaining <= 513
    ensures |DescriptionBits(counts, remaining)| <= 12 * |counts|
    decreases |counts|
  {
    hide ValueBits, RunBits, EffectiveSum;
    if remaining > 1 {
      DescribableTail(counts, remaining);
      ValueShort(ValueOf(counts[0]), remaining);
      if counts[0] == 0 {
        var run := ZeroRun(counts[1..]);
        RunShort(run);
        DescriptionShort(counts[1 + run..], remaining);
      } else {
        DescriptionShort(counts[1..], RemainingAfter(remaining, ValueOf(counts[0])));
      }
    }
  }

  // ---------------------------------------------------------------- reading, on any bits

  /** `read_bits` of a stream that continues with zeros. */
  function Field(s: seq<bool>, pos: nat, count: nat): (v: nat)
    ensures v < Pow2(count)
  {
    FromBits(PaddedField(s, pos, count))
  }

  /** A value and the position after it. It never exceeds what remains. */
  function ReadValue(s: seq<bool>, pos: nat, remaining: nat): (r: (nat, nat))
    requires remaining > 0
    ensures r.0 <= remaining && RemainingAfter(remaining, r.0) >= 0
    ensures remaining > 1 ==> RemainingAfter(remaining, r.0) >= 1
  {
    var n, t := BitsNeeded(remaining) - 1, Threshold(remaining);
    Pow2Step(n);
    var low := Field(s, pos, n);
    if low < t then (low, pos + n)
    else if Field(s, pos + n, 1) != 0 then (low + Pow2(n) - t, pos + n + 1)
    else (low, pos + n + 1)
  }

  /** Repeat flags, each pushing up to three zero counts into the room left. */
  function ReadRun(s: seq<bool>, pos: nat, room: nat): (r: Option<(nat, nat)>)
    ensures r.Some? ==> r.value.0 <= room
    decreases room
  {
    var repeat := Field(s, pos, 2);
    if repeat > room then None
    else if repeat != 3 then Some((repeat, pos + 2))
    else
      var more := ReadRun(s, pos + 2, room - 3);
      if more.None? then None else Some((more.value.0 + 3, more.value.1))
  }

  function ZeroCounts(n: nat): (zeros: seq<int>)
    ensures |zeros| == n && forall i :: 0 <= i < n ==> zeros[i] == 0
  {
    seq(n, _ => 0)
  }

  /** Counts until nothing remains. Every value takes room, so a run of free values ends too. */
  function ReadCounts(s: seq<bool>, pos: nat, remaining: nat, room: nat): (r: Option<(seq<int>, nat)>)
    requires remaining > 0
    ensures r.Some? ==> |r.value.0| <= room
    decreases room
  {
    if remaining <= 1 then Some(([], pos))
    else
      var (value, next) := ReadValue(s, pos, remaining);
      if room == 0 then None
      else if value == 1 then
        var run := ReadRun(s, next, room - 1);
        if run.None? then None
        else
          var rest := ReadCounts(s, run.value.1, remaining, room - 1 - run.value.0);
          if rest.None? then None else Some(([0] + ZeroCounts(run.value.0) + rest.value.0, rest.value.1))
      else
        var rest := ReadCounts(s, next, RemainingAfter(remaining, value), room - 1);
        if rest.None? then None else Some(([CountOf(value)] + rest.value.0, rest.value.1))
  }

  lemma {:induction false} ZerosSum(n: nat)
    ensures EffectiveSum(ZeroCounts(n)) == 0
  {
    if n > 0 {
      ZerosSum(n - 1);
      assert ZeroCounts(n)[..n - 1] == ZeroCounts(n - 1);
    }
  }

  lemma OneSum(count: int)
    ensures EffectiveSum([count]) == CellsOf(count)
  {
    assert [count][..0] == [];
  }

  /** Whatever is read fills the table exactly. */
  lemma {:induction false} ReadCountsFill(s: seq<bool>, pos: nat, remaining: nat, room: nat)
    requires remaining > 0
    ensures var r := ReadCounts(s, pos, remaining, room);
            r.Some? ==>
              EffectiveSum(r.value.0) + 1 == remaining && forall i :: 0 <= i < |r.value.0| ==> r.value.0[i] >= -1
    decreases room
  {
    hide EffectiveSum, ReadValue, ReadRun;
    if remaining <= 1 {
      EmptySum();
    } else if room > 0 {
      var (value, next) := ReadValue(s, pos, remaining);
      if value == 1 {
        var run := ReadRun(s, next, room - 1);
        if run.Some? {
          ReadCountsFill(s, run.value.1, remaining, room - 1 - run.value.0);
          var rest := ReadCounts(s, run.value.1, remaining, room - 1 - run.value.0);
          if rest.Some? {
            SumConcat([0] + ZeroCounts(run.value.0), rest.value.0);
            SumConcat([0], ZeroCounts(run.value.0));
            OneSum(0);
            ZerosSum(run.value.0);
          }
        }
      } else {
        ReadCountsFill(s, next, RemainingAfter(remaining, value), room - 1);
        var rest := ReadCounts(s, next, RemainingAfter(remaining, value), room - 1);
        if rest.Some? {
          SumConcat([CountOf(value)], rest.value.0);
          OneSum(CountOf(value));
        }
      }
    }
  }

  lemma EmptySum()
    ensures EffectiveSum([]) == 0
  {
  }

  lemma NonEmptySum(counts: seq<int>)
    ensures EffectiveSum(counts) > 0 ==> counts != []
  {
  }

  // ---------------------------------------------------------------- round trip

  /** The stream continues with these bits. */
  ghost predicate At(s: seq<bool>, pos: nat, bits: seq<bool>) {
    pos + |bits| <= |s| && s[pos..pos + |bits|] == bits
  }

  lemma AtParts(s: seq<bool>, pos: nat, a: seq<bool>, b: seq<bool>)
    requires At(s, pos, a + b)
    ensures At(s, pos, a) && At(s, pos + |a|, b)
  {
    var all := s[pos..pos + |a + b|];
    assert all[..|a|] == a && all[|a|..] == b;
    assert s[pos..pos + |a|] == all[..|a|];
    assert s[pos + |a|..pos + |a| + |b|] == all[|a|..];
  }

  lemma FieldAt(s: seq<bool>, pos: nat, v: nat, n: nat)
    requires At(s, pos, ToBits(v, n)) && v < Pow2(n)
    ensures Field(s, pos, n) == v
  {
    hide ToBits, FromBits, Pow2, LowBits;
    assert PaddedField(s, pos, n) == s[pos..pos + n];
    FromToBits(v, n);
    LowBitsId(v, n);
  }

  lemma Ranges(remaining: nat)
    requires remaining > 0
    ensures var n, t := BitsNeeded(remaining) - 1, Threshold(remaining);
            t + remaining + 1 == 2 * Pow2(n) && t < Pow2(n) <= remaining
  {
    hide BitsNeeded;
    Pow2Step(BitsNeeded(remaining) - 1);
  }

  lemma ValueReadBack(s: seq<bool>, pos: nat, value: nat, remaining: nat)
    requires remaining > 0 && value <= remaining && At(s, pos, ValueBits(value, remaining))
    ensures ReadValue(s, pos, remaining) == (value, pos + |ValueBits(value, remaining)|)
  {
    hide ToBits, FromBits, Field, At, Threshold, BitsNeeded, Pow2;
    var n, t := BitsNeeded(remaining) - 1, Threshold(remaining);
    Ranges(remaining);
    FlagPow();
    if value < t {
      FieldAt(s, pos, value, n);
    } else if value < Pow2(n) {
      AtParts(s, pos, ToBits(value, n), ToBits(0, 1));
      FieldAt(s, pos, value, n);
      FieldAt(s, pos + n, 0, 1);
    } else {
      var low := value + t - Pow2(n);
      AtParts(s, pos, ToBits(low, n), ToBits(1, 1));
      FieldAt(s, pos, low, n);
      FieldAt(s, pos + n, 1, 1);
    }
  }

  lemma FlagPow()
    ensures Pow2(1) == 2 && Pow2(2) == 4
  {
  }

  lemma {:induction false} RunReadBack(s: seq<bool>, pos: nat, run: nat, room: nat)
    requires run <= room && At(s, pos, RunBits(run))
    ensures ReadRun(s, pos, room) == Some((run, pos + |RunBits(run)|))
    decreases run
  {
    hide ToBits, FromBits, Field, At;
    FlagPow();
    if run >= 3 {
      AtParts(s, pos, ToBits(3, 2), RunBits(run - 3));
      FieldAt(s, pos, 3, 2);
      RunReadBack(s, pos + 2, run - 3, room - 3);
    } else {
      FieldAt(s, pos, run, 2);
    }
  }

  /** Counts without their trailing zeros. */
  function Trimmed(counts: seq<int>): (r: seq<int>)
    ensures |r| <= |counts|
  {
    if counts == [] then [] else if counts[|counts| - 1] == 0 then Trimmed(counts[..|counts| - 1]) else counts
  }

  lemma {:induction false} TrimPrefix(prefix: seq<int>, rest: seq<int>)
    requires Trimmed(rest) != [] || (prefix != [] && prefix[|prefix| - 1] != 0)
    ensures Trimmed(prefix + rest) == prefix + Trimmed(rest)
  {
    if rest == [] {
      assert prefix + rest == prefix;
    } else if rest[|rest| - 1] == 0 {
      TrimPrefix(prefix, rest[..|rest| - 1]);
      assert (prefix + rest)[..|prefix + rest| - 1] == prefix + rest[..|rest| - 1];
    }
  }

  lemma {:induction false} TrimmedSum(counts: seq<int>)
    requires forall i :: 0 <= i < |counts| ==> counts[i] >= -1
    ensures EffectiveSum(counts) == EffectiveSum(Trimmed(counts))
    ensures EffectiveSum(counts) == 0 <==> Trimmed(counts) == []
  {
    if counts != [] && counts[|counts| - 1] == 0 {
      TrimmedSum(counts[..|counts| - 1]);
    }
  }

  /** A zero count and the run after it. */
  lemma ZeroStep(s: seq<bool>, pos: nat, run: nat, remaining: nat, room: nat, rest: seq<int>, end: nat)
    requires remaining > 1 && run < room && At(s, pos, ValueBits(1, remaining))
    requires At(s, pos + |ValueBits(1, remaining)|, RunBits(run))
    requires ReadCounts(s, pos + |ValueBits(1, remaining)| + |RunBits(run)|, remaining, room - 1 - run)
           == Some((rest, end))
    ensures ReadCounts(s, pos, remaining, room) == Some(([0] + ZeroCounts(run) + rest, end))
  {
    hide ValueBits, RunBits, ReadValue, ReadRun, At, ZeroCounts;
    ValueReadBack(s, pos, 1, remaining);
    RunReadBack(s, pos + |ValueBits(1, remaining)|, run, room - 1);
  }

  /** Any other count. */
  lemma OtherStep(s: seq<bool>, pos: nat, count: int, remaining: nat, room: nat, rest: seq<int>, end: nat)
    requires remaining > 1 && room > 0 && count >= -1 && count != 0 && ValueOf(count) <= remaining
    requires At(s, pos, ValueBits(ValueOf(count), remaining)) && RemainingAfter(remaining, ValueOf(count)) >= 1
    requires ReadCounts(s, pos + |ValueBits(ValueOf(count), remaining)|, RemainingAfter(remaining, ValueOf(count)),
                        room - 1)
           == Some((rest, end))
    ensures ReadCounts(s, pos, remaining, room) == Some(([count] + rest, end))
  {
    hide ValueBits, RunBits, ReadValue, ReadRun, At;
    ValueReadBack(s, pos, ValueOf(count), remaining);
  }

  lemma ZeroParts(counts: seq<int>, remaining: nat)
    requires Describable(counts, remaining) && remaining > 1 && counts != [] && counts[0] == 0
    ensures var run := ZeroRun(counts[1..]);
            && 1 + run < |counts| && Describable(counts[1 + run..], remaining)
            && counts == [0] + ZeroCounts(run) + counts[1 + run..]
            && DescriptionBits(counts, remaining)
               == ValueBits(1, remaining) + (RunBits(run) + DescriptionBits(counts[1 + run..], remaining))
  {
    hide EffectiveSum, ValueBits, RunBits;
    DescribableTail(counts, remaining);
    var run := ZeroRun(counts[1..]);
    ConcatAssoc(ValueBits(1, remaining), RunBits(run), DescriptionBits(counts[1 + run..], remaining));
    ZeroPrefix(counts, run);
  }

  lemma ZeroPrefix(counts: seq<int>, run: nat)
    requires 1 + run <= |counts| && counts[0] == 0 && forall i :: 0 <= i < run ==> counts[1..][i] == 0
    ensures counts == [0] + ZeroCounts(run) + counts[1 + run..]
  {
    var all := [0] + ZeroCounts(run) + counts[1 + run..];
    forall i | 0 <= i < |counts|
      ensures counts[i] == all[i]
    {
      if 0 < i <= run {
        assert counts[i] == counts[1..][i - 1];
      }
    }
  }

  lemma DescriptionParts(counts: seq<int>, remaining: nat)
    requires Describable(counts, remaining) && remaining > 1
    ensures counts != [] && ValueOf(counts[0]) <= remaining && counts[0] >= -1
    ensures RemainingAfter(remaining, ValueOf(counts[0])) >= 1
    ensures counts[0] == 0 ==>
              var run := ZeroRun(counts[1..]);
              && 1 + run < |counts| && Describable(counts[1 + run..], remaining)
              && counts == [0] + ZeroCounts(run) + counts[1 + run..]
              && DescriptionBits(counts, remaining)
                 == ValueBits(1, remaining) + (RunBits(run) + DescriptionBits(counts[1 + run..], remaining))
    ensures counts[0] != 0 ==>
              && Describable(counts[1..], RemainingAfter(remaining, ValueOf(counts[0])))
              && counts == [counts[0]] + counts[1..]
              && DescriptionBits(counts, remaining) == ValueBits(ValueOf(counts[0]), remaining)
                 + DescriptionBits(counts[1..], RemainingAfter(remaining, ValueOf(counts[0])))
  {
    hide EffectiveSum, ValueBits, RunBits, ZeroRun, ZeroCounts;
    DescribableTail(counts, remaining);
    if counts[0] == 0 {
      ZeroParts(counts, remaining);
    }
  }

  lemma TrimmedWhen(counts: seq<int>, remaining: nat)
    requires Describable(counts, remaining)
    ensures remaining <= 1 <==> Trimmed(counts) == []
  {
    hide EffectiveSum, Trimmed;
    TrimmedSum(counts);
  }

  lemma NothingLeft(s: seq<bool>, pos: nat, counts: seq<int>, room: nat)
    requires Describable(counts, 1)
    ensures DescriptionBits(counts, 1) == [] && ReadCounts(s, pos, 1, room) == Some(([], pos))
  {
  }

  /** What the writer describes the reader reads: the counts, and exactly their bits. */
  lemma {:induction false} DescriptionReadBack(s: seq<bool>, pos: nat, counts: seq<int>, remaining: nat, room: nat)
    requires Describable(counts, remaining) && remaining > 0 && At(s, pos, DescriptionBits(counts, remaining))
    requires |Trimmed(counts)| <= room
    ensures ReadCounts(s, pos, remaining, room) == Some((Trimmed(counts), pos + |DescriptionBits(counts, remaining)|))
    decreases |counts|
  {
    hide *;
    TrimmedWhen(counts, remaining);
    if remaining <= 1 {
      NothingLeft(s, pos, counts, room);
    } else {
      DescriptionParts(counts, remaining);
      var value := ValueOf(counts[0]);
      if counts[0] == 0 {
        var run := ZeroRun(counts[1..]);
        var rest := counts[1 + run..];
        AtParts(s, pos, ValueBits(1, remaining), RunBits(run) + DescriptionBits(rest, remaining));
        AtParts(s, pos + |ValueBits(1, remaining)|, RunBits(run), DescriptionBits(rest, remaining));
        TrimmedWhen(rest, remaining);
        TrimPrefix([0] + ZeroCounts(run), rest);
        DescriptionReadBack(s, pos + |ValueBits(1, remaining)| + |RunBits(run)|, rest, remaining, room - 1 - run);
        ZeroStep(s, pos, run, remaining, room, Trimmed(rest), pos + |DescriptionBits(counts, remaining)|);
      } else {
        var rest := counts[1..];
        var after := RemainingAfter(remaining, value);
        AtParts(s, pos, ValueBits(value, remaining), DescriptionBits(rest, after));
        TrimPrefix([counts[0]], rest);
        DescriptionReadBack(s, pos + |ValueBits(value, remaining)|, rest, after, room - 1);
        OtherStep(s, pos, counts[0], remaining, room, Trimmed(rest), pos + |DescriptionBits(counts, remaining)|);
      }
    }
  }

  /** Trailing zero counts own no cells: the table is the same without them. */
  lemma {:induction false} TrimmedTable(counts: seq<int>, log: nat)
    requires ValidCounts(counts, log) && log != 1 && log != 3
    ensures ValidCounts(Trimmed(counts), log) && TansOf(Trimmed(counts), log) == TansOf(counts, log)
  {
    hide EffectiveSum, Pow2;
    TrimmedSum(counts);
    TrimmedLists(counts);
    TrimmedKeeps(counts);
    PositivePow2(log);
  }

  lemma {:induction false} TrimmedKeeps(counts: seq<int>)
    requires forall i :: 0 <= i < |counts| ==> counts[i] >= -1
    ensures forall i :: 0 <= i < |Trimmed(counts)| ==> Trimmed(counts)[i] >= -1
  {
    if counts != [] && counts[|counts| - 1] == 0 {
      TrimmedKeeps(counts[..|counts| - 1]);
    }
  }

  lemma {:induction false} TrimmedLists(counts: seq<int>)
    ensures Repeated(Trimmed(counts)) == Repeated(counts) && LowProbability(Trimmed(counts)) == LowProbability(counts)
  {
    if counts != [] && counts[|counts| - 1] == 0 {
      TrimmedLists(counts[..|counts| - 1]);
      var last := |counts| - 1;
      assert Repeated(counts) == Repeated(counts[..last]) + [];
    }
  }

  // ---------------------------------------------------------------- the writer

  ghost predicate Sent(w: ForwardBitWriter, bits: seq<bool>)
    reads w, w.output
  {
    w.Valid() && w.Clean() && w.Contents() == bits
  }

  method Put(w: ForwardBitWriter, value: nat, count: nat, ghost bits: seq<bool>) returns (ok: bool)
    requires Sent(w, bits) && count <= 56
    modifies w, w.output
    ensures ok ==> Sent(w, bits + ToBits(value, count))
    ensures !ok ==> 8 * w.output.Length < |bits|
  {
    hide ToBits, BytesToBits, Pow2;
    ok := w.AddBits(value, count);
  }

  method WriteValue(w: ForwardBitWriter, value: nat, remaining: nat, ghost bits: seq<bool>) returns (ok: bool)
    requires Sent(w, bits) && 0 < remaining <= 513
    modifies w, w.output
    ensures ok ==> Sent(w, bits + ValueBits(value, remaining))
    ensures !ok ==> 8 * w.output.Length < |bits + ValueBits(value, remaining)|
  {
    hide ToBits, Sent, Threshold, Pow2, BitsNeeded;
    BitsSmall(remaining);
    var n := BitsNeeded(remaining) - 1;
    var lowRange := Pow2(n);
    var threshold := Threshold(remaining);
    if value < threshold {
      ok := Put(w, value, n, bits);
    } else if value < lowRange {
      ok := Put(w, value, n, bits);
      if ok {
        ok := Put(w, 0, 1, bits + ToBits(value, n));
        ConcatAssoc(bits, ToBits(value, n), ToBits(0, 1));
      }
    } else {
      var low := value + threshold - lowRange;
      ok := Put(w, low, n, bits);
      if ok {
        ok := Put(w, 1, 1, bits + ToBits(low, n));
        ConcatAssoc(bits, ToBits(low, n), ToBits(1, 1));
      }
    }
  }

  lemma BitsSmall(remaining: nat)
    requires 0 < remaining <= 513
    ensures BitsNeeded(remaining) <= 10
  {
    hide HighestBit;
    SmallPow2();
    Pow2Step(9);
    if BitsNeeded(remaining) > 10 {
      Pow2Mono(10, BitsNeeded(remaining) - 1);
    }
  }

  method WriteRun(w: ForwardBitWriter, run: nat, ghost bits: seq<bool>) returns (ok: bool)
    requires Sent(w, bits)
    modifies w, w.output
    ensures ok ==> Sent(w, bits + RunBits(run))
    ensures !ok ==> 8 * w.output.Length < |bits + RunBits(run)|
  {
    hide ToBits, Sent;
    ghost var done := bits;
    var remainingRun := run;
    while remainingRun >= 3
      modifies w, w.output
      invariant Sent(w, done) && done + RunBits(remainingRun) == bits + RunBits(run)
    {
      ConcatAssoc(done, ToBits(3, 2), RunBits(remainingRun - 3));
      ok := Put(w, 3, 2, done);
      if !ok {
        return;
      }
      done := done + ToBits(3, 2);
      remainingRun := remainingRun - 3;
    }
    ok := Put(w, remainingRun, 2, done);
  }

  /** The whole description. */
  ghost function Description(counts: seq<int>, log: nat): seq<bool>
    requires ValidCounts(counts, log) && log >= 5
  {
    ToBits(log - 5, 4) + DescriptionBits(counts, Pow2(log) + 1)
  }

  lemma DescriptionLength(counts: seq<int>, log: nat)
    requires ValidCounts(counts, log) && log >= 5
    ensures |Description(counts, log)| <= 4 + 12 * |counts|
  {
    hide DescriptionBits, EffectiveSum, Pow2;
    CellRange(log);
    DescriptionShort(counts, Pow2(log) + 1);
  }

  method CountRun(counts: seq<int>, from: nat) returns (run: nat)
    requires from <= |counts|
    ensures run == ZeroRun(counts[from..])
  {
    run := 0;
    assert counts[from + 0..] == counts[from..];
    while from + run < |counts| && counts[from + run] == 0
      invariant from + run <= |counts| && ZeroRun(counts[from..]) == run + ZeroRun(counts[from + run..])
    {
      assert counts[from + run..][1..] == counts[from + (run + 1)..];
      run := run + 1;
    }
  }

  /** One pass of the writer's loop: a value, and the run after a zero count. */
  method WriteCount(w: ForwardBitWriter, counts: seq<int>, symbol: nat, remaining: nat, ghost bits: seq<bool>)
    returns (ok: bool, next: nat, left: nat, ghost more: seq<bool>)
    requires symbol <= |counts| && 1 < remaining <= 513 && Describable(counts[symbol..], remaining) && Sent(w, bits)
    modifies w, w.output
    ensures symbol < next <= |counts| && 0 < left <= remaining && Describable(counts[next..], left)
    ensures ok ==> Sent(w, bits + more)
    ensures more + DescriptionBits(counts[next..], left) == DescriptionBits(counts[symbol..], remaining)
    ensures !ok ==> 8 * w.output.Length < |bits + DescriptionBits(counts[symbol..], remaining)|
  {
    hide ValueBits, RunBits, DescriptionBits, Sent, EffectiveSum;
    DescriptionParts(counts[symbol..], remaining);
    var count := counts[symbol];
    assert counts[symbol..][0] == count;
    var value := if count == -1 then 0 else count + 1;
    ok := WriteValue(w, value, remaining, bits);
    left := if value == 0 then remaining - 1 else remaining - (value - 1);
    next := symbol + 1;
    assert counts[symbol..][1..] == counts[next..];
    more := ValueBits(value, remaining);
    if value == 1 {
      var run := CountRun(counts, next);
      assert counts[symbol..][1 + run..] == counts[next + run..];
      next := next + run;
      ghost var rest := DescriptionBits(counts[next..], remaining);
      ConcatAssoc(more, RunBits(run), rest);
      if ok {
        ok := WriteRun(w, run, bits + more);
        ConcatAssoc(bits, more, RunBits(run));
      }
      more := more + RunBits(run);
    }
  }

  /** `write_fse_table_description`: exactly when the output has room, the description padded to bytes. */
  method WriteDescription(counts: seq<int>, log: nat, output: array<byte>) returns (ok: bool, size: nat)
    requires ValidCounts(counts, log)
    modifies output
    ensures ok <==> log >= 5 && |Description(counts, log)| <= 8 * output.Length
    ensures ok ==> size <= output.Length && 8 * size - |Description(counts, log)| < 8
                   && |Description(counts, log)| <= 8 * size
                   && At(BytesToBits(output[..size]), 0, Description(counts, log))
  {
    hide DescriptionBits, Sent, EffectiveSum, Pow2, ToBits, BytesToBits;
    size := 0;
    if log < 5 {
      return false, 0;
    }
    CellRange(log);
    var w := new ForwardBitWriter(output);
    FreshSent(w);
    ghost var full := Description(counts, log);
    ok := Put(w, log - 5, 4, []);
    ghost var bits := [] + ToBits(log - 5, 4);
    var remaining := Pow2(log) + 1;
    var symbol := 0;
    assert counts[0..] == counts;
    if !ok {
      return;
    }
    while remaining > 1
      modifies w, output
      invariant symbol <= |counts| && 0 < remaining <= 513 && Describable(counts[symbol..], remaining) && Sent(w, bits)
      invariant bits + DescriptionBits(counts[symbol..], remaining) == full
      decreases |counts| - symbol
    {
      var next, left;
      ghost var more;
      ok, next, left, more := WriteCount(w, counts, symbol, remaining, bits);
      if !ok {
        return false, 0;
      }
      ConcatAssoc(bits, more, DescriptionBits(counts[next..], left));
      bits := bits + more;
      symbol, remaining := next, left;
    }
    NothingLeft([], 0, counts[symbol..], 0);
    assert bits + [] == bits;
    ok, size := Finish(w, full);
  }

  lemma CellRange(log: nat)
    requires 0 < log <= MAX_ACCURACY_LOG
    ensures 2 <= Pow2(log) <= 512
  {
    Pow2Mono(1, log);
    Pow2Mono(log, 9);
    SmallPow2();
  }

  lemma FreshSent(w: ForwardBitWriter)
    requires w.Valid() && w.Clean() && w.Contents() == []
    ensures Sent(w, [])
  {
  }

  method Finish(w: ForwardBitWriter, ghost bits: seq<bool>) returns (ok: bool, size: nat)
    requires Sent(w, bits)
    modifies w, w.output
    ensures ok <==> |bits| <= 8 * w.output.Length
    ensures ok ==>
              size <= w.output.Length && |bits| <= 8 * size < |bits| + 8 && At(BytesToBits(w.output[..size]), 0, bits)
  {
    hide BytesToBits, ToBits, Pow2;
    ok, size := w.Finish();
  }

  // ---------------------------------------------------------------- the reader

  /** A parsed description: its counts and log, and the bytes it took. */
  datatype Parsed = Parsed(counts: seq<int>, log: nat, bytesUsed: nat)

  ghost function Parse(input: seq<byte>, maxLog: nat, maxSymbol: nat): (r: Option<Parsed>)
    ensures r.Some? ==>
              && r.value.bytesUsed <= |input| && ValidCounts(r.value.counts, r.value.log) && 5 <= r.value.log <= maxLog
              && |r.value.counts| <= maxSymbol + 1
  {
    hide *;
    MinIs(maxSymbol + 1, MAX_SYMBOL_COUNT);
    LimitsAre();
    var s := BytesToBits(input);
    var log := Field(s, 0, 4) + 5;
    if input == [] || log > maxLog || log > MAX_ACCURACY_LOG then None
    else
      var room := Min(maxSymbol + 1, MAX_SYMBOL_COUNT);
      var r := ReadCounts(s, 4, Pow2(log) + 1, room);
      if r.None? || (r.value.1 + 7) / 8 > |input| then None
      else
        ParsedValid(s, log, room);
        Some(Parsed(r.value.0, log, (r.value.1 + 7) / 8))
  }

  lemma ParsedValid(s: seq<bool>, log: nat, room: nat)
    requires 5 <= log <= MAX_ACCURACY_LOG && room <= MAX_SYMBOL_COUNT
    ensures var r := ReadCounts(s, 4, Pow2(log) + 1, room);
            r.Some? ==> ValidCounts(r.value.0, log)
  {
    hide ReadCounts, Pow2;
    ReadCountsFill(s, 4, Pow2(log) + 1, room);
    EmptySum();
    CellRange(log);
  }

  /** What is read so far, and the rest of the reading. */
  ghost function Joined(before: seq<int>, rest: Option<(seq<int>, nat)>): Option<(seq<int>, nat)> {
    if rest.None? then None else Some((before + rest.value.0, rest.value.1))
  }

  lemma JoinedMore(before: seq<int>, middle: seq<int>, rest: Option<(seq<int>, nat)>)
    ensures Joined(before, Joined(middle, rest)) == Joined(before + middle, rest)
  {
    if rest.Some? {
      ConcatAssoc(before, middle, rest.value.0);
    }
  }

  ghost predicate Reading(reader: ForwardBitReader, s: seq<bool>, pos: nat)
    reads reader
  {
    BytesToBits(reader.input) == s && reader.bitPosition == pos
  }

  method ReadField(reader: ForwardBitReader, count: nat, ghost s: seq<bool>, ghost pos: nat) returns (value: nat)
    requires Reading(reader, s, pos) && count <= 56
    modifies reader
    ensures value == Field(s, pos, count) && Reading(reader, s, pos + count)
  {
    hide BytesToBits, FromBits;
    value := reader.ReadBits(count);
  }

  method ReadOneValue(reader: ForwardBitReader, remaining: nat, ghost s: seq<bool>, ghost pos: nat) returns (value: nat)
    requires Reading(reader, s, pos) && 0 < remaining <= 513
    modifies reader
    ensures value == ReadValue(s, pos, remaining).0 && Reading(reader, s, ReadValue(s, pos, remaining).1)
  {
    hide Reading, Field, Threshold, BitsNeeded, Pow2;
    Ranges(remaining);
    BitsSmall(remaining);
    var bitsNeeded := BitsNeeded(remaining);
    value := ReadField(reader, bitsNeeded - 1, s, pos);
    var threshold := Threshold(remaining);
    if value >= threshold {
      var extraBit := ReadField(reader, 1, s, pos + bitsNeeded - 1);
      if extraBit != 0 {
        value := value + Pow2(bitsNeeded - 1) - threshold;
      }
    }
  }

  /** The repeat flags after a zero count; each zero is pushed by itself. */
  method ReadRepeats(reader: ForwardBitReader, counts: seq<int>, limit: nat, ghost s: seq<bool>, ghost pos: nat)
    returns (ok: bool, more: seq<int>)
    requires Reading(reader, s, pos) && |counts| <= limit
    modifies reader
    ensures var run := ReadRun(s, pos, limit - |counts|);
            && (ok <==> run.Some?)
            && (ok ==> more == counts + ZeroCounts(run.value.0) && Reading(reader, s, run.value.1))
  {
    hide Reading, Field;
    more := counts;
    ghost var at, zeros := pos, 0;
    assert counts + ZeroCounts(0) == counts;
    ghost var whole := ReadRun(s, pos, limit - |counts|);
    while true
      modifies reader
      invariant Reading(reader, s, at) && |counts| <= |more| <= limit && zeros == |more| - |counts|
      invariant more == counts + ZeroCounts(zeros)
      invariant var rest := ReadRun(s, at, limit - |more|);
                whole == if rest.None? then None else Some((rest.value.0 + zeros, rest.value.1))
      decreases limit - |more|
    {
      FlagPow();
      var repeat := ReadField(reader, 2, s, at);
      at := at + 2;
      if repeat > limit - |more| {
        return false, more;
      }
      assert more + ZeroCounts(repeat) == counts + ZeroCounts(zeros + repeat);
      more := more + ZeroCounts(repeat);
      zeros := zeros + repeat;
      if repeat != 3 {
        return true, more;
      }
    }
  }

  /** One pass of the reader's loop. */
  method ReadOneCount(reader: ForwardBitReader, counts: seq<int>, remaining: nat, limit: nat, ghost s: seq<bool>,
                      ghost pos: nat)
    returns (ok: bool, more: seq<int>, left: nat, ghost next: nat)
    requires Reading(reader, s, pos) && |counts| <= limit && 1 < remaining <= 513
    modifies reader
    ensures !ok ==> ReadCounts(s, pos, remaining, limit - |counts|).None?
    ensures ok ==> && |counts| < |more| <= limit && 0 < left <= remaining && Reading(reader, s, next)
                   && Joined(counts, ReadCounts(s, pos, remaining, limit - |counts|))
                      == Joined(more, ReadCounts(s, next, left, limit - |more|))
  {
    hide Reading, ReadValue, ReadRun, Joined;
    ghost var (value', after) := ReadValue(s, pos, remaining);
    next := after;
    more, left := counts, remaining;
    var value := ReadOneValue(reader, remaining, s, pos);
    if |counts| >= limit {
      return false, counts, 0, 0;
    }
    left := if value == 0 then remaining - 1 else remaining - (value - 1);
    more := counts + [CountOf(value)];
    ok := true;
    if value == 1 {
      ghost var run := ReadRun(s, after, limit - |more|);
      ok, more := ReadRepeats(reader, more, limit, s, after);
      if ok {
        next := run.value.1;
        ConcatAssoc(counts, [0], ZeroCounts(run.value.0));
        StepJoined(counts, [0] + ZeroCounts(run.value.0), ReadCounts(s, next, left, limit - |more|));
      }
    } else {
      StepJoined(counts, [CountOf(value)], ReadCounts(s, next, left, limit - |more|));
    }
  }

  lemma StepJoined(counts: seq<int>, step: seq<int>, rest: Option<(seq<int>, nat)>)
    ensures Joined(counts, if rest.None? then None else Some((step + rest.value.0, rest.value.1)))
          == Joined(counts + step, rest)
  {
    JoinedMore(counts, step, rest);
  }

  /** The counts, until nothing remains. */
  method ReadAllCounts(reader: ForwardBitReader, log: nat, limit: nat, ghost s: seq<bool>)
    returns (ok: bool, counts: seq<int>, ghost pos: nat)
    requires Reading(reader, s, 4) && 0 < log <= MAX_ACCURACY_LOG
    modifies reader
    ensures ok <==> ReadCounts(s, 4, Pow2(log) + 1, limit).Some?
    ensures ok ==> ReadCounts(s, 4, Pow2(log) + 1, limit) == Some((counts, pos)) && Reading(reader, s, pos)
  {
    hide ReadCounts, EffectiveSum, Pow2, Field, Joined, Reading;
    CellRange(log);
    var remaining := Pow2(log) + 1;
    counts, pos, ok := [], 4, true;
    ghost var whole := ReadCounts(s, 4, remaining, limit);
    JoinedNone(whole);
    while remaining > 1
      modifies reader
      invariant Reading(reader, s, pos) && |counts| <= limit && 0 < remaining <= 513
      invariant whole == Joined(counts, ReadCounts(s, pos, remaining, limit - |counts|))
      decreases limit - |counts|
    {
      var more, left;
      ghost var next;
      JoinedFails(counts, ReadCounts(s, pos, remaining, limit - |counts|));
      ok, more, left, next := ReadOneCount(reader, counts, remaining, limit, s, pos);
      if !ok {
        return;
      }
      counts, remaining, pos := more, left, next;
    }
    ok := true;
    NothingMore(s, pos, counts, limit);
  }

  lemma ParseIs(input: seq<byte>, maxLog: nat, maxSymbol: nat)
    ensures var s := BytesToBits(input);
            var log := Field(s, 0, 4) + 5;
            if input == [] || log > maxLog || log > MAX_ACCURACY_LOG then Parse(input, maxLog, maxSymbol).None?
            else
              var r := ReadCounts(s, 4, Pow2(log) + 1, Min(maxSymbol + 1, MAX_SYMBOL_COUNT));
              Parse(input, maxLog, maxSymbol) == if r.None? || (r.value.1 + 7) / 8 > |input| then None
                                                 else Some(Parsed(r.value.0, log, (r.value.1 + 7) / 8))
  {
    hide ReadCounts, Pow2, Field, ValidCounts, BytesToBits, Min;
  }

  lemma RoomIs(maxSymbol: nat)
    ensures 0 <= Min(maxSymbol + 1, MAX_SYMBOL_COUNT) <= MAX_SYMBOL_COUNT == 256 && MAX_ACCURACY_LOG == 9
  {
  }

  /** `read_fse_table_description`, on any input: the parsed table, or an error exactly when there is
      none. */
  method ReadDescription(input: seq<byte>, maxLog: nat, maxSymbol: nat, table: FseDecodeTable)
    returns (ok: bool, bytesUsed: nat)
    requires |table.entries| == MAX_TABLE_SIZE
    modifies table
    ensures ok <==> Parse(input, maxLog, maxSymbol).Some?
    ensures ok ==> var p := Parse(input, maxLog, maxSymbol).value;
                   bytesUsed == p.bytesUsed && table.Decodes(TansOf(p.counts, p.log))
  {
    hide *;
    ParseIs(input, maxLog, maxSymbol);
    RoomIs(maxSymbol);
    bytesUsed := 0;
    if |input| == 0 {
      return false, 0;
    }
    var reader := new ForwardBitReader(input);
    ghost var s := BytesToBits(input);
    StartReading(reader, s);
    var logBits := ReadField(reader, 4, s, 0);
    var log := logBits + 5;
    if log > maxLog || log > MAX_ACCURACY_LOG {
      return false, 0;
    }
    var counts;
    ghost var pos;
    ok, counts, pos := ReadAllCounts(reader, log, Min(maxSymbol + 1, MAX_SYMBOL_COUNT), s);
    if !ok {
      return;
    }
    ParsedValid(s, log, Min(maxSymbol + 1, MAX_SYMBOL_COUNT));
    ok := table.Build(counts, log);
    ReaderAt(reader, s, pos);
    bytesUsed := reader.BytesUsed();
    if bytesUsed > |input| {
      ok := false;
    }
  }

  lemma StartReading(reader: ForwardBitReader, s: seq<bool>)
    requires s == BytesToBits(reader.input) && reader.bitPosition == 0
    ensures Reading(reader, s, 0)
  {
  }

  lemma ReaderAt(reader: ForwardBitReader, s: seq<bool>, pos: nat)
    requires Reading(reader, s, pos)
    ensures reader.bitPosition == pos && reader.BytesUsed() == (pos + 7) / 8
  {
  }

  lemma JoinedNone(rest: Option<(seq<int>, nat)>)
    ensures Joined([], rest) == rest
  {
    if rest.Some? {
      assert [] + rest.value.0 == rest.value.0;
    }
  }

  lemma JoinedFails(before: seq<int>, rest: Option<(seq<int>, nat)>)
    ensures rest.None? ==> Joined(before, rest).None?
  {
  }

  lemma NothingMore(s: seq<bool>, pos: nat, counts: seq<int>, limit: nat)
    requires |counts| <= limit
    ensures Joined(counts, ReadCounts(s, pos, 1, limit - |counts|)) == Some((counts, pos))
  {
    assert counts + [] == counts;
  }

  /** Whatever the writer emits the reader reads back: the same table and the same number of bytes,
      wherever the description stops. */
  lemma DescriptionRoundTrip(counts: seq<int>, log: nat, written: seq<byte>, after: seq<byte>, maxLog: nat,
                             maxSymbol: nat)
    requires ValidCounts(counts, log) && 5 <= log <= maxLog && |Trimmed(counts)| <= maxSymbol + 1
    requires At(BytesToBits(written), 0, Description(counts, log)) && 8 * |written| < |Description(counts, log)| + 8
    ensures Parse(written + after, maxLog, maxSymbol) == Some(Parsed(Trimmed(counts), log, |written|))
    ensures ValidCounts(Trimmed(counts), log) && TansOf(Trimmed(counts), log) == TansOf(counts, log)
  {
    hide *;
    var input := written + after;
    var s := BytesToBits(input);
    LogIs(counts, log);
    BytesToBitsConcat(written, after);
    AtLonger(BytesToBits(written), BytesToBits(after), 0, Description(counts, log));
    AtParts(s, 0, ToBits(log - 5, 4), DescriptionBits(counts, Pow2(log) + 1));
    SixteenPow();
    FieldAt(s, 0, log - 5, 4);
    CellRange(log);
    var room := Min(maxSymbol + 1, MAX_SYMBOL_COUNT);
    MinIs(maxSymbol + 1, MAX_SYMBOL_COUNT);
    DescriptionReadBack(s, 4, counts, Pow2(log) + 1, room);
    TrimmedTable(counts, log);
    AtBounds(BytesToBits(written), 0, Description(counts, log));
    NotEmpty(written);
    ParseIs(input, maxLog, maxSymbol);
  }

  lemma LimitsAre()
    ensures MAX_ACCURACY_LOG == 9 && MAX_SYMBOL_COUNT == 256
  {
  }

  lemma MinIs(a: nat, b: nat)
    ensures Min(a, b) == if a < b then a else b
  {
  }

  lemma LogIs(counts: seq<int>, log: nat)
    requires ValidCounts(counts, log) && 5 <= log
    ensures log <= MAX_ACCURACY_LOG == 9 && |Trimmed(counts)| <= MAX_SYMBOL_COUNT && Describable(counts, Pow2(log) + 1)
    ensures Description(counts, log) == ToBits(log - 5, 4) + DescriptionBits(counts, Pow2(log) + 1)
  {
    hide EffectiveSum, Pow2, DescriptionBits, ToBits;
    TrimmedShorter(counts);
  }

  lemma {:induction false} TrimmedShorter(counts: seq<int>)
    ensures |Trimmed(counts)| <= |counts|
  {
    if counts != [] && counts[|counts| - 1] == 0 {
      TrimmedShorter(counts[..|counts| - 1]);
    }
  }

  lemma SixteenPow()
    ensures Pow2(4) == 16
  {
    SmallPow2();
  }

  lemma NotEmpty(written: seq<byte>)
    ensures |BytesToBits(written)| == 8 * |written|
  {
  }

  lemma AtBounds(s: seq<bool>, pos: nat, bits: seq<bool>)
    requires At(s, pos, bits)
    ensures pos + |bits| <= |s|
  {
  }

  lemma AtLonger(s: seq<bool>, more: seq<bool>, pos: nat, bits: seq<bool>)
    requires At(s, pos, bits)
    ensures At(s + more, pos, bits)
  {
    assert (s + more)[pos..pos + |bits|] == s[pos..pos + |bits|];
  }
}
