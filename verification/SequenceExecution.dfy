/** What a sequences section means: each record takes literals, then copies a match. The two
    sequence loops of the decoder are proved against `Section`. */
module SequenceExecution {
  import opened Bits
  import opened BitReader
  import opened Fse
  import opened RepeatOffsets
  import opened SequenceBits
  import opened MatchCopy

  const MAX_BLOCK_SIZE := 131072

  lemma BlockLimit()
    ensures MAX_BLOCK_SIZE == 131072
  {
  }

  /** The block's literals, where the block starts, and how long the output may get. */
  datatype Env = Env(literals: seq<byte>, start: nat, capacity: nat)

  /** Everything decoded so far, literals used up, and the repeat offsets. */
  datatype Machine = Machine(out: seq<byte>, cursor: nat, history: History)

  /** One record, or `None` for a zero offset, missing literals, an offset beyond the output, or
      too little room. */
  ghost function ExecuteOne(env: Env, m: Machine, r: SequenceRecord): (result: Option<Machine>)
    ensures result.Some? ==> result.value.cursor <= |env.literals|
    ensures result.Some? ==> |result.value.out| == |m.out| + r.literalLength + r.matchLength
  {
    var offset := OffsetOf(m.history, r.offsetValue, r.literalLength);
    var cursor := m.cursor + r.literalLength;
    if offset == 0 || cursor > |env.literals| then None
    else
      var out := m.out + env.literals[m.cursor..cursor];
      var end := |out| + r.matchLength;
      if offset > |out| || end > env.capacity || end - env.start > MAX_BLOCK_SIZE then None
      else Some(Machine(CopyMatch(out, offset, r.matchLength), cursor,
                        After(m.history, r.offsetValue, r.literalLength)))
  }

  /** `n` more sequences; `None` if any step fails. */
  ghost function RunSection(t: Tables, c: Cells, rest: seq<bool>, overran: bool, n: nat, env: Env, m: Machine)
    : Option<(Machine, seq<bool>)>
    requires ValidTables(t) && ValidCells(t, c)
    decreases n
  {
    if n == 0 then Some((m, rest))
    else
      var reading := ReadRecord(t, c, rest, overran);
      if reading.None? then None
      else
        var moved := AfterReading(t, c, reading.value, n);
        if moved.overran then None
        else
          var next := ExecuteOne(env, m, reading.value.record);
          if next.None? then None else RunSection(t, moved.cells, moved.rest, false, n - 1, env, next.value)
  }

  /** The states move only if another sequence follows. */
  ghost function AfterReading(t: Tables, c: Cells, r: Reading, n: nat): (m: Moved)
    requires ValidTables(t) && ValidCells(t, c)
    ensures ValidCells(t, m.cells)
  {
    if n > 1 then MoveStates(t, c, r.rest, r.overran) else Moved(c, r.rest, r.overran)
  }

  /** The literals after the last sequence. */
  ghost function TakeRest(env: Env, m: Machine): (result: Option<Machine>)
    requires m.cursor <= |env.literals|
    ensures result.Some? ==> result.value.history == m.history
  {
    var out := m.out + env.literals[m.cursor..];
    if m.cursor == |env.literals| then Some(m)
    else if |out| > env.capacity || |out| - env.start > MAX_BLOCK_SIZE then None
    else Some(Machine(out, |env.literals|, m.history))
  }

  lemma {:induction false} RunCursor(t: Tables, c: Cells, rest: seq<bool>, overran: bool, n: nat, env: Env, m: Machine)
    requires ValidTables(t) && ValidCells(t, c) && m.cursor <= |env.literals|
    ensures RunSection(t, c, rest, overran, n, env, m).Some? ==>
              RunSection(t, c, rest, overran, n, env, m).value.0.cursor <= |env.literals|
    decreases n
  {
    hide ReadRecord, AfterReading, ExecuteOne, ValidTables;
    if n > 0 {
      var reading := ReadRecord(t, c, rest, overran);
      if reading.Some? {
        var moved := AfterReading(t, c, reading.value, n);
        var next := ExecuteOne(env, m, reading.value.record);
        if !moved.overran && next.Some? {
          RunCursor(t, moved.cells, moved.rest, false, n - 1, env, next.value);
        }
      }
    }
  }

  /** The initial states and whether they were there. */
  ghost function Opened(t: Tables, bits: seq<bool>): (m: Moved)
    requires ValidTables(t)
    ensures ValidCells(t, m.cells)
  {
    var (ll, r1) := ReadState(t.ll, bits);
    var (of, r2) := ReadState(t.of, r1);
    var (ml, r3) := ReadState(t.ml, r2);
    Moved(Cells(ll, of, ml), r3, t.ll.log > |bits| || t.of.log > |r1| || t.ml.log > |r2|)
  }

  /** A whole sequences section: all records, exactly all bits, the remaining literals. */
  ghost function Section(t: Tables, input: seq<byte>, n: nat, env: Env, m: Machine): Option<Machine>
    requires ValidTables(t) && m.cursor <= |env.literals|
  {
    if MarkedBits(input).None? then None
    else
      var started := Opened(t, MarkedBits(input).value);
      var run := RunSection(t, started.cells, started.rest, started.overran, n, env, m);
      if run.None? || run.value.1 != [] then None
      else
        RunCursor(t, started.cells, started.rest, started.overran, n, env, m);
        TakeRest(env, run.value.0)
  }

  /** One step of a run. */
  lemma RunOne(t: Tables, c: Cells, rest: seq<bool>, overran: bool, n: nat, env: Env, m: Machine)
    requires ValidTables(t) && ValidCells(t, c) && n > 0
    ensures var reading := ReadRecord(t, c, rest, overran);
            && (reading.None? ==> RunSection(t, c, rest, overran, n, env, m).None?)
            && (reading.Some? ==>
                  var moved := AfterReading(t, c, reading.value, n);
                  var next := ExecuteOne(env, m, reading.value.record);
                  RunSection(t, c, rest, overran, n, env, m)
                  == if moved.overran || next.None? then None
                     else RunSection(t, moved.cells, moved.rest, false, n - 1, env, next.value))
  {
    hide ReadRecord, AfterReading, ExecuteOne, ValidTables;
  }

  lemma ZeroOffsetFails(env: Env, m: Machine, r: SequenceRecord)
    ensures OffsetOf(m.history, r.offsetValue, r.literalLength) == 0 ==> ExecuteOne(env, m, r).None?
    ensures ExecuteOne(env, m, r).Some? ==>
              ExecuteOne(env, m, r).value.history == After(m.history, r.offsetValue, r.literalLength)
  {
    hide OffsetOf, After, CopyMatch;
  }

  lemma RunNone(t: Tables, c: Cells, rest: seq<bool>, overran: bool, env: Env, m: Machine)
    requires ValidTables(t) && ValidCells(t, c)
    ensures RunSection(t, c, rest, overran, 0, env, m) == Some((m, rest))
  {
  }

  /** A section is its run, if that uses all bits, and the literals left. */
  lemma SectionParts(t: Tables, input: seq<byte>, n: nat, env: Env, m: Machine)
    requires ValidTables(t) && m.cursor <= |env.literals|
    ensures MarkedBits(input).None? ==> Section(t, input, n, env, m).None?
    ensures MarkedBits(input).Some? ==>
              var started := Opened(t, MarkedBits(input).value);
              var run := RunSection(t, started.cells, started.rest, started.overran, n, env, m);
              && (run.None? || run.value.1 != [] ==> Section(t, input, n, env, m).None?)
              && (run.Some? && run.value.1 == [] ==>
                    && run.value.0.cursor <= |env.literals|
                    && Section(t, input, n, env, m) == TakeRest(env, run.value.0))
  {
    hide RunSection, Opened, TakeRest, MarkedBits;
    if MarkedBits(input).Some? {
      var started := Opened(t, MarkedBits(input).value);
      RunCursor(t, started.cells, started.rest, started.overran, n, env, m);
    }
  }

  // ---------------------------------------------------------------- what a writer's stream decodes to

  /** All records in turn. */
  ghost function ExecuteAll(env: Env, m: Machine, records: seq<SequenceRecord>): (result: Option<Machine>)
    requires m.cursor <= |env.literals|
    ensures result.Some? ==> result.value.cursor <= |env.literals|
    decreases |records|
  {
    if records == [] then Some(m)
    else
      var next := ExecuteOne(env, m, records[0]);
      if next.None? then None else ExecuteAll(env, next.value, records[1..])
  }

  /** Decoding and executing step by step is executing the decoded list. */
  lemma {:induction false} RunIsExecute(t: Tables, c: Cells, rest: seq<bool>, n: nat, env: Env, m: Machine)
    requires ValidTables(t) && ValidCells(t, c) && m.cursor <= |env.literals|
    ensures DecodeRecords(t, c, rest, n).Some? ==>
              var (records, left) := DecodeRecords(t, c, rest, n).value;
              var all := ExecuteAll(env, m, records);
              RunSection(t, c, rest, false, n, env, m) == if all.None? then None else Some((all.value, left))
    decreases n
  {
    hide ReadRecord, MoveStates, ExecuteOne, ValidTables;
    if n > 0 {
      var reading := ReadRecord(t, c, rest, false);
      if reading.Some? {
        var moved := AfterReading(t, c, reading.value, n);
        var next := ExecuteOne(env, m, reading.value.record);
        if !moved.overran && next.Some? {
          RunIsExecute(t, moved.cells, moved.rest, n - 1, env, next.value);
        }
        if DecodeRecords(t, c, rest, n).Some? {
          var tail := DecodeRecords(t, moved.cells, moved.rest, n - 1).value.0;
          assert ([reading.value.record] + tail)[1..] == tail;
        }
      }
    }
  }

  /** The stream `WriteOneStream` lays down means exactly its records. */
  lemma SectionOfWritten(t: Tables, records: seq<SequenceRecord>, input: seq<byte>, env: Env, m: Machine)
    requires ValidTables(t) && records != [] && CoversAll(t, records) && m.cursor <= |env.literals|
    requires MarkedBits(input) == Some(WholeStream(t, records))
    ensures var all := ExecuteAll(env, m, records);
            Section(t, input, |records|, env, m) == if all.None? then None else TakeRest(env, all.value)
  {
    hide ReadState, DecodeRecords, RunSection, ExecuteAll, CoversAll, WholeStream, MarkedBits, ValidTans, TakeRest;
    WholeRoundTrip(t, records);
    var bits := WholeStream(t, records);
    var started := Opened(t, bits);
    StatesThere(t, bits);
    RunIsExecute(t, started.cells, started.rest, |records|, env, m);
  }

  lemma StatesThere(t: Tables, bits: seq<bool>)
    requires ValidTables(t) && |bits| >= t.ll.log + t.of.log + t.ml.log
    ensures !Opened(t, bits).overran
  {
    hide PeekEnd;
  }
}
