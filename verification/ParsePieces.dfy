/** Cutting a block's records into pieces: each piece, with its own stretch of the literals,
    continues where the one before it stopped. */
module ParsePieces {
  import opened Bits
  import opened BitReader
  import opened SequenceBits
  import opened SequenceExecution
  import opened MatchCopy
  import opened RepeatOffsets
  import opened ValidParse

  /** The literals and the bytes that records cover. */
  function LiteralSum(records: seq<SequenceRecord>): nat {
    if records == [] then 0 else LiteralSum(records[..|records| - 1]) + records[|records| - 1].literalLength
  }

  function ByteSum(records: seq<SequenceRecord>): nat {
    if records == [] then 0
    else ByteSum(records[..|records| - 1]) + records[|records| - 1].literalLength + records[|records| - 1].matchLength
  }

  lemma SumStep(records: seq<SequenceRecord>, k: nat)
    requires k < |records|
    ensures LiteralSum(records[..k + 1]) == LiteralSum(records[..k]) + records[k].literalLength
    ensures ByteSum(records[..k + 1]) == ByteSum(records[..k]) + records[k].literalLength + records[k].matchLength
  {
    assert records[..k + 1][..k] == records[..k];
  }

  lemma {:induction false} SumMonotone(records: seq<SequenceRecord>, j: nat, k: nat)
    requires j <= k <= |records|
    ensures LiteralSum(records[..j]) <= LiteralSum(records[..k])
    ensures ByteSum(records[..j]) <= ByteSum(records[..k])
    ensures j < k && (forall i :: 0 <= i < |records| ==> records[i].matchLength > 0) ==>
              ByteSum(records[..j]) < ByteSum(records[..k])
    decreases k
  {
    if j < k {
      SumMonotone(records, j, k - 1);
      SumStep(records, k - 1);
    }
  }

  /** One record: the output grows by its literals and its match. */
  lemma OneGrows(env: Env, m: Machine, r: SequenceRecord)
    requires ExecuteOne(env, m, r).Some?
    ensures var next := ExecuteOne(env, m, r).value;
            && next.cursor == m.cursor + r.literalLength && |next.out| == |m.out| + r.literalLength + r.matchLength
            && next.out[..|m.out|] == m.out
  {
    hide OffsetOf, After;
    var out := m.out + env.literals[m.cursor..m.cursor + r.literalLength];
    var offset := OffsetOf(m.history, r.offsetValue, r.literalLength);
    var next := ExecuteOne(env, m, r).value;
    assert next.out[..|out|] == out;
    assert next.out[..|m.out|] == next.out[..|out|][..|m.out|];
  }

  lemma {:induction false} AllGrows(env: Env, m: Machine, records: seq<SequenceRecord>)
    requires m.cursor <= |env.literals| && ExecuteAll(env, m, records).Some?
    ensures var r := ExecuteAll(env, m, records).value;
            |m.out| <= |r.out| && r.out[..|m.out|] == m.out
    decreases |records|
  {
    hide ExecuteOne;
    if records != [] {
      OneGrows(env, m, records[0]);
      var next := ExecuteOne(env, m, records[0]).value;
      AllGrows(env, next, records[1..]);
      var r := ExecuteAll(env, m, records).value;
      assert r.out[..|m.out|] == r.out[..|next.out|][..|m.out|];
    }
  }

  /** One record more at the end. */
  lemma {:induction false} AllThenOne(env: Env, m: Machine, records: seq<SequenceRecord>, r: SequenceRecord)
    requires m.cursor <= |env.literals|
    ensures var first := ExecuteAll(env, m, records);
            ExecuteAll(env, m, records + [r]) == if first.None? then None else ExecuteOne(env, first.value, r)
    decreases |records|
  {
    hide ExecuteOne;
    if records == [] {
      assert (records + [r])[1..] == [];
    } else {
      assert (records + [r])[1..] == records[1..] + [r];
      var next := ExecuteOne(env, m, records[0]);
      if next.Some? {
        AllThenOne(env, next.value, records[1..], r);
      }
    }
  }

  /** Executing all is executing the first `k`, then the others. */
  lemma {:induction false} AllSplit(env: Env, m: Machine, records: seq<SequenceRecord>, k: nat)
    requires m.cursor <= |env.literals| && k <= |records|
    ensures var first := ExecuteAll(env, m, records[..k]);
            ExecuteAll(env, m, records) == if first.None? then None else ExecuteAll(env, first.value, records[k..])
    decreases k
  {
    hide ExecuteOne;
    if k == 0 {
      assert records[..0] == [] && records[0..] == records;
    } else {
      var next := ExecuteOne(env, m, records[0]);
      assert records[..k][1..] == records[1..][..k - 1] && records[1..][k - 1..] == records[k..];
      if next.Some? {
        AllSplit(env, next.value, records[1..], k - 1);
      }
    }
  }

  /** How far the first `k` records get. */
  lemma {:induction false} PrefixReach(env: Env, m: Machine, records: seq<SequenceRecord>, k: nat)
    requires m.cursor <= |env.literals| && k <= |records| && ExecuteAll(env, m, records).Some?
    ensures ExecuteAll(env, m, records[..k]).Some?
    ensures var r := ExecuteAll(env, m, records[..k]).value;
            r.cursor == m.cursor + LiteralSum(records[..k]) && |r.out| == |m.out| + ByteSum(records[..k])
    decreases k
  {
    hide ExecuteOne, ExecuteAll, LiteralSum, ByteSum;
    AllSplit(env, m, records, k);
    if k == 0 {
      NothingYet(env, m, records);
    } else {
      PrefixReach(env, m, records, k - 1);
      assert records[..k] == records[..k - 1] + [records[k - 1]];
      AllThenOne(env, m, records[..k - 1], records[k - 1]);
      OneGrows(env, ExecuteAll(env, m, records[..k - 1]).value, records[k - 1]);
      SumStep(records, k - 1);
    }
  }

  lemma NothingYet(env: Env, m: Machine, records: seq<SequenceRecord>)
    requires m.cursor <= |env.literals|
    ensures ExecuteAll(env, m, records[..0]) == Some(m) && LiteralSum(records[..0]) == 0 && ByteSum(records[..0]) == 0
  {
  }

  /** The same literals further to the left, a later block start and any sufficient capacity change
      nothing. */
  ghost predicate Fits(env: Env, shift: nat, piece: Env) {
    && shift + |piece.literals| <= |env.literals| && piece.literals == env.literals[shift..shift + |piece.literals|]
    && piece.start >= env.start
  }

  lemma OneShifted(env: Env, m: Machine, r: SequenceRecord, shift: nat, piece: Env)
    requires Fits(env, shift, piece) && shift <= m.cursor && ExecuteOne(env, m, r).Some?
    requires ExecuteOne(env, m, r).value.cursor <= shift + |piece.literals|
    requires |ExecuteOne(env, m, r).value.out| <= piece.capacity
    ensures ExecuteOne(piece, m.(cursor := m.cursor - shift), r)
         == Some(ExecuteOne(env, m, r).value.(cursor := ExecuteOne(env, m, r).value.cursor - shift))
  {
    hide OffsetOf, After, CopyMatch;
    OneCursor(env, m, r);
    var from, to := m.cursor, m.cursor + r.literalLength;
    SliceOfSlice(env.literals, shift, shift + |piece.literals|, from - shift, to - shift);
  }

  lemma OneCursor(env: Env, m: Machine, r: SequenceRecord)
    requires ExecuteOne(env, m, r).Some?
    ensures ExecuteOne(env, m, r).value.cursor == m.cursor + r.literalLength <= |env.literals|
  {
    hide OffsetOf, After, CopyMatch;
  }

  lemma {:induction false} PieceRuns(env: Env, m: Machine, records: seq<SequenceRecord>, shift: nat, piece: Env)
    requires Fits(env, shift, piece) && shift <= m.cursor <= |env.literals| && ExecuteAll(env, m, records).Some?
    requires ExecuteAll(env, m, records).value.cursor <= shift + |piece.literals|
    requires |ExecuteAll(env, m, records).value.out| <= piece.capacity
    ensures m.cursor - shift <= |piece.literals|
    ensures var r := ExecuteAll(env, m, records).value;
            && r.cursor >= shift
            && ExecuteAll(piece, m.(cursor := m.cursor - shift), records) == Some(r.(cursor := r.cursor - shift))
    decreases |records|
  {
    hide ExecuteOne, Fits;
    FitsBounds(env, shift, piece);
    if records != [] {
      var next := ExecuteOne(env, m, records[0]).value;
      OneCursor(env, m, records[0]);
      CursorGrows(env, next, records[1..]);
      AllGrows(env, next, records[1..]);
      OneShifted(env, m, records[0], shift, piece);
      PieceRuns(env, next, records[1..], shift, piece);
    }
  }

  lemma FitsBounds(env: Env, shift: nat, piece: Env)
    requires Fits(env, shift, piece)
    ensures shift + |piece.literals| <= |env.literals|
  {
  }

  lemma {:induction false} CursorGrows(env: Env, m: Machine, records: seq<SequenceRecord>)
    requires m.cursor <= |env.literals| && ExecuteAll(env, m, records).Some?
    ensures m.cursor <= ExecuteAll(env, m, records).value.cursor
    decreases |records|
  {
    hide ExecuteOne;
    if records != [] {
      OneCursor(env, m, records[0]);
      CursorGrows(env, ExecuteOne(env, m, records[0]).value, records[1..]);
    }
  }

  // ---------------------------------------------------------------- the pieces of a parse

  /** A block as its finder left it. */
  datatype Parse = Parse(input: seq<byte>, blockStart: nat, window: nat, literals: seq<byte>,
                         records: seq<SequenceRecord>, from: History, to: History)

  ghost predicate ValidParseOf(p: Parse) {
    Parses(p.input, p.blockStart, p.window, p.literals, p.records, p.from, p.to)
  }

  ghost function BlockEnv(p: Parse): Env {
    Env(p.literals, p.blockStart, |p.input|)
  }

  /** The machine after the first `k` records. */
  ghost function Mark(p: Parse, k: nat): Machine
    requires ValidParseOf(p) && k <= |p.records|
  {
    hide Reaches, TakeRest;
    PrefixReach(BlockEnv(p), Machine(p.input[..p.blockStart], 0, p.from), p.records, k);
    ExecuteAll(BlockEnv(p), Machine(p.input[..p.blockStart], 0, p.from), p.records[..k]).value
  }

  function StartAt(p: Parse, a: nat): nat
    requires a <= |p.records|
  {
    p.blockStart + ByteSum(p.records[..a])
  }

  /** Where the piece that ends before record `b` ends: the last one takes what is left. */
  function EndAt(p: Parse, b: nat): nat
    requires b <= |p.records|
  {
    if b == |p.records| then |p.input| else StartAt(p, b)
  }

  function LiteralEnd(p: Parse, b: nat): nat
    requires b <= |p.records|
  {
    if b == |p.records| then |p.literals| else LiteralSum(p.records[..b])
  }

  lemma RestGrows(env: Env, m: Machine)
    requires m.cursor <= |env.literals| && TakeRest(env, m).Some?
    ensures |m.out| <= |TakeRest(env, m).value.out| && TakeRest(env, m).value.out[..|m.out|] == m.out
    ensures TakeRest(env, m).value.history == m.history
  {
  }

  lemma MarkIs(p: Parse, k: nat)
    requires ValidParseOf(p) && k <= |p.records|
    ensures StartAt(p, k) <= |p.input| && LiteralSum(p.records[..k]) <= |p.literals|
    ensures Mark(p, k).out == p.input[..StartAt(p, k)] && Mark(p, k).cursor == LiteralSum(p.records[..k])
    ensures Mark(p, |p.records|).history == p.to
  {
    hide Reaches, TakeRest, ExecuteAll;
    var env, m := BlockEnv(p), Machine(p.input[..p.blockStart], 0, p.from);
    var n := |p.records|;
    PrefixReach(env, m, p.records, k);
    AllSplit(env, m, p.records, k);
    AllGrows(env, Mark(p, k), p.records[k..]);
    assert p.records[..n] == p.records;
    var all := ExecuteAll(env, m, p.records).value;
    RestGrows(env, all);
    assert p.input[..|all.out|][..|Mark(p, k).out|] == p.input[..|Mark(p, k).out|];
  }

  lemma RestShifted(env: Env, m: Machine, shift: nat, piece: Env)
    requires shift <= m.cursor <= |env.literals| && piece.literals == env.literals[shift..] && TakeRest(env, m).Some?
    requires piece.start >= env.start && |TakeRest(env, m).value.out| <= piece.capacity
    ensures TakeRest(piece, m.(cursor := m.cursor - shift)) == Some(TakeRest(env, m).value.(cursor := |piece.literals|))
  {
    assert piece.literals[m.cursor - shift..] == env.literals[m.cursor..];
  }

  /** Piece by piece, with its own literals and any output the piece fits, decoding goes from mark to mark. */
  lemma PieceMeans(p: Parse, a: nat, b: nat, capacity: nat)
    requires ValidParseOf(p) && a <= b <= |p.records| && (a < b || |p.records| == 0) && EndAt(p, b) <= capacity
    ensures LiteralSum(p.records[..a]) <= LiteralEnd(p, b) <= |p.literals| && StartAt(p, a) <= EndAt(p, b) <= |p.input|
    ensures var literals := p.literals[LiteralSum(p.records[..a])..LiteralEnd(p, b)];
            var env := Env(literals, StartAt(p, a), capacity);
            var all := ExecuteAll(env, Machine(p.input[..StartAt(p, a)], 0, Mark(p, a).history), p.records[a..b]);
            && all.Some?
            && TakeRest(env, all.value) == Some(Machine(p.input[..EndAt(p, b)], |literals|, Mark(p, b).history))
  {
    hide *;
    PartsOf(p);
    MarkIs(p, a);
    MarkIs(p, b);
    EndsAre(p, a, b);
    SumMonotone(p.records, a, b);
    var shift, end := LiteralSum(p.records[..a]), LiteralEnd(p, b);
    var env, piece := BlockEnv(p), Env(p.literals[shift..end], StartAt(p, a), capacity);
    PieceFits(p, a, end, capacity);
    MarkStep(p, a, b);
    LastMark(p);
    RestOut(p);
    PieceRuns(env, Mark(p, a), p.records[a..b], shift, piece);
    var reached := Mark(p, b).(cursor := Mark(p, b).cursor - shift);
    assert Mark(p, a).(cursor := 0) == Machine(p.input[..StartAt(p, a)], 0, Mark(p, a).history);
    if b == |p.records| {
      LastMark(p);
      assert p.literals[shift..] == piece.literals;
      RestShifted(env, Mark(p, b), shift, piece);
      assert p.input[..|p.input|] == p.input;
    } else {
      NoRest(piece, reached);
    }
  }

  /** The last mark is not past the input. */
  lemma RestOut(p: Parse)
    requires ValidParseOf(p)
    ensures StartAt(p, |p.records|) <= |p.input|
  {
    hide ValidParseOf, StartAt;
    MarkIs(p, |p.records|);
  }

  lemma NoRest(env: Env, m: Machine)
    requires m.cursor == |env.literals|
    ensures TakeRest(env, m) == Some(m)
  {
  }

  lemma PartsOf(p: Parse)
    requires ValidParseOf(p)
    ensures p.blockStart <= |p.input| && BlockEnv(p) == Env(p.literals, p.blockStart, |p.input|)
  {
    hide Reaches, ExecuteAll, TakeRest;
  }

  lemma EndsAre(p: Parse, a: nat, b: nat)
    requires a <= b <= |p.records|
    ensures EndAt(p, b) == (if b == |p.records| then |p.input| else StartAt(p, b))
    ensures LiteralEnd(p, b) == (if b == |p.records| then |p.literals| else LiteralSum(p.records[..b]))
    ensures StartAt(p, a) == p.blockStart + ByteSum(p.records[..a])
    ensures StartAt(p, b) == p.blockStart + ByteSum(p.records[..b])
  {
  }

  lemma PieceFits(p: Parse, a: nat, end: nat, capacity: nat)
    requires a <= |p.records| && LiteralSum(p.records[..a]) <= end <= |p.literals|
    ensures Fits(BlockEnv(p), LiteralSum(p.records[..a]),
                 Env(p.literals[LiteralSum(p.records[..a])..end], StartAt(p, a), capacity))
  {
  }

  lemma MarkStep(p: Parse, a: nat, b: nat)
    requires ValidParseOf(p) && a <= b <= |p.records|
    ensures Mark(p, a).cursor <= |BlockEnv(p).literals|
    ensures ExecuteAll(BlockEnv(p), Mark(p, a), p.records[a..b]) == Some(Mark(p, b))
  {
    hide Reaches, TakeRest, ExecuteAll;
    var env, m := BlockEnv(p), Machine(p.input[..p.blockStart], 0, p.from);
    PrefixReach(env, m, p.records, a);
    PrefixReach(env, m, p.records, b);
    AllSplit(env, m, p.records[..b], a);
    assert p.records[..b][..a] == p.records[..a] && p.records[..b][a..] == p.records[a..b];
  }

  lemma LastMark(p: Parse)
    requires ValidParseOf(p)
    ensures Mark(p, |p.records|).cursor <= |p.literals|
    ensures TakeRest(BlockEnv(p), Mark(p, |p.records|))
          == Some(Machine(p.input, |p.literals|, Mark(p, |p.records|).history))
  {
    hide Reaches, TakeRest, ExecuteAll;
    assert p.records[..|p.records|] == p.records;
    MarkIs(p, |p.records|);
  }
}
