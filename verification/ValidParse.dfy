/** What every match finder owes the block writer: sequences and literals that rebuild the block
    after its history, with offsets inside the window. */
module ValidParse {
  import opened Bits
  import opened BitReader
  import opened SequenceBits
  import opened SequenceExecution
  import opened MatchCopy
  import opened RepeatOffsets

  /** Executing the records reaches `m`, and every offset stays inside the window. */
  ghost predicate Reaches(env: Env, from: Machine, records: seq<SequenceRecord>, to: Machine, window: nat)
    decreases |records|
  {
    if records == [] then from == to
    else
      && ValidRecord(records[0]) && OffsetOf(from.history, records[0].offsetValue, records[0].literalLength) <= window
      && ExecuteOne(env, from, records[0]).Some?
      && Reaches(env, ExecuteOne(env, from, records[0]).value, records[1..], to, window)
  }

  lemma {:induction false} ReachesIsExecute(env: Env, from: Machine, records: seq<SequenceRecord>, to: Machine,
                                            window: nat)
    requires Reaches(env, from, records, to, window) && from.cursor <= |env.literals|
    ensures ExecuteAll(env, from, records) == Some(to)
    decreases |records|
  {
    hide ExecuteOne;
    if records != [] {
      ReachesIsExecute(env, ExecuteOne(env, from, records[0]).value, records[1..], to, window);
    }
  }

  /** One record more. */
  lemma {:induction false} ReachesOn(env: Env, from: Machine, records: seq<SequenceRecord>, middle: Machine,
                                     r: SequenceRecord, to: Machine, window: nat)
    requires Reaches(env, from, records, middle, window)
    requires ValidRecord(r) && OffsetOf(middle.history, r.offsetValue, r.literalLength) <= window
    requires ExecuteOne(env, middle, r) == Some(to)
    ensures Reaches(env, from, records + [r], to, window)
    decreases |records|
  {
    hide ExecuteOne, OffsetOf, ValidRecord;
    if records != [] {
      ReachesOn(env, ExecuteOne(env, from, records[0]).value, records[1..], middle, r, to, window);
      assert (records + [r])[1..] == records[1..] + [r];
    } else {
      assert (records + [r])[1..] == [];
    }
  }

  /** Literals that come later do not change what was reached. */
  lemma {:induction false} ReachesWithMore(env: Env, more: seq<byte>, from: Machine, records: seq<SequenceRecord>,
                                           to: Machine, window: nat)
    requires Reaches(env, from, records, to, window)
    ensures Reaches(env.(literals := env.literals + more), from, records, to, window)
    decreases |records|
  {
    hide ExecuteOne, OffsetOf, ValidRecord;
    if records != [] {
      ExecuteWithMore(env, more, from, records[0]);
      ReachesWithMore(env, more, ExecuteOne(env, from, records[0]).value, records[1..], to, window);
    }
  }

  lemma ExecuteWithMore(env: Env, more: seq<byte>, m: Machine, r: SequenceRecord)
    requires ExecuteOne(env, m, r).Some?
    ensures ExecuteOne(env.(literals := env.literals + more), m, r) == ExecuteOne(env, m, r)
  {
    hide OffsetOf, After, CopyMatch;
    var cursor := m.cursor + r.literalLength;
    assert (env.literals + more)[m.cursor..cursor] == env.literals[m.cursor..cursor];
  }

  /** Bytes that agree with those `offset` back are what copying gives. */
  lemma {:induction false} MatchIsCopy(input: seq<byte>, start: nat, offset: nat, length: nat)
    requires 1 <= offset <= start && start + length <= |input|
    requires forall k :: start <= k < start + length ==> input[k] == input[k - offset]
    ensures CopyMatch(input[..start], offset, length) == input[..start + length]
    decreases length
  {
    if length > 0 {
      MatchIsCopy(input, start, offset, length - 1);
    }
  }

  /** The finder's list so far: the input up to `done`, literals included, is rebuilt from the history. */
  ghost predicate Rebuilds(input: seq<byte>, blockStart: nat, window: nat, literals: seq<byte>,
                           records: seq<SequenceRecord>,
                           from: History, to: History, done: nat) {
    && blockStart <= done <= |input|
    && Reaches(Env(literals, blockStart, |input|), Machine(input[..blockStart], 0, from), records,
               Machine(input[..done], |literals|, to), window)
  }

  lemma NothingRebuilt(input: seq<byte>, blockStart: nat, window: nat, history: History)
    requires blockStart <= |input|
    ensures Rebuilds(input, blockStart, window, [], [], history, history, blockStart)
  {
  }

  /** Adding a match: the literals before it, its length and the value of its offset. */
  lemma RebuildsMatch(input: seq<byte>, blockStart: nat, window: nat, literals: seq<byte>, records: seq<SequenceRecord>,
                      from: History, to: History, done: nat, start: nat, offset: nat, length: nat, value: nat)
    requires Rebuilds(input, blockStart, window, literals, records, from, to, done)
    requires done <= start && 1 <= offset <= start && offset <= window && 3 <= length && start + length <= |input|
    requires |input| - blockStart <= MAX_BLOCK_SIZE && 0 < value < 0x1_0000_0000
    requires OffsetOf(to, value, start - done) == offset
    requires forall k :: start <= k < start + length ==> input[k] == input[k - offset]
    ensures Rebuilds(input, blockStart, window, literals + input[done..start],
                     records + [SequenceRecord(start - done, length, value)],
                     from, After(to, value, start - done), start + length)
  {
    hide OffsetOf, After, ExecuteOne, Reaches;
    var env := Env(literals, blockStart, |input|);
    var more := input[done..start];
    var env' := env.(literals := literals + more);
    var m, r := Machine(input[..done], |literals|, to), SequenceRecord(start - done, length, value);
    ReachesWithMore(env, more, Machine(input[..blockStart], 0, from), records, m, window);
    OneMatch(input, blockStart, literals, to, done, start, offset, length, value);
    ReachesOn(env', Machine(input[..blockStart], 0, from), records, m, r,
              Machine(input[..start + length], |literals + more|, After(to, value, start - done)), window);
  }

  lemma OneMatch(input: seq<byte>, blockStart: nat, literals: seq<byte>, to: History, done: nat, start: nat,
                 offset: nat, length: nat, value: nat)
    requires blockStart <= done <= start && 1 <= offset <= start && start + length <= |input|
    requires |input| - blockStart <= MAX_BLOCK_SIZE && OffsetOf(to, value, start - done) == offset
    requires forall k :: start <= k < start + length ==> input[k] == input[k - offset]
    ensures ExecuteOne(Env(literals + input[done..start], blockStart, |input|), Machine(input[..done], |literals|, to),
                       SequenceRecord(start - done, length, value))
         == Some(Machine(input[..start + length], |literals + input[done..start]|, After(to, value, start - done)))
  {
    hide OffsetOf, After, CopyMatch;
    var all := literals + input[done..start];
    assert all[|literals|..|literals| + (start - done)] == input[done..start];
    assert input[..done] + input[done..start] == input[..start];
    MatchIsCopy(input, start, offset, length);
  }

  /** What a finder must return for a block: run from the history, the records stay inside the
      window, and with the literals left over the input up to the end of the block is there. */
  ghost predicate Parses(input: seq<byte>, blockStart: nat, window: nat, literals: seq<byte>,
                         records: seq<SequenceRecord>,
                         from: History, to: History) {
    && blockStart <= |input|
    && var env, start := Env(literals, blockStart, |input|), Machine(input[..blockStart], 0, from);
    && ExecuteAll(env, start, records).Some?
    && var m := ExecuteAll(env, start, records).value;
    && Reaches(env, start, records, m, window)
    && TakeRest(env, m) == Some(Machine(input, |literals|, to))
  }

  /** A finished list: with the remaining literals the whole block is there. */
  lemma RebuildsAll(input: seq<byte>, blockStart: nat, window: nat, literals: seq<byte>, records: seq<SequenceRecord>,
                    from: History, to: History, done: nat)
    requires Rebuilds(input, blockStart, window, literals, records, from, to, done)
    requires |input| - blockStart <= MAX_BLOCK_SIZE
    ensures Parses(input, blockStart, window, literals + input[done..], records, from, to)
  {
    hide Reaches, ExecuteAll, TakeRest;
    var env := Env(literals, blockStart, |input|);
    ReachesWithMore(env, input[done..], Machine(input[..blockStart], 0, from), records,
                    Machine(input[..done], |literals|, to), window);
    ReachesIsExecute(env.(literals := literals + input[done..]), Machine(input[..blockStart], 0, from), records,
                     Machine(input[..done], |literals|, to), window);
    RestOfBlock(input, blockStart, literals, to, done);
  }

  lemma RestOfBlock(input: seq<byte>, blockStart: nat, literals: seq<byte>, to: History, done: nat)
    requires blockStart <= done <= |input| && |input| - blockStart <= MAX_BLOCK_SIZE
    ensures TakeRest(Env(literals + input[done..], blockStart, |input|), Machine(input[..done], |literals|, to))
         == Some(Machine(input, |literals + input[done..]|, to))
  {
    assert (literals + input[done..])[|literals|..] == input[done..];
    assert input[..done] + input[done..] == input;
    if done == |input| {
      assert input[..done] == input;
    }
  }
}
