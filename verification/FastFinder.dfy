/** The fast match finder: a table of hashed positions that outlives its inputs. Every match is
    checked byte by byte, and entries of earlier inputs fall outside the window by arithmetic. */
module FastFinder {
  import opened Bits
  import opened BitReader
  import opened SuffixOrder
  import opened SequenceBits
  import opened SequenceExecution
  import opened RepeatOffsets
  import opened ValidParse
  import Words = BinaryTreeMatcher

  const MAX_HASH_LOG := 15
  const HASH_TABLE_SIZE := 32768
  const READ_SIZE := 8
  const SHORTEST_MATCH := 4
  const FIRST_STEP := 2
  const STEP_GROWTH_DISTANCE := 128
  const U32_MAX := 0xFFFF_FFFF

  const PRIME_FIVE_BYTES := 889_523_592_379
  const PRIME_SIX_BYTES := 227_718_039_650_203
  const PRIME_SEVEN_BYTES := 58_295_818_150_454_627

  datatype FoundMatch = FoundMatch(start: nat, source: nat, knownLength: nat, isRepeat: bool)

  /** `wrapping_sub` on words below `size`. */
  function WrappingSub(a: nat, b: nat, size: nat): (r: nat)
    requires b <= size
  {
    if a >= b then a - b else a + (size - b)
  }

  // ---------------------------------------------------------------- stale entries

  /** The position a stored entry stands for in the present input. */
  function Candidate(stored: nat, firstIndex: nat): nat
    requires firstIndex <= U32
  {
    WrappingSub(stored, firstIndex, U32)
  }

  /** The window test: one comparison on wrapped 64-bit words. */
  predicate IsInsideWindow(position: nat, candidate: nat, windowStart: nat)
    requires windowStart <= position < U32
  {
    WrappingSub(candidate, windowStart, 0x1_0000_0000_0000_0000) < position - windowStart
  }

  /** An entry passes the window test exactly when it is of this input, inside the window, and
      before `position`; entries of earlier inputs are below `firstIndex`. */
  lemma InsideExactly(stored: nat, firstIndex: nat, position: nat, windowStart: nat)
    requires stored < U32 && 1 <= firstIndex && windowStart <= position && firstIndex + position < U32
    ensures IsInsideWindow(position, Candidate(stored, firstIndex), windowStart)
        <==> firstIndex + windowStart <= stored < firstIndex + position
  {
  }

  /** So a candidate that passes is where its entry was stored in this input. */
  lemma InsideIsOwn(stored: nat, firstIndex: nat, position: nat, windowStart: nat)
    requires stored < U32 && 1 <= firstIndex && windowStart <= position && firstIndex + position < U32
    requires IsInsideWindow(position, Candidate(stored, firstIndex), windowStart)
    ensures stored == firstIndex + Candidate(stored, firstIndex)
    ensures firstIndex + windowStart <= stored < firstIndex + position
  {
    hide IsInsideWindow;
    InsideExactly(stored, firstIndex, position, windowStart);
  }

  /** `is_match`: inside the window, and four bytes agree. */
  predicate IsMatch(input: seq<byte>, position: nat, candidate: nat, windowStart: nat)
    requires windowStart <= position && position + 4 <= |input| <= U32_MAX && candidate < U32
  {
    && IsInsideWindow(position, candidate, windowStart)
    && input[candidate..candidate + 4] == input[position..position + 4]
  }

  lemma MatchFound(input: seq<byte>, position: nat, candidate: nat, windowStart: nat)
    requires windowStart <= position && position + 4 <= |input| <= U32_MAX && candidate < U32
    requires IsMatch(input, position, candidate, windowStart)
    ensures IsInsideWindow(position, candidate, windowStart)
    ensures windowStart <= candidate && Matches(input, position, candidate, SHORTEST_MATCH)
  {
    FourMatch(input, position, candidate);
  }

  // ---------------------------------------------------------------- comparing bytes

  /** `length` bytes at `start` repeat those at `source`. */
  ghost predicate Matches(input: seq<byte>, start: nat, source: nat, length: nat) {
    && source < start && start + length <= |input|
    && forall k :: start <= k < start + length ==> input[k] == input[k - (start - source)]
  }

  lemma FourMatch(input: seq<byte>, start: nat, source: nat)
    requires source < start && start + 4 <= |input| && input[start..start + 4] == input[source..source + 4]
    ensures Matches(input, start, source, 4)
  {
    forall k | start <= k < start + 4
      ensures input[k] == input[k - (start - source)]
    {
      assert input[start..start + 4][k - start] == input[source..source + 4][k - start];
    }
  }

  lemma ByteBefore(input: seq<byte>, start: nat, source: nat, length: nat)
    requires Matches(input, start, source, length) && source > 0 && input[start - 1] == input[source - 1]
    ensures Matches(input, start - 1, source - 1, length + 1)
  {
  }

  lemma MatchesMore(input: seq<byte>, start: nat, source: nat, known: nat)
    requires Matches(input, start, source, known)
    ensures Matches(input, start, source, known + Lcp(input, start + known, source + known))
  {
    hide Lcp;
    var n := Lcp(input, start + known, source + known);
    LcpEnds(input, start + known, source + known);
    forall k | start + known <= k < start + known + n
      ensures input[k] == input[k - (start - source)]
    {
      LcpEqual(input, start + known, source + known, k - start - known);
    }
  }

  /** `extend_repeat_backward`: at most one byte. */
  method ExtendRepeatBackward(input: seq<byte>, position: nat, repeat: nat) returns (found: FoundMatch)
    requires 1 <= repeat < position && Matches(input, position, position - repeat, SHORTEST_MATCH)
    ensures found.isRepeat && position - 1 <= found.start <= position && found.source + repeat == found.start
    ensures found.start + found.knownLength == position + SHORTEST_MATCH
    ensures Matches(input, found.start, found.source, found.knownLength)
    ensures found.start == position - 1 <==> input[position - 1] == input[position - 1 - repeat]
  {
    var stepBack := if input[position - 1] == input[position - 1 - repeat] then 1 else 0;
    var start := position - stepBack;
    if stepBack == 1 {
      ByteBefore(input, position, position - repeat, SHORTEST_MATCH);
    }
    return FoundMatch(start, start - repeat, SHORTEST_MATCH + stepBack, true);
  }

  /** `extend_backward`: as far as bytes agree inside the window and after the last match. */
  method ExtendBackward(input: seq<byte>, position: nat, candidate: nat, literalStart: nat, windowStart: nat)
    returns (found: FoundMatch)
    requires literalStart <= position && windowStart <= candidate && Matches(input, position, candidate, SHORTEST_MATCH)
    ensures !found.isRepeat && literalStart <= found.start <= position && windowStart <= found.source
    ensures found.start - found.source == position - candidate
    ensures found.start + found.knownLength == position + SHORTEST_MATCH
    ensures Matches(input, found.start, found.source, found.knownLength)
    ensures found.start == literalStart || found.source == windowStart
            || input[found.start - 1] != input[found.source - 1]
    ensures found.start == position - BytesBefore(input, position, candidate, literalStart, windowStart)
  {
    hide Matches;
    assert candidate < position <= |input| by { MatchesBounds(input, position, candidate, SHORTEST_MATCH); }
    var start, source := position, candidate;
    while start > literalStart && source > windowStart && input[start - 1] == input[source - 1]
      invariant literalStart <= start <= position && windowStart <= source && start - source == position - candidate
      invariant Matches(input, start, source, SHORTEST_MATCH + position - start)
      invariant BytesBefore(input, position, candidate, literalStart, windowStart)
             == position - start + BytesBefore(input, start, source, literalStart, windowStart)
      decreases start
    {
      ByteBefore(input, start, source, SHORTEST_MATCH + position - start);
      start, source := start - 1, source - 1;
    }
    return FoundMatch(start, source, SHORTEST_MATCH + position - start, false);
  }

  lemma MatchesBounds(input: seq<byte>, start: nat, source: nat, length: nat)
    requires Matches(input, start, source, length)
    ensures source < start && start + length <= |input|
  {
  }

  /** `count_matching_bytes`, past bytes already known to agree. */
  method MatchLength(input: seq<byte>, found: FoundMatch) returns (length: nat)
    requires Matches(input, found.start, found.source, found.knownLength)
    ensures length >= found.knownLength && Matches(input, found.start, found.source, length)
    ensures found.start + length == |input| || input[found.start + length] != input[found.source + length]
    ensures length == found.knownLength + Lcp(input, found.start + found.knownLength, found.source + found.knownLength)
  {
    hide Matches, Lcp;
    MatchesBounds(input, found.start, found.source, found.knownLength);
    var more := Words.Count(input, found.start + found.knownLength, found.source + found.knownLength);
    length := found.knownLength + more;
    MatchesMore(input, found.start, found.source, found.knownLength);
    MatchesBounds(input, found.start, found.source, length);
    LcpEnds(input, found.start + found.knownLength, found.source + found.knownLength);
  }

  // ---------------------------------------------------------------- what one hunt finds

  type FirstIndex = n: int | 0 <= n <= U32
  type HashLog = n: int | 0 <= n <= MAX_HASH_LOG

  /** How positions become entries and buckets. */
  datatype Table = Table(firstIndex: FirstIndex, hashedBytes: nat, hashLog: HashLog)

  /** A round probes `position` and the one after it; the next round starts at `far`. */
  datatype Round = Round(position: nat, far: nat, step: nat, nextStep: nat)

  function NextRound(r: Round): Round {
    var far := r.far + r.step;
    if far >= r.nextStep then Round(r.far, far, r.step + 1, r.nextStep + STEP_GROWTH_DISTANCE)
    else Round(r.far, far, r.step, r.nextStep)
  }

  function RoundAt(start: nat, k: nat): (r: Round)
    ensures r.position >= start + 2 * k && r.far >= r.position + 2 && r.step >= FIRST_STEP
  {
    if k == 0 then Round(start, start + FIRST_STEP, FIRST_STEP, start + STEP_GROWTH_DISTANCE)
    else NextRound(RoundAt(start, k - 1))
  }

  /** Four bytes agree with those `offset` back. */
  predicate AgreeAt(input: seq<byte>, position: nat, offset: nat) {
    && 0 < offset <= position && position + 4 <= |input|
    && input[position..position + 4] == input[position - offset..position - offset + 4]
  }

  /** How many bytes before two positions agree, down to a limit for each. */
  function BytesBefore(input: seq<byte>, position: nat, source: nat, least: nat, leastSource: nat): (n: nat)
    requires source < position <= |input|
    ensures n <= source
  {
    if position > least && source > leastSource && input[position - 1] == input[source - 1] then
      1 + BytesBefore(input, position - 1, source - 1, least, leastSource)
    else 0
  }

  /** A hunt for the next match from `start` on, with the entries it begins with. */
  datatype Hunt = Hunt(input: seq<byte>, table: Table, past: seq<nat>, start: nat, repeat: nat, windowStart: nat) {
    function Probe(i: nat): (p: nat)
      ensures p >= start + i
    {
      RoundAt(start, i / 2).position + i % 2
    }

    /** The entry a bucket holds after `n` probes: the last of them with that hash, or the old one. */
    function Held(n: nat, hash: nat): nat {
      if n == 0 then (if hash < |past| then past[hash] else 0)
      else if HashAt(input, table, Probe(n - 1)) == hash then table.firstIndex + Probe(n - 1)
      else Held(n - 1, hash)
    }

    function Entries(n: nat): seq<nat> {
      seq(|past|, k requires k >= 0 => Held(n, k))
    }

    /** What probe `i` is compared with. */
    function CandidateAt(i: nat): nat {
      Candidate(Held(i, HashAt(input, table, Probe(i))), table.firstIndex)
    }

    /** Probe `i` agrees in four bytes with an entry of this input inside the window. */
    predicate Hit(i: nat) {
      && windowStart <= Probe(i) && Probe(i) + 4 <= |input| <= U32_MAX && CandidateAt(i) < U32
      && IsMatch(input, Probe(i), CandidateAt(i), windowStart)
    }

    /** The position at which round `k` tries the repeat offset agrees. */
    predicate RepeatHit(k: nat) {
      AgreeAt(input, RoundAt(start, k).far, repeat)
    }

    /** The hunt goes on while a round leaves room to read behind it. */
    predicate Inside(k: nat) {
      RoundAt(start, k).far + 1 + READ_SIZE < |input|
    }

    predicate Stops(i: nat) {
      Hit(i) || (i % 2 == 0 && RepeatHit(i / 2))
    }

    /** The first probe from `i` on that stops the hunt, or the one it does not get to. */
    function StopFrom(i: nat): (n: nat)
      ensures n >= i && (Inside(n / 2) ==> Stops(n))
      decreases |input| - i
    {
      if !Inside(i / 2) || Stops(i) then i else StopFrom(i + 1)
    }

    function Stop(): (n: nat)
      ensures Inside(n / 2) ==> Stops(n)
    {
      StopFrom(0)
    }

    predicate Finds() {
      Inside(Stop() / 2)
    }

    /** The match at the stop: the repeat offset goes first and back by one byte at most, any other as
        far back as bytes agree. */
    function Match(literalStart: nat): (f: FoundMatch)
      requires Finds()
      ensures f.knownLength >= SHORTEST_MATCH && f.source < f.start
    {
      var i := Stop();
      if i % 2 == 0 && RepeatHit(i / 2) then
        var far := RoundAt(start, i / 2).far;
        var back := if repeat < far && input[far - 1] == input[far - 1 - repeat] then 1 else 0;
        FoundMatch(far - back, far - back - repeat, SHORTEST_MATCH + back, true)
      else
        var position, source := Probe(i), CandidateAt(i);
        var back := BytesBefore(input, position, source, literalStart, windowStart);
        FoundMatch(position - back, source - back, SHORTEST_MATCH + back, false)
    }

    /** How many probes are stored: those made and, but for the second of a wide round, the next. */
    function Saves(): nat {
      var i := Stop();
      if !Finds() then i else if i % 2 == 0 || RoundAt(start, i / 2).step <= SHORTEST_MATCH then i + 2 else i + 1
    }
  }

  function HashAt(input: seq<byte>, table: Table, position: nat): nat {
    if position + READ_SIZE <= |input| then Hash(input, position, table.hashedBytes, table.hashLog) else 0
  }

  /** A probe that neither stops nor ends the hunt is passed. */
  lemma {:induction false} StopIs(h: Hunt, i: nat, n: nat)
    requires i <= n && (h.Inside(n / 2) ==> h.Stops(n))
    requires forall j: nat :: i <= j < n ==> h.Inside(j / 2) && !h.Stops(j)
    ensures h.StopFrom(i) == n
    decreases n - i
  {
    hide h.Inside, h.Stops;
    if i < n { StopIs(h, i + 1, n); }
  }

  lemma {:induction false} PassedBefore(h: Hunt, i: nat, j: nat)
    requires i <= j < h.StopFrom(i)
    ensures h.Inside(j / 2) && !h.Stops(j)
    decreases j - i
  {
    hide h.Inside, h.Stops;
    if i < j { PassedBefore(h, i + 1, j); }
  }

  lemma {:induction false} OutsideStays(h: Hunt, k: nat, m: nat)
    requires k <= m && !h.Inside(k)
    ensures !h.Inside(m)
    decreases m - k
  {
    if k < m {
      OutsideStays(h, k, m - 1);
    }
  }

  /** A hunt finds a match exactly when some probed position agrees with the entry its bucket holds at
      that time, or some position tried with the repeat offset agrees, before the end of the input. */
  lemma FindsExactly(h: Hunt)
    ensures h.Finds() <==> exists i: nat :: h.Inside(i / 2) && h.Stops(i)
  {
    hide *;
    StopOf(h);
    if !h.Finds() {
      forall i: nat | h.Inside(i / 2)
        ensures !h.Stops(i)
      {
        if i >= h.Stop() {
          OutsideStays(h, h.Stop() / 2, i / 2);
        } else {
          PassedBefore(h, 0, i);
        }
      }
    } else {
      assert h.Inside(h.Stop() / 2) && h.Stops(h.Stop());
    }
  }

  lemma StopOf(h: Hunt)
    ensures h.Stop() == h.StopFrom(0) && (h.Finds() <==> h.Inside(h.Stop() / 2))
  {
    hide h.StopFrom, h.Inside;
  }

  /** A bucket whose hash no probe has keeps its entry. */
  lemma {:induction false} HeldOld(h: Hunt, n: nat, hash: nat)
    requires forall i: nat :: i < n ==> HashAt(h.input, h.table, h.Probe(i)) != hash
    ensures h.Held(n, hash) == h.Held(0, hash)
    decreases n
  {
    hide HashAt, h.Probe;
    if n > 0 { HeldOld(h, n - 1, hash); }
  }

  /** Any other holds the last probe with its hash. */
  lemma {:induction false} HeldLast(h: Hunt, n: nat, hash: nat, i: nat)
    requires i < n && HashAt(h.input, h.table, h.Probe(i)) == hash
    requires forall j: nat :: i < j < n ==> HashAt(h.input, h.table, h.Probe(j)) != hash
    ensures h.Held(n, hash) == h.table.firstIndex + h.Probe(i)
    decreases n
  {
    hide HashAt, h.Probe;
    if i < n - 1 { HeldLast(h, n - 1, hash, i); }
  }

  lemma {:induction false} ProbesGrow(h: Hunt, i: nat, j: nat)
    requires i < j
    ensures h.Probe(i) < h.Probe(j)
    decreases j - i
  {
    hide h.Probe, RoundAt;
    NextProbe(h, j - 1);
    if i + 1 < j {
      ProbesGrow(h, i, j - 1);
    }
  }

  lemma NextProbe(h: Hunt, i: nat)
    ensures i % 2 == 0 ==> h.Probe(i + 1) == h.Probe(i) + 1
    ensures i % 2 == 1 ==> h.Probe(i + 1) == RoundAt(h.start, i / 2).far > h.Probe(i)
  {
    if i % 2 == 1 {
      assert (i + 1) / 2 == i / 2 + 1;
    }
  }

  /** No probe is forgotten: its bucket holds it, or a later one. */
  lemma {:induction false} ProbesKept(h: Hunt, n: nat, i: nat)
    requires i < n
    ensures h.Held(n, HashAt(h.input, h.table, h.Probe(i))) >= h.table.firstIndex + h.Probe(i)
    decreases n
  {
    hide HashAt, h.Probe;
    if i < n - 1 {
      ProbesKept(h, n - 1, i);
      ProbesGrow(h, i, n - 1);
    }
  }

  lemma ProbeHash(h: Hunt, position: nat)
    requires position + READ_SIZE <= |h.input|
    ensures HashAt(h.input, h.table, position) == Hash(h.input, position, h.table.hashedBytes, h.table.hashLog)
    ensures HashAt(h.input, h.table, position) < HASH_TABLE_SIZE
  {
    hide Hash;
  }

  lemma EntriesStep(h: Hunt, n: nat)
    requires HashAt(h.input, h.table, h.Probe(n)) < |h.past|
    ensures h.Entries(n + 1) == h.Entries(n)[HashAt(h.input, h.table, h.Probe(n)) := h.table.firstIndex + h.Probe(n)]
  {
    hide HashAt, h.Probe;
  }

  lemma {:induction false} HeldOldOrSince(h: Hunt, n: nat, hash: nat)
    requires hash < |h.past|
    ensures OldOrSince(h.Held(n, hash), h.past, h.table.firstIndex + h.start)
    decreases n
  {
    hide HashAt, h.Probe;
    if n > 0 { HeldOldOrSince(h, n - 1, hash); }
  }

  lemma {:induction false} HeldBelow(h: Hunt, n: nat, hash: nat, bound: nat)
    requires hash < |h.past| && Below(h.past, bound) && h.table.firstIndex + h.Probe(n) <= bound
    ensures h.Held(n, hash) < bound
    decreases n
  {
    hide HashAt, h.Probe;
    if n > 0 {
      ProbesGrow(h, n - 1, n);
      HeldBelow(h, n - 1, hash, bound);
    }
  }

  /** Probes that neither stop nor end the hunt. */
  ghost predicate Passed(h: Hunt, n: nat) {
    forall j: nat :: j < n ==> h.Inside(j / 2) && !h.Stops(j)
  }

  lemma InsideIs(h: Hunt, k: nat)
    ensures h.Inside(k) <==> RoundAt(h.start, k).far + 1 + READ_SIZE < |h.input|
  {
  }

  lemma NextRoundIs(r: Round)
    ensures var far := r.far + r.step;
            NextRound(r) == if far >= r.nextStep then Round(r.far, far, r.step + 1, r.nextStep + STEP_GROWTH_DISTANCE)
                            else Round(r.far, far, r.step, r.nextStep)
  {
  }

  /** Nothing has stopped the hunt before the entry of probe `i` is looked at. */
  ghost predicate Due(h: Hunt, i: nat) {
    Passed(h, i) && h.Inside(i / 2) && (i % 2 == 0 ==> !h.RepeatHit(i / 2))
  }

  lemma DueIs(h: Hunt, k: nat, n: nat)
    requires n == 2 * k && h.Inside(k)
    ensures Passed(h, n) && !h.RepeatHit(k) ==> Due(h, n)
    ensures Passed(h, n + 1) ==> Due(h, n + 1)
  {
    hide h.Inside, h.RepeatHit, Passed;
  }

  lemma Sizes()
    ensures READ_SIZE == 8 && FIRST_STEP == 2 && SHORTEST_MATCH == 4 && STEP_GROWTH_DISTANCE > 0 && U32_MAX < U32
  {
  }

  lemma FirstRound(start: nat)
    ensures RoundAt(start, 0) == Round(start, start + FIRST_STEP, FIRST_STEP, start + STEP_GROWTH_DISTANCE)
  {
  }

  lemma NothingProbed(h: Hunt)
    ensures h.Entries(0) == h.past && Passed(h, 0)
  {
  }

  lemma ProbesOf(h: Hunt, k: nat, n: nat)
    requires n == 2 * k
    ensures h.Probe(n) == RoundAt(h.start, k).position && h.Probe(n + 1) == h.Probe(n) + 1
    ensures h.Probe(n + 2) == RoundAt(h.start, k).far && h.Probe(n + 3) == h.Probe(n + 2) + 1
    ensures RoundAt(h.start, k + 1) == NextRound(RoundAt(h.start, k))
  {
    assert (n + 2) / 2 == k + 1 == (n + 3) / 2 && n / 2 == (n + 1) / 2 == k;
  }

  lemma Ended(h: Hunt, k: nat, n: nat)
    requires n == 2 * k && Passed(h, n) && !h.Inside(k)
    ensures !h.Finds() && h.Saves() == n
  {
    hide h.Inside, h.StopFrom, h.Stops;
    StopIs(h, 0, n);
  }

  lemma AtRepeat(h: Hunt, k: nat, n: nat, f: FoundMatch, literalStart: nat)
    requires n == 2 * k && Passed(h, n) && h.Inside(k) && h.RepeatHit(k) && h.repeat <= h.start
    requires var far := RoundAt(h.start, k).far;
             && f.isRepeat && far - 1 <= f.start <= far && f.source + h.repeat == f.start
             && f.start + f.knownLength == far + SHORTEST_MATCH
             && (f.start == far - 1 <==> h.input[far - 1] == h.input[far - 1 - h.repeat])
    ensures h.Finds() && h.Stop() == n && h.Saves() == n + 2 && f == h.Match(literalStart)
  {
    hide h.Inside, h.StopFrom, h.Hit, RoundAt, AgreeAt;
    StopIs(h, 0, n);
  }

  lemma HitIs(h: Hunt, i: nat, f: FoundMatch, literalStart: nat)
    requires Due(h, i) && h.Hit(i)
    requires h.CandidateAt(i) < h.Probe(i) <= |h.input| && !f.isRepeat
    requires f.start == h.Probe(i) - BytesBefore(h.input, h.Probe(i), h.CandidateAt(i), literalStart, h.windowStart)
    requires f.start - f.source == h.Probe(i) - h.CandidateAt(i)
    requires f.start + f.knownLength == h.Probe(i) + SHORTEST_MATCH
    ensures h.Finds() && h.Stop() == i && f == h.Match(literalStart)
    ensures h.Saves() == if i % 2 == 0 || RoundAt(h.start, i / 2).step <= SHORTEST_MATCH then i + 2 else i + 1
  {
    hide h.Inside, h.StopFrom, h.Hit, RoundAt, h.CandidateAt, h.Probe, h.RepeatHit, BytesBefore;
    StopIs(h, 0, i);
  }

  lemma RepeatThere(h: Hunt, k: nat)
    requires var far := RoundAt(h.start, k).far;
             && h.repeat <= far && far + 4 <= |h.input|
    ensures var far := RoundAt(h.start, k).far;
            h.RepeatHit(k) <==>
              h.repeat > 0 && h.input[far..far + 4] == h.input[far - h.repeat..far - h.repeat + 4]
  {
  }

  lemma AtHit(h: Hunt, i: nat)
    requires h.windowStart <= h.Probe(i) && h.Probe(i) + 4 <= |h.input| <= U32_MAX && h.CandidateAt(i) < U32
    requires IsMatch(h.input, h.Probe(i), h.CandidateAt(i), h.windowStart)
    ensures h.Hit(i)
  {
    hide IsMatch, h.Probe, h.CandidateAt;
  }

  lemma NotAt(h: Hunt, i: nat)
    requires Due(h, i) && h.windowStart <= h.Probe(i) && h.Probe(i) + 4 <= |h.input| <= U32_MAX
    requires h.CandidateAt(i) < U32
    requires !IsMatch(h.input, h.Probe(i), h.CandidateAt(i), h.windowStart)
    ensures Passed(h, i + 1)
  {
    hide IsMatch, h.Probe, h.CandidateAt, h.RepeatHit, h.Inside;
  }

  // ---------------------------------------------------------------- what a search takes

  datatype Taken = Taken(start: nat, source: nat, length: nat)

  /** Where a search stands: the entries, the position, two offsets to repeat, the matches taken. */
  datatype Searching = Searching(entries: seq<nat>, position: nat, first: nat, second: nat, taken: seq<Taken>)

  function Store(input: seq<byte>, table: Table, entries: seq<nat>, position: nat): seq<nat> {
    var hash := HashAt(input, table, position);
    if hash < |entries| then entries[hash := table.firstIndex + position] else entries
  }

  /** Matches at the second offset right after a match; the offsets change places each time. */
  function SecondRepeats(input: seq<byte>, table: Table, s: Searching, capacity: nat): (r: Searching)
    ensures |r.taken| >= |s.taken|
    decreases capacity - |s.taken|
  {
    if s.second > 0 && s.position + READ_SIZE <= |input| && |s.taken| < capacity
       && AgreeAt(input, s.position, s.second) then
      var source := s.position - s.second;
      var length := SHORTEST_MATCH + Lcp(input, s.position + SHORTEST_MATCH, source + SHORTEST_MATCH);
      SecondRepeats(input, table,
                    Searching(Store(input, table, s.entries, s.position), s.position + length, s.second, s.first,
                              s.taken + [Taken(s.position, source, length)]), capacity)
    else s
  }

  lemma SecondRepeatsStep(input: seq<byte>, table: Table, s: Searching, capacity: nat)
    ensures if s.second > 0 && s.position + READ_SIZE <= |input| && |s.taken| < capacity
               && AgreeAt(input, s.position, s.second) then
              var source: nat := s.position - s.second;
              var length := SHORTEST_MATCH + Lcp(input, s.position + SHORTEST_MATCH, source + SHORTEST_MATCH);
              SecondRepeats(input, table, s, capacity)
              == SecondRepeats(input, table,
                               Searching(Store(input, table, s.entries, s.position), s.position + length, s.second,
                                         s.first, s.taken + [Taken(s.position, source, length)]), capacity)
            else SecondRepeats(input, table, s, capacity) == s
  {
    hide Store, Lcp;
  }

  /** A match that was found, at its full length, two more entries if the search goes on, and the
      repeats right after it. */
  function TakeMatch(h: Hunt, s: Searching, f: FoundMatch, capacity: nat): (r: Searching)
    requires f.knownLength >= SHORTEST_MATCH && f.source < f.start
    ensures |r.taken| > |s.taken|
  {
    var length := f.knownLength + Lcp(h.input, f.start + f.knownLength, f.source + f.knownLength);
    var end := f.start + length;
    var first := if f.isRepeat then s.first else f.start - f.source;
    var second := if f.isRepeat then s.second else s.first;
    var taken := s.taken + [Taken(f.start, f.source, length)];
    var entries := h.Entries(h.Saves());
    if end + READ_SIZE <= |h.input| then
      var more := Store(h.input, h.table, entries, h.Probe(h.Stop()) + 2);
      SecondRepeats(h.input, h.table,
                    Searching(Store(h.input, h.table, more, end - 2), end, first, second, taken), capacity)
    else Searching(entries, end, first, second, taken)
  }

  function TakenTo(blockStart: nat, taken: seq<Taken>): nat {
    if taken == [] then blockStart else taken[|taken| - 1].start + taken[|taken| - 1].length
  }

  function HuntFrom(input: seq<byte>, table: Table, windowStart: nat, s: Searching): Hunt {
    Hunt(input, table, s.entries, s.position, s.first, windowStart)
  }

  /** Hunt after hunt, until one finds nothing or there is no room for more. */
  function Greedy(input: seq<byte>, table: Table, blockStart: nat, windowStart: nat, s: Searching,
                  capacity: nat): (r: Searching)
    decreases capacity - |s.taken|
  {
    var h := HuntFrom(input, table, windowStart, s);
    if |s.taken| >= capacity then s
    else if !h.Finds() then s.(entries := h.Entries(h.Saves()))
    else
      Greedy(input, table, blockStart, windowStart, TakeMatch(h, s, h.Match(TakenTo(blockStart, s.taken)), capacity),
             capacity)
  }

  lemma GreedyStep(input: seq<byte>, table: Table, blockStart: nat, windowStart: nat, s: Searching, capacity: nat)
    ensures var h := HuntFrom(input, table, windowStart, s);
            Greedy(input, table, blockStart, windowStart, s, capacity)
            == if |s.taken| >= capacity then s
               else if !h.Finds() then s.(entries := h.Entries(h.Saves()))
               else Greedy(input, table, blockStart, windowStart,
                           TakeMatch(h, s, h.Match(TakenTo(blockStart, s.taken)), capacity), capacity)
  {
    hide TakeMatch, TakenTo;
  }

  /** No match that is taken could have been longer. */
  predicate FullLength(input: seq<byte>, t: Taken) {
    Lcp(input, t.start + t.length, t.source + t.length) == 0
  }

  ghost predicate AllFull(input: seq<byte>, taken: seq<Taken>) {
    forall k :: 0 <= k < |taken| ==> FullLength(input, taken[k])
  }

  lemma EndsThere(input: seq<byte>, start: nat, source: nat, known: nat)
    requires source < start
    ensures FullLength(input, Taken(start, source, known + Lcp(input, start + known, source + known)))
  {
    var n := Lcp(input, start + known, source + known);
    LcpEnds(input, start + known, source + known);
  }

  lemma {:induction false} SecondRepeatsFull(input: seq<byte>, table: Table, s: Searching, capacity: nat)
    requires AllFull(input, s.taken)
    ensures AllFull(input, SecondRepeats(input, table, s, capacity).taken)
    decreases capacity - |s.taken|
  {
    hide FullLength, Store, Lcp, SecondRepeats;
    SecondRepeatsStep(input, table, s, capacity);
    if s.second > 0 && s.position + READ_SIZE <= |input| && |s.taken| < capacity
       && AgreeAt(input, s.position, s.second) {
      var source: nat := s.position - s.second;
      EndsThere(input, s.position, source, SHORTEST_MATCH);
      var length := SHORTEST_MATCH + Lcp(input, s.position + SHORTEST_MATCH, source + SHORTEST_MATCH);
      SecondRepeatsFull(input, table, Searching(Store(input, table, s.entries, s.position), s.position + length,
                                                s.second, s.first, s.taken + [Taken(s.position, source, length)]),
                        capacity);
    }
  }

  lemma TakeMatchFull(h: Hunt, s: Searching, f: FoundMatch, capacity: nat)
    requires f.knownLength >= SHORTEST_MATCH && f.source < f.start && AllFull(h.input, s.taken)
    ensures AllFull(h.input, TakeMatch(h, s, f, capacity).taken)
  {
    hide FullLength, Store, Lcp, SecondRepeats, h.Entries, h.Saves, h.Probe, h.Stop;
    EndsThere(h.input, f.start, f.source, f.knownLength);
    var length := f.knownLength + Lcp(h.input, f.start + f.knownLength, f.source + f.knownLength);
    var end := f.start + length;
    var first := if f.isRepeat then s.first else f.start - f.source;
    var second := if f.isRepeat then s.second else s.first;
    var taken := s.taken + [Taken(f.start, f.source, length)];
    assert AllFull(h.input, taken);
    if end + READ_SIZE <= |h.input| {
      var more := Store(h.input, h.table, h.Entries(h.Saves()), h.Probe(h.Stop()) + 2);
      SecondRepeatsFull(h.input, h.table,
                        Searching(Store(h.input, h.table, more, end - 2), end, first, second, taken), capacity);
    }
  }

  /** A search that has room left ends because a last hunt, from where the last match ended, finds
      nothing; and no match it took could have been longer. */
  lemma {:induction false} GreedyEnds(input: seq<byte>, table: Table, blockStart: nat, windowStart: nat, s: Searching,
                                      capacity: nat)
    requires AllFull(input, s.taken)
    ensures var r := Greedy(input, table, blockStart, windowStart, s, capacity);
            && AllFull(input, r.taken)
            && (|r.taken| < capacity ==>
                  exists entries :: !HuntFrom(input, table, windowStart, r.(entries := entries)).Finds())
    decreases capacity - |s.taken|
  {
    var h := HuntFrom(input, table, windowStart, s);
    hide *;
    GreedyStep(input, table, blockStart, windowStart, s, capacity);
    var r := Greedy(input, table, blockStart, windowStart, s, capacity);
    if |s.taken| < capacity {
      if h.Finds() {
        HuntIs(input, table, windowStart, s);
        var f := h.Match(TakenTo(blockStart, s.taken));
        TakeMatchFull(h, s, f, capacity);
        GreedyEnds(input, table, blockStart, windowStart, TakeMatch(h, s, f, capacity), capacity);
      } else {
        assert r.(entries := s.entries) == s;
      }
    }
  }

  lemma HuntIs(input: seq<byte>, table: Table, windowStart: nat, s: Searching)
    ensures HuntFrom(input, table, windowStart, s).input == input
  {
  }

  /** The whole search of a block; short blocks and blocks that start before the window take nothing. */
  function SearchOf(input: seq<byte>, table: Table, blockStart: nat, window: nat, entries: seq<nat>, offsets: History,
                    capacity: nat): Searching {
    var windowStart := Max(0, |input| - window);
    if |input| > U32_MAX || |input| - blockStart <= READ_SIZE || blockStart < windowStart then
      Searching(entries, blockStart, 0, 0, [])
    else Greedy(input, table, blockStart, windowStart, SearchStart(blockStart, window, windowStart, entries, offsets),
                capacity)
  }

  function SearchStart(blockStart: nat, window: nat, windowStart: nat, entries: seq<nat>, offsets: History): Searching {
    var position := blockStart + if blockStart == windowStart then 1 else 0;
    var largestRepeat := Min(position, window);
    Searching(entries, position, AllowRepeat(offsets.first, largestRepeat), AllowRepeat(offsets.second, largestRepeat),
              [])
  }

  /** The matches taken as records: the literals since the one before, the length, and the value the
      encoder's history gives the offset. */
  function RecordsOf(from: History, blockStart: nat, taken: seq<Taken>): (records: seq<SequenceRecord>)
    ensures |records| == |taken|
  {
    if taken == [] then []
    else
      var before, t := taken[..|taken| - 1], taken[|taken| - 1];
      var literalLength := Max(0, t.start - TakenTo(blockStart, before));
      RecordsOf(from, blockStart, before)
      + [SequenceRecord(literalLength, t.length,
                        ValueOf(HistoryOf(from, blockStart, before), Max(0, t.start - t.source), literalLength))]
  }

  function HistoryOf(from: History, blockStart: nat, taken: seq<Taken>): History {
    if taken == [] then from
    else
      var before, t := taken[..|taken| - 1], taken[|taken| - 1];
      var h := HistoryOf(from, blockStart, before);
      var literalLength := Max(0, t.start - TakenTo(blockStart, before));
      After(h, ValueOf(h, Max(0, t.start - t.source), literalLength), literalLength)
  }

  // ---------------------------------------------------------------- the list of sequences

  /** The block to be covered, the window, and the repeat offsets it starts from. */
  datatype Block = Block(input: seq<byte>, start: nat, window: nat, from: History)

  ghost predicate Sound(block: Block) {
    block.start <= |block.input| && |block.input| - block.start <= MAX_BLOCK_SIZE && block.window < 0x8000_0000
  }

  lemma StaysSmall(h: History, offset: nat, literalLength: nat)
    requires Small(h) && 0 < offset < 0x8000_0000
    ensures var value := ValueOf(h, offset, literalLength);
            0 < value < U32 && Small(After(h, value, literalLength))
  {
    ValueResolves(h, offset, literalLength);
    OffsetMovesToFront(h, ValueOf(h, offset, literalLength), literalLength);
  }

  class SequenceList {
    const sequences: array<SequenceRecord>
    const repeatOffsets: RepeatOffsets
    var count: nat
    var literalStart: nat
    var literals: seq<byte>
    ghost var taken: seq<Taken>

    /** What has been added rebuilds the input up to `literalStart`. */
    ghost predicate Holds(block: Block)
      reads this, sequences, repeatOffsets
    {
      && count <= sequences.Length && Lists(block) && literalStart == TakenTo(block.start, taken)
      && Small(repeatOffsets.State())
      && Rebuilds(block.input, block.start, block.window, literals, sequences[..count], block.from,
                  repeatOffsets.State(), literalStart)
    }

    /** The records are those of the matches taken. */
    ghost predicate Lists(block: Block)
      reads this, sequences, repeatOffsets
    {
      && count == |taken| && count <= sequences.Length
      && sequences[..count] == RecordsOf(block.from, block.start, taken)
      && repeatOffsets.State() == HistoryOf(block.from, block.start, taken)
    }

    constructor (sequences: array<SequenceRecord>, repeatOffsets: RepeatOffsets, literalStart: nat, ghost block: Block)
      requires Sound(block) && literalStart == block.start && repeatOffsets.State() == block.from && Small(block.from)
      ensures Holds(block) && count == 0 && this.literalStart == block.start && literals == [] && taken == []
      ensures this.sequences == sequences && this.repeatOffsets == repeatOffsets
    {
      this.sequences, this.repeatOffsets := sequences, repeatOffsets;
      count, this.literalStart, literals, taken := 0, literalStart, [], [];
      new;
      assert sequences[..0] == [];
      NothingRebuilt(block.input, block.start, block.window, block.from);
    }

    predicate IsFull()
      reads this
    {
      count == sequences.Length
    }

    /** `add`: the literals since the last match, then the match with the value of its offset. */
    method Add(input: seq<byte>, start: nat, source: nat, matchLength: nat, ghost block: Block)
      requires Holds(block) && Sound(block) && input == block.input
      requires count < sequences.Length && literalStart <= start && SHORTEST_MATCH <= matchLength
      requires Matches(input, start, source, matchLength) && start - source <= block.window
      modifies this, sequences, repeatOffsets
      ensures Holds(block) && count == old(count) + 1 && literalStart == start + matchLength
      ensures taken == old(taken) + [Taken(start, source, matchLength)]
      ensures literals == old(literals) + input[old(literalStart)..start]
      ensures sequences[..count] == old(sequences[..count])
                + [SequenceRecord(start - old(literalStart), matchLength,
                                  ValueOf(old(repeatOffsets.State()), start - source, start - old(literalStart)))]
    {
      hide Rebuilds, ValueOf, OffsetOf, After, Small, RecordsOf, HistoryOf;
      ghost var before, records, was := repeatOffsets.State(), sequences[..count], literals;
      OneMoreTaken(block.from, block.start, taken, Taken(start, source, matchLength));
      assert start + matchLength <= |input| && source < start;
      var literalLength := start - literalStart;
      literals := literals + input[literalStart..start];
      var offset := start - source;
      StaysSmall(before, offset, literalLength);
      SmallFirst(before);
      var offsetValue := repeatOffsets.GetOffsetValue(offset, literalLength);
      sequences[count] := SequenceRecord(literalLength, matchLength, offsetValue);
      RebuildsMatch(input, block.start, block.window, was, records, block.from, before, literalStart, start, offset,
                    matchLength, offsetValue);
      count := count + 1;
      literalStart := start + matchLength;
      taken := taken + [Taken(start, source, matchLength)];
      assert sequences[..count] == records + [SequenceRecord(literalLength, matchLength, offsetValue)];
    }

    /** `add_remaining_literals`. */
    method AddRemainingLiterals(input: seq<byte>, ghost block: Block)
      requires Holds(block) && Sound(block) && input == block.input
      modifies this
      ensures count == old(count) && count <= sequences.Length && literalStart == |input|
      ensures taken == old(taken) && Lists(block)
      ensures Small(repeatOffsets.State())
      ensures Parses(input, block.start, block.window, literals, sequences[..count], block.from, repeatOffsets.State())
    {
      hide Parses, Reaches, Small, RecordsOf, HistoryOf;
      RebuildsAll(input, block.start, block.window, literals, sequences[..count], block.from, repeatOffsets.State(),
                  literalStart);
      literals := literals + input[literalStart..];
      literalStart := |input|;
    }
  }

  lemma NothingTaken(from: History, blockStart: nat)
    ensures RecordsOf(from, blockStart, []) == [] && HistoryOf(from, blockStart, []) == from
  {
  }

  lemma OneMoreTaken(from: History, blockStart: nat, taken: seq<Taken>, t: Taken)
    requires TakenTo(blockStart, taken) <= t.start && t.source < t.start
    ensures var literalLength := t.start - TakenTo(blockStart, taken);
            var h := HistoryOf(from, blockStart, taken);
            var value := ValueOf(h, t.start - t.source, literalLength);
            && RecordsOf(from, blockStart, taken + [t])
            == RecordsOf(from, blockStart, taken) + [SequenceRecord(literalLength, t.length, value)]
            && HistoryOf(from, blockStart, taken + [t]) == After(h, value, literalLength)
  {
    hide ValueOf, After, TakenTo;
    assert (taken + [t])[..|taken|] == taken;
  }

  lemma SmallFirst(h: History)
    requires Small(h)
    ensures h.first < U32
  {
  }

  // ---------------------------------------------------------------- the finder

  /** The search's own two offsets; zero when not usable. */
  class Repeats {
    var first: nat
    var second: nat

    constructor (first: nat, second: nat)
      ensures this.first == first && this.second == second
    {
      this.first, this.second := first, second;
    }

    ghost predicate InReach(position: nat, window: nat)
      reads this
    {
      first <= position && first <= window && second <= position && second <= window
    }

    method UseNewOffset(offset: nat)
      modifies this
      ensures first == offset && second == old(first)
    {
      second := first;
      first := offset;
    }

    method Swap()
      modifies this
      ensures first == old(second) && second == old(first)
    {
      first, second := second, first;
    }
  }

  function AllowRepeat(offset: nat, largestRepeat: nat): (r: nat)
    ensures r <= largestRepeat && (offset <= largestRepeat <==> r == offset)
  {
    if offset <= largestRepeat then offset else 0
  }

  /** All entries are below `bound`. */
  ghost predicate Below(entries: seq<nat>, bound: nat) {
    forall k :: 0 <= k < |entries| ==> entries[k] < bound
  }

  lemma BelowUpdate(entries: seq<nat>, bound: nat, k: nat, entry: nat)
    requires Below(entries, bound) && k < |entries| && entry < bound
    ensures Below(entries[k := entry], bound)
  {
  }

  lemma BelowAt(entries: seq<nat>, bound: nat, k: nat)
    requires Below(entries, bound) && k < |entries|
    ensures entries[k] < bound
  {
  }

  /** An entry that was there before, or that is at least `least`. */
  ghost predicate OldOrSince(entry: nat, past: seq<nat>, least: nat) {
    entry in past || least <= entry
  }

  function GetHashedBytes(minMatch: nat): (n: nat)
    ensures 4 <= n <= 7 && (4 <= minMatch <= 7 ==> n == minMatch)
  {
    if minMatch <= 4 then 4 else if minMatch >= 7 then 7 else minMatch
  }

  /** `get_hash`: the first bytes of a word, multiplied and cut to `hashLog` bits. */
  function Hash(input: seq<byte>, position: nat, hashedBytes: nat, hashLog: nat): (hash: nat)
    requires position + READ_SIZE <= |input| && hashLog <= MAX_HASH_LOG
    ensures hash < HASH_TABLE_SIZE
  {
    if hashedBytes == 4 then
      FewSlots(hashLog);
      Words.HashFourBytes(input, position, hashLog)
    else
      var shift := if hashedBytes == 5 then 24 else if hashedBytes == 6 then 16 else 8;
      var prime := if hashedBytes == 5 then PRIME_FIVE_BYTES
                   else if hashedBytes == 6 then PRIME_SIX_BYTES else PRIME_SEVEN_BYTES;
      FewSlots(hashLog);
      HashLongWord(Shl64(LeWord(input[position..position + 8]), shift), prime, hashLog)
  }

  function HashLongWord(value: nat, prime: nat, hashLog: nat): (hash: nat)
    requires hashLog <= 64
    ensures hash < Pow2(hashLog)
  {
    ShrBound(LowBits(value * prime, 64), 64, 64 - hashLog);
    Shr(LowBits(value * prime, 64), 64 - hashLog)
  }

  lemma FewSlots(hashLog: nat)
    requires hashLog <= MAX_HASH_LOG
    ensures Pow2(hashLog) <= HASH_TABLE_SIZE
  {
    Pow2Mono(hashLog, MAX_HASH_LOG);
    assert Pow2(15) == 32768;
  }

  lemma TwentyBits()
    ensures Pow2(20) == 1_048_576
  {
    assert Pow2(10) == 1024;
  }

  lemma WindowFits(windowLog: nat)
    requires windowLog <= 27
    ensures Pow2(windowLog) < 0x8000_0000
  {
    Pow2Mono(windowLog, 27);
    TwentyBits();
    assert Pow2(24) == 16_777_216;
  }

  class FastFinder {
    const positions: array<nat>
    var windowLog: nat
    var hashLog: nat
    var hashedBytes: nat
    var firstIndex: nat
    var lastInputLength: nat

    /** No entry reaches past the present input, and indices stay 32-bit words. */
    ghost predicate Valid()
      reads this, positions
    {
      && positions.Length == HASH_TABLE_SIZE && hashLog <= MAX_HASH_LOG && 4 <= hashedBytes <= 7 && windowLog <= 27
      && 1 <= firstIndex && (firstIndex == 1 || firstIndex + lastInputLength < U32_MAX)
      && Below(positions[..], Min(U32, firstIndex + lastInputLength + 1))
    }

    constructor (windowLog: nat, hashLog: nat, minMatch: nat)
      requires windowLog <= 27 && hashLog >= 1
      ensures Valid() && fresh(positions) && firstIndex == 1 && Below(positions[..], firstIndex)
    {
      positions := new nat[HASH_TABLE_SIZE](_ => 0);
      this.windowLog := windowLog;
      this.hashLog := Min(hashLog, MAX_HASH_LOG);
      hashedBytes := GetHashedBytes(minMatch);
      firstIndex, lastInputLength := 1, 0;
    }

    /** `reset`: a new input starts above every index used so far, or, when indices run out, the
        table is cleared. Either way every entry is stale. */
    method Reset(inputLength: nat, windowLog: nat, hashLog: nat, minMatch: nat)
      requires Valid() && windowLog <= 27 && hashLog >= 1
      modifies this, positions
      ensures Valid() && lastInputLength == inputLength && Below(positions[..], firstIndex)
      ensures this.windowLog == windowLog && this.hashLog == Min(hashLog, MAX_HASH_LOG)
      ensures hashedBytes == GetHashedBytes(minMatch)
      ensures firstIndex == 1 || positions[..] == old(positions[..])
    {
      hide GetHashedBytes;
      this.windowLog := windowLog;
      this.hashLog := Min(hashLog, MAX_HASH_LOG);
      hashedBytes := GetHashedBytes(minMatch);
      var nextFirstIndex := firstIndex + lastInputLength + 1;
      if nextFirstIndex + inputLength >= U32_MAX {
        forall k | 0 <= k < positions.Length {
          positions[k] := 0;
        }
        firstIndex := 1;
      } else {
        firstIndex := nextFirstIndex;
      }
      lastInputLength := inputLength;
    }

    ghost predicate Fits(input: seq<byte>)
      reads `lastInputLength
    {
      READ_SIZE <= |input| <= lastInputLength && |input| <= U32_MAX
    }

    method SavePosition(hash: nat, position: nat, ghost input: seq<byte>)
      requires Valid() && Fits(input) && hash < HASH_TABLE_SIZE && position + READ_SIZE <= |input|
      modifies positions
      ensures Valid() && positions[..] == old(positions[..])[hash := position + firstIndex]
    {
      hide Below;
      BelowUpdate(positions[..], Min(U32, firstIndex + lastInputLength + 1), hash, position + firstIndex);
      ghost var before := positions[..];
      var stored: nat := position + firstIndex;
      positions[hash] := stored;
      assert positions[..] == before[hash := stored];
    }

    method SavePositionAt(input: seq<byte>, position: nat)
      requires Valid() && Fits(input) && position + READ_SIZE <= |input|
      modifies positions
      ensures Valid() && positions[..] == Store(input, TableNow(), old(positions[..]), position)
    {
      hide Below, Hash, Min;
      SavePosition(Hash(input, position, hashedBytes, hashLog), position, input);
    }

    method GetCandidate(hash: nat) returns (candidate: nat)
      requires Valid() && hash < HASH_TABLE_SIZE
      ensures positions[hash] < U32 && candidate < U32 && firstIndex < U32
      ensures candidate == Candidate(positions[hash], firstIndex)
    {
      hide Below;
      BelowAt(positions[..], Min(U32, firstIndex + lastInputLength + 1), hash);
      candidate := Candidate(positions[hash], firstIndex);
    }

    lemma ValidParts()
      requires Valid()
      ensures hashLog <= MAX_HASH_LOG && firstIndex <= U32 && positions.Length == HASH_TABLE_SIZE
      ensures Below(positions[..], Min(U32, firstIndex + lastInputLength + 1))
    {
      hide Below;
    }

    lemma FitsParts(input: seq<byte>)
      requires Fits(input)
      ensures READ_SIZE <= |input| <= U32_MAX
    {
    }

    lemma TableIs()
      requires firstIndex <= U32 && hashLog <= MAX_HASH_LOG
      ensures TableNow() == Table(firstIndex, hashedBytes, hashLog)
    {
    }

    ghost function TableNow(): Table
      requires firstIndex <= U32 && hashLog <= MAX_HASH_LOG
      reads `firstIndex, `hashedBytes, `hashLog
    {
      Table(firstIndex, hashedBytes, hashLog)
    }

    /** The finder is on this hunt. */
    ghost predicate On(h: Hunt)
      reads this, positions
    {
      && Valid() && Fits(h.input) && h.table == TableNow() && |h.past| == HASH_TABLE_SIZE
      && Below(h.past, Min(U32, firstIndex + lastInputLength + 1))
    }

    lemma OnParts(h: Hunt)
      requires Valid() && firstIndex <= U32 && hashLog <= MAX_HASH_LOG
      ensures On(h)
         <==> && Fits(h.input) && h.table == TableNow() && |h.past| == HASH_TABLE_SIZE
              && Below(h.past, Min(U32, firstIndex + lastInputLength + 1))
    {
      hide Below;
    }

    lemma OnIsValid(h: Hunt)
      requires On(h)
      ensures Valid() && firstIndex <= U32 && hashLog <= MAX_HASH_LOG
    {
      hide Below;
    }

    /** The same two for the probes of a hunt. */
    method SaveProbe(hash: nat, position: nat, ghost h: Hunt, ghost i: nat)
      requires On(h) && position + READ_SIZE <= |h.input| && hashLog <= MAX_HASH_LOG && positions[..] == h.Entries(i)
      requires position == h.Probe(i) && hash == Hash(h.input, position, hashedBytes, hashLog)
      modifies positions
      ensures On(h) && positions[..] == h.Entries(i + 1)
    {
      hide Below, Hash, HashAt, h.Probe, h.Entries;
      ProbeHash(h, position);
      EntriesStep(h, i);
      SavePosition(hash, position, h.input);
    }

    method CandidateOf(hash: nat, ghost h: Hunt, ghost i: nat) returns (candidate: nat)
      requires On(h) && hashLog <= MAX_HASH_LOG && positions[..] == h.Entries(i)
      requires h.Probe(i) + READ_SIZE <= |h.input| && hash == Hash(h.input, h.Probe(i), hashedBytes, hashLog)
      ensures candidate == h.CandidateAt(i) < U32
    {
      hide Below, Hash, HashAt, h.Probe, h.Held, Candidate;
      ProbeHash(h, h.Probe(i));
      candidate := GetCandidate(hash);
    }

    /** What the window test lets through is an entry of this input, from before or from a probe. */
    lemma HitEntry(h: Hunt, i: nat)
      requires On(h) && h.Hit(i) && h.Probe(i) + READ_SIZE <= |h.input|
      ensures h.CandidateAt(i) < h.Probe(i) && h.windowStart <= h.CandidateAt(i)
      ensures Matches(h.input, h.Probe(i), h.CandidateAt(i), SHORTEST_MATCH)
      ensures OldOrSince(firstIndex + h.CandidateAt(i), h.past, firstIndex + h.start)
    {
      hide Below, Hash, HashAt, h.Probe, h.Held, Candidate, IsInsideWindow, IsMatch, Matches, OldOrSince;
      var hash := HashAt(h.input, h.table, h.Probe(i));
      ProbeHash(h, h.Probe(i));
      MatchFound(h.input, h.Probe(i), h.CandidateAt(i), h.windowStart);
      MatchesBounds(h.input, h.Probe(i), h.CandidateAt(i), SHORTEST_MATCH);
      HeldOldOrSince(h, i, hash);
      HeldBelow(h, i, hash, Min(U32, firstIndex + lastInputLength + 1));
      InsideIsOwn(h.Held(i, hash), firstIndex, h.Probe(i), h.windowStart);
    }

    /** What a search owes: a true match after the last one, no further back than the window. */
    ghost predicate Found(input: seq<byte>, found: FoundMatch, before: nat, literalStart: nat, repeat: nat,
                          lastSaved: nat)
      reads `windowLog
    {
      && found.source < found.start && Matches(input, found.start, found.source, found.knownLength)
      && found.knownLength >= SHORTEST_MATCH && literalStart <= found.start
      && found.start - found.source <= Pow2(windowLog)
      && (found.isRepeat ==> found.start - found.source == repeat)
      && before <= lastSaved && lastSaved + SHORTEST_MATCH <= found.start + found.knownLength
    }

    /** A match that is no repeat starts from an entry of this input and inside the window: the entry
        was in the table before, or has been stored since. It is where the four bytes that agreed
        stand, behind those that were found to agree before them. */
    ghost predicate FromEntry(found: FoundMatch, windowStart: nat, start: nat, past: seq<nat>)
      reads `firstIndex
    {
      && found.knownLength >= SHORTEST_MATCH && found.source < found.start
      && var source := found.source + found.knownLength - SHORTEST_MATCH;
      && var position := found.start + found.knownLength - SHORTEST_MATCH;
      && firstIndex + windowStart <= firstIndex + source < firstIndex + position
      && OldOrSince(firstIndex + source, past, firstIndex + start)
    }

    lemma EntryFound(h: Hunt, i: nat, found: FoundMatch)
      requires h.windowStart <= h.CandidateAt(i) < h.Probe(i) && found.knownLength >= SHORTEST_MATCH
      requires OldOrSince(firstIndex + h.CandidateAt(i), h.past, firstIndex + h.start)
      requires found.start - found.source == h.Probe(i) - h.CandidateAt(i)
      requires found.start + found.knownLength == h.Probe(i) + SHORTEST_MATCH
      ensures FromEntry(found, h.windowStart, h.start, h.past)
    {
      hide h.CandidateAt, h.Probe, OldOrSince;
    }

    /** The match where the hunt stops at the repeat offset. */
    method MatchAtRepeat(input: seq<byte>, far: nat, repeat: nat, literalStart: nat, ghost h: Hunt,
                         ghost k: nat, ghost n: nat)
      returns (found: FoundMatch)
      requires On(h) && h.input == input && far + READ_SIZE <= |input| && literalStart <= h.start
      requires 0 < repeat == h.repeat <= h.start && repeat <= Pow2(windowLog) && far == RoundAt(h.start, k).far
      requires n == 2 * k && Passed(h, n) && h.Inside(k) && READ_SIZE == 8
      requires input[far..far + 4] == input[far - repeat..far - repeat + 4]
      ensures h.Finds() && h.Stop() == n && h.Saves() == n + 2 && found == h.Match(literalStart)
      ensures Found(input, found, h.start, literalStart, repeat, RoundAt(h.start, k).position) && found.isRepeat
    {
      hide Below, Min, Matches, Pow2, RoundAt, AgreeAt, HashAt, BytesBefore, Passed;
      hide h.Held, h.CandidateAt, h.Hit, h.StopFrom, h.Match, h.Probe, h.RepeatHit, h.Inside, h.Finds, h.Stop, h.Saves;
      RepeatThere(h, k);
      FourMatch(input, far, far - repeat);
      found := ExtendRepeatBackward(input, far, repeat);
      AtRepeat(h, k, n, found, literalStart);
    }

    /** The match where the hunt stops at an entry. */
    method MatchAt(input: seq<byte>, position: nat, candidate: nat, literalStart: nat, windowStart: nat,
                   ghost h: Hunt, ghost k: nat, ghost i: nat)
      returns (found: FoundMatch)
      requires i == 2 * k || i == 2 * k + 1
      requires On(h) && h.input == input && position + READ_SIZE <= |input| <= U32_MAX && READ_SIZE == 8
      requires position == h.Probe(i) && h.windowStart == windowStart <= position && candidate == h.CandidateAt(i) < U32
      requires IsMatch(h.input, position, candidate, h.windowStart) && literalStart <= h.start
      requires Due(h, i) && |h.input| - h.windowStart <= Pow2(windowLog)
      ensures h.Finds() && h.Stop() == i && found == h.Match(literalStart)
      ensures h.Saves() == if i == 2 * k || RoundAt(h.start, k).step <= SHORTEST_MATCH then i + 2 else i + 1
      ensures Found(h.input, found, h.start, literalStart, h.repeat, position)
      ensures !found.isRepeat && FromEntry(found, h.windowStart, h.start, h.past)
    {
      hide Below, Min, Matches, Candidate, IsInsideWindow, Pow2, IsMatch, OldOrSince, FromEntry, RoundAt, AgreeAt,
        HashAt, BytesBefore, Passed;
      hide h.Held, h.CandidateAt, h.Hit, h.StopFrom, h.Match, h.Probe, h.RepeatHit, h.Inside, h.Finds, h.Stop, h.Saves;
      AtHit(h, i);
      HitEntry(h, i);
      found := ExtendBackward(input, position, candidate, literalStart, windowStart);
      HitIs(h, i, found, literalStart);
      EntryFound(h, i, found);
    }

    /** The test of one entry; a match stores the next position too, unless the search has grown wide. */
    method TryEntry(input: seq<byte>, position: nat, candidate: nat, literalStart: nat, windowStart: nat,
                    saveNext: bool, nextHash: nat, nextPosition: nat, ghost h: Hunt, ghost k: nat, ghost i: nat)
      returns (found: Option<FoundMatch>)
      requires i == 2 * k || i == 2 * k + 1
      requires On(h) && h.input == input && position < nextPosition && READ_SIZE == 8 && SHORTEST_MATCH == 4
      requires nextPosition + READ_SIZE <= |input| <= U32_MAX && hashLog <= MAX_HASH_LOG
      requires position == h.Probe(i) && h.windowStart == windowStart <= position && candidate == h.CandidateAt(i) < U32
      requires nextPosition == h.Probe(i + 1) && nextHash == Hash(input, nextPosition, hashedBytes, hashLog)
      requires Due(h, i) && |input| - windowStart <= Pow2(windowLog) && literalStart <= h.start
      requires saveNext <==> i == 2 * k || RoundAt(h.start, k).step <= SHORTEST_MATCH
      requires positions[..] == h.Entries(i + 1)
      modifies positions
      ensures On(h)
      ensures found.None? ==> Passed(h, i + 1) && positions[..] == h.Entries(i + 1)
      ensures found.Some? ==> h.Finds() && h.Stop() == i && found.value == h.Match(literalStart)
      ensures found.Some? ==> positions[..] == h.Entries(h.Saves())
      ensures found.Some? ==> Found(h.input, found.value, h.start, literalStart, h.repeat, position)
      ensures found.Some? ==> !found.value.isRepeat && FromEntry(found.value, windowStart, h.start, h.past)
    {
      hide *;
      if IsMatch(input, position, candidate, windowStart) {
        if saveNext {
          SaveProbe(nextHash, nextPosition, h, i + 1);
        }
        var f := MatchAt(input, position, candidate, literalStart, windowStart, h, k, i);
        return Some(f);
      }
      NotAt(h, i);
      return None;
    }

    /** The inner loop: two positions a round, and the first offset at a third; the step grows
        with the distance searched. */
    method FindMatch(input: seq<byte>, start: nat, repeat: nat, literalStart: nat, windowStart: nat, searchEnd: nat)
      returns (found: Option<FoundMatch>, lastSaved: nat)
      requires Valid() && Fits(input) && searchEnd + READ_SIZE == |input|
      requires literalStart <= start && windowStart <= start && |input| - windowStart <= Pow2(windowLog)
      requires repeat <= start && repeat <= Pow2(windowLog)
      modifies positions
      ensures Valid()
      ensures var h := Hunt(input, TableNow(), old(positions[..]), start, repeat, windowStart);
              && (found.Some? <==> h.Finds())
              && (found.Some? ==> found.value == h.Match(literalStart) && lastSaved == h.Probe(h.Stop()))
              && positions[..] == h.Entries(h.Saves())
      ensures found.Some? ==> Found(input, found.value, start, literalStart, repeat, lastSaved)
      ensures found.Some? && !found.value.isRepeat ==> FromEntry(found.value, windowStart, start, old(positions[..]))
    {
      hide *;
      Sizes();
      ValidParts();
      FitsParts(input);
      TableIs();
      ghost var h := Hunt(input, TableNow(), positions[..], start, repeat, windowStart);
      lastSaved := 0;
      var position := start;
      var step: nat := FIRST_STEP;
      var nextStepPosition: nat := position + STEP_GROWTH_DISTANCE;
      var nextPosition: nat := position + 1;
      var farPosition: nat := position + step;
      var farNextPosition: nat := farPosition + 1;
      FirstRound(start);
      OnParts(h);
      NothingProbed(h);
      InsideIs(h, 0);
      if farNextPosition >= searchEnd {
        Ended(h, 0, 0);
        return None, lastSaved;
      }
      var hash: nat := Hash(input, position, hashedBytes, hashLog);
      var nextHash: nat := Hash(input, nextPosition, hashedBytes, hashLog);
      ProbesOf(h, 0, 0);
      var candidate: nat := CandidateOf(hash, h, 0);
      ghost var k, n := 0, 0;
      while true
        invariant On(h)
        invariant RoundAt(start, k) == Round(position, farPosition, step, nextStepPosition)
        invariant nextPosition == position + 1 && farNextPosition == farPosition + 1 && farNextPosition < searchEnd
        invariant hash == Hash(input, position, hashedBytes, hashLog)
        invariant nextHash == Hash(input, nextPosition, hashedBytes, hashLog)
        invariant n == 2 * k && Passed(h, n)
        invariant positions[..] == h.Entries(n) && candidate == h.CandidateAt(n) < U32
        modifies positions
        decreases |input| - position
      {
        lastSaved := position;
        OnIsValid(h);
        ProbesOf(h, k, n);
        NextRoundIs(RoundAt(start, k));
        InsideIs(h, k);
        DueIs(h, k, n);
        RepeatThere(h, k);
        SaveProbe(hash, position, h, n);
        if repeat > 0 && input[farPosition..farPosition + 4] == input[farPosition - repeat..farPosition - repeat + 4] {
          SaveProbe(nextHash, nextPosition, h, n + 1);
          var f := MatchAtRepeat(input, farPosition, repeat, literalStart, h, k, n);
          OnIsValid(h);
          return Some(f), lastSaved;
        }
        found := TryEntry(input, position, candidate, literalStart, windowStart, true, nextHash, nextPosition, h, k, n);
        if found.Some? {
          OnIsValid(h);
          return;
        }

        candidate := CandidateOf(nextHash, h, n + 1);
        hash := nextHash;
        nextHash := Hash(input, farPosition, hashedBytes, hashLog);
        position := nextPosition;
        nextPosition := farPosition;
        farPosition := farNextPosition;

        lastSaved := position;
        SaveProbe(hash, position, h, n + 1);
        found := TryEntry(input, position, candidate, literalStart, windowStart, step <= SHORTEST_MATCH, nextHash,
                          nextPosition, h, k, n + 1);
        if found.Some? {
          OnIsValid(h);
          return;
        }

        candidate := CandidateOf(nextHash, h, n + 2);
        hash := nextHash;
        nextHash := Hash(input, farPosition, hashedBytes, hashLog);
        position := nextPosition;
        nextPosition := farPosition;
        farPosition := position + step;
        farNextPosition := nextPosition + step;

        if farPosition >= nextStepPosition {
          step := step + 1;
          nextStepPosition := nextStepPosition + STEP_GROWTH_DISTANCE;
        }
        k, n := k + 1, n + 2;
        InsideIs(h, k);
        if farNextPosition >= searchEnd {
          Ended(h, k, n);
          OnIsValid(h);
          return None, lastSaved;
        }
      }
    }

    /** `add_second_repeats`: matches at the second offset right after a match, with no literals. */
    method AddSecondRepeats(input: seq<byte>, list: SequenceList, repeats: Repeats, start: nat, searchEnd: nat,
                            ghost block: Block)
      returns (position: nat)
      requires Valid() && Fits(input) && searchEnd + READ_SIZE == |input|
      requires Sound(block) && block.input == input && block.window == Pow2(windowLog)
      requires list.Holds(block) && list.literalStart == start && repeats.InReach(start, block.window)
      modifies positions, list, list.sequences, list.repeatOffsets, repeats
      ensures Valid() && list.Holds(block) && list.literalStart == position && repeats.InReach(position, block.window)
      ensures list.count >= old(list.count) && position >= start
      ensures Searching(positions[..], position, repeats.first, repeats.second, list.taken)
           == SecondRepeats(input, TableNow(),
                            old(Searching(positions[..], start, repeats.first, repeats.second, list.taken)),
                            list.sequences.Length)
    {
      hide Below, Min, Matches, Pow2, Rebuilds, Small, ValueOf, SecondRepeats, RecordsOf, HistoryOf, Store, Lcp;
      position := start;
      ghost var first := Searching(positions[..], start, repeats.first, repeats.second, list.taken);
      while repeats.second > 0 && position <= searchEnd && !list.IsFull()
            && input[position..position + 4] == input[position - repeats.second..position - repeats.second + 4]
        invariant Valid() && list.Holds(block) && list.literalStart == position
        invariant repeats.InReach(position, block.window)
        invariant list.count >= old(list.count) && position >= start
        invariant SecondRepeats(input, TableNow(),
                                Searching(positions[..], position, repeats.first, repeats.second, list.taken),
                                list.sequences.Length)
               == SecondRepeats(input, TableNow(), first, list.sequences.Length)
        decreases list.sequences.Length - list.count
      {
        SecondRepeatsStep(input, TableNow(),
                          Searching(positions[..], position, repeats.first, repeats.second, list.taken),
                          list.sequences.Length);
        var source := position - repeats.second;
        FourMatch(input, position, source);
        var matchLength := MatchLength(input, FoundMatch(position, source, SHORTEST_MATCH, true));
        repeats.Swap();
        SavePositionAt(input, position);
        list.Add(input, position, source, matchLength, block);
        position := position + matchLength;
      }
      SecondRepeatsStep(input, TableNow(),
                        Searching(positions[..], position, repeats.first, repeats.second, list.taken),
                        list.sequences.Length);
    }

    /** The rest of a round: the full length, the list, and the repeats right after. */
    method AddFound(input: seq<byte>, list: SequenceList, repeats: Repeats, found: FoundMatch, before: nat,
                    lastSaved: nat, searchEnd: nat, ghost block: Block, ghost h: Hunt)
      returns (position: nat)
      requires Valid() && Fits(input) && searchEnd + READ_SIZE == |input|
      requires Sound(block) && block.input == input && block.window == Pow2(windowLog)
      requires list.Holds(block) && !list.IsFull() && list.literalStart <= before
      requires repeats.InReach(before, block.window)
      requires Found(input, found, before, list.literalStart, repeats.first, lastSaved)
      requires h.input == input && h.table == TableNow() && positions[..] == h.Entries(h.Saves())
      requires lastSaved == h.Probe(h.Stop())
      modifies positions, list, list.sequences, list.repeatOffsets, repeats
      ensures Valid() && list.Holds(block) && list.literalStart == position && repeats.InReach(position, block.window)
      ensures list.count > old(list.count) && position >= before
      ensures Searching(positions[..], position, repeats.first, repeats.second, list.taken)
           == TakeMatch(h, Searching(h.past, before, old(repeats.first), old(repeats.second), old(list.taken)), found,
                        list.sequences.Length)
    {
      hide Below, Min, Matches, Pow2, Rebuilds, Small, ValueOf, SecondRepeats, RecordsOf, HistoryOf, Store, Lcp,
        TakenTo, RoundAt, h.Entries, h.Saves, h.Probe, h.Stop, SequenceList.Lists;
      if !found.isRepeat {
        repeats.UseNewOffset(found.start - found.source);
      }
      var matchLength := MatchLength(input, found);
      MatchesBounds(input, found.start, found.source, matchLength);
      list.Add(input, found.start, found.source, matchLength, block);
      position := found.start + matchLength;
      if position <= searchEnd {
        SavePositionAt(input, lastSaved + 2);
        SavePositionAt(input, position - 2);
        position := AddSecondRepeats(input, list, repeats, position, searchEnd, block);
      }
    }

    /** `search`, for the hashed byte count in use. */
    method Search(input: seq<byte>, blockStart: nat, list: SequenceList, ghost block: Block)
      requires Valid() && Fits(input) && blockStart + READ_SIZE < |input| && |input| - Pow2(windowLog) <= blockStart
      requires Sound(block) && block == Block(input, blockStart, Pow2(windowLog), block.from)
      requires list.Holds(block) && list.literalStart == blockStart && list.taken == []
      modifies positions, list, list.sequences, list.repeatOffsets
      ensures Valid() && list.count <= list.sequences.Length && Small(list.repeatOffsets.State())
      ensures Parses(input, blockStart, block.window, list.literals, list.sequences[..list.count], block.from,
                     list.repeatOffsets.State())
      ensures var windowStart := Max(0, |input| - block.window);
              var start := SearchStart(blockStart, block.window, windowStart, old(positions[..]), block.from);
              var end := Greedy(input, TableNow(), blockStart, windowStart, start, list.sequences.Length);
              list.Lists(block) && list.taken == end.taken && positions[..] == end.entries
    {
      hide Below, Matches, Pow2, Rebuilds, Small, ValueOf, Parses, RecordsOf, HistoryOf, TakeMatch, Greedy, Hunt.Match,
        Hunt.Finds, Hunt.Entries, Hunt.Saves, Hunt.Probe, Hunt.Stop;
      NothingTaken(block.from, blockStart);
      var windowSize := Pow2(windowLog);
      var searchEnd := |input| - READ_SIZE;
      var windowStart := Max(0, |input| - windowSize);
      var position := blockStart + if blockStart == windowStart then 1 else 0;
      var largestRepeat := Min(position, windowSize);
      var repeats := new Repeats(AllowRepeat(list.repeatOffsets.first, largestRepeat),
                                 AllowRepeat(list.repeatOffsets.second, largestRepeat));
      ghost var end := Greedy(input, TableNow(), blockStart, windowStart,
                              Searching(positions[..], position, repeats.first, repeats.second, []),
                              list.sequences.Length);
      while !list.IsFull()
        invariant Valid() && list.Holds(block)
        invariant list.literalStart <= position && windowStart <= position && repeats.InReach(position, windowSize)
        invariant Greedy(input, TableNow(), blockStart, windowStart,
                         Searching(positions[..], position, repeats.first, repeats.second, list.taken),
                         list.sequences.Length) == end
        decreases list.sequences.Length - list.count
      {
        ghost var s := Searching(positions[..], position, repeats.first, repeats.second, list.taken);
        ghost var h := HuntFrom(input, TableNow(), windowStart, s);
        GreedyStep(input, TableNow(), blockStart, windowStart, s, list.sequences.Length);
        var found, lastSaved := FindMatch(input, position, repeats.first, list.literalStart, windowStart, searchEnd);
        assert h == Hunt(input, TableNow(), s.entries, position, repeats.first, windowStart);
        if found.None? {
          break;
        }
        position := AddFound(input, list, repeats, found.value, position, lastSaved, searchEnd, block, h);
      }
      GreedyStep(input, TableNow(), blockStart, windowStart,
                 Searching(positions[..], position, repeats.first, repeats.second, list.taken), list.sequences.Length);
      assert list.taken == end.taken && positions[..] == end.entries;
      list.AddRemainingLiterals(input, block);
    }

    /** `find_sequences`: for any run of resets and blocks, the records and literals returned rebuild
        the block from the history, no offset leaves the window, and the encoder's repeat offsets
        are those the decoder ends with. */
    method FindSequences(input: seq<byte>, blockStart: nat, sequences: array<SequenceRecord>,
                         repeatOffsets: RepeatOffsets)
      returns (count: nat, literals: seq<byte>)
      requires Valid() && blockStart <= |input| <= lastInputLength && |input| - blockStart <= MAX_BLOCK_SIZE
      requires Small(repeatOffsets.State())
      modifies positions, sequences, repeatOffsets
      ensures Valid() && count <= sequences.Length
      ensures Parses(input, blockStart, Pow2(windowLog), literals, sequences[..count], old(repeatOffsets.State()),
                     repeatOffsets.State())
      ensures Small(repeatOffsets.State())
      ensures var end := SearchOf(input, TableNow(), blockStart, Pow2(windowLog), old(positions[..]),
                                  old(repeatOffsets.State()), sequences.Length);
              && sequences[..count] == RecordsOf(old(repeatOffsets.State()), blockStart, end.taken)
              && positions[..] == end.entries
    {
      hide Below, Pow2, Rebuilds, Small, Parses, RecordsOf, HistoryOf, Greedy, SearchStart;
      var blockLength := |input| - blockStart;
      var windowStart := Max(0, |input| - Pow2(windowLog));
      assert Pow2(windowLog) < 0x8000_0000 by { WindowFits(windowLog); }
      ghost var block := Block(input, blockStart, Pow2(windowLog), repeatOffsets.State());
      var list := new SequenceList(sequences, repeatOffsets, blockStart, block);
      if |input| > U32_MAX || blockLength <= READ_SIZE || blockStart < windowStart {
        list.AddRemainingLiterals(input, block);
      } else {
        Search(input, blockStart, list, block);
      }
      return list.count, list.literals;
    }
  }
}
