/** The binary-tree match finder. Inserting a position splits its bucket's tree in place; the
    search that does so skips bytes it knows to be common and still finds exact lengths. */
module BinaryTreeMatcher {
  import opened Bits
  import opened SuffixOrder
  import opened SearchForest
  import opened TreeSearch
  import opened RepeatOffsets

  const MAX_HASH3_LOG := 17
  const LONGEST_OPTIMAL_MATCH := 4096
  const INPUT_TAIL_RESERVE := 8
  const WINDOW_START_INDEX := 2
  const PRIME_THREE_BYTES := 506_832_829
  const PRIME_FOUR_BYTES := 2_654_435_761
  const MAX_HASH3_DISTANCE := 262_144
  const SHORTEST_MATCH := 3
  const REPEAT_OFFSET_COUNT := 3
  const LONG_MATCH_SKIP_THRESHOLD := 384
  const LONG_MATCH_SKIP_LIMIT := 192

  datatype MatchCandidate = MatchCandidate(offsetBase: nat, length: nat)

  // ---------------------------------------------------------------- reading the input

  function ReadU32(input: seq<byte>, position: nat): nat
    requires position + 4 <= |input|
  {
    LeWord(input[position..position + 4])
  }

  function HashWord(value: nat, prime: nat, hashLog: nat): (hash: nat)
    requires hashLog <= 32
    ensures hash < Pow2(hashLog)
  {
    ShrBound(LowBits(value * prime, 32), 32, 32 - hashLog);
    Shr(LowBits(value * prime, 32), 32 - hashLog)
  }

  function HashFourBytes(input: seq<byte>, position: nat, hashLog: nat): (hash: nat)
    requires position + 4 <= |input| && hashLog <= 32
    ensures hash < Pow2(hashLog)
  {
    HashWord(ReadU32(input, position), PRIME_FOUR_BYTES, hashLog)
  }

  /** The first three bytes, moved to the top of the word. */
  function HashThreeBytes(input: seq<byte>, position: nat, hashLog: nat): (hash: nat)
    requires position + 4 <= |input| && hashLog <= 32
    ensures hash < Pow2(hashLog)
  {
    HashWord(LowBits(Shl(ReadU32(input, position), 8), 32), PRIME_THREE_BYTES, hashLog)
  }

  /** Index of the first byte in which two words differ: trailing zeros of their xor over eight. */
  method FirstDifference(a: seq<byte>, b: seq<byte>) returns (k: nat)
    requires |a| == |b| && a != b
    ensures k < |a| && a[..k] == b[..k] && a[k] != b[k]
  {
    k := 0;
    while a[k] == b[k]
      invariant k < |a| && a[..k] == b[..k]
      decreases |a| - k
    {
      assert a == a[..k] + [a[k]] + a[k + 1..];
      assert b == b[..k] + [b[k]] + b[k + 1..];
      k := k + 1;
    }
  }

  /** `count_unchecked`: eight bytes at a time, then single bytes. */
  method Count(input: seq<byte>, first: nat, second: nat) returns (matched: nat)
    requires second < first <= |input|
    ensures matched == Lcp(input, first, second)
  {
    hide Lcp;
    var end := |input|;
    matched := 0;
    LcpAgree(input, first, second, 0);
    while first + matched + 8 <= end
      invariant first + matched <= end && matched <= Lcp(input, first, second)
    {
      var a, b := input[first + matched..first + matched + 8], input[second + matched..second + matched + 8];
      if a != b {
        var k := FirstDifference(a, b);
        assert a[..k] == input[first + matched..first + matched + k];
        assert b[..k] == input[second + matched..second + matched + k];
        MatchedMore(input, first, second, matched, k);
        LcpStops(input, first, second, matched + k);
        return matched + k;
      }
      MatchedMore(input, first, second, matched, 8);
      matched := matched + 8;
    }
    while first + matched < end && input[first + matched] == input[second + matched]
      invariant first + matched <= end && matched <= Lcp(input, first, second)
    {
      assert input[first + matched..first + matched + 1] == input[second + matched..second + matched + 1];
      MatchedMore(input, first, second, matched, 1);
      matched := matched + 1;
    }
    LcpStops(input, first, second, matched);
  }

  lemma MatchedMore(input: seq<byte>, first: nat, second: nat, matched: nat, more: nat)
    requires second < first && first + matched + more <= |input| && matched <= Lcp(input, first, second)
    requires input[first + matched..first + matched + more] == input[second + matched..second + matched + more]
    ensures matched + more <= Lcp(input, first, second)
  {
    hide Lcp;
    LcpAgree(input, first, second, matched);
    forall k: nat | k < matched + more
      ensures Same(input, first, second, k)
    {
      if k >= matched {
        assert input[first + matched..first + matched + more][k - matched] == input[first + k];
        assert input[second + matched..second + matched + more][k - matched] == input[second + k];
      }
    }
    LcpAgree(input, first, second, matched + more);
  }

  lemma LcpStops(input: seq<byte>, first: nat, second: nat, matched: nat)
    requires second < first && matched <= Lcp(input, first, second)
    requires first + matched >= |input| || input[first + matched] != input[second + matched]
    ensures matched == Lcp(input, first, second)
  {
    hide Lcp;
    if matched < Lcp(input, first, second) {
      LcpEqual(input, first, second, matched);
    }
  }

  /** The first byte after the common ones orders the two suffixes. */
  lemma OrderedByByte(w: Window, n: nat, m: nat, length: nat)
    requires length == Lcp(w.text, Pos(w, n), Pos(w, m)) && Pos(w, m) < Pos(w, n) && Pos(w, n) + length < |w.text|
    ensures Dir(w, w.text[Pos(w, m) + length] < w.text[Pos(w, n) + length], m, n)
  {
    LcpEnds(w.text, Pos(w, n), Pos(w, m));
    LcpSymmetric(w.text, Pos(w, n), Pos(w, m));
  }

  // ---------------------------------------------------------------- the matcher

  class BinaryTreeMatcher {
    const hashTable: array<nat>
    const treeTable: array<nat>
    const hash3Table: array<nat>
    var hashLog: nat
    var hash3Log: nat
    var treeMask: nat
    var windowLog: nat
    var searchCount: nat
    var sufficientLength: nat
    var indexOffset: nat
    var lowestIndex: nat
    var nextToUpdate: nat
    var tablesAreZero: bool
    ghost var nodes: map<nat, Node>
    ghost var newest: nat

    ghost function Window(input: seq<byte>): Window
      reads `indexOffset, `lowestIndex, `treeMask
    {
      SearchForest.Window(input, indexOffset, lowestIndex, treeMask + 1)
    }

    ghost predicate Shaped()
      reads `hashLog, `hash3Log, `treeMask, `indexOffset, `lowestIndex, `sufficientLength
    {
      && hashTable != treeTable && treeTable != hash3Table && hashTable != hash3Table
      && 6 <= hashLog <= 30 && hash3Log <= MAX_HASH3_LOG
      && Pow2(hashLog) <= hashTable.Length && Pow2(hash3Log) <= hash3Table.Length
      && 1 <= treeMask && 2 * (treeMask + 1) <= treeTable.Length
      && WINDOW_START_INDEX <= indexOffset <= lowestIndex
      && sufficientLength < LONGEST_OPTIMAL_MATCH
    }

    /** The trees over `input` are in order. */
    ghost predicate Ordered(input: seq<byte>)
      reads `hashLog, `hash3Log, `treeMask, `indexOffset, `lowestIndex, `sufficientLength, `nodes, `newest
      reads hashTable, treeTable
    {
      && Shaped()
      && Forest(Window(input), treeTable[..], nodes, newest, {})
      && Roots(Window(input), hashTable[..Pow2(hashLog)], nodes)
    }

    /** Between calls, moreover, no table holds an index that is still to be inserted. */
    ghost predicate Valid(input: seq<byte>)
      reads this, hashTable, treeTable, hash3Table
    {
      && Ordered(input)
      && lowestIndex <= nextToUpdate && newest < nextToUpdate
      && Below(hash3Table[..Pow2(hash3Log)], nextToUpdate)
    }

    function IndexOf(position: nat): nat
      reads `indexOffset
    {
      position + indexOffset
    }

    /** `find_lowest_match_index`. */
    function FindLowestMatchIndex(current: nat): (low: nat)
      requires lowestIndex <= current
      reads `lowestIndex, `windowLog
      ensures lowestIndex <= low <= current && current - low <= Pow2(windowLog)
      ensures low == lowestIndex || current - low == Pow2(windowLog)
    {
      if current - lowestIndex > Pow2(windowLog) then current - Pow2(windowLog) else lowestIndex
    }

    /** What the final writes to the two slots leave; a slot past the table is the dummy. */
    ghost predicate Closable(w: Window, hash: seq<nat>, newest: nat, smallerSlot: nat, largerSlot: nat)
      reads this, treeTable
    {
      && Forest(w, WithZero(WithZero(treeTable[..], smallerSlot), largerSlot), nodes, newest, {})
      && Roots(w, hash, nodes)
    }

    /** Links the node just compared on one side and goes to its inner child, unless its slots may
        be in use again. */
    method Link(up: bool, current: nat, matchIndex: nat, treeLow: nat, slot: nat,
                ghost w: Window, ghost hash: seq<nat>, ghost k: Walk)
      returns (stop: bool, nextSlot: nat, nextIndex: nat, ghost next: Walk)
      requires Walking(w, treeTable[..], hash, nodes, k) && w.size == treeMask + 1
      requires k.newest == current && k.next == matchIndex >= w.lowest && Dir(w, up, matchIndex, current)
      requires slot == Hole(k, up) && treeLow == (if current >= treeMask then current - treeMask else 0)
      modifies treeTable, this`nodes
      ensures Hole(k, up) < treeTable.Length && treeTable[..] == old(treeTable[..])[Hole(k, up) := matchIndex]
      ensures stop <==> !Live(w, matchIndex, current)
      ensures !stop ==> && Walking(w, treeTable[..], hash, nodes, next)
                        && next == Stepped(w, treeTable[..], k, up)
                        && nextSlot == Hole(next, up) && nextIndex == next.next
      ensures stop ==> nextSlot == treeTable.Length
      ensures stop ==> Closable(w, hash, current, if up then treeTable.Length else k.lowSlot,
                                if up then k.highSlot else treeTable.Length)
    {
      hide Forest, Roots, SideOk, NextOk, Dir, Slot;
      ghost var tree := treeTable[..];
      LinkFits(w, tree, hash, nodes, k, up);
      ForestShape(w, tree, nodes, k.newest, {k.lowSlot, k.highSlot});
      treeTable[slot] := matchIndex;
      assert treeTable[..] == tree[slot := matchIndex];
      next := k;
      if matchIndex <= treeLow {
        WalkEndsAtDead(w, tree, hash, nodes, k, up);
        nodes := Met(nodes, k, up);
        ZeroIs(treeTable[..], if up then k.highSlot else k.lowSlot);
        return true, treeTable.Length, 0, k;
      }
      assert Live(w, matchIndex, current);
      WalkSteps(w, tree, hash, nodes, k, up);
      nextSlot := 2 * (matchIndex % (treeMask + 1)) + (if up then 1 else 0);
      SlotIs(w, matchIndex);
      next := Stepped(w, treeTable[..], k, up);
      nodes := Met(nodes, k, up);
      return false, nextSlot, treeTable[nextSlot], next;
    }

    /** A compared node: the exact common length, although only the bytes not surely common are
        looked at. */
    method Compare(input: seq<byte>, position: nat, matchIndex: nat, smallerCommonLength: nat, largerCommonLength: nat,
                   ghost w: Window, ghost hash: seq<nat>, ghost k: Walk)
      returns (matchLength: nat)
      requires Walking(w, treeTable[..], hash, nodes, k) && w.text == input && w.offset == indexOffset
      requires k.next == matchIndex >= w.lowest && k.newest == IndexOf(position) && position < |input|
      requires smallerCommonLength == SideLength(w, k, true) && largerCommonLength == SideLength(w, k, false)
      ensures matchIndex < k.newest && indexOffset <= matchIndex
      ensures matchLength == Lcp(input, position, matchIndex - indexOffset) && position + matchLength <= |input|
      ensures matchLength == Lcp(w.text, Pos(w, k.newest), Pos(w, k.next)) && k.next != 0 && w.size > 0
      ensures 2 * w.size <= treeTable.Length
      ensures position + matchLength < |input| ==>
                Dir(w, input[matchIndex - indexOffset + matchLength] < input[position + matchLength], matchIndex,
                    k.newest)
    {
      hide Forest, Roots, SideOk, NextOk, Dir, Slot, Lcp;
      ghost var tree := treeTable[..];
      NextShape(w, tree, hash, nodes, k);
      WalkShape(w, tree, hash, nodes, k);
      SureBytesAgree(w, tree, hash, nodes, k);
      var matchPosition := matchIndex - indexOffset;
      matchLength := Min(smallerCommonLength, largerCommonLength);
      LcpSkip(input, position, matchPosition, matchLength);
      LcpEnds(input, position, matchPosition);
      var counted := Count(input, position + matchLength, matchPosition + matchLength);
      matchLength := matchLength + counted;
      if position + matchLength < |input| {
        OrderedByByte(w, k.newest, matchIndex, matchLength);
      }
    }

    /** The final writes: a slot that became the dummy is past the table. */
    method Close(smallerSlot: nat, largerSlot: nat, ghost w: Window, ghost hash: seq<nat>, ghost newest': nat)
      requires Closable(w, hash, newest', smallerSlot, largerSlot)
      modifies treeTable
      ensures Forest(w, treeTable[..], nodes, newest', {}) && Roots(w, hash, nodes)
      ensures treeTable[..] == WithZero(WithZero(old(treeTable[..]), smallerSlot), largerSlot)
    {
      hide Forest, Roots;
      ghost var tree := treeTable[..];
      if smallerSlot < treeTable.Length {
        treeTable[smallerSlot] := 0;
      }
      assert treeTable[..] == WithZero(tree, smallerSlot);
      if largerSlot < treeTable.Length {
        treeTable[largerSlot] := 0;
      }
      assert treeTable[..] == WithZero(WithZero(tree, smallerSlot), largerSlot);
    }

    /** The roots of the trees in use. */
    ghost function Buckets(): seq<nat>
      requires Pow2(hashLog) <= hashTable.Length
      reads hashTable, `hashLog
    {
      hashTable[..Pow2(hashLog)]
    }

    /** A walk on its way since `past`, and where it stands. */
    ghost predicate Walks(w: Window, past: Past, roots: seq<nat>, k: Walk, e: Errand, met: seq<nat>)
      reads treeTable, `nodes
    {
      && Forest(w, past.tree, past.nodes, past.newest, {}) && Roots(w, past.hash, past.nodes) && past.newest < k.newest
      && Roomy(w, past.tree) && Roomy(w, treeTable[..]) && k.bucket < |past.hash|
      && roots == past.hash[k.bucket := k.newest] && Walking(w, treeTable[..], roots, nodes, k)
      && OnTheWay(w, past.tree, past.hash, treeTable[..], k, e, met)
    }

    /** A walk that is over, but for emptying its slots. */
    ghost predicate Ended(w: Window, past: Past, roots: seq<nat>, e: Errand, v: Visit, smallerSlot: nat,
                          largerSlot: nat)
      reads this, treeTable
    {
      && e.bucket < |past.hash| && Closable(w, roots, e.newest, smallerSlot, largerSlot)
      && Walked(w, past.tree, past.hash, WithZero(WithZero(treeTable[..], smallerSlot), largerSlot), roots, e, v)
    }

    lemma WalksParts(w: Window, past: Past, roots: seq<nat>, k: Walk, e: Errand, met: seq<nat>)
      ensures Walks(w, past, roots, k, e, met)
         <==> && Forest(w, past.tree, past.nodes, past.newest, {}) && Roots(w, past.hash, past.nodes)
              && past.newest < k.newest
              && Roomy(w, past.tree) && Roomy(w, treeTable[..]) && k.bucket < |past.hash|
              && roots == past.hash[k.bucket := k.newest] && Walking(w, treeTable[..], roots, nodes, k)
              && OnTheWay(w, past.tree, past.hash, treeTable[..], k, e, met)
    {
      hide Forest, Roots, Roomy, Walking, OnTheWay;
    }

    lemma EndedIs(w: Window, past: Past, roots: seq<nat>, e: Errand, v: Visit, smallerSlot: nat, largerSlot: nat)
      ensures Ended(w, past, roots, e, v, smallerSlot, largerSlot)
         <==> && e.bucket < |past.hash| && Closable(w, roots, e.newest, smallerSlot, largerSlot)
              && Walked(w, past.tree, past.hash, WithZero(WithZero(treeTable[..], smallerSlot), largerSlot), roots, e,
                        v)
    {
      hide Closable, Walked, WithZero;
    }

    /** The next node of a walk, compared. */
    method Meet(input: seq<byte>, position: nat, matchIndex: nat, ghost smallerSlot: nat, ghost largerSlot: nat,
                smallerCommonLength: nat, largerCommonLength: nat, ghost w: Window, ghost past: Past,
                ghost roots: seq<nat>, ghost k: Walk, ghost e: Errand, ghost met: seq<nat>)
      returns (matchLength: nat)
      requires Walks(w, past, roots, k, e, met) && w.text == input && w.offset == indexOffset
      requires Stands(w, k, matchIndex, smallerSlot, largerSlot, smallerCommonLength, largerCommonLength)
      requires matchIndex >= w.lowest && k.newest == IndexOf(position) && position < |input|
      ensures matchLength == CommonWith(w, k.newest, matchIndex) && position + matchLength <= |input|
      ensures 0 < matchIndex < k.newest && indexOffset <= matchIndex && matchIndex == k.next
      ensures position + matchLength < |input| ==>
                Dir(w, input[matchIndex - indexOffset + matchLength] < input[position + matchLength], matchIndex,
                    k.newest)
      ensures BestAfter(w, k.newest, e.start, met + [matchIndex])
           == BestWith(BestAfter(w, k.newest, e.start, met), matchIndex, matchLength)
      ensures GoodEnough(w, k.newest, e.limit, matchIndex)
         <==> position + matchLength == |input| || matchLength > e.limit
      ensures matchLength == Lcp(input, position, matchIndex - indexOffset)
    {
      hide *;
      Fields(input, position);
      WalksParts(w, past, roots, k, e, met);
      StandsIs(w, k, matchIndex, smallerSlot, largerSlot, smallerCommonLength, largerCommonLength);
      matchLength := Compare(input, position, matchIndex, smallerCommonLength, largerCommonLength, w, roots, k);
      CommonIs(w, k.newest, matchIndex);
      BestStep(w, k.newest, e.start, met, matchIndex);
      GoodEnoughIs(w, k.newest, e.limit, matchIndex);
      PosIs(w, position);
    }

    /** From a compared node on: links it on its side and goes to its inner child. */
    method Descend(up: bool, current: nat, matchIndex: nat, matchLength: nat, treeLow: nat, smallerSlot: nat,
                   largerSlot: nat, smallerCommonLength: nat, largerCommonLength: nat, ghost w: Window,
                   ghost past: Past, ghost roots: seq<nat>, ghost k: Walk, ghost e: Errand, ghost met: seq<nat>)
      returns (stop: bool, smallerSlot': nat, largerSlot': nat, smallerCommonLength': nat, largerCommonLength': nat,
               nextIndex: nat, ghost next: Walk)
      requires Walks(w, past, roots, k, e, met) && w.size == treeMask + 1 && k.newest == current == e.newest
      requires Stands(w, k, matchIndex, smallerSlot, largerSlot, smallerCommonLength, largerCommonLength)
      requires e.bucket == k.bucket && matchIndex >= e.low >= w.lowest && matchIndex != 0 && |met| < e.budget
      requires Dir(w, up, matchIndex, current) && matchLength == CommonWith(w, current, matchIndex)
      requires !GoodEnough(w, current, e.limit, matchIndex)
      requires treeLow == (if current >= treeMask then current - treeMask else 0)
      modifies treeTable, this`nodes
      ensures !stop ==> && Walks(w, past, roots, next, e, met + [matchIndex])
                        && next.newest == current && next.bucket == e.bucket
                        && Stands(w, next, nextIndex, smallerSlot', largerSlot', smallerCommonLength',
                                  largerCommonLength')
      ensures stop ==>
                Ended(w, past, roots, e,
                      Visit(met + [matchIndex], BestAfter(w, current, e.start, met + [matchIndex]), 0), smallerSlot',
                      largerSlot')
    {
      hide *;
      WalksParts(w, past, roots, k, e, met);
      StandsIs(w, k, matchIndex, smallerSlot, largerSlot, smallerCommonLength, largerCommonLength);
      HolesAre(k);
      smallerSlot', largerSlot', smallerCommonLength', largerCommonLength' :=
        smallerSlot, largerSlot, smallerCommonLength, largerCommonLength;
      ghost var tree, nodes' := treeTable[..], nodes;
      var nextSlot;
      stop, nextSlot, nextIndex, next := Link(up, current, matchIndex, treeLow,
                                              if up then smallerSlot else largerSlot, w, roots, k);
      if up {
        smallerCommonLength', smallerSlot' := matchLength, nextSlot;
      } else {
        largerCommonLength', largerSlot' := matchLength, nextSlot;
      }
      if stop {
        WalkEndsDead(w, past.tree, past.hash, past.nodes, past.newest, tree, roots, nodes', k, e, met, up);
        ZeroIs(treeTable[..], Hole(k, !up));
        EndedIs(w, past, roots, e, Visit(met + [matchIndex], BestAfter(w, current, e.start, met + [matchIndex]), 0),
                smallerSlot', largerSlot');
      } else {
        WalkGoesOn(w, past.tree, past.hash, past.nodes, past.newest, tree, roots, nodes', k, e, met, up);
        WalksParts(w, past, roots, next, e, met + [matchIndex]);
        HolesAre(next);
        WalkShape(w, treeTable[..], roots, nodes, next);
        StepSides(w, treeTable[..], k, up);
        CommonIs(w, current, matchIndex);
        StandsIs(w, next, nextIndex, smallerSlot', largerSlot', smallerCommonLength', largerCommonLength');
      }
    }

    /** The final writes of a walk that is over. */
    method Finish(input: seq<byte>, smallerSlot: nat, largerSlot: nat, ghost w: Window, ghost past: Past,
                  ghost roots: seq<nat>, ghost e: Errand, ghost v: Visit)
      requires Ended(w, past, roots, e, v, smallerSlot, largerSlot) && w == Window(input) && newest == e.newest
      requires Shaped() && Pow2(hashLog) <= hashTable.Length && hashTable != treeTable && roots == Buckets()
      modifies treeTable
      ensures Ordered(input) && hashTable[..] == old(hashTable[..])
      ensures e.bucket < |past.hash| && Walked(Window(input), past.tree, past.hash, treeTable[..], Buckets(), e, v)
    {
      hide *;
      BucketsAre();
      EndedIs(w, past, roots, e, v, smallerSlot, largerSlot);
      Close(smallerSlot, largerSlot, w, roots, e.newest);
      BucketsAre();
      OrderedIs(input);
    }

    /** Roots a new node in its bucket; the walk starts at the old root. */
    method Root(input: seq<byte>, position: nat, hash: nat) returns (ghost k: Walk)
      requires Ordered(input) && newest < IndexOf(position) && lowestIndex <= IndexOf(position)
      requires hash < Pow2(hashLog)
      modifies hashTable, this`nodes, this`newest
      ensures Shaped() && newest == IndexOf(position)
      ensures hashTable[..Pow2(hashLog)] == old(hashTable[..Pow2(hashLog)])[hash := newest]
      ensures Walking(Window(input), treeTable[..], hashTable[..Pow2(hashLog)], nodes, k)
      ensures k
            == Walk(newest, hash, 0, 0, 2 * (newest % (treeMask + 1)), 2 * (newest % (treeMask + 1)) + 1,
                    old(hashTable[hash]))
    {
      hide Forest, Roots, Walking, Pow2, Slot;
      ghost var w, roots := Window(input), hashTable[..Pow2(hashLog)];
      hashTable[hash] := IndexOf(position);
      assert hashTable[..Pow2(hashLog)] == roots[hash := IndexOf(position)];
      WalkStarts(w, treeTable[..], roots, nodes, newest, IndexOf(position), hash);
      SlotIs(w, IndexOf(position));
      nodes := Started(nodes, IndexOf(position), hash);
      newest := IndexOf(position);
      k := Walk(newest, hash, 0, 0, 2 * (newest % (treeMask + 1)), 2 * (newest % (treeMask + 1)) + 1, roots[hash]);
    }

    /** What an insertion asks of the walk: its own bucket, the window of the position caught up with, no
        match to beat but eight bytes, and no end before the end of the input. */
    ghost function InsertErrand(input: seq<byte>, position: nat, target: nat): Errand
      requires hashLog <= 32 && position + 4 <= |input| && lowestIndex <= target
      reads `hashLog, `searchCount, `lowestIndex, `windowLog, `indexOffset
    {
      Errand(IndexOf(position), HashFourBytes(input, position, hashLog), FindLowestMatchIndex(target), searchCount,
             Best(8, IndexOf(position) + 8 + 1), |input|)
    }

    /** `insert_position_unchecked`. */
    method InsertPosition(input: seq<byte>, position: nat, target: nat) returns (step: nat, ghost v: Visit)
      requires Ordered(input) && position + INPUT_TAIL_RESERVE <= |input|
      requires newest < IndexOf(position) && lowestIndex <= IndexOf(position) <= target
      modifies hashTable, treeTable, this`nodes, this`newest
      ensures Ordered(input) && newest == IndexOf(position) && step >= 1
      ensures Walked(Window(input), old(treeTable[..]), old(Buckets()), treeTable[..], Buckets(),
                     InsertErrand(input, position, target), v)
      ensures step == StepOf(v.best, IndexOf(position))
    {
      hide *;
      Fields(input, position);
      OrderedShape(input);
      BucketsAre();
      var hash := HashFourBytes(input, position, hashLog);
      var current := IndexOf(position);
      PowWithin(hashTable.Length, hash, Pow2(hashLog));
      var matchIndex := hashTable[hash];
      var smallerSlot: nat := 2 * (current % (treeMask + 1));
      var largerSlot: nat := smallerSlot + 1;
      var windowLow := FindLowestMatchIndex(target);
      ghost var w, e := Window(input), InsertErrand(input, position, target);
      ErrandIs(input, position, target);
      ghost var past := Past(treeTable[..], Buckets(), nodes, newest);
      PastOrdered(input);
      ghost var k := Root(input, position, hash);
      BucketsAre();
      ghost var roots := Buckets();
      Sets(w, past, roots, k, e, matchIndex, smallerSlot, largerSlot);
      var bestLength, matchEndIndex;
      smallerSlot, largerSlot, bestLength, matchEndIndex, v :=
        InsertWalk(input, position, matchIndex, smallerSlot, largerSlot, windowLow, w, past, roots, k, e);
      BucketsAre();
      Finish(input, smallerSlot, largerSlot, w, past, roots, e, v);
      StepIs(Best(bestLength, matchEndIndex), current);
      var skipped := if bestLength > LONG_MATCH_SKIP_THRESHOLD
                     then Min(bestLength - LONG_MATCH_SKIP_THRESHOLD, LONG_MATCH_SKIP_LIMIT) else 0;
      step := if skipped > matchEndIndex - (current + 8) then skipped else matchEndIndex - (current + 8);
    }

    /** Its loop. */
    method InsertWalk(input: seq<byte>, position: nat, oldRoot: nat, smallerSlot0: nat, largerSlot0: nat,
                      windowLow: nat, ghost w: Window, ghost past: Past, ghost roots: seq<nat>, ghost k0: Walk,
                      ghost e: Errand)
      returns (smallerSlot: nat, largerSlot: nat, bestLength: nat, matchEndIndex: nat, ghost v: Visit)
      requires Walks(w, past, roots, k0, e, []) && Stands(w, k0, oldRoot, smallerSlot0, largerSlot0, 0, 0)
      requires w == Window(input) && k0.newest == e.newest == IndexOf(position) && k0.bucket == e.bucket
      requires e.low == windowLow >= w.lowest && e.budget == searchCount && e.limit == |input|
      requires e.start == Best(8, IndexOf(position) + 8 + 1) && position + INPUT_TAIL_RESERVE <= |input|
      modifies treeTable, this`nodes
      ensures Ended(w, past, roots, e, v, smallerSlot, largerSlot)
      ensures Best(bestLength, matchEndIndex) == v.best && matchEndIndex > IndexOf(position) + 8
    {
      hide *;
      Fields(input, position);
      smallerSlot, largerSlot, bestLength, matchEndIndex := smallerSlot0, largerSlot0, 8, IndexOf(position) + 8 + 1;
      var current, inputEnd, matchIndex: nat := IndexOf(position), |input|, oldRoot;
      var treeLow := if current >= treeMask then current - treeMask else 0;
      var comparesLeft: nat := searchCount;
      var smallerCommonLength: nat, largerCommonLength: nat := 0, 0;
      ghost var met: seq<nat>, k := [], k0;
      NothingMet(w, current, e.start);
      while comparesLeft > 0 && matchIndex >= windowLow
        modifies treeTable, this`nodes
        invariant Walks(w, past, roots, k, e, met) && k.newest == current && k.bucket == e.bucket
        invariant Stands(w, k, matchIndex, smallerSlot, largerSlot, smallerCommonLength, largerCommonLength)
        invariant comparesLeft + |met| == e.budget
        invariant Best(bestLength, matchEndIndex) == BestAfter(w, current, e.start, met)
        invariant matchEndIndex > current + 8
      {
        var matchLength := Meet(input, position, matchIndex, smallerSlot, largerSlot, smallerCommonLength,
                                largerCommonLength, w, past, roots, k, e, met);
        BestWithIs(Best(bestLength, matchEndIndex), matchIndex, matchLength);
        if matchLength > bestLength {
          bestLength := matchLength;
          if matchLength > matchEndIndex - matchIndex {
            matchEndIndex := matchIndex + matchLength;
          }
        }
        if position + matchLength == inputEnd {
          StandsIs(w, k, matchIndex, smallerSlot, largerSlot, smallerCommonLength, largerCommonLength);
          IsEnough(w, past, roots, k, e, met);
          v := Visit(met + [matchIndex], BestAfter(w, current, e.start, met + [matchIndex]), matchIndex);
          return;
        }
        var up := input[matchIndex - indexOffset + matchLength] < input[position + matchLength];
        var stop;
        ghost var met' := met + [matchIndex];
        stop, smallerSlot, largerSlot, smallerCommonLength, largerCommonLength, matchIndex, k :=
          Descend(up, current, matchIndex, matchLength, treeLow, smallerSlot, largerSlot, smallerCommonLength,
                  largerCommonLength, w, past, roots, k, e, met);
        met := met';
        if stop {
          v := Visit(met, BestAfter(w, current, e.start, met), 0);
          return;
        }
        comparesLeft := comparesLeft - 1;
      }
      StandsIs(w, k, matchIndex, smallerSlot, largerSlot, smallerCommonLength, largerCommonLength);
      RunsOut(w, past, roots, k, e, met);
      v := Visit(met, BestAfter(w, current, e.start, met), matchIndex);
    }

    lemma BucketsAre()
      requires Pow2(hashLog) <= hashTable.Length
      ensures Buckets() == hashTable[..Pow2(hashLog)]
    {
      hide Pow2;
    }

    lemma ErrandIs(input: seq<byte>, position: nat, target: nat)
      requires hashLog <= 32 && position + 4 <= |input| && lowestIndex <= target
      ensures InsertErrand(input, position, target)
           == Errand(IndexOf(position), HashFourBytes(input, position, hashLog), FindLowestMatchIndex(target),
                     searchCount, Best(8, IndexOf(position) + 8 + 1), |input|)
    {
      hide Pow2, HashFourBytes;
    }

    /** The trees as they were before the walk, in order. */
    lemma PastOrdered(input: seq<byte>)
      requires Ordered(input)
      ensures Pow2(hashLog) <= hashTable.Length && Roomy(Window(input), treeTable[..])
      ensures Forest(Window(input), treeTable[..], nodes, newest, {}) && Roots(Window(input), Buckets(), nodes)
    {
      hide Forest, Roots, Pow2;
      ForestShape(Window(input), treeTable[..], nodes, newest, {});
    }

    /** A rooted node and the old root to compare with: the walk is on its way. */
    lemma Sets(w: Window, past: Past, roots: seq<nat>, k: Walk, e: Errand, matchIndex: nat, smallerSlot: nat,
               largerSlot: nat)
      requires past.tree == treeTable[..] && Roomy(w, past.tree)
      requires Forest(w, past.tree, past.nodes, past.newest, {}) && Roots(w, past.hash, past.nodes)
      requires past.newest < k.newest && k.newest >= w.lowest && k.bucket < |past.hash|
      requires roots == past.hash[k.bucket := k.newest] && Walking(w, treeTable[..], roots, nodes, k)
      requires e.newest == k.newest && e.bucket == k.bucket && e.low >= w.lowest
      requires k == Walk(e.newest, e.bucket, 0, 0, smallerSlot, largerSlot, matchIndex)
      requires matchIndex == past.hash[k.bucket] && w.size > 0
      requires smallerSlot == 2 * (e.newest % w.size) && largerSlot == smallerSlot + 1
      ensures Walks(w, past, roots, k, e, []) && Stands(w, k, matchIndex, smallerSlot, largerSlot, 0, 0)
    {
      hide *;
      SlotIs(w, k.newest);
      WalkBegins(w, past.tree, past.hash, past.nodes, past.newest, k, e);
      NoSides(w, k);
      WalksParts(w, past, roots, k, e, []);
      StandsIs(w, k, matchIndex, smallerSlot, largerSlot, 0, 0);
    }

    lemma RunsOut(w: Window, past: Past, roots: seq<nat>, k: Walk, e: Errand, met: seq<nat>)
      requires Walks(w, past, roots, k, e, met) && e.newest == k.newest && e.bucket == k.bucket
      requires |met| <= e.budget && (|met| == e.budget || k.next < e.low)
      ensures Ended(w, past, roots, e, Visit(met, BestAfter(w, k.newest, e.start, met), k.next), k.lowSlot, k.highSlot)
    {
      hide *;
      WalksParts(w, past, roots, k, e, met);
      LinkFits(w, treeTable[..], roots, nodes, k, true);
      EndsClosable(w, treeTable[..], roots, k);
      BothZero(treeTable[..], k.lowSlot, k.highSlot);
      WalkRunsOut(w, past.tree, past.hash, treeTable[..], roots, k, e, met);
      EndedIs(w, past, roots, e, Visit(met, BestAfter(w, k.newest, e.start, met), k.next), k.lowSlot, k.highSlot);
    }

    lemma IsEnough(w: Window, past: Past, roots: seq<nat>, k: Walk, e: Errand, met: seq<nat>)
      requires Walks(w, past, roots, k, e, met) && e.newest == k.newest && e.bucket == k.bucket
      requires |met| < e.budget && k.next >= e.low && GoodEnough(w, k.newest, e.limit, k.next)
      ensures Ended(w, past, roots, e, Visit(met + [k.next], BestAfter(w, k.newest, e.start, met + [k.next]), k.next),
                    k.lowSlot, k.highSlot)
    {
      hide *;
      WalksParts(w, past, roots, k, e, met);
      LinkFits(w, treeTable[..], roots, nodes, k, true);
      EndsClosable(w, treeTable[..], roots, k);
      BothZero(treeTable[..], k.lowSlot, k.highSlot);
      WalkIsEnough(w, past.tree, past.hash, treeTable[..], roots, k, e, met);
      EndedIs(w, past, roots, e, Visit(met + [k.next], BestAfter(w, k.newest, e.start, met + [k.next]), k.next),
              k.lowSlot, k.highSlot);
    }

    lemma EndsClosable(w: Window, tree: seq<nat>, hash: seq<nat>, k: Walk)
      requires tree == treeTable[..] && Walking(w, tree, hash, nodes, k)
      ensures Closable(w, hash, k.newest, k.lowSlot, k.highSlot)
    {
      hide Forest, Roots, Walking;
      WalkEnds(w, tree, hash, nodes, k);
    }

    /** A run of insertions for a position to catch up with: each walk starts from what the one before left,
        and the next position is as far on as it says. */
    ghost predicate CatchesUp(input: seq<byte>, position: nat, run: seq<Insertion>)
      reads `hashLog, `searchCount, `lowestIndex, `windowLog, `indexOffset, `treeMask
    {
      && hashLog <= 32 && lowestIndex <= IndexOf(position)
      && run != [] && run[|run| - 1].errand.newest >= IndexOf(position)
      && forall j :: 0 <= j < |run| - 1 ==> Inserts(input, position, run[j], run[j + 1])
    }

    ghost predicate Inserts(input: seq<byte>, position: nat, a: Insertion, b: Insertion)
      requires hashLog <= 32 && lowestIndex <= IndexOf(position)
      reads `hashLog, `searchCount, `lowestIndex, `windowLog, `indexOffset, `treeMask
    {
      && indexOffset <= a.errand.newest < IndexOf(position) && a.errand.newest - indexOffset + 4 <= |input|
      && a.errand == InsertErrand(input, a.errand.newest - indexOffset, IndexOf(position))
      && a.errand.bucket < |a.hash| && Walked(Window(input), a.tree, a.hash, b.tree, b.hash, a.errand, a.visit)
      && b.errand.newest == a.errand.newest + StepOf(a.visit.best, a.errand.newest)
    }

    lemma MoreInserted(input: seq<byte>, position: nat, run: seq<Insertion>, index: nat, v: Visit, next: nat)
      returns (longer: seq<Insertion>)
      requires hashLog <= 32 && lowestIndex <= IndexOf(position) && Pow2(hashLog) <= hashTable.Length
      requires run != [] && forall j :: 0 <= j < |run| - 1 ==> Inserts(input, position, run[j], run[j + 1])
      requires run[|run| - 1].errand.newest == index && indexOffset <= index < IndexOf(position)
      requires index - indexOffset + 4 <= |input|
      requires InsertErrand(input, index - indexOffset, IndexOf(position)).bucket < |run[|run| - 1].hash|
      requires Walked(Window(input), run[|run| - 1].tree, run[|run| - 1].hash, treeTable[..], Buckets(),
                      InsertErrand(input, index - indexOffset, IndexOf(position)), v)
      requires next == index + StepOf(v.best, index)
      ensures longer != [] && longer[0].errand.newest == run[0].errand.newest && longer[0].tree == run[0].tree
      ensures longer[0].hash == run[0].hash && longer[|longer| - 1].errand.newest == next
      ensures longer[|longer| - 1].tree == treeTable[..] && longer[|longer| - 1].hash == Buckets()
      ensures forall j :: 0 <= j < |longer| - 1 ==> Inserts(input, position, longer[j], longer[j + 1])
    {
      hide Walked, StepOf, Pow2, Buckets, HashFourBytes;
      var n := |run| - 1;
      var e := InsertErrand(input, index - indexOffset, IndexOf(position));
      var done, last := run[n].(errand := e, visit := v), Insertion(e.(newest := next), treeTable[..], Buckets(), v);
      longer := run[..n] + [done] + [last];
      forall j | 0 <= j < |longer| - 1
        ensures Inserts(input, position, longer[j], longer[j + 1])
      {
        if j < n {
          assert Inserts(input, position, run[j], run[j + 1]);
        }
      }
    }

    lemma CatchesUpIs(input: seq<byte>, position: nat, run: seq<Insertion>)
      requires hashLog <= 32 && lowestIndex <= IndexOf(position)
      ensures CatchesUp(input, position, run)
         <==> && run != [] && run[|run| - 1].errand.newest >= IndexOf(position)
              && forall j :: 0 <= j < |run| - 1 ==> Inserts(input, position, run[j], run[j + 1])
    {
      hide Inserts;
    }

    /** A run is a chain of walks, from lower to higher positions. */
    lemma RunIsChain(input: seq<byte>, position: nat, run: seq<Insertion>)
      requires CatchesUp(input, position, run)
      ensures Chain(Window(input), run)
      ensures forall j :: 0 <= j < |run| - 1 ==> run[j].errand.newest < IndexOf(position)
    {
      hide Walked, InsertErrand, StepOf, HashFourBytes;
      forall j | 0 <= j < |run| - 1
        ensures run[j].errand.newest < IndexOf(position) && run[j].errand.newest < run[j + 1].errand.newest
        ensures run[j].errand.bucket < |run[j].hash|
        ensures Walked(Window(input), run[j].tree, run[j].hash, run[j + 1].tree, run[j + 1].hash, run[j].errand,
                       run[j].visit)
      {
        assert Inserts(input, position, run[j], run[j + 1]);
        StepForward(input, position, run[j], run[j + 1]);
      }
      forall i, j | 0 <= i < j < |run| - 1
        ensures run[i].errand.newest < run[j].errand.newest
      {
        IndicesGrow(run, i, j);
      }
    }

    lemma StepForward(input: seq<byte>, position: nat, a: Insertion, b: Insertion)
      requires hashLog <= 32 && lowestIndex <= IndexOf(position) && Inserts(input, position, a, b)
      ensures a.errand.newest < b.errand.newest
    {
      hide Walked, HashFourBytes, Pow2;
      WalkedBest(Window(input), a.tree, a.hash, b.tree, b.hash, a.errand, a.visit);
      EndGrows(Window(input), a.errand.newest, a.errand.start, a.visit.met);
    }

    /** The longest match of all: if no walk was cut off inside the window, a search that walks the tree has a
        match as long as any of the positions just inserted gives whose four bytes have the same hash, inside
        the window and live. */
    lemma LongestFound(q: Query, stage: Stage, run: seq<Insertion>, tree: seq<nat>, hash: seq<nat>,
                       found: seq<MatchCandidate>, best: nat, i: nat)
      requires CatchesUp(q.input, q.position, run) && stage.AtTree? && i < |run| - 1
      requires Answers(q, stage, run[|run| - 1].tree, run[|run| - 1].hash, tree, hash, found, best)
      requires q.reach == IndexOf(q.position) - FindLowestMatchIndex(IndexOf(q.position))
      requires forall j :: i < j < |run| - 1 ==> run[j].visit.cut < IndexOf(q.position) - q.reach
      requires hashLog <= 32 && q.position + 4 <= |q.input|
      requires run[i].errand.bucket == HashFourBytes(q.input, q.position, hashLog)
      requires stage.visit.cut < IndexOf(q.position) - q.reach <= run[i].errand.newest
      requires Live(Window(q.input), run[i].errand.newest, IndexOf(q.position))
      ensures indexOffset <= run[i].errand.newest
      ensures Lcp(q.input, q.position, run[i].errand.newest - indexOffset) <= best
    {
      hide *;
      Fields(q.input, q.position);
      var w, current, low := Window(q.input), IndexOf(q.position), IndexOf(q.position) - q.reach;
      var bucket, n := HashFourBytes(q.input, q.position, hashLog), |run| - 1;
      LeastIs();
      var least := Longest(2, EarlyOffers(q, w, current, low, stage.latest));
      var e, v := SearchErrand(q.position, bucket, low, least), stage.visit;
      RunIsChain(q.input, q.position, run);
      AnswersIs(q, stage, run[n].tree, run[n].hash, tree, hash, found, best, w, low);
      WalksAtTree(q, stage.latest, v, low, run[n].tree, run[n].hash, tree, hash);
      EndsAtIs(q, w, current, low, sufficientLength, stage);
      SearchErrandIs(q.position, bucket, low, least);
      forall j | 0 <= j < n
        ensures run[j].errand.low == low && indexOffset <= run[j].errand.newest
      {
        ErrandOf(q.input, q.position, run, j);
      }
      WindowLow(current);
      LongestOfAll(w, run, tree, hash, e, v, i);
      MoreOffers(2, EarlyOffers(q, w, current, low, stage.latest), TreeOffers(w, current, v.met));
      BestIsOffered(w, current, e.start, v.met);
      WalkedBest(w, run[n].tree, run[n].hash, tree, hash, e, v);
      CommonIs(w, current, run[i].errand.newest);
      PosIs(w, q.position);
      PosIs(w, run[i].errand.newest - indexOffset);
    }

    lemma LeastIs()
      ensures SHORTEST_MATCH - 1 == 2
    {
    }

    lemma WindowLow(current: nat)
      requires lowestIndex <= current
      ensures lowestIndex <= FindLowestMatchIndex(current)
    {
      hide Pow2;
    }

    lemma ErrandOf(input: seq<byte>, position: nat, run: seq<Insertion>, j: nat)
      requires CatchesUp(input, position, run) && j < |run| - 1
      ensures hashLog <= 32 && lowestIndex <= IndexOf(position) && indexOffset <= run[j].errand.newest
      ensures run[j].errand.low == FindLowestMatchIndex(IndexOf(position))
    {
      hide Walked, HashFourBytes, Pow2, StepOf;
      assert Inserts(input, position, run[j], run[j + 1]);
    }

    /** `update_tree_unchecked`: inserts the positions before `position`, minding the skips. */
    method UpdateTree(input: seq<byte>, position: nat) returns (ghost run: seq<Insertion>)
      requires Valid(input) && position + INPUT_TAIL_RESERVE <= |input| && nextToUpdate <= IndexOf(position)
      modifies this`nodes, this`newest, this`nextToUpdate, hashTable, treeTable
      ensures Valid(input) && nextToUpdate == IndexOf(position)
      ensures CatchesUp(input, position, run) && run[0].errand.newest == old(nextToUpdate)
      ensures run[0].tree == old(treeTable[..]) && run[0].hash == old(Buckets())
      ensures run[|run| - 1].tree == treeTable[..] && run[|run| - 1].hash == Buckets()
    {
      hide *;
      Fields(input, position);
      ValidParts(input);
      OrderedShape(input);
      var target := IndexOf(position);
      var index := nextToUpdate;
      run := [Insertion(Errand(index, 0, 0, 0, Best(0, 0), 0), treeTable[..], Buckets(), Visit([], Best(0, 0), 0))];
      ghost var window := Window(input);
      while index < target
        modifies this`nodes, this`newest, hashTable, treeTable
        invariant Ordered(input) && newest < index && newest < target && lowestIndex <= index
        invariant hashLog <= 32 && lowestIndex <= IndexOf(position) && run != []
        invariant forall j :: 0 <= j < |run| - 1 ==> Inserts(input, position, run[j], run[j + 1])
        invariant run[0].errand.newest == old(nextToUpdate)
        invariant run[0].tree == old(treeTable[..]) && run[0].hash == old(Buckets())
        invariant Pow2(hashLog) <= hashTable.Length && run[|run| - 1].errand.newest == index
        invariant run[|run| - 1].tree == treeTable[..] && run[|run| - 1].hash == Buckets()
        decreases target - index
      {
        Fields(input, index - indexOffset);
        BucketsAre();
        ErrandIs(input, index - indexOffset, target);
        var step;
        ghost var v;
        step, v := InsertPosition(input, index - indexOffset, target);
        OrderedShape(input);
        run := MoreInserted(input, position, run, index, v, index + step);
        index := index + step;
      }
      BelowMore(hash3Table[..Pow2(hash3Log)], nextToUpdate, target);
      nextToUpdate := target;
      ValidWhen(input, target);
      CatchesUpIs(input, position, run);
    }

    /** `entry` is the last index from `from` on, below `to`, whose three bytes hash to `h`, or the
        `earlier` entry where there is none. */
    ghost predicate Latest(input: seq<byte>, from: nat, to: nat, h: nat, earlier: nat, entry: nat)
      reads this`indexOffset, this`hash3Log
    {
      if from <= entry < to && Hashed(input, h, entry) then forall i: nat :: entry < i < to ==> !Hashed(input, h, i)
      else entry == earlier && forall i: nat :: from <= i < to ==> !Hashed(input, h, i)
    }

    ghost predicate Hashed(input: seq<byte>, h: nat, i: nat)
      reads this`indexOffset, this`hash3Log
    {
      && indexOffset <= i && i - indexOffset + 4 <= |input| && hash3Log <= 32
      && HashThreeBytes(input, i - indexOffset, hash3Log) == h
    }

    /** `insert_hash3_and_find_first_unchecked`: the latest position with the same three bytes' hash. */
    method InsertHash3AndFindFirst(input: seq<byte>, nextToUpdate3: nat, position: nat) returns (next3: nat, first: nat)
      requires Shaped() && position + INPUT_TAIL_RESERVE <= |input|
      requires lowestIndex <= nextToUpdate3 <= IndexOf(position)
      requires Below(hash3Table[..Pow2(hash3Log)], IndexOf(position))
      modifies hash3Table
      ensures Below(hash3Table[..Pow2(hash3Log)], IndexOf(position)) && next3 == IndexOf(position)
      ensures first < IndexOf(position)
      ensures var h := HashThreeBytes(input, position, hash3Log);
              h < hash3Table.Length && Latest(input, nextToUpdate3, IndexOf(position), h, old(hash3Table[h]), first)
    {
      hide Pow2, HashThreeBytes;
      var target := IndexOf(position);
      var index := nextToUpdate3;
      ghost var h := HashThreeBytes(input, position, hash3Log);
      PowWithin(hash3Table.Length, h, Pow2(hash3Log));
      while index < target
        modifies hash3Table
        invariant index <= target && lowestIndex <= index && Below(hash3Table[..Pow2(hash3Log)], target)
        invariant Latest(input, nextToUpdate3, index, h, old(hash3Table[h]), hash3Table[h])
      {
        var hash := HashThreeBytes(input, index - indexOffset, hash3Log);
        PowWithin(hash3Table.Length, hash, Pow2(hash3Log));
        hash3Table[hash] := index;
        index := index + 1;
      }
      var hash := HashThreeBytes(input, position, hash3Log);
      PowWithin(hash3Table.Length, hash, Pow2(hash3Log));
      assert hash3Table[..Pow2(hash3Log)][hash] == hash3Table[hash];
      return target, hash3Table[hash];
    }

    /** The length of the match at a repeat offset: 0 if it is out of reach or shorter than three. */
    method RepeatLength(input: seq<byte>, position: nat, repeatOffset: nat, windowLow: nat) returns (length: nat)
      requires lowestIndex <= windowLow <= IndexOf(position) && indexOffset <= lowestIndex
      requires position + INPUT_TAIL_RESERVE <= |input| && indexOffset + |input| < U32 && repeatOffset < U32
      ensures length > 0 ==> 1 <= repeatOffset <= IndexOf(position) - windowLow && repeatOffset <= position
      ensures length > 0 ==> SHORTEST_MATCH <= length == Lcp(input, position, position - repeatOffset)
      ensures position + length <= |input|
      ensures length == RepeatCommon(input, position, repeatOffset, IndexOf(position) - windowLow)
    {
      hide Lcp;
      var current := IndexOf(position);
      var historyLength := current - lowestIndex;
      length := 0;
      if (repeatOffset + (U32 - 1)) % U32 < historyLength {
        OffsetInHistory(repeatOffset, historyLength);
        var repeatPosition := position - repeatOffset;
        var repeatIndex := current - repeatOffset;
        var sameStart := input[position..position + 3] == input[repeatPosition..repeatPosition + 3];
        ThreeShared(input, position, repeatPosition);
        if repeatIndex >= windowLow && sameStart {
          MatchedMore(input, position, repeatPosition, 0, 3);
          LcpSkip(input, position, repeatPosition, 3);
          var counted := Count(input, position + SHORTEST_MATCH, repeatPosition + SHORTEST_MATCH);
          LcpEnds(input, position, repeatPosition);
          length := counted + SHORTEST_MATCH;
        }
      }
    }

    /** The three repeat offsets, nearest first; `done` when a match is good enough. */
    method SearchRepeats(input: seq<byte>, position: nat, repeats: History, literalLengthIsZero: bool,
                         windowLow: nat, candidates: array<MatchCandidate>)
      returns (count: nat, bestLength: nat, done: bool, ghost tried: nat)
      requires lowestIndex <= windowLow <= IndexOf(position) && indexOffset <= lowestIndex
      requires position + INPUT_TAIL_RESERVE <= |input| && indexOffset + |input| < U32
      requires candidates.Length >= LONGEST_OPTIMAL_MATCH && sufficientLength < LONGEST_OPTIMAL_MATCH
      requires repeats.first < U32 && repeats.second < U32 && repeats.third < U32
      modifies candidates
      ensures count <= candidates.Length
      ensures Found(Query(input, position, repeats, literalLengthIsZero, IndexOf(position) - windowLow),
                    candidates[..count], bestLength)
      ensures !done ==> count + 2 <= bestLength < LONGEST_OPTIMAL_MATCH && position + bestLength < |input|
      ensures var q := Query(input, position, repeats, literalLengthIsZero, IndexOf(position) - windowLow);
              && bestLength == Longest(SHORTEST_MATCH - 1, RepeatOffers(q, tried))
              && candidates[..count] == Improvements(SHORTEST_MATCH - 1, RepeatOffers(q, tried))
              && tried <= REPEAT_OFFSET_COUNT && (!done ==> tried == REPEAT_OFFSET_COUNT)
              && (done <==> Suffices(q, sufficientLength, bestLength))
              && forall n :: 0 <= n < tried ==>
                   !Suffices(q, sufficientLength, Longest(SHORTEST_MATCH - 1, RepeatOffers(q, n)))
    {
      hide Lcp, Found, Good, OffsetOf, RepeatOffers, RepeatCommon, Longest, Improvements;
      ghost var q := Query(input, position, repeats, literalLengthIsZero, IndexOf(position) - windowLow);
      count, bestLength, done := 0, SHORTEST_MATCH - 1, false;
      NothingFound(q);
      tried := 0;
      assert candidates[..0] == [] && RepeatOffers(q, 0) == [];
      NoOffers(SHORTEST_MATCH - 1);
      var firstRepeatCode := if literalLengthIsZero then 1 else 0;
      for repeatCode := firstRepeatCode to REPEAT_OFFSET_COUNT + firstRepeatCode
        modifies candidates
        invariant count + 2 <= bestLength < LONGEST_OPTIMAL_MATCH && position + bestLength < |input|
        invariant Found(q, candidates[..count], bestLength)
        invariant tried == repeatCode - firstRepeatCode && !Suffices(q, sufficientLength, bestLength)
        invariant bestLength == Longest(SHORTEST_MATCH - 1, RepeatOffers(q, tried))
        invariant candidates[..count] == Improvements(SHORTEST_MATCH - 1, RepeatOffers(q, tried))
        invariant forall n :: 0 <= n < tried ==>
                    !Suffices(q, sufficientLength, Longest(SHORTEST_MATCH - 1, RepeatOffers(q, n)))
      {
        var repeatOffset := if repeatCode == REPEAT_OFFSET_COUNT then (repeats.first + (U32 - 1)) % U32
          else if repeatCode == 0 then repeats.first else if repeatCode == 1 then repeats.second else repeats.third;
        var repeatLength := RepeatLength(input, position, repeatOffset, windowLow);
        NextRepeat(q, tried);
        RepeatCode(repeats, repeatCode, literalLengthIsZero);
        OneMoreOffer(SHORTEST_MATCH - 1, RepeatOffers(q, tried), MatchCandidate(tried + 1, repeatLength));
        tried := tried + 1;
        if repeatLength > bestLength {
          var candidate := MatchCandidate(repeatCode - firstRepeatCode + 1, repeatLength);
          RepeatGood(q, repeatCode, repeatOffset, candidate);
          AddCandidate(candidates, count, candidate, q, bestLength);
          bestLength := repeatLength;
          count := count + 1;
          if repeatLength > sufficientLength || position + repeatLength == |input| {
            done := true;
            return;
          }
        }
      }
    }

    lemma Fields(input: seq<byte>, position: nat)
      ensures Window(input) == SearchForest.Window(input, indexOffset, lowestIndex, treeMask + 1)
      ensures IndexOf(position) == position + indexOffset && INPUT_TAIL_RESERVE == 8
      ensures LONGEST_OPTIMAL_MATCH == 4096
    {
    }

    lemma OrderedShape(input: seq<byte>)
      requires Ordered(input)
      ensures Shaped() && hashLog <= 32 && Pow2(hashLog) <= hashTable.Length && hashTable != treeTable
      ensures indexOffset <= lowestIndex
    {
      hide Forest, Roots, Pow2;
    }

    lemma OrderedIs(input: seq<byte>)
      requires Shaped() && Pow2(hashLog) <= hashTable.Length
      ensures (Forest(Window(input), treeTable[..], nodes, newest, {})
               && Roots(Window(input), hashTable[..Pow2(hashLog)], nodes)) ==> Ordered(input)
    {
      hide Forest, Roots, Pow2;
    }

    /** What a search asks of the walk. */
    ghost function SearchErrand(position: nat, hash: nat, windowLow: nat, bestLength: nat): Errand
      reads `searchCount, `indexOffset
    {
      Errand(IndexOf(position), hash, windowLow, searchCount, Best(bestLength, IndexOf(position) + 8 + 1),
             LONGEST_OPTIMAL_MATCH)
    }

    /** The search through the bucket's tree, inserting the position on the way: it takes what improves on
        the best so far, in the order in which the nodes are met. */
    method SearchTree(input: seq<byte>, position: nat, hash: nat, windowLow: nat, candidates: array<MatchCandidate>,
                      count0: nat, bestLength0: nat, ghost q: Query)
      returns (count: nat, bestLength: nat, matchEndIndex: nat, ghost v: Visit)
      requires Ordered(input) && newest < IndexOf(position) && hash < Pow2(hashLog)
      requires position + INPUT_TAIL_RESERVE <= |input| && lowestIndex <= windowLow <= IndexOf(position)
      requires candidates.Length >= LONGEST_OPTIMAL_MATCH && count0 + 2 <= bestLength0
      requires q.input == input && q.position == position && q.reach == IndexOf(position) - windowLow
      requires bestLength0 <= LONGEST_OPTIMAL_MATCH && position + bestLength0 < |input|
      requires Found(q, candidates[..count0], bestLength0)
      modifies this`nodes, this`newest, hashTable, treeTable, candidates
      ensures Ordered(input) && newest == IndexOf(position)
      ensures newest + 8 < matchEndIndex <= newest + 8 + (|input| - position)
      ensures count <= candidates.Length && Found(q, candidates[..count], bestLength)
      ensures Walked(Window(input), old(treeTable[..]), old(Buckets()), treeTable[..], Buckets(),
                     SearchErrand(position, hash, windowLow, bestLength0), v)
      ensures Best(bestLength, matchEndIndex) == v.best
      ensures candidates[..count]
           == old(candidates[..count0]) + Improvements(bestLength0, TreeOffers(Window(input), newest, v.met))
    {
      hide *;
      Fields(input, position);
      OrderedShape(input);
      BucketsAre();
      var current := IndexOf(position);
      PowWithin(hashTable.Length, hash, Pow2(hashLog));
      var matchIndex := hashTable[hash];
      var smallerSlot: nat := 2 * (current % (treeMask + 1));
      var largerSlot: nat := smallerSlot + 1;
      ghost var w, e := Window(input), SearchErrand(position, hash, windowLow, bestLength0);
      SearchErrandIs(position, hash, windowLow, bestLength0);
      ghost var past := Past(treeTable[..], Buckets(), nodes, newest);
      PastOrdered(input);
      ghost var k := Root(input, position, hash);
      BucketsAre();
      ghost var roots := Buckets();
      Sets(w, past, roots, k, e, matchIndex, smallerSlot, largerSlot);
      smallerSlot, largerSlot, count, bestLength, matchEndIndex, v :=
        SearchWalk(input, position, matchIndex, smallerSlot, largerSlot, windowLow, candidates, count0, bestLength0, q,
                   w, past, roots, k, e);
      BucketsAre();
      Finish(input, smallerSlot, largerSlot, w, past, roots, e, v);
    }

    lemma SearchErrandIs(position: nat, hash: nat, windowLow: nat, bestLength: nat)
      ensures SearchErrand(position, hash, windowLow, bestLength)
           == Errand(IndexOf(position), hash, windowLow, searchCount, Best(bestLength, IndexOf(position) + 8 + 1),
                     LONGEST_OPTIMAL_MATCH)
    {
    }

    /** Its loop. */
    method SearchWalk(input: seq<byte>, position: nat, oldRoot: nat, smallerSlot0: nat, largerSlot0: nat,
                      windowLow: nat, candidates: array<MatchCandidate>, count0: nat, bestLength0: nat, ghost q: Query,
                      ghost w: Window, ghost past: Past, ghost roots: seq<nat>, ghost k0: Walk, ghost e: Errand)
      returns (smallerSlot: nat, largerSlot: nat, count: nat, bestLength: nat, matchEndIndex: nat, ghost v: Visit)
      requires Walks(w, past, roots, k0, e, []) && Stands(w, k0, oldRoot, smallerSlot0, largerSlot0, 0, 0)
      requires w == Window(input) && k0.newest == e.newest == IndexOf(position) && k0.bucket == e.bucket
      requires e.low == windowLow >= w.lowest && e.budget == searchCount && e.limit == LONGEST_OPTIMAL_MATCH
      requires e.start == Best(bestLength0, IndexOf(position) + 8 + 1) && windowLow <= IndexOf(position)
      requires position + INPUT_TAIL_RESERVE <= |input| && indexOffset <= lowestIndex
      requires candidates.Length >= LONGEST_OPTIMAL_MATCH && count0 + 2 <= bestLength0
      requires q.input == input && q.position == position && q.reach == IndexOf(position) - windowLow
      requires bestLength0 <= LONGEST_OPTIMAL_MATCH && position + bestLength0 < |input|
      requires Found(q, candidates[..count0], bestLength0)
      modifies treeTable, this`nodes, candidates
      ensures Ended(w, past, roots, e, v, smallerSlot, largerSlot)
      ensures Best(bestLength, matchEndIndex) == v.best
      ensures IndexOf(position) + 8 < matchEndIndex <= IndexOf(position) + 8 + (|input| - position)
      ensures count <= candidates.Length && Found(q, candidates[..count], bestLength)
      ensures candidates[..count]
           == old(candidates[..count0]) + Improvements(bestLength0, TreeOffers(w, IndexOf(position), v.met))
    {
      hide *;
      Fields(input, position);
      smallerSlot, largerSlot := smallerSlot0, largerSlot0;
      count, bestLength, matchEndIndex := count0, bestLength0, IndexOf(position) + 8 + 1;
      var current, inputEnd, matchIndex: nat := IndexOf(position), |input|, oldRoot;
      var treeLow := if current >= treeMask then current - treeMask else 0;
      var comparesLeft: nat := searchCount;
      var smallerCommonLength: nat, largerCommonLength: nat := 0, 0;
      ghost var before, met: seq<nat>, k := candidates[..count0], [], k0;
      NothingMet(w, current, e.start);
      NoOffers(bestLength0);
      while comparesLeft > 0 && matchIndex >= windowLow
        modifies treeTable, this`nodes, candidates
        invariant Walks(w, past, roots, k, e, met) && k.newest == current && k.bucket == e.bucket
        invariant Stands(w, k, matchIndex, smallerSlot, largerSlot, smallerCommonLength, largerCommonLength)
        invariant comparesLeft + |met| == e.budget
        invariant Best(bestLength, matchEndIndex) == BestAfter(w, current, e.start, met)
        invariant current + 8 < matchEndIndex <= current + 8 + (inputEnd - position)
        invariant count + 2 <= bestLength <= LONGEST_OPTIMAL_MATCH && position + bestLength < inputEnd
        invariant Found(q, candidates[..count], bestLength)
        invariant candidates[..count] == before + Improvements(bestLength0, TreeOffers(w, current, met))
      {
        var matchLength := Meet(input, position, matchIndex, smallerSlot, largerSlot, smallerCommonLength,
                                largerCommonLength, w, past, roots, k, e, met);
        OneMoreTaken(w, current, e.start, met, matchIndex);
        var enough;
        count, bestLength, matchEndIndex, enough :=
          Consider(candidates, count, bestLength, position, current, matchIndex, matchLength, matchEndIndex, inputEnd,
                   q);
        if enough {
          StandsIs(w, k, matchIndex, smallerSlot, largerSlot, smallerCommonLength, largerCommonLength);
          IsEnough(w, past, roots, k, e, met);
          v := Visit(met + [matchIndex], BestAfter(w, current, e.start, met + [matchIndex]), matchIndex);
          return;
        }
        var up := input[matchIndex - indexOffset + matchLength] < input[position + matchLength];
        var stop;
        ghost var met' := met + [matchIndex];
        stop, smallerSlot, largerSlot, smallerCommonLength, largerCommonLength, matchIndex, k :=
          Descend(up, current, matchIndex, matchLength, treeLow, smallerSlot, largerSlot, smallerCommonLength,
                  largerCommonLength, w, past, roots, k, e, met);
        met := met';
        if stop {
          v := Visit(met, BestAfter(w, current, e.start, met), 0);
          return;
        }
        comparesLeft := comparesLeft - 1;
      }
      StandsIs(w, k, matchIndex, smallerSlot, largerSlot, smallerCommonLength, largerCommonLength);
      RunsOut(w, past, roots, k, e, met);
      v := Visit(met, BestAfter(w, current, e.start, met), matchIndex);
    }

    lemma OneMoreTaken(w: Window, newest: nat, start: Best, met: seq<nat>, x: nat)
      requires x <= newest
      ensures var best := BestAfter(w, newest, start, met).length;
              Improvements(start.length, TreeOffers(w, newest, met + [x]))
              == Improvements(start.length, TreeOffers(w, newest, met))
                 + (if CommonWith(w, newest, x) > best
                    then [MatchCandidate(newest - x + REPEAT_OFFSET_COUNT, CommonWith(w, newest, x))] else [])
    {
      hide Improvements, TreeOffers, BestAfter, CommonWith, Longest;
      OneMoreMet(w, newest, met, x);
      BestIsOffered(w, newest, start, met);
      OneMoreOffer(start.length, TreeOffers(w, newest, met),
                   MatchCandidate(newest - x + REPEAT_OFFSET_COUNT, CommonWith(w, newest, x)));
    }

    /** The walk through the tree of the bucket, if the search gets that far; else the trees are as they were. */
    ghost predicate WalksAt(q: Query, stage: Stage, low: nat, tree0: seq<nat>, hash0: seq<nat>, tree: seq<nat>,
                            hash: seq<nat>)
      requires hashLog <= 32 && q.position + 4 <= |q.input|
      reads `hashLog, `searchCount, `lowestIndex, `indexOffset, `treeMask, `sufficientLength
    {
      match stage
      case AtTree(latest, v) =>
        var w := Window(q.input);
        var early := Longest(SHORTEST_MATCH - 1, EarlyOffers(q, w, IndexOf(q.position), low, latest));
        var e := SearchErrand(q.position, HashFourBytes(q.input, q.position, hashLog), low, early);
        e.bucket < |hash0| && Walked(w, tree0, hash0, tree, hash, e, v)
      case _ => tree == tree0 && hash == hash0
    }

    lemma WalksAtTree(q: Query, latest: nat, v: Visit, low: nat, tree0: seq<nat>, hash0: seq<nat>, tree: seq<nat>,
                      hash: seq<nat>)
      requires hashLog <= 32 && q.position + 4 <= |q.input|
      ensures var w := Window(q.input);
              var early := Longest(SHORTEST_MATCH - 1, EarlyOffers(q, w, IndexOf(q.position), low, latest));
              var e := SearchErrand(q.position, HashFourBytes(q.input, q.position, hashLog), low, early);
              WalksAt(q, AtTree(latest, v), low, tree0, hash0, tree, hash)
              <==> e.bucket < |hash0| && Walked(w, tree0, hash0, tree, hash, e, v)
    {
      hide Longest, Walked, SearchErrand, HashFourBytes, EarlyOffers;
    }

    lemma WalksNot(q: Query, stage: Stage, low: nat, tree0: seq<nat>, hash0: seq<nat>)
      requires hashLog <= 32 && q.position + 4 <= |q.input| && !stage.AtTree?
      ensures WalksAt(q, stage, low, tree0, hash0, tree0, hash0)
    {
    }

    /** The answer to a query: of all that is offered up to the stage the search ends at, what improves on
        what came before; and a walk through the tree of the bucket if it gets that far. */
    ghost predicate Answers(q: Query, stage: Stage, tree0: seq<nat>, hash0: seq<nat>, tree: seq<nat>, hash: seq<nat>,
                            found: seq<MatchCandidate>, best: nat)
      reads `hashLog, `searchCount, `lowestIndex, `indexOffset, `treeMask, `sufficientLength
    {
      var current := IndexOf(q.position);
      var w, least := Window(q.input), SHORTEST_MATCH - 1;
      && hashLog <= 32 && q.position + 4 <= |q.input| && q.reach <= current
      && var low := current - q.reach;
      && found == Improvements(least, Offers(q, w, current, low, stage))
      && best == Longest(least, Offers(q, w, current, low, stage))
      && EndsAt(q, w, current, low, sufficientLength, stage) && WalksAt(q, stage, low, tree0, hash0, tree, hash)
    }

    lemma AnswersIs(q: Query, stage: Stage, tree0: seq<nat>, hash0: seq<nat>, tree: seq<nat>, hash: seq<nat>,
                    found: seq<MatchCandidate>, best: nat, w: Window, low: nat)
      requires hashLog <= 32 && q.position + 4 <= |q.input| && q.reach <= IndexOf(q.position)
      requires w == Window(q.input) && low == IndexOf(q.position) - q.reach
      ensures Answers(q, stage, tree0, hash0, tree, hash, found, best)
         <==> && found == Improvements(SHORTEST_MATCH - 1, Offers(q, w, IndexOf(q.position), low, stage))
              && best == Longest(SHORTEST_MATCH - 1, Offers(q, w, IndexOf(q.position), low, stage))
              && EndsAt(q, w, IndexOf(q.position), low, sufficientLength, stage)
              && WalksAt(q, stage, low, tree0, hash0, tree, hash)
    {
      hide Improvements, Longest, Offers, EndsAt, WalksAt;
    }

    /** Up to which position the trees have been told to skip. */
    ghost predicate MovesOn(q: Query, stage: Stage, before: nat)
      reads `nextToUpdate, `indexOffset
    {
      nextToUpdate == match stage
                      case AtRepeats(tried) => before
                      case AtNearest(latest) => IndexOf(q.position) + 1
                      case AtTree(latest, v) => v.best.end - 8
    }

    /** The nearest position is looked up, after catching up, exactly when the repeats give no match. */
    ghost predicate LooksUp(q: Query, stage: Stage, from3: nat, next3: nat, earlier: seq<nat>)
      reads `indexOffset, `hash3Log
    {
      if stage.AtRepeats? || !NoRepeat(q) then next3 == from3
      else
        && next3 == IndexOf(q.position) && hash3Log <= 32 && q.position + 4 <= |q.input|
        && var h := HashThreeBytes(q.input, q.position, hash3Log);
        && h < |earlier| && Latest(q.input, from3, IndexOf(q.position), h, earlier[h], stage.latest)
    }

    lemma LooksUpWhen(q: Query, stage: Stage, from3: nat, next3: nat, earlier: seq<nat>)
      requires hash3Log <= 32 && q.position + 4 <= |q.input|
      requires if stage.AtRepeats? || !NoRepeat(q) then next3 == from3
               else
                 && next3 == IndexOf(q.position)
                 && HashThreeBytes(q.input, q.position, hash3Log) < |earlier|
                 && Latest(q.input, from3, IndexOf(q.position), HashThreeBytes(q.input, q.position, hash3Log),
                           earlier[HashThreeBytes(q.input, q.position, hash3Log)], stage.latest)
      ensures LooksUp(q, stage, from3, next3, earlier)
    {
      hide Latest, HashThreeBytes, NoRepeat;
    }

    lemma MovesOnIs(q: Query, stage: Stage, before: nat)
      ensures MovesOn(q, stage, before)
         <==> nextToUpdate == match stage
                              case AtRepeats(tried) => before
                              case AtNearest(latest) => IndexOf(q.position) + 1
                              case AtTree(latest, v) => v.best.end - 8
    {
    }

    /** The nearest position with the same three bytes, where no repeat offset gives a match. */
    method SearchNearest(input: seq<byte>, nextToUpdate3: nat, position: nat, windowLow: nat,
                         candidates: array<MatchCandidate>, ghost q: Query)
      returns (count: nat, bestLength: nat, next3: nat, ghost latest: nat, done: bool)
      requires Shaped() && position + INPUT_TAIL_RESERVE <= |input| && candidates.Length >= LONGEST_OPTIMAL_MATCH
      requires lowestIndex <= nextToUpdate3 <= IndexOf(position) && lowestIndex <= windowLow <= IndexOf(position)
      requires Pow2(hash3Log) <= hash3Table.Length && Below(hash3Table[..Pow2(hash3Log)], IndexOf(position))
      requires q.input == input && q.position == position && q.reach == IndexOf(position) - windowLow
      requires NoRepeat(q) && Longest(SHORTEST_MATCH - 1, AllRepeats(q)) == SHORTEST_MATCH - 1
      requires Improvements(SHORTEST_MATCH - 1, AllRepeats(q)) == [] && Found(q, [], SHORTEST_MATCH - 1)
      requires hash3Log <= 32 && hash3Table.Length >= 0
      modifies hash3Table, candidates
      ensures Pow2(hash3Log) <= hash3Table.Length && Below(hash3Table[..Pow2(hash3Log)], IndexOf(position))
      ensures next3 == IndexOf(position)
      ensures var h := HashThreeBytes(input, position, hash3Log);
              h < hash3Table.Length
              && Latest(input, nextToUpdate3, IndexOf(position), h, old(hash3Table[..])[h], latest)
      ensures count <= candidates.Length && Found(q, candidates[..count], bestLength)
      ensures var early := EarlyOffers(q, Window(input), IndexOf(position), windowLow, latest);
              && candidates[..count] == Improvements(SHORTEST_MATCH - 1, early)
              && bestLength == Longest(SHORTEST_MATCH - 1, early)
      ensures done <==> Suffices(q, sufficientLength, bestLength)
      ensures !done ==> count + 2 <= bestLength <= LONGEST_OPTIMAL_MATCH && position + bestLength < |input|
    {
      hide *;
      Fields(input, position);
      ShapedParts();
      ghost var w, least := Window(input), SHORTEST_MATCH - 1;
      var current := IndexOf(position);
      var matchIndex3;
      next3, matchIndex3 := InsertHash3AndFindFirst(input, nextToUpdate3, position);
      latest, count, bestLength := matchIndex3, 0, SHORTEST_MATCH - 1;
      assert candidates[..0] == [];
      OffersAre(q, w, current, windowLow, latest);
      SufficesIs(q, sufficientLength, bestLength);
      NoOffers(least);
      MoreOffers(least, AllRepeats(q), NearestOffer(w, current, windowLow, latest));
      if matchIndex3 >= windowLow && current - matchIndex3 < MAX_HASH3_DISTANCE {
        var matchLength := Count(input, position, matchIndex3 - indexOffset);
        LcpEnds(input, position, matchIndex3 - indexOffset);
        CommonIs(w, current, matchIndex3);
        PosIs(w, position);
        PosIs(w, matchIndex3 - indexOffset);
        if matchLength >= SHORTEST_MATCH {
          bestLength := matchLength;
          count := 1;
          var candidate := MatchCandidate(current - matchIndex3 + REPEAT_OFFSET_COUNT, matchLength);
          candidates[0] := candidate;
          NewOffsetGood(q, candidate);
          FoundAlone(q, candidate);
          assert candidates[..1] == [candidate];
          OnlyOffer(least, candidate);
          SufficesIs(q, sufficientLength, bestLength);
          done := matchLength > sufficientLength || position + matchLength == |input|;
          return;
        }
      }
      done := false;
    }

    lemma ShapedParts()
      requires Shaped()
      ensures sufficientLength < LONGEST_OPTIMAL_MATCH == 4096 && indexOffset <= lowestIndex
      ensures SHORTEST_MATCH == 3 && REPEAT_OFFSET_COUNT == 3 && hash3Log <= 32
      ensures forall a: int, b: int :: Max(a, b) == if a < b then b else a
    {
      hide Pow2;
    }

    /** What is left of a search when the repeat offsets do not suffice. */
    method FindBeyondRepeats(input: seq<byte>, nextToUpdate3: nat, position: nat, windowLow: nat,
                             candidates: array<MatchCandidate>, count0: nat, bestLength0: nat, ghost q: Query)
      returns (count: nat, bestLength: nat, next3: nat, ghost stage: Stage)
      requires Valid(input) && position + INPUT_TAIL_RESERVE <= |input|
      requires nextToUpdate == IndexOf(position) && lowestIndex <= nextToUpdate3 <= nextToUpdate
      requires lowestIndex <= windowLow <= IndexOf(position) && candidates.Length >= LONGEST_OPTIMAL_MATCH
      requires q.input == input && q.position == position && q.reach == IndexOf(position) - windowLow
      requires !Suffices(q, sufficientLength, Longest(SHORTEST_MATCH - 1, AllRepeats(q)))
      requires bestLength0 == Longest(SHORTEST_MATCH - 1, AllRepeats(q)) && count0 + 2 <= bestLength0
      requires bestLength0 < LONGEST_OPTIMAL_MATCH && position + bestLength0 < |input|
      requires candidates[..count0] == Improvements(SHORTEST_MATCH - 1, AllRepeats(q))
      requires Found(q, candidates[..count0], bestLength0)
      modifies this`nodes, this`newest, this`nextToUpdate, hashTable, treeTable, hash3Table, candidates
      ensures Valid(input) && nextToUpdate3 <= next3 <= nextToUpdate
      ensures old(nextToUpdate) <= nextToUpdate <= IndexOf(|input|)
      ensures count <= candidates.Length && Found(q, candidates[..count], bestLength)
      ensures !stage.AtRepeats?
      ensures Answers(q, stage, old(treeTable[..]), old(Buckets()), treeTable[..], Buckets(), candidates[..count],
                      bestLength)
      ensures MovesOn(q, stage, old(nextToUpdate)) && LooksUp(q, stage, nextToUpdate3, next3, old(hash3Table[..]))
    {
      hide *;
      Fields(input, position);
      Fields(input, |input|);
      ValidParts(input);
      OrderedShape(input);
      ShapedParts();
      BucketsAre();
      var current := IndexOf(position);
      ghost var w, tree0, hash0 := Window(input), treeTable[..], Buckets();
      count, bestLength, next3 := count0, bestLength0, nextToUpdate3;
      var done := false;
      ghost var latest: nat := 0;
      OffersAre(q, w, current, windowLow, latest);
      assert count == 0 ==> candidates[..count] == [];
      if bestLength < SHORTEST_MATCH {
        count, bestLength, next3, latest, done :=
          SearchNearest(input, nextToUpdate3, position, windowLow, candidates, q);
      } else {
        AllEarly(q, w, current, windowLow, latest);
      }
      if done {
        nextToUpdate := current + 1;
        ValidWhen(input, current);
        stage := AtNearest(latest);
        EndsAtIs(q, w, current, windowLow, sufficientLength, stage);
        WalksNot(q, stage, windowLow, tree0, hash0);
        AnswersIs(q, stage, tree0, hash0, treeTable[..], Buckets(), candidates[..count], bestLength, w, windowLow);
        MovesOnIs(q, stage, current);
      } else {
        count, bestLength, stage :=
          FindInTree(input, position, windowLow, candidates, count, bestLength, q, latest);
      }
      LooksUpWhen(q, stage, nextToUpdate3, next3, old(hash3Table[..]));
    }

    /** The walk, and where it lets the trees go on. */
    method FindInTree(input: seq<byte>, position: nat, windowLow: nat, candidates: array<MatchCandidate>,
                      count0: nat, bestLength0: nat, ghost q: Query, ghost latest: nat)
      returns (count: nat, bestLength: nat, ghost stage: Stage)
      requires Ordered(input) && newest < IndexOf(position) && position + INPUT_TAIL_RESERVE <= |input|
      requires lowestIndex <= windowLow <= IndexOf(position) && candidates.Length >= LONGEST_OPTIMAL_MATCH
      requires q.input == input && q.position == position && q.reach == IndexOf(position) - windowLow
      requires count0 + 2 <= bestLength0 <= LONGEST_OPTIMAL_MATCH && position + bestLength0 < |input|
      requires var early := EarlyOffers(q, Window(input), IndexOf(position), windowLow, latest);
               && candidates[..count0] == Improvements(SHORTEST_MATCH - 1, early)
               && bestLength0 == Longest(SHORTEST_MATCH - 1, early)
      requires !Suffices(q, sufficientLength, Longest(SHORTEST_MATCH - 1, AllRepeats(q)))
      requires !Suffices(q, sufficientLength, bestLength0)
      requires Found(q, candidates[..count0], bestLength0)
      requires Pow2(hash3Log) <= hash3Table.Length && Below(hash3Table[..Pow2(hash3Log)], IndexOf(position))
      requires hash3Table != hashTable && hash3Table != treeTable && hashTable != treeTable
      modifies this`nodes, this`newest, this`nextToUpdate, hashTable, treeTable, candidates
      ensures Valid(input) && IndexOf(position) < nextToUpdate <= IndexOf(|input|)
      ensures count <= candidates.Length && Found(q, candidates[..count], bestLength)
      ensures stage.AtTree? && stage.latest == latest
      ensures Answers(q, stage, old(treeTable[..]), old(Buckets()), treeTable[..], Buckets(), candidates[..count],
                      bestLength)
      ensures MovesOn(q, stage, old(nextToUpdate))
    {
      hide *;
      Fields(input, position);
      Fields(input, |input|);
      OrderedShape(input);
      ShapedParts();
      BucketsAre();
      var current := IndexOf(position);
      var hash := HashFourBytes(input, position, hashLog);
      ghost var w, early := Window(input), EarlyOffers(q, Window(input), current, windowLow, latest);
      var matchEndIndex;
      ghost var v, tree0, hash0 := Visit([], Best(0, 0), 0), treeTable[..], Buckets();
      SearchErrandIs(position, hash, windowLow, bestLength0);
      count, bestLength, matchEndIndex, v :=
        SearchTree(input, position, hash, windowLow, candidates, count0, bestLength0, q);
      nextToUpdate := matchEndIndex - 8;
      ValidWhen(input, current);
      OrderedShape(input);
      stage := AtTree(latest, v);
      MoreOffers(SHORTEST_MATCH - 1, early, TreeOffers(w, current, v.met));
      BestIsOffered(w, current, Best(bestLength0, current + 8 + 1), v.met);
      WalkedBest(w, tree0, hash0, treeTable[..], Buckets(), SearchErrand(position, hash, windowLow, bestLength0), v);
      EndsAtIs(q, w, current, windowLow, sufficientLength, stage);
      WalksAtTree(q, latest, v, windowLow, tree0, hash0, treeTable[..], Buckets());
      AnswersIs(q, stage, tree0, hash0, treeTable[..], Buckets(), candidates[..count], bestLength, w, windowLow);
      MovesOnIs(q, stage, old(nextToUpdate));
    }

    /** `insert_and_find_all_matches_unchecked`. */
    method InsertAndFindAllMatches(input: seq<byte>, nextToUpdate3: nat, position: nat, repeats: History,
                                   literalLengthIsZero: bool, candidates: array<MatchCandidate>)
      returns (count: nat, next3: nat, ghost best: nat, ghost reach: nat, ghost stage: Stage)
      requires Valid(input) && position + INPUT_TAIL_RESERVE <= |input| && indexOffset + |input| < U32
      requires nextToUpdate == IndexOf(position) && lowestIndex <= nextToUpdate3 <= nextToUpdate
      requires candidates.Length >= LONGEST_OPTIMAL_MATCH
      requires repeats.first < U32 && repeats.second < U32 && repeats.third < U32
      modifies this`nodes, this`newest, this`nextToUpdate, hashTable, treeTable, hash3Table, candidates
      ensures Valid(input) && nextToUpdate3 <= next3 <= nextToUpdate
      ensures nextToUpdate >= old(nextToUpdate)
      ensures nextToUpdate == old(nextToUpdate) || nextToUpdate <= IndexOf(|input|)
      ensures count <= candidates.Length
      ensures reach <= Pow2(windowLog) && reach <= IndexOf(position) - lowestIndex
      ensures reach == IndexOf(position) - FindLowestMatchIndex(IndexOf(position))
      ensures Found(Query(input, position, repeats, literalLengthIsZero, reach), candidates[..count], best)
      ensures Answers(Query(input, position, repeats, literalLengthIsZero, reach), stage, old(treeTable[..]),
                      old(Buckets()), treeTable[..], Buckets(), candidates[..count], best)
      ensures MovesOn(Query(input, position, repeats, literalLengthIsZero, reach), stage, old(nextToUpdate))
      ensures LooksUp(Query(input, position, repeats, literalLengthIsZero, reach), stage, nextToUpdate3, next3,
                      old(hash3Table[..]))
    {
      hide *;
      Fields(input, position);
      ValidParts(input);
      OrderedShape(input);
      ShapedParts();
      BucketsAre();
      var current := IndexOf(position);
      var windowLow := FindLowestMatchIndex(current);
      ghost var q := Query(input, position, repeats, literalLengthIsZero, current - windowLow);
      ghost var w, tree0, hash0 := Window(input), treeTable[..], Buckets();
      reach := current - windowLow;
      var bestLength, done;
      ghost var tried;
      count, bestLength, done, tried := SearchRepeats(input, position, repeats, literalLengthIsZero, windowLow,
                                                      candidates);
      OffersAre(q, w, current, windowLow, 0);
      if done {
        best, next3, stage := bestLength, nextToUpdate3, AtRepeats(tried);
        EndsAtIs(q, w, current, windowLow, sufficientLength, stage);
        WalksNot(q, stage, windowLow, tree0, hash0);
        AnswersIs(q, stage, tree0, hash0, treeTable[..], Buckets(), candidates[..count], best, w, windowLow);
        LooksUpWhen(q, stage, nextToUpdate3, next3, hash3Table[..]);
        MovesOnIs(q, stage, nextToUpdate);
        return;
      }
      count, bestLength, next3, stage :=
        FindBeyondRepeats(input, nextToUpdate3, position, windowLow, candidates, count, bestLength, q);
      best := bestLength;
    }

    /** `find_all_matches_unchecked`: true matches of strictly increasing length, each as long as the
        bytes at its offset agree; positions already inserted are not searched again. */
    method FindAllMatches(input: seq<byte>, nextToUpdate3: nat, position: nat, repeats: History,
                          literalLengthIsZero: bool, candidates: array<MatchCandidate>)
      returns (count: nat, next3: nat, ghost best: nat, ghost reach: nat, ghost stage: Stage, ghost run: seq<Insertion>)
      requires Valid(input) && position + INPUT_TAIL_RESERVE <= |input| && indexOffset + |input| < U32
      requires lowestIndex <= nextToUpdate3 <= nextToUpdate && candidates.Length >= LONGEST_OPTIMAL_MATCH
      requires repeats.first < U32 && repeats.second < U32 && repeats.third < U32
      modifies this`nodes, this`newest, this`nextToUpdate, hashTable, treeTable, hash3Table, candidates
      ensures Valid(input) && nextToUpdate3 <= next3 <= nextToUpdate
      ensures nextToUpdate >= old(nextToUpdate)
      ensures nextToUpdate == old(nextToUpdate) || nextToUpdate <= IndexOf(|input|)
      ensures count <= candidates.Length
      ensures count > 0 ==> reach <= Pow2(windowLog) && reach <= IndexOf(position) - lowestIndex
      ensures Found(Query(input, position, repeats, literalLengthIsZero, reach), candidates[..count], best)
      ensures IndexOf(position) < old(nextToUpdate) ==>
                && count == 0 && next3 == nextToUpdate3 && nextToUpdate == old(nextToUpdate)
                && treeTable[..] == old(treeTable[..]) && hashTable[..] == old(hashTable[..])
      ensures IndexOf(position) >= old(nextToUpdate) ==>
                && CatchesUp(input, position, run) && run[0].errand.newest == old(nextToUpdate)
                && run[0].tree == old(treeTable[..]) && run[0].hash == old(Buckets())
                && reach == IndexOf(position) - FindLowestMatchIndex(IndexOf(position))
                && var q := Query(input, position, repeats, literalLengthIsZero, reach);
                && Answers(q, stage, run[|run| - 1].tree, run[|run| - 1].hash, treeTable[..], Buckets(),
                           candidates[..count], best)
                && MovesOn(q, stage, IndexOf(position))
                && LooksUp(q, stage, nextToUpdate3, next3, old(hash3Table[..]))
    {
      hide *;
      Fields(input, position);
      Fields(input, |input|);
      ValidParts(input);
      OrderedShape(input);
      if IndexOf(position) < nextToUpdate {
        reach, best, stage, run := 0, 2, AtRepeats(0), [];
        NothingFound(Query(input, position, repeats, literalLengthIsZero, 0));
        assert candidates[..0] == [];
        return 0, nextToUpdate3, best, reach, stage, run;
      }
      run := UpdateTree(input, position);
      ValidParts(input);
      OrderedShape(input);
      CatchesUpIs(input, position, run);
      count, next3, best, reach, stage := InsertAndFindAllMatches(input, nextToUpdate3, position, repeats,
                                                                  literalLengthIsZero, candidates);
    }

    constructor (hashTable: array<nat>, treeTable: array<nat>, hash3Table: array<nat>)
      requires forall i :: 0 <= i < hashTable.Length ==> hashTable[i] == 0
      requires forall i :: 0 <= i < hash3Table.Length ==> hash3Table[i] == 0
      ensures this.hashTable == hashTable && this.treeTable == treeTable && this.hash3Table == hash3Table
      ensures tablesAreZero && hashLog == 0
    {
      this.hashTable, this.treeTable, this.hash3Table := hashTable, treeTable, hash3Table;
      hashLog, hash3Log, treeMask, windowLog, searchCount, sufficientLength := 0, 0, 0, 0, 0, 0;
      indexOffset, lowestIndex, nextToUpdate := WINDOW_START_INDEX, WINDOW_START_INDEX, WINDOW_START_INDEX;
      tablesAreZero := true;
      nodes, newest := map[], 0;
    }

    /** The tables are large enough for these parameters, and the parameters in range. */
    predicate Fits(hashLog: nat, treeLog: nat, windowLog: nat) {
      && hashTable.Length >= Pow2(hashLog) && treeTable.Length >= Pow2(treeLog)
      && hash3Table.Length >= Pow2(Min(windowLog, MAX_HASH3_LOG))
      && 2 <= treeLog <= 30 && 6 <= hashLog <= 30
    }

    /** A table filled with zeros where it counts. */
    ghost predicate Zeroed(table: array<nat>, count: nat)
      reads table
    {
      forall i :: 0 <= i < count && i < table.Length ==> table[i] == 0
    }

    /** `reset`: usable over any input, or marked unusable when the tables do not fit. The tree
        table keeps its old contents. */
    method Reset(hashLog: nat, treeLog: nat, windowLog: nat, searchLog: nat, targetLength: nat, ghost input: seq<byte>)
      requires hashTable != treeTable && treeTable != hash3Table && hashTable != hash3Table
      requires tablesAreZero ==> Zeroed(hashTable, hashTable.Length) && Zeroed(hash3Table, hash3Table.Length)
      modifies this, hashTable, hash3Table
      ensures if Fits(hashLog, treeLog, windowLog)
              then
                && Valid(input) && this.hashLog == hashLog && nextToUpdate == lowestIndex == WINDOW_START_INDEX
                && this.windowLog == windowLog && treeMask + 1 == Pow2(treeLog - 1)
                && searchCount == Pow2(Min(searchLog, 30)) && hash3Log == Min(windowLog, MAX_HASH3_LOG)
                && sufficientLength == Min(targetLength, LONGEST_OPTIMAL_MATCH - 1)
              else this.hashLog == 0
    {
      hide *;
      FitsWhen(hashLog, treeLog, windowLog);
      if !Fits(hashLog, treeLog, windowLog) {
        this.hashLog := 0;
        return;
      }
      this.hashLog := hashLog;
      this.hash3Log := Min(windowLog, MAX_HASH3_LOG);
      HalfTable(treeLog);
      treeMask := Pow2(treeLog - 1) - 1;
      this.windowLog := windowLog;
      searchCount := Pow2(Min(searchLog, 30));
      SufficientIs(targetLength);
      sufficientLength := Min(targetLength, LONGEST_OPTIMAL_MATCH - 1);
      Restart(treeLog, input);
    }

    lemma SufficientIs(targetLength: nat)
      ensures 0 <= Min(targetLength, LONGEST_OPTIMAL_MATCH - 1) < LONGEST_OPTIMAL_MATCH
    {
    }

    lemma StartIs()
      ensures WINDOW_START_INDEX == 2
    {
    }

    /** Nothing known of any input. */
    method Restart(treeLog: nat, ghost input: seq<byte>)
      requires hashTable != treeTable && treeTable != hash3Table && hashTable != hash3Table
      requires tablesAreZero ==> Zeroed(hashTable, hashTable.Length) && Zeroed(hash3Table, hash3Table.Length)
      requires 6 <= hashLog <= 30 && hash3Log <= MAX_HASH3_LOG && 2 <= treeLog
      requires Pow2(hashLog) <= hashTable.Length && Pow2(hash3Log) <= hash3Table.Length
      requires treeMask + 1 == Pow2(treeLog - 1) && Pow2(treeLog) <= treeTable.Length
      requires sufficientLength < LONGEST_OPTIMAL_MATCH
      modifies this`indexOffset, this`lowestIndex, this`nextToUpdate, this`nodes, this`newest, this`tablesAreZero
      modifies hashTable, hash3Table
      ensures Valid(input) && nextToUpdate == lowestIndex == WINDOW_START_INDEX
    {
      hide *;
      StartIs();
      ClearTables();
      indexOffset := WINDOW_START_INDEX;
      lowestIndex := WINDOW_START_INDEX;
      nextToUpdate := WINDOW_START_INDEX;
      nodes, newest := map[], 0;
      ShapedWhen(treeLog);
      FreshlyValid(input);
    }

    method ClearTables()
      requires hashTable != hash3Table && hashTable.Length >= Pow2(hashLog) && hash3Table.Length >= Pow2(hash3Log)
      requires tablesAreZero ==> Zeroed(hashTable, hashTable.Length) && Zeroed(hash3Table, hash3Table.Length)
      modifies this`tablesAreZero, hashTable, hash3Table
      ensures Zeroed(hashTable, Pow2(hashLog)) && Zeroed(hash3Table, Pow2(hash3Log)) && !tablesAreZero
    {
      hide Pow2;
      if !tablesAreZero {
        Fill(hashTable, Pow2(hashLog));
        Fill(hash3Table, Pow2(hash3Log));
      }
      tablesAreZero := false;
    }

    lemma FitsWhen(hashLog: nat, treeLog: nat, windowLog: nat)
      ensures Fits(hashLog, treeLog, windowLog) ==>
                && hashTable.Length >= Pow2(hashLog) && treeTable.Length >= Pow2(treeLog)
                && hash3Table.Length >= Pow2(Min(windowLog, MAX_HASH3_LOG)) && 0 <= Min(windowLog, MAX_HASH3_LOG)
                && 2 <= treeLog <= 30 && 6 <= hashLog <= 30 && Min(windowLog, MAX_HASH3_LOG) <= MAX_HASH3_LOG
      ensures LONGEST_OPTIMAL_MATCH == 4096 && WINDOW_START_INDEX == 2
      ensures forall n: nat :: 0 <= Min(n, 30)
    {
      hide Pow2;
    }

    lemma ShapedWhen(treeLog: nat)
      requires hashTable != treeTable && treeTable != hash3Table && hashTable != hash3Table
      requires 6 <= hashLog <= 30 && hash3Log <= MAX_HASH3_LOG && 2 <= treeLog
      requires Pow2(hashLog) <= hashTable.Length && Pow2(hash3Log) <= hash3Table.Length
      requires treeMask + 1 == Pow2(treeLog - 1) && Pow2(treeLog) <= treeTable.Length
      requires lowestIndex == indexOffset == WINDOW_START_INDEX && sufficientLength < LONGEST_OPTIMAL_MATCH
      ensures Shaped()
    {
      hide Pow2;
      HalfTable(treeLog);
    }

    lemma FreshlyValid(input: seq<byte>)
      requires Shaped() && Pow2(hash3Log) <= hash3Table.Length && Pow2(hashLog) <= hashTable.Length
      requires Zeroed(hashTable, Pow2(hashLog)) && Zeroed(hash3Table, Pow2(hash3Log))
      requires nodes == map[] && newest == 0 && lowestIndex == nextToUpdate == WINDOW_START_INDEX
      ensures Valid(input)
    {
      hide Pow2, Forest, Roots;
      EmptyForest(Window(input), treeTable[..], hashTable[..Pow2(hashLog)], 0);
      ZeroBelow(hash3Table[..Pow2(hash3Log)]);
    }

    /** `prepare_for_block`: the window moves up, and a long way behind is not caught up with. */
    method PrepareForBlock(blockStart: nat, ghost input: seq<byte>)
      requires Valid(input)
      modifies this`lowestIndex, this`nextToUpdate
      ensures Valid(input) && lowestIndex >= old(lowestIndex) && nextToUpdate >= old(nextToUpdate)
      ensures lowestIndex == Max(old(lowestIndex), IndexOf(blockStart) - Pow2(windowLog))
      ensures nextToUpdate <= Max(Max(old(nextToUpdate), old(lowestIndex)), IndexOf(blockStart))
      ensures var from, behind := Max(old(nextToUpdate), lowestIndex), IndexOf(blockStart) - LONG_MATCH_SKIP_THRESHOLD;
              nextToUpdate == if behind > from then IndexOf(blockStart) - Min(behind - from, LONG_MATCH_SKIP_LIMIT)
                              else from
    {
      hide Pow2, Forest, Roots;
      var maxDistance := Pow2(windowLog);
      var current := IndexOf(blockStart);
      ghost var w := Window(input);
      if current > maxDistance {
        ForestForgets(w, treeTable[..], hashTable[..Pow2(hashLog)], nodes, newest,
                      Max(lowestIndex, current - maxDistance));
        lowestIndex := Max(lowestIndex, current - maxDistance);
      }
      ghost var limit := nextToUpdate;
      nextToUpdate := Max(nextToUpdate, lowestIndex);
      if current > nextToUpdate + LONG_MATCH_SKIP_THRESHOLD {
        var skipped := current - nextToUpdate - LONG_MATCH_SKIP_THRESHOLD;
        nextToUpdate := current - Min(skipped, LONG_MATCH_SKIP_LIMIT);
      }
      ValidWhen(input, limit);
    }

    /** `forget_history_before`: every index handed out so far falls below the window, so the next
        text may be any. */
    method ForgetHistoryBefore(blockLength: nat, ghost input: seq<byte>, ghost newInput: seq<byte>)
      requires Valid(input) && nextToUpdate <= IndexOf(|input|) <= lowestIndex + blockLength
      modifies this`indexOffset, this`lowestIndex, this`nextToUpdate
      ensures Valid(newInput) && nextToUpdate == lowestIndex == old(lowestIndex) + blockLength
      ensures indexOffset == old(indexOffset) + blockLength
    {
      hide Pow2, Forest, Roots;
      ghost var w, limit := Window(input), nextToUpdate;
      indexOffset := indexOffset + blockLength;
      lowestIndex := lowestIndex + blockLength;
      nextToUpdate := lowestIndex;
      ForestShifts(w, Window(newInput), treeTable[..], hashTable[..Pow2(hashLog)], nodes, newest);
      ValidWhen(newInput, limit);
    }

    /** More input does not disturb the trees. */
    lemma StaysValid(input: seq<byte>, more: seq<byte>)
      requires Valid(input)
      ensures Valid(input + more)
    {
      hide Pow2, Forest, Roots;
      ForestGrows(Window(input), more, treeTable[..], hashTable[..Pow2(hashLog)], nodes, newest);
    }

    lemma ValidParts(input: seq<byte>)
      requires Valid(input)
      ensures Ordered(input) && Shaped() && lowestIndex <= nextToUpdate && newest < nextToUpdate
      ensures Pow2(hash3Log) <= hash3Table.Length && Below(hash3Table[..Pow2(hash3Log)], nextToUpdate) && hashLog <= 32
      ensures sufficientLength < LONGEST_OPTIMAL_MATCH == 4096
      ensures hash3Table != hashTable && hash3Table != treeTable && hashTable != treeTable
      ensures indexOffset <= lowestIndex && SHORTEST_MATCH == 3 && REPEAT_OFFSET_COUNT == 3
    {
      hide Forest, Roots, Pow2;
    }

    lemma ValidWhen(input: seq<byte>, limit: nat)
      requires Ordered(input) && newest < nextToUpdate && lowestIndex <= nextToUpdate
      requires Pow2(hash3Log) <= hash3Table.Length && limit <= nextToUpdate
      requires Below(hash3Table[..Pow2(hash3Log)], limit)
      ensures Valid(input)
    {
      hide Ordered;
    }
  }

  /** `fill(0)` of the first `count` entries. */
  method Fill(table: array<nat>, count: nat)
    requires count <= table.Length
    modifies table
    ensures forall i :: 0 <= i < count ==> table[i] == 0
    ensures forall i :: count <= i < table.Length ==> table[i] == old(table[i])
  {
    for i := 0 to count
      invariant forall j :: 0 <= j < i ==> table[j] == 0
      invariant forall j :: count <= j < table.Length ==> table[j] == old(table[j])
    {
      table[i] := 0;
    }
  }

  lemma ZeroBelow(entries: seq<nat>)
    requires forall i :: 0 <= i < |entries| ==> entries[i] == 0
    ensures Below(entries, WINDOW_START_INDEX)
  {
  }

  lemma HalfTable(log: nat)
    requires 2 <= log
    ensures Pow2(log) == 2 * Pow2(log - 1) && Pow2(log - 1) >= 2
  {
  }

  lemma FoundAlone(q: Query, c: MatchCandidate)
    requires Good(q, c)
    ensures Found(q, [c], c.length) && c.length >= SHORTEST_MATCH
  {
    hide Lcp;
  }

  /** Records a match longer than the best; `enough` when the search need not go on. */
  method Consider(candidates: array<MatchCandidate>, count: nat, bestLength: nat, position: nat, current: nat,
                  matchIndex: nat, matchLength: nat, matchEndIndex: nat, inputEnd: nat, ghost q: Query)
    returns (count': nat, bestLength': nat, matchEndIndex': nat, enough: bool)
    requires candidates.Length >= LONGEST_OPTIMAL_MATCH && matchEndIndex > current + 8 && matchIndex < current
    requires count + 2 <= bestLength <= LONGEST_OPTIMAL_MATCH && position + bestLength < inputEnd
    requires Found(q, candidates[..count], bestLength) && current - matchIndex <= q.reach
    requires current - matchIndex <= position == q.position
    requires matchLength == Lcp(q.input, q.position, q.position - (current - matchIndex))
    requires position + matchLength <= inputEnd
    modifies candidates
    ensures count' <= candidates.Length && Found(q, candidates[..count'], bestLength') && matchEndIndex' > current + 8
    ensures matchEndIndex' <= matchEndIndex || matchEndIndex' <= current + matchLength
    ensures Best(bestLength', matchEndIndex') == BestWith(Best(bestLength, matchEndIndex), matchIndex, matchLength)
    ensures candidates[..count']
         == old(candidates[..count])
            + (if matchLength > bestLength
               then [MatchCandidate(current - matchIndex + REPEAT_OFFSET_COUNT, matchLength)] else [])
    ensures enough <==> matchLength > LONGEST_OPTIMAL_MATCH || position + matchLength == inputEnd
    ensures !enough ==> && count' + 2 <= bestLength' <= LONGEST_OPTIMAL_MATCH && position + bestLength' < inputEnd
                        && position + matchLength < inputEnd
  {
    hide Found, Good, Lcp;
    count', bestLength', matchEndIndex', enough := count, bestLength, matchEndIndex, false;
    if matchLength > bestLength {
      if matchLength > matchEndIndex - matchIndex {
        matchEndIndex' := matchIndex + matchLength;
      }
      var candidate := MatchCandidate(current - matchIndex + REPEAT_OFFSET_COUNT, matchLength);
      NewOffsetGood(q, candidate);
      AddCandidate(candidates, count, candidate, q, bestLength);
      bestLength' := matchLength;
      count' := count + 1;
      enough := matchLength > LONGEST_OPTIMAL_MATCH || position + matchLength == inputEnd;
    }
  }

  lemma NewOffsetGood(q: Query, c: MatchCandidate)
    requires c.offsetBase > REPEAT_OFFSET_COUNT && c.offsetBase - REPEAT_OFFSET_COUNT <= q.reach
    requires c.offsetBase - REPEAT_OFFSET_COUNT <= q.position
    requires SHORTEST_MATCH <= c.length == Lcp(q.input, q.position, q.position - (c.offsetBase - REPEAT_OFFSET_COUNT))
    ensures Good(q, c)
  {
    hide Lcp;
  }

  /** A repeat code, counted from the first one allowed, is the value the decoder resolves. */
  lemma RepeatGood(q: Query, code: nat, offset: nat, c: MatchCandidate)
    requires (if q.literalLengthIsZero then 1 else 0) <= code < (if q.literalLengthIsZero then 4 else 3)
    requires offset == if code == 3 then (q.repeats.first + (U32 - 1)) % U32
                       else if code == 0 then q.repeats.first else if code == 1 then q.repeats.second
                       else q.repeats.third
    requires c.offsetBase == code + 1 - (if q.literalLengthIsZero then 1 else 0)
    requires 1 <= offset <= q.reach && offset <= q.position
    requires SHORTEST_MATCH <= c.length == Lcp(q.input, q.position, q.position - offset)
    ensures Good(q, c)
  {
    hide Lcp;
  }

  /** Codes counted from the first one allowed are the values a decoder resolves. */
  lemma RepeatCode(repeats: History, code: nat, literalLengthIsZero: bool)
    requires (if literalLengthIsZero then 1 else 0) <= code < (if literalLengthIsZero then 4 else 3)
    ensures OffsetOf(repeats, code + 1 - (if literalLengthIsZero then 1 else 0), if literalLengthIsZero then 0 else 1)
         == if code == 3 then (repeats.first + (U32 - 1)) % U32
            else if code == 0 then repeats.first else if code == 1 then repeats.second else repeats.third
  {
  }

  lemma NothingFound(q: Query)
    ensures Found(q, [], SHORTEST_MATCH - 1)
  {
  }

  method AddCandidate(candidates: array<MatchCandidate>, count: nat, c: MatchCandidate, ghost q: Query, ghost best: nat)
    requires count < candidates.Length && Found(q, candidates[..count], best) && Good(q, c) && c.length > best
    modifies candidates
    ensures Found(q, candidates[..count + 1], c.length)
    ensures candidates[..count + 1] == old(candidates[..count]) + [c]
  {
    hide Found, Good;
    ghost var before := candidates[..count];
    FoundMore(q, before, best, c);
    candidates[count] := c;
    assert candidates[..count + 1] == before + [c];
  }

  lemma FoundMore(q: Query, found: seq<MatchCandidate>, best: nat, c: MatchCandidate)
    requires Found(q, found, best) && Good(q, c) && c.length > best
    ensures Found(q, found + [c], c.length)
  {
    hide Good;
    var more := found + [c];
    forall i, j | 0 <= i < j < |more|
      ensures more[i].length < more[j].length
    {
      if j == |found| && i < |found| - 1 {
        assert found[i].length < found[|found| - 1].length;
      }
    }
  }

  /** The bytes in common with those `offset` back, if that is in reach and they are three or more. */
  function RepeatCommon(input: seq<byte>, position: nat, offset: nat, reach: nat): nat {
    if 1 <= offset <= reach && offset <= position && Lcp(input, position, position - offset) >= SHORTEST_MATCH
    then Lcp(input, position, position - offset) else 0
  }

  lemma ThreeShared(input: seq<byte>, first: nat, second: nat)
    requires second < first && first + 3 <= |input|
    ensures input[first..first + 3] == input[second..second + 3] <==> Lcp(input, first, second) >= 3
  {
    hide Lcp;
    LcpAgree(input, first, second, 3);
    if input[first..first + 3] == input[second..second + 3] {
      forall k: nat | k < 3
        ensures Same(input, first, second, k)
      {
        assert input[first..first + 3][k] == input[second..second + 3][k];
      }
    }
    if Lcp(input, first, second) >= 3 {
      LcpEqual(input, first, second, 0);
      LcpEqual(input, first, second, 1);
      LcpEqual(input, first, second, 2);
      assert input[first..first + 3] == input[second..second + 3];
    }
  }

  /** What the first `n` repeat codes offer, nearest first. */
  function RepeatOffers(q: Query, n: nat): (offers: seq<MatchCandidate>)
    ensures |offers| == n
  {
    seq(n, i requires 0 <= i < n =>
      MatchCandidate(i + 1, RepeatCommon(q.input, q.position,
                                         OffsetOf(q.repeats, i + 1, if q.literalLengthIsZero then 0 else 1), q.reach)))
  }

  lemma NextRepeat(q: Query, n: nat)
    ensures RepeatOffers(q, n + 1)
         == RepeatOffers(q, n)
            + [MatchCandidate(n + 1, RepeatCommon(q.input, q.position,
                                                  OffsetOf(q.repeats, n + 1, if q.literalLengthIsZero then 0 else 1),
                                                  q.reach))]
  {
    hide RepeatCommon, OffsetOf;
  }

  /** A match that ends the search: longer than what suffices, or up to the end of the input. */
  predicate Suffices(q: Query, sufficientLength: nat, length: nat) {
    length >= SHORTEST_MATCH && (length > sufficientLength || q.position + length == |q.input|)
  }

  /** Where a search ends: at a repeat offset, at the nearest position with the same three bytes, or with
      the walk through the tree. */
  datatype Stage = AtRepeats(tried: nat) | AtNearest(latest: nat) | AtTree(latest: nat, visit: Visit)

  /** The nearest position with the same three bytes' hash, if it is in reach and shares three bytes. */
  function NearestOffer(w: Window, current: nat, low: nat, latest: nat): seq<MatchCandidate> {
    if low <= latest < current && current - latest < MAX_HASH3_DISTANCE
       && CommonWith(w, current, latest) >= SHORTEST_MATCH
    then [MatchCandidate(current - latest + REPEAT_OFFSET_COUNT, CommonWith(w, current, latest))] else []
  }

  function AllRepeats(q: Query): seq<MatchCandidate> {
    RepeatOffers(q, REPEAT_OFFSET_COUNT)
  }

  /** No repeat offset gives a match. */
  predicate NoRepeat(q: Query) {
    Longest(SHORTEST_MATCH - 1, AllRepeats(q)) < SHORTEST_MATCH
  }

  /** What is known before the walk: the repeats and, only if they gave nothing, the nearest. */
  function EarlyOffers(q: Query, w: Window, current: nat, low: nat, latest: nat): seq<MatchCandidate> {
    AllRepeats(q) + (if NoRepeat(q) then NearestOffer(w, current, low, latest) else [])
  }

  /** Everything a search considers, in its order. */
  function Offers(q: Query, w: Window, current: nat, low: nat, stage: Stage): seq<MatchCandidate> {
    match stage
    case AtRepeats(tried) => RepeatOffers(q, tried)
    case AtNearest(latest) => EarlyOffers(q, w, current, low, latest)
    case AtTree(latest, visit) => EarlyOffers(q, w, current, low, latest) + TreeOffers(w, current, visit.met)
  }

  /** The stage a search ends at, before the tree: the first at which the best suffices. */
  ghost predicate EndsAt(q: Query, w: Window, current: nat, low: nat, sufficientLength: nat, stage: Stage) {
    var least := SHORTEST_MATCH - 1;
    match stage
    case AtRepeats(tried) =>
      && tried <= REPEAT_OFFSET_COUNT && Suffices(q, sufficientLength, Longest(least, RepeatOffers(q, tried)))
      && forall n :: 0 <= n < tried ==> !Suffices(q, sufficientLength, Longest(least, RepeatOffers(q, n)))
    case AtNearest(latest) =>
      && !Suffices(q, sufficientLength, Longest(least, AllRepeats(q))) && NoRepeat(q)
      && Suffices(q, sufficientLength, Longest(least, EarlyOffers(q, w, current, low, latest)))
    case AtTree(latest, visit) =>
      && !Suffices(q, sufficientLength, Longest(least, AllRepeats(q)))
      && !Suffices(q, sufficientLength, Longest(least, EarlyOffers(q, w, current, low, latest)))
  }

  lemma OffersAre(q: Query, w: Window, current: nat, low: nat, latest: nat)
    ensures EarlyOffers(q, w, current, low, latest)
         == AllRepeats(q) + (if NoRepeat(q) then NearestOffer(w, current, low, latest) else [])
    ensures NoRepeat(q) <==> Longest(SHORTEST_MATCH - 1, AllRepeats(q)) < SHORTEST_MATCH
    ensures AllRepeats(q) == RepeatOffers(q, REPEAT_OFFSET_COUNT)
    ensures NearestOffer(w, current, low, latest)
         == if low <= latest < current && current - latest < MAX_HASH3_DISTANCE
               && CommonWith(w, current, latest) >= SHORTEST_MATCH
            then [MatchCandidate(current - latest + REPEAT_OFFSET_COUNT, CommonWith(w, current, latest))] else []
  {
    hide Longest, RepeatOffers, CommonWith;
  }

  lemma EndsAtIs(q: Query, w: Window, current: nat, low: nat, sufficientLength: nat, stage: Stage)
    ensures var least := SHORTEST_MATCH - 1;
            EndsAt(q, w, current, low, sufficientLength, stage) <==>
              match stage
              case AtRepeats(tried) =>
                && tried <= REPEAT_OFFSET_COUNT && Suffices(q, sufficientLength, Longest(least, RepeatOffers(q, tried)))
                && forall n :: 0 <= n < tried ==> !Suffices(q, sufficientLength, Longest(least, RepeatOffers(q, n)))
              case AtNearest(latest) =>
                && !Suffices(q, sufficientLength, Longest(least, AllRepeats(q))) && NoRepeat(q)
                && Suffices(q, sufficientLength, Longest(least, EarlyOffers(q, w, current, low, latest)))
              case AtTree(latest, visit) =>
                && !Suffices(q, sufficientLength, Longest(least, AllRepeats(q)))
                && !Suffices(q, sufficientLength, Longest(least, EarlyOffers(q, w, current, low, latest)))
    ensures Offers(q, w, current, low, stage)
         == match stage
            case AtRepeats(tried) => RepeatOffers(q, tried)
            case AtNearest(latest) => EarlyOffers(q, w, current, low, latest)
            case AtTree(latest, visit) => EarlyOffers(q, w, current, low, latest) + TreeOffers(w, current, visit.met)
  {
    hide Longest, RepeatOffers, EarlyOffers, TreeOffers, Suffices, NoRepeat, AllRepeats;
  }

  lemma SufficesIs(q: Query, sufficientLength: nat, length: nat)
    ensures Suffices(q, sufficientLength, length)
       <==> length >= SHORTEST_MATCH && (length > sufficientLength || q.position + length == |q.input|)
  {
  }

  /** Where a repeat offset gave a match, the nearest position is not looked up. */
  lemma AllEarly(q: Query, w: Window, current: nat, low: nat, latest: nat)
    requires !NoRepeat(q)
    ensures EarlyOffers(q, w, current, low, latest) == AllRepeats(q)
  {
    hide NoRepeat, AllRepeats, NearestOffer;
  }

  /** One offer that is long enough to be taken. */
  lemma OnlyOffer(least: nat, c: MatchCandidate)
    ensures Longest(least, [c]) == Max(least, c.length)
    ensures Improvements(least, [c]) == if c.length > least then [c] else []
  {
    NoOffers(least);
    OneMoreOffer(least, [], c);
    assert [] + [c] == [c];
  }

  lemma OffsetInHistory(offset: nat, historyLength: nat)
    requires offset < U32 && historyLength < U32 && (offset + (U32 - 1)) % U32 < historyLength
    ensures 1 <= offset <= historyLength
  {
  }

  lemma BelowMore(entries: seq<nat>, limit: nat, more: nat)
    requires Below(entries, limit) && limit <= more
    ensures Below(entries, more)
  {
  }

  /** The trees before an insertion. */
  datatype Past = Past(tree: seq<nat>, hash: seq<nat>, nodes: map<nat, Node>, newest: nat)

  // ---------------------------------------------------------------- what is offered, what is taken

  /** The longest of the offers, or the length they have to beat. */
  function Longest(least: nat, offers: seq<MatchCandidate>): nat {
    if offers == [] then least
    else Max(Longest(least, offers[..|offers| - 1]), offers[|offers| - 1].length)
  }

  /** The offers that are longer than all before them. */
  function Improvements(least: nat, offers: seq<MatchCandidate>): seq<MatchCandidate> {
    if offers == [] then []
    else
      var before, last := offers[..|offers| - 1], offers[|offers| - 1];
      Improvements(least, before) + (if last.length > Longest(least, before) then [last] else [])
  }

  lemma OneMoreOffer(least: nat, offers: seq<MatchCandidate>, c: MatchCandidate)
    ensures Longest(least, offers + [c]) == Max(Longest(least, offers), c.length)
    ensures Improvements(least, offers + [c])
         == Improvements(least, offers) + (if c.length > Longest(least, offers) then [c] else [])
  {
    assert (offers + [c])[..|offers|] == offers;
  }

  lemma NoOffers(least: nat)
    ensures Longest(least, []) == least && Improvements(least, []) == []
  {
  }

  /** First some offers, then others. */
  lemma {:induction false} MoreOffers(least: nat, offers: seq<MatchCandidate>, more: seq<MatchCandidate>)
    ensures Longest(least, offers + more) == Longest(Longest(least, offers), more)
    ensures Improvements(least, offers + more)
         == Improvements(least, offers) + Improvements(Longest(least, offers), more)
    decreases |more|
  {
    hide Longest, Improvements;
    if more == [] {
      assert offers + more == offers;
      NoOffers(Longest(least, offers));
    } else {
      var n := |more| - 1;
      MoreOffers(least, offers, more[..n]);
      OneMoreOffer(least, offers + more[..n], more[n]);
      OneMoreOffer(Longest(least, offers), more[..n], more[n]);
      assert offers + more == offers + more[..n] + [more[n]];
      assert more == more[..n] + [more[n]];
    }
  }

  /** What the nodes met offer: their distance as a new offset, and the bytes in common. */
  function TreeOffers(w: Window, newest: nat, met: seq<nat>): (offers: seq<MatchCandidate>)
    ensures |offers| == |met|
  {
    seq(|met|, i requires 0 <= i < |met| =>
      MatchCandidate(Max(newest - met[i], 0) + REPEAT_OFFSET_COUNT, CommonWith(w, newest, met[i])))
  }

  lemma OneMoreMet(w: Window, newest: nat, met: seq<nat>, x: nat)
    requires x <= newest
    ensures TreeOffers(w, newest, met + [x])
         == TreeOffers(w, newest, met) + [MatchCandidate(newest - x + REPEAT_OFFSET_COUNT, CommonWith(w, newest, x))]
  {
    hide CommonWith;
  }

  /** The best of a walk is the longest of its offers. */
  lemma {:induction false} BestIsOffered(w: Window, newest: nat, start: Best, met: seq<nat>)
    ensures BestAfter(w, newest, start, met).length == Longest(start.length, TreeOffers(w, newest, met))
  {
    hide CommonWith, TreeOffers;
    if met == [] {
      NoneOffered(w, newest);
    } else {
      var n := |met| - 1;
      BestIsOffered(w, newest, start, met[..n]);
      LastOffer(w, newest, met);
    }
  }

  lemma NoneOffered(w: Window, newest: nat)
    ensures TreeOffers(w, newest, []) == []
  {
  }

  lemma LastOffer(w: Window, newest: nat, met: seq<nat>)
    requires met != []
    ensures var n := |met| - 1;
            && TreeOffers(w, newest, met)[..n] == TreeOffers(w, newest, met[..n])
            && TreeOffers(w, newest, met)[n].length == CommonWith(w, newest, met[n])
  {
    hide CommonWith;
  }

  // ---------------------------------------------------------------- what a search returns

  /** A search: where, with which repeat offsets, and how far back it may reach. */
  datatype Query = Query(input: seq<byte>, position: nat, repeats: History, literalLengthIsZero: bool, reach: nat)

  /** The candidate's value resolves to an offset within reach, and its length is exactly the
      number of bytes in common there. */
  ghost predicate Good(q: Query, c: MatchCandidate) {
    var offset := OffsetOf(q.repeats, c.offsetBase, if q.literalLengthIsZero then 0 else 1);
    && c.offsetBase > 0 && 1 <= offset <= q.reach && offset <= q.position
    && SHORTEST_MATCH <= c.length == Lcp(q.input, q.position, q.position - offset)
  }

  /** Good candidates of strictly increasing length, the longest last. */
  ghost predicate Found(q: Query, found: seq<MatchCandidate>, best: nat) {
    && (forall i :: 0 <= i < |found| ==> Good(q, found[i]))
    && (forall i, j :: 0 <= i < j < |found| ==> found[i].length < found[j].length)
    && best == if found == [] then SHORTEST_MATCH - 1 else found[|found| - 1].length
  }

  /** The step changes one side only, to the node just met. */
  lemma StepSides(w: Window, tree: seq<nat>, k: Walk, up: bool)
    requires w.size > 0 && 2 * w.size <= |tree|
    ensures var next := Stepped(w, tree, k, up);
            && next.newest == k.newest && next.bucket == k.bucket && Hole(next, !up) == Hole(k, !up)
            && SideLength(w, next, !up) == SideLength(w, k, !up)
            && (k.next != 0 ==> SideLength(w, next, up) == Lcp(w.text, Pos(w, k.newest), Pos(w, k.next)))
  {
    hide Lcp;
  }

  lemma NoSides(w: Window, k: Walk)
    requires k.low == 0 && k.high == 0
    ensures SideLength(w, k, true) == 0 && SideLength(w, k, false) == 0
  {
  }

  /** Where a walk stands, in the words of the loop. */
  ghost predicate Stands(w: Window, k: Walk, matchIndex: nat, smallerSlot: nat, largerSlot: nat,
                         smallerCommonLength: nat, largerCommonLength: nat) {
    && k.next == matchIndex && k.lowSlot == smallerSlot && k.highSlot == largerSlot
    && smallerCommonLength == SideLength(w, k, true) && largerCommonLength == SideLength(w, k, false)
  }

  lemma StandsIs(w: Window, k: Walk, matchIndex: nat, smallerSlot: nat, largerSlot: nat, smallerCommonLength: nat,
                 largerCommonLength: nat)
    ensures Stands(w, k, matchIndex, smallerSlot, largerSlot, smallerCommonLength, largerCommonLength)
       <==> && k.next == matchIndex && k.lowSlot == smallerSlot && k.highSlot == largerSlot
            && smallerCommonLength == SideLength(w, k, true) && largerCommonLength == SideLength(w, k, false)
  {
    hide SideLength;
  }

  lemma {:induction false} IndicesGrow(run: seq<Insertion>, i: nat, j: nat)
    requires i < j < |run| && forall k :: i <= k < j ==> run[k].errand.newest < run[k + 1].errand.newest
    ensures run[i].errand.newest < run[j].errand.newest
    decreases j
  {
    if i < j - 1 { IndicesGrow(run, i, j - 1); }
  }

  lemma BothZero(tree: seq<nat>, smallerSlot: nat, largerSlot: nat)
    requires smallerSlot < |tree| && largerSlot < |tree|
    ensures WithZero(WithZero(tree, smallerSlot), largerSlot) == tree[smallerSlot := 0][largerSlot := 0]
  {
  }

  /** How far the positions to insert move on: past the positions a long match covers. */
  function StepOf(best: Best, current: nat): int {
    var skipped := if best.length > LONG_MATCH_SKIP_THRESHOLD
                   then Min(best.length - LONG_MATCH_SKIP_THRESHOLD, LONG_MATCH_SKIP_LIMIT) else 0;
    Max(skipped, best.end - (current + 8))
  }

  lemma StepIs(best: Best, current: nat)
    ensures StepOf(best, current)
         == Max(if best.length > LONG_MATCH_SKIP_THRESHOLD
                then Min(best.length - LONG_MATCH_SKIP_THRESHOLD, LONG_MATCH_SKIP_LIMIT) else 0,
                best.end - (current + 8))
    ensures forall a: int, b: int :: Max(a, b) == if a > b then a else b
  {
  }

  lemma NothingMet(w: Window, newest: nat, start: Best)
    ensures BestAfter(w, newest, start, []) == start && TreeOffers(w, newest, []) == []
  {
  }

  lemma BestWithIs(b: Best, x: nat, length: nat)
    ensures BestWith(b, x, length)
         == if length > b.length then Best(length, if length > b.end - x then x + length else b.end) else b
  {
  }

  lemma GoodEnoughIs(w: Window, newest: nat, limit: nat, x: nat)
    ensures GoodEnough(w, newest, limit, x)
       <==> Pos(w, newest) + CommonWith(w, newest, x) >= |w.text| || CommonWith(w, newest, x) > limit
  {
    hide CommonWith;
  }

  lemma PosIs(w: Window, position: nat)
    ensures Pos(w, position + w.offset) == position
  {
  }

  lemma PowWithin(length: nat, hash: nat, bound: nat)
    requires hash < bound <= length
    ensures hash < length
  {
  }

  predicate Below(entries: seq<nat>, limit: nat) {
    forall i :: 0 <= i < |entries| ==> entries[i] < limit
  }

  function WithZero(tree: seq<nat>, slot: nat): seq<nat> {
    if slot < |tree| then tree[slot := 0] else tree
  }

  lemma ZeroIs(tree: seq<nat>, slot: nat)
    ensures slot < |tree| ==> WithZero(WithZero(tree, |tree|), slot) == tree[slot := 0]
    ensures slot < |tree| ==> WithZero(WithZero(tree, slot), |tree|) == tree[slot := 0]
  {
  }

  /** `2 * (index & tree_mask)`: the mask is one less than a power of two. */
  lemma SlotIs(w: Window, i: nat)
    requires w.size > 0
    ensures Slot(w, i) == 2 * (i % w.size)
  {
  }

  lemma WalkShape(w: Window, tree: seq<nat>, hash: seq<nat>, nodes: map<nat, Node>, k: Walk)
    requires Walking(w, tree, hash, nodes, k)
    ensures w.lowest > 0 && w.size > 1 && 2 * w.size <= |tree|
  {
    hide Forest, Roots, SideOk, NextOk;
    ForestShape(w, tree, nodes, k.newest, {k.lowSlot, k.highSlot});
  }

  lemma NextShape(w: Window, tree: seq<nat>, hash: seq<nat>, nodes: map<nat, Node>, k: Walk)
    requires Walking(w, tree, hash, nodes, k) && k.next >= w.lowest
    ensures w.offset <= w.lowest <= k.next < k.newest
  {
    hide Roots, SideOk, Dir, Slot, ChildOk, NodeOk;
  }

  lemma LinkFits(w: Window, tree: seq<nat>, hash: seq<nat>, nodes: map<nat, Node>, k: Walk, up: bool)
    requires Walking(w, tree, hash, nodes, k)
    ensures k.lowSlot < |tree| && k.highSlot < |tree|
  {
    hide Forest, Roots, NextOk, Dir, Slot;
    ForestShape(w, tree, nodes, k.newest, {k.lowSlot, k.highSlot});
    var owner, side := HoleOwner(w, nodes, k, true);
    owner, side := HoleOwner(w, nodes, k, false);
  }
}
