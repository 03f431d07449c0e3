/** Finite state entropy coding over an abstract table: which symbol owns each cell.

    The decoder's entry for a cell and the encoder's move from a cell are both functions of the
    cell sequence alone, and each undoes the other. */
module Fse {
  import opened Bits
  import opened BitReader

  datatype Tans = Tans(log: nat, cells: seq<nat>)

  const MAX_LOG := 9

  ghost predicate ValidTans(t: Tans) {
    t.log <= MAX_LOG && |t.cells| == Pow2(t.log) && forall c :: 0 <= c < |t.cells| ==> t.cells[c] < 256
  }

  // ---------------------------------------------------------------- counts and ranks

  ghost function Count(t: Tans, s: nat): nat {
    multiset(t.cells)[s]
  }

  /** How many earlier cells carry the cell's symbol. */
  ghost function Rank(t: Tans, c: nat): (r: nat)
    requires c < |t.cells|
    ensures r < Count(t, t.cells[c])
  {
    assert t.cells == t.cells[..c] + [t.cells[c]] + t.cells[c + 1..];
    multiset(t.cells[..c])[t.cells[c]]
  }

  /** The decoder's `next_state` of a cell: from n to 2n - 1 over the n cells of its symbol. */
  ghost function SubState(t: Tans, c: nat): (x: nat)
    requires c < |t.cells|
    ensures 0 < Count(t, t.cells[c]) <= x < 2 * Count(t, t.cells[c])
  {
    Count(t, t.cells[c]) + Rank(t, c)
  }

  lemma CountBound(t: Tans, s: nat)
    ensures Count(t, s) <= |t.cells|
  {
    assert |multiset(t.cells)| == |t.cells|;
    assert multiset(t.cells)[s := 0] <= multiset(t.cells);
  }

  lemma RankStep(t: Tans, c: nat)
    requires c < |t.cells|
    ensures multiset(t.cells[..c + 1]) == multiset(t.cells[..c]) + multiset{t.cells[c]}
  {
    assert t.cells[..c + 1] == t.cells[..c] + [t.cells[c]];
  }

  /** Cells of symbol `s` among the first `upTo`. */
  ghost function Seen(t: Tans, upTo: nat, s: nat): nat
    requires upTo <= |t.cells|
  {
    multiset(t.cells[..upTo])[s]
  }

  lemma SeenStep(t: Tans, c: nat)
    requires c < |t.cells|
    ensures forall s: nat :: Seen(t, c + 1, s) == Seen(t, c, s) + (if s == t.cells[c] then 1 else 0)
    ensures SubState(t, c) == Count(t, t.cells[c]) + Seen(t, c, t.cells[c])
  {
    RankStep(t, c);
  }

  lemma NoneSeen(t: Tans)
    ensures forall s: nat :: Seen(t, 0, s) == 0
  {
    assert t.cells[..0] == [];
  }

  lemma {:induction false} RankGrows(t: Tans, c: nat, d: nat)
    requires c < d < |t.cells| && t.cells[c] == t.cells[d]
    ensures Rank(t, c) < Rank(t, d)
  {
    RankStep(t, c);
    assert t.cells[..d] == t.cells[..c + 1] + t.cells[c + 1..d];
    assert multiset(t.cells[..d]) == multiset(t.cells[..c + 1]) + multiset(t.cells[c + 1..d]);
  }

  lemma SubStateInjective(t: Tans, c: nat, d: nat)
    requires c < |t.cells| && d < |t.cells| && t.cells[c] == t.cells[d]
    requires SubState(t, c) == SubState(t, d)
    ensures c == d
  {
    if c < d { RankGrows(t, c, d); }
    if d < c { RankGrows(t, d, c); }
  }

  lemma {:induction false} FindCell(t: Tans, s: nat, r: nat, upTo: nat) returns (c: nat)
    requires upTo <= |t.cells| && r < multiset(t.cells[..upTo])[s]
    ensures c < upTo && t.cells[c] == s && Rank(t, c) == r
    decreases upTo
  {
    EmptyPrefix(t, s);
    RankStep(t, upTo - 1);
    if t.cells[upTo - 1] == s && r == multiset(t.cells[..upTo - 1])[s] {
      c := upTo - 1;
    } else {
      c := FindCell(t, s, r, upTo - 1);
    }
  }

  lemma EmptyPrefix(t: Tans, s: nat)
    ensures multiset(t.cells[..0])[s] == 0
  {
    assert t.cells[..0] == [];
  }

  /** The cell of symbol `s` whose sub-state is `x`. */
  ghost function CellOf(t: Tans, s: nat, x: nat): (c: nat)
    requires Count(t, s) <= x < 2 * Count(t, s)
    ensures c < |t.cells| && t.cells[c] == s && SubState(t, c) == x
  {
    CellExists(t, s, x);
    var c :| 0 <= c < |t.cells| && t.cells[c] == s && SubState(t, c) == x;
    c
  }

  lemma CellExists(t: Tans, s: nat, x: nat)
    requires Count(t, s) <= x < 2 * Count(t, s)
    ensures exists c :: 0 <= c < |t.cells| && t.cells[c] == s && SubState(t, c) == x
  {
    assert t.cells[..|t.cells|] == t.cells;
    var c := FindCell(t, s, x - Count(t, s), |t.cells|);
  }

  // ---------------------------------------------------------------- bits out

  /** Bits the encoder drops from a state so that it lands in the sub-states of a symbol with
      `n` cells. */
  function BitsOut(state: nat, n: nat): (m: nat)
    requires 0 < n <= state
    ensures n <= Shr(state, m) < 2 * n
  {
    if state < 2 * n then 0 else 1 + BitsOut(state / 2, n)
  }

  lemma {:induction false} BitsOutUnique(state: nat, n: nat, m: nat)
    requires 0 < n <= state && n <= Shr(state, m) < 2 * n
    ensures m == BitsOut(state, n)
    decreases m
  {
    if m == 0 {
    } else {
      ShrAtMost(state / 2, m - 1);
      BitsOutUnique(state / 2, n, m - 1);
    }
  }

  lemma ShrAtMost(v: nat, m: nat)
    ensures Shr(v, m) <= v
  {
  }

  lemma {:induction false} HighestBitShr(v: nat, m: nat)
    requires Shr(v, m) > 0
    ensures v > 0 && HighestBit(v) == HighestBit(Shr(v, m)) + m
    decreases m
  {
    if m > 0 {
      HighestBitShr(v / 2, m - 1);
    }
  }

  // ---------------------------------------------------------------- the decoder's entries

  ghost function CellBits(t: Tans, c: nat): (n: nat)
    requires ValidTans(t) && c < |t.cells|
    ensures n <= t.log
  {
    SubStateBit(t, c);
    t.log - HighestBit(SubState(t, c))
  }

  lemma SubStateBit(t: Tans, c: nat)
    requires ValidTans(t) && c < |t.cells|
    ensures HighestBit(SubState(t, c)) <= t.log
  {
    hide HighestBit, SubState, Count;
    var x := SubState(t, c);
    CountBound(t, t.cells[c]);
    Pow2Step(t.log);
    if HighestBit(x) > t.log {
      Pow2Mono(t.log + 1, HighestBit(x));
    }
  }

  ghost function CellBase(t: Tans, c: nat): (base: nat)
    requires ValidTans(t) && c < |t.cells|
    ensures base + Pow2(CellBits(t, c)) <= Pow2(t.log)
  {
    CellBaseBound(t, c);
    Shl(SubState(t, c), CellBits(t, c)) - Pow2(t.log)
  }

  lemma CellBaseBound(t: Tans, c: nat)
    requires ValidTans(t) && c < |t.cells|
    ensures Pow2(t.log) <= Shl(SubState(t, c), CellBits(t, c))
    ensures Shl(SubState(t, c), CellBits(t, c)) + Pow2(CellBits(t, c)) <= 2 * Pow2(t.log)
  {
    hide *;
    var x, n := SubState(t, c), CellBits(t, c);
    var h := HighestBit(x);
    ShlPow2(h, n);
    ShlMono(Pow2(h), x, n);
    ShlPow2(h + 1, n);
    ShlMono(x, Pow2(h + 1), n);
    BitsRest(t, c);
    Pow2Step(t.log);
  }

  lemma BitsRest(t: Tans, c: nat)
    requires ValidTans(t) && c < |t.cells|
    ensures CellBits(t, c) + HighestBit(SubState(t, c)) == t.log
  {
    hide HighestBit, SubState;
  }

  // ---------------------------------------------------------------- one step and its inverse

  /** Bits written when the encoder, standing on cell `c`, takes symbol `s`. */
  ghost function EncodeBits(t: Tans, c: nat, s: nat): nat
    requires ValidTans(t) && c < |t.cells| && Count(t, s) > 0
  {
    CountBound(t, s);
    BitsOut(Pow2(t.log) + c, Count(t, s))
  }

  ghost function EncodeNext(t: Tans, c: nat, s: nat): (d: nat)
    requires ValidTans(t) && c < |t.cells| && Count(t, s) > 0
    ensures d < |t.cells| && t.cells[d] == s
  {
    CountBound(t, s);
    CellOf(t, s, Shr(Pow2(t.log) + c, EncodeBits(t, c, s)))
  }

  /** The cell the encoder starts on: the first of the symbol, as sub-state n. */
  ghost function FirstCell(t: Tans, s: nat): (c: nat)
    requires Count(t, s) > 0
    ensures c < |t.cells| && t.cells[c] == s
  {
    CellOf(t, s, Count(t, s))
  }

  /** An encode step is undone by the decode step: the new cell carries the symbol, asks for
      exactly the bits written, and leads back to the old cell. */
  lemma EncodeStepUndone(t: Tans, c: nat, s: nat)
    requires ValidTans(t) && c < |t.cells| && Count(t, s) > 0
    ensures var d := EncodeNext(t, c, s);
            var m := EncodeBits(t, c, s);
            && t.cells[d] == s
            && CellBits(t, d) == m <= t.log
            && CellBase(t, d) + LowBits(Pow2(t.log) + c, m) == c
  {
    hide BitsOut, CellOf, SubState, Shl, Shr, HighestBit, LowBits, Count;
    CountBound(t, s);
    var state := Pow2(t.log) + c;
    var m, d := EncodeBits(t, c, s), EncodeNext(t, c, s);
    var x := Shr(state, m);
    assert SubState(t, d) == x;
    HighestBitShr(state, m);
    Pow2Step(t.log);
    HighestBitUnique(state, t.log);
    SplitBits(state, m);
  }

  /** The decode entries of one symbol lead to disjoint ranges that together are all cells. */
  lemma IntervalsPartition(t: Tans, s: nat, c: nat)
    requires ValidTans(t) && c < |t.cells| && Count(t, s) > 0
    ensures var d := EncodeNext(t, c, s);
            CellBase(t, d) <= c < CellBase(t, d) + Pow2(CellBits(t, d))
    ensures forall d ::
              (0 <= d < |t.cells| && t.cells[d] == s
               && CellBase(t, d) <= c < CellBase(t, d) + Pow2(CellBits(t, d)))
              ==> d == EncodeNext(t, c, s)
  {
    hide BitsOut, CellOf, SubState, Shl, Shr, HighestBit, LowBits, EncodeNext, EncodeBits, CellBits;
    EncodeStepUndone(t, c, s);
    CountBound(t, s);
    forall d | 0 <= d < |t.cells| && t.cells[d] == s
               && CellBase(t, d) <= c < CellBase(t, d) + Pow2(CellBits(t, d))
      ensures d == EncodeNext(t, c, s)
    {
      IntervalOwner(t, s, c, d);
    }
  }

  lemma IntervalOwner(t: Tans, s: nat, c: nat, d: nat)
    requires ValidTans(t) && c < |t.cells| && d < |t.cells| && t.cells[d] == s && Count(t, s) > 0
    requires CellBase(t, d) <= c < CellBase(t, d) + Pow2(CellBits(t, d))
    ensures d == EncodeNext(t, c, s)
  {
    hide BitsOut, CellOf, SubState, Shl, Shr, HighestBit, LowBits, CellBits, Count;
    CountBound(t, s);
    var n, low := CellBits(t, d), c - CellBase(t, d);
    CellBaseBound(t, d);
    SplitUnique(low, SubState(t, d), n);
    BitsOutUnique(Pow2(t.log) + c, Count(t, s), n);
    SubStateInjective(t, d, EncodeNext(t, c, s));
  }

  // ---------------------------------------------------------------- on bit streams

  ghost function EncodeStep(t: Tans, c: nat, s: nat, stream: seq<bool>): (nat, seq<bool>)
    requires ValidTans(t) && c < |t.cells| && Count(t, s) > 0
  {
    (EncodeNext(t, c, s), stream + ToBits(Pow2(t.log) + c, EncodeBits(t, c, s)))
  }

  ghost function DecodeStep(t: Tans, c: nat, rest: seq<bool>): (r: (nat, seq<bool>))
    requires ValidTans(t) && c < |t.cells|
    ensures r.0 < |t.cells|
  {
    (CellBase(t, c) + PeekEnd(rest, CellBits(t, c)), DropEnd(rest, CellBits(t, c)))
  }

  lemma DecodeUndoesEncode(t: Tans, c: nat, s: nat, stream: seq<bool>)
    requires ValidTans(t) && c < |t.cells| && Count(t, s) > 0
    ensures var (d, more) := EncodeStep(t, c, s, stream);
            && d < |t.cells| && t.cells[d] == s
            && DecodeStep(t, d, more) == (c, stream)
            && |more| == |stream| + CellBits(t, d)
  {
    hide BitsOut, CellOf, SubState, Shl, Shr, HighestBit, LowBits, EncodeNext, EncodeBits, CellBits, CellBase, PeekEnd,
      DropEnd, ToBits;
    EncodeStepUndone(t, c, s);
    PeekPushed(stream, Pow2(t.log) + c, EncodeBits(t, c, s));
  }

  /** The final state of the encoder, as the decoder reads it first. */
  ghost function FlushState(t: Tans, c: nat, stream: seq<bool>): seq<bool> {
    stream + ToBits(c, t.log)
  }

  ghost function ReadState(t: Tans, rest: seq<bool>): (r: (nat, seq<bool>))
    requires ValidTans(t)
    ensures r.0 < |t.cells|
  {
    (PeekEnd(rest, t.log), DropEnd(rest, t.log))
  }

  lemma StateReadBack(t: Tans, c: nat, stream: seq<bool>)
    requires ValidTans(t) && c < |t.cells|
    ensures ReadState(t, FlushState(t, c, stream)) == (c, stream)
  {
    hide ToBits, PeekEnd, DropEnd, LowBits;
    PeekPushed(stream, c, t.log);
    LowBitsId(c, t.log);
  }

  // ---------------------------------------------------------------- whole runs

  /** Encoding walks the list from its end: the last symbol only picks the first cell. */
  ghost function EncodeRun(t: Tans, symbols: seq<nat>, stream: seq<bool>): (r: (nat, seq<bool>))
    requires ValidTans(t) && symbols != [] && forall s :: s in symbols ==> Count(t, s) > 0
    ensures r.0 < |t.cells|
  {
    if |symbols| == 1 then (FirstCell(t, symbols[0]), stream)
    else
      var (c, after) := EncodeRun(t, symbols[1..], stream);
      EncodeStep(t, c, symbols[0], after)
  }

  ghost function DecodeRun(t: Tans, c: nat, rest: seq<bool>, count: nat): (seq<nat>, seq<bool>)
    requires ValidTans(t) && c < |t.cells| && count > 0
    decreases count
  {
    if count == 1 then ([t.cells[c]], rest)
    else
      var (d, left) := DecodeStep(t, c, rest);
      var (symbols, end) := DecodeRun(t, d, left, count - 1);
      ([t.cells[c]] + symbols, end)
  }

  /** Every symbol list over the table's symbols round-trips, and exactly its bits are used. */
  lemma {:induction false} RunRoundTrip(t: Tans, symbols: seq<nat>, stream: seq<bool>)
    requires ValidTans(t) && symbols != [] && forall s :: s in symbols ==> Count(t, s) > 0
    ensures var (c, after) := EncodeRun(t, symbols, stream);
            DecodeRun(t, c, after, |symbols|) == (symbols, stream)
  {
    hide EncodeStep, DecodeStep, FirstCell, ValidTans, Count;
    if |symbols| == 1 {
      assert symbols == [symbols[0]];
    } else {
      var (c, after) := EncodeRun(t, symbols[1..], stream);
      assert symbols == [symbols[0]] + symbols[1..];
      RunRoundTrip(t, symbols[1..], stream);
      DecodeUndoesEncode(t, c, symbols[0], after);
    }
  }

  // ---------------------------------------------------------------- a table of one cell

  /** `build_rle_table`: one symbol, one cell, no bits. */
  ghost function RleTans(symbol: nat): Tans {
    Tans(0, [symbol])
  }

  /** Cells of one symbol, when it owns them all, ask for no bits; otherwise the first cell of
      any symbol asks for at least one. */
  lemma FirstCellNeedsBits(t: Tans, s: nat)
    requires ValidTans(t) && 0 < Count(t, s) < |t.cells|
    ensures CellBits(t, FirstCell(t, s)) >= 1
  {
    hide Count, SubState, CellOf;
    var x := SubState(t, FirstCell(t, s));
    if HighestBit(x) >= t.log {
      Pow2Mono(t.log, HighestBit(x));
    }
  }
}
