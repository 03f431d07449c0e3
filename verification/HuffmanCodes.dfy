/** Canonical Huffman codes from weights (section 4.2.1 of RFC 8878).

    A symbol of weight `w` owns 2^(w - 1) consecutive cells of a table of 2^maxBits; cells go to
    ascending weights and, within a weight, to ascending symbols. The code is the aligned start
    of the run without its low `w - 1` bits. */
module HuffmanCodes {
  import opened Bits

  const MAX_BITS := 11
  const MAX_WEIGHT_COUNT := 256

  // ---------------------------------------------------------------- cells owned by weights

  function UnitOf(w: nat): nat {
    if w == 0 then 0 else Pow2(w - 1)
  }

  function Units(weights: seq<nat>): nat {
    if weights == [] then 0 else Units(weights[..|weights| - 1]) + UnitOf(weights[|weights| - 1])
  }

  ghost function UnitsLess(weights: seq<nat>, w: nat): nat {
    if weights == [] then 0
    else
      var last := weights[|weights| - 1];
      UnitsLess(weights[..|weights| - 1], w) + (if last < w then UnitOf(last) else 0)
  }

  ghost function UnitsEq(weights: seq<nat>, w: nat): nat {
    if weights == [] then 0
    else
      var last := weights[|weights| - 1];
      UnitsEq(weights[..|weights| - 1], w) + (if last == w then UnitOf(w) else 0)
  }

  /** Weights whose cells fill a table of 2^maxBits exactly. */
  ghost predicate Complete(weights: seq<nat>, maxBits: nat) {
    && 0 < |weights| <= MAX_WEIGHT_COUNT && 1 <= maxBits <= MAX_BITS
    && (forall s :: 0 <= s < |weights| ==> weights[s] <= maxBits)
    && Units(weights) == Pow2(maxBits)
  }

  lemma UnitsStep(weights: seq<nat>, k: nat)
    requires k < |weights|
    ensures Units(weights[..k + 1]) == Units(weights[..k]) + UnitOf(weights[k])
    ensures forall w: nat :: UnitsEq(weights[..k + 1], w)
                          == UnitsEq(weights[..k], w) + (if w == weights[k] then UnitOf(w) else 0)
  {
    assert weights[..k + 1][..k] == weights[..k];
  }

  lemma NoUnits(weights: seq<nat>)
    ensures Units(weights[..0]) == 0
    ensures forall w: nat :: UnitsEq(weights[..0], w) == 0
  {
  }

  lemma {:induction false} UnitsEqMonotone(weights: seq<nat>, a: nat, b: nat, w: nat)
    requires a <= b <= |weights|
    ensures UnitsEq(weights[..a], w) <= UnitsEq(weights[..b], w)
    decreases b
  {
    hide UnitsEq, UnitOf;
    if a < b {
      UnitsEqMonotone(weights, a, b - 1, w);
      UnitsStep(weights, b - 1);
    }
  }

  lemma {:induction false} UnitsLessStep(weights: seq<nat>, w: nat)
    ensures UnitsLess(weights, w + 1) == UnitsLess(weights, w) + UnitsEq(weights, w)
    ensures UnitsLess(weights, 0) == 0 && UnitsEq(weights, 0) == 0 && UnitsLess(weights, 1) == 0
  {
    if weights != [] { UnitsLessStep(weights[..|weights| - 1], w); }
  }

  lemma {:induction false} UnitsLessMonotone(weights: seq<nat>, w: nat, v: nat)
    requires w <= v
    ensures UnitsLess(weights, w) <= UnitsLess(weights, v) <= Units(weights)
  {
    if weights != [] { UnitsLessMonotone(weights[..|weights| - 1], w, v); }
  }

  lemma {:induction false} UnitsLessAll(weights: seq<nat>, w: nat)
    requires forall s :: 0 <= s < |weights| ==> weights[s] < w
    ensures UnitsLess(weights, w) == Units(weights)
  {
    if weights != [] { UnitsLessAll(weights[..|weights| - 1], w); }
  }

  // ---------------------------------------------------------------- the run of one symbol

  ghost function Start(weights: seq<nat>, s: nat): nat
    requires s < |weights|
  {
    UnitsLess(weights, weights[s]) + UnitsEq(weights[..s], weights[s])
  }

  lemma StartBound(weights: seq<nat>, s: nat)
    requires s < |weights| && weights[s] > 0
    ensures UnitsLess(weights, weights[s]) <= Start(weights, s)
    ensures Start(weights, s) + Pow2(weights[s] - 1) <= UnitsLess(weights, weights[s] + 1) <= Units(weights)
  {
    hide UnitsLess, UnitsEq, Units;
    UnitsStep(weights, s);
    UnitsEqMonotone(weights, s + 1, |weights|, weights[s]);
    assert weights[..|weights|] == weights;
    UnitsLessStep(weights, weights[s]);
    UnitsLessMonotone(weights, weights[s] + 1, weights[s] + 1);
  }

  /** Runs of different symbols do not overlap: in table order one ends before the next begins. */
  lemma RunsDisjoint(weights: seq<nat>, s: nat, t: nat)
    requires s < |weights| && t < |weights| && weights[s] > 0 && weights[t] > 0
    requires weights[s] < weights[t] || (weights[s] == weights[t] && s < t)
    ensures Start(weights, s) + Pow2(weights[s] - 1) <= Start(weights, t)
  {
    hide UnitsLess, UnitsEq, Units;
    StartBound(weights, s);
    StartBound(weights, t);
    if weights[s] < weights[t] {
      UnitsLessMonotone(weights, weights[s] + 1, weights[t]);
    } else {
      UnitsStep(weights, s);
      UnitsEqMonotone(weights, s + 1, t, weights[s]);
    }
  }

  ghost predicate Owns(weights: seq<nat>, s: nat, cell: nat) {
    && s < |weights| && weights[s] > 0
    && Start(weights, s) <= cell < Start(weights, s) + Pow2(weights[s] - 1)
  }

  lemma OneOwner(weights: seq<nat>, s: nat, t: nat, cell: nat)
    requires Owns(weights, s, cell) && Owns(weights, t, cell)
    ensures s == t
  {
    hide Start;
    if s != t {
      if weights[s] < weights[t] || (weights[s] == weights[t] && s < t) {
        RunsDisjoint(weights, s, t);
      } else {
        RunsDisjoint(weights, t, s);
      }
    }
  }

  lemma {:induction false} FindWeight(weights: seq<nat>, cell: nat, top: nat) returns (w: nat)
    requires cell < UnitsLess(weights, top)
    ensures 0 < w < top && UnitsLess(weights, w) <= cell < UnitsLess(weights, w + 1)
    decreases top
  {
    hide UnitsLess, UnitsEq;
    UnitsLessStep(weights, 0);
    if UnitsLess(weights, top - 1) <= cell {
      w := top - 1;
    } else {
      w := FindWeight(weights, cell, top - 1);
    }
  }

  lemma {:induction false} FindSymbol(weights: seq<nat>, w: nat, offset: nat, upTo: nat) returns (s: nat)
    requires upTo <= |weights| && offset < UnitsEq(weights[..upTo], w)
    ensures s < upTo && weights[s] == w
    ensures UnitsEq(weights[..s], w) <= offset < UnitsEq(weights[..s], w) + UnitOf(w)
    decreases upTo
  {
    hide UnitsEq;
    NoUnits(weights);
    UnitsStep(weights, upTo - 1);
    if UnitsEq(weights[..upTo - 1], w) <= offset {
      s := upTo - 1;
    } else {
      s := FindSymbol(weights, w, offset, upTo - 1);
    }
  }

  /** Every cell has an owner. */
  lemma OwnerOf(weights: seq<nat>, cell: nat) returns (s: nat)
    requires cell < Units(weights)
    ensures Owns(weights, s, cell)
  {
    hide UnitsLess, UnitsEq, Units;
    var top := LargestWeight(weights) + 1;
    UnitsLessAll(weights, top);
    var w := FindWeight(weights, cell, top);
    UnitsLessStep(weights, w);
    assert weights[..|weights|] == weights;
    s := FindSymbol(weights, w, cell - UnitsLess(weights, w), |weights|);
  }

  ghost function LargestWeight(weights: seq<nat>): (m: nat)
    ensures forall s :: 0 <= s < |weights| ==> weights[s] <= m
  {
    if weights == [] then 0 else Max(LargestWeight(weights[..|weights| - 1]), weights[|weights| - 1])
  }

  // ---------------------------------------------------------------- alignment and codes

  /** Cells of the weights from `w` up come in multiples of 2^(w - 1). */
  lemma {:induction false} HeavyUnits(weights: seq<nat>, w: nat) returns (m: nat)
    requires w > 0
    ensures Units(weights) == UnitsLess(weights, w) + Shl(m, w - 1)
  {
    if weights == [] {
      m := 0;
      ShlZero(w - 1);
    } else {
      var last := weights[|weights| - 1];
      var m' := HeavyUnits(weights[..|weights| - 1], w);
      if last < w {
        m := m';
      } else {
        m := m' + Pow2(last - w);
        ShlAdd(m', Pow2(last - w), w - 1);
        ShlPow2(last - w, w - 1);
      }
    }
  }

  lemma {:induction false} EqualUnits(weights: seq<nat>, w: nat) returns (m: nat)
    requires w > 0
    ensures UnitsEq(weights, w) == Shl(m, w - 1)
  {
    if weights == [] {
      m := 0;
      ShlZero(w - 1);
    } else {
      var m' := EqualUnits(weights[..|weights| - 1], w);
      if weights[|weights| - 1] == w {
        m := m' + 1;
        ShlAdd(m', 1, w - 1);
        ShlPow2(0, w - 1);
        assert Pow2(0) == 1;
      } else {
        m := m';
      }
    }
  }

  /** The code of a symbol: its run's start without the low bits, which are zero. */
  ghost function CodeOf(weights: seq<nat>, s: nat): nat
    requires s < |weights| && weights[s] > 0
  {
    Shr(Start(weights, s), weights[s] - 1)
  }

  ghost function CodeLength(weights: seq<nat>, maxBits: nat, s: nat): nat
    requires s < |weights| && 0 < weights[s] <= maxBits
  {
    maxBits + 1 - weights[s]
  }

  /** An exact Kraft sum aligns every run to its own size. */
  lemma StartAligned(weights: seq<nat>, maxBits: nat, s: nat)
    requires Complete(weights, maxBits) && s < |weights| && weights[s] > 0
    ensures Start(weights, s) == Shl(CodeOf(weights, s), weights[s] - 1)
  {
    hide UnitsLess, UnitsEq, Units, Shl, Shr, Pow2;
    var w := weights[s];
    var heavy := HeavyUnits(weights, w);
    var equal := EqualUnits(weights[..s], w);
    ShlPow2(maxBits + 1 - w, w - 1);
    var all := Pow2(maxBits + 1 - w);
    assert Shl(all, w - 1) == UnitsLess(weights, w) + Shl(heavy, w - 1);
    if all < heavy {
      ShlMono(all, heavy, w - 1);
    }
    ShlAdd(all - heavy, heavy, w - 1);
    ShlAdd(all - heavy, equal, w - 1);
    OnlyShift(all - heavy + equal, w - 1);
  }

  lemma OnlyShift(v: nat, k: nat)
    ensures Shr(Shl(v, k), k) == v
  {
    hide *;
    PowPositive(k);
    SplitUnique(0, v, k);
  }

  lemma PowPositive(k: nat)
    ensures Pow2(k) > 0
  {
  }

  lemma CodeFits(weights: seq<nat>, maxBits: nat, s: nat)
    requires Complete(weights, maxBits) && s < |weights| && weights[s] > 0
    ensures 1 <= CodeLength(weights, maxBits, s) <= maxBits
    ensures CodeOf(weights, s) < Pow2(CodeLength(weights, maxBits, s))
  {
    hide Start, Units, Shr, Pow2;
    StartBound(weights, s);
    PowPositive(weights[s] - 1);
    ShrBound(Start(weights, s), maxBits, weights[s] - 1);
  }

  /** A window of maxBits bits belongs to the symbol exactly when it starts with its code. */
  lemma OwnsByPrefix(weights: seq<nat>, maxBits: nat, s: nat, cell: nat)
    requires Complete(weights, maxBits) && s < |weights| && weights[s] > 0
    ensures Owns(weights, s, cell) <==> Shr(cell, weights[s] - 1) == CodeOf(weights, s)
  {
    hide Start, Units, Shr, Shl, Pow2, CodeOf;
    var k := weights[s] - 1;
    StartAligned(weights, maxBits, s);
    SplitBits(cell, k);
    if Owns(weights, s, cell) {
      SplitUnique(cell - Start(weights, s), CodeOf(weights, s), k);
    }
  }

  /** No code is a prefix of another. */
  lemma PrefixFree(weights: seq<nat>, maxBits: nat, s: nat, t: nat)
    requires Complete(weights, maxBits) && s < |weights| && t < |weights| && s != t
    requires weights[s] > 0 && weights[t] > 0 && weights[s] >= weights[t]
    ensures Shr(CodeOf(weights, t), weights[s] - weights[t]) != CodeOf(weights, s)
  {
    hide Start, Units, Shr, Shl, Pow2, CodeOf;
    StartBound(weights, t);
    PowPositive(weights[t] - 1);
    CodeIs(weights, t);
    ShrShr(Start(weights, t), weights[t] - 1, weights[s] - weights[t]);
    OwnsByPrefix(weights, maxBits, s, Start(weights, t));
    if Owns(weights, s, Start(weights, t)) {
      OneOwner(weights, s, t, Start(weights, t));
    }
  }

  lemma CodeIs(weights: seq<nat>, s: nat)
    requires s < |weights| && weights[s] > 0
    ensures CodeOf(weights, s) == Shr(Start(weights, s), weights[s] - 1)
  {
  }

  // ---------------------------------------------------------------- encode table

  datatype HuffmanCode = HuffmanCode(code: nat, bitCount: nat)

  class HuffmanEncodeTable {
    var codes: seq<HuffmanCode>
    var weights: seq<nat>
    var symbolCount: nat
    var maxBits: nat

    constructor ()
      ensures codes == seq(256, _ => HuffmanCode(0, 0)) && weights == seq(256, _ => 0)
      ensures symbolCount == 0 && maxBits == 0
    {
      codes := seq(256, _ => HuffmanCode(0, 0));
      weights := seq(256, _ => 0);
      symbolCount, maxBits := 0, 0;
    }

    /** Every used symbol has its canonical code, every other the empty one. */
    ghost predicate EncodesBy(ws: seq<nat>)
      reads this
    {
      && Complete(ws, maxBits) && |ws| == symbolCount
      && |codes| == |weights| == 256 && weights[..symbolCount] == ws
      && (forall s :: symbolCount <= s < 256 ==> weights[s] == 0)
      && forall s :: 0 <= s < 256 ==>
           codes[s] == if weights[s] > 0
                       then HuffmanCode(CodeOf(ws, s), CodeLength(ws, maxBits, s))
                       else HuffmanCode(0, 0)
    }

    /** `assign_codes` over cleared codes. */
    method AssignCodes()
      requires |weights| == 256 && symbolCount <= 256 && codes == seq(256, _ => HuffmanCode(0, 0))
      requires Complete(weights[..symbolCount], maxBits)
      requires forall s :: symbolCount <= s < 256 ==> weights[s] == 0
      modifies this`codes
      ensures EncodesBy(weights[..symbolCount])
    {
      hide Units, UnitsLess, UnitsEq, Pow2, Shr, CodeOf, Start, UnitOf;
      ghost var ws := weights[..symbolCount];
      var position := 0;
      UnitsLessStep(ws, 0);
      for weight := 1 to maxBits + 1
        invariant position == UnitsLess(ws, weight)
        invariant |codes| == 256
        invariant CodesDone(ws, weight, 0)
      {
        var bitCount := maxBits + 1 - weight;
        var shiftAmount := maxBits - bitCount;
        NoUnits(ws);
        for symbol := 0 to symbolCount
          invariant position == UnitsLess(ws, weight) + UnitsEq(ws[..symbol], weight)
          invariant |codes| == 256
          invariant CodesDone(ws, weight, symbol)
        {
          UnitsStep(ws, symbol);
          if weights[symbol] == weight {
            StartIs(ws, symbol);
            UnitIs(weight);
            codes := codes[symbol := HuffmanCode(Shr(position, shiftAmount), bitCount)];
            position := position + Pow2(weight - 1);
          }
        }
        assert ws[..symbolCount] == ws;
        UnitsLessStep(ws, weight);
      }
    }

    ghost predicate CodesDone(ws: seq<nat>, weight: nat, symbol: nat)
      reads this
      requires |codes| == |weights| == 256 && symbolCount <= 256
      requires ws == weights[..symbolCount] && Complete(ws, maxBits)
    {
      && (forall s :: 0 <= s < symbolCount && (0 < ws[s] < weight || (ws[s] == weight && s < symbol)) && ws[s] > 0 ==>
            codes[s] == HuffmanCode(CodeOf(ws, s), CodeLength(ws, maxBits, s)))
      && (forall s :: 0 <= s < 256 && weights[s] == 0 ==> codes[s] == HuffmanCode(0, 0))
    }
  }

  lemma StartIs(weights: seq<nat>, s: nat)
    requires s < |weights| && weights[s] > 0
    ensures CodeOf(weights, s)
          == Shr(UnitsLess(weights, weights[s]) + UnitsEq(weights[..s], weights[s]), weights[s] - 1)
  {
  }

  lemma UnitIs(w: nat)
    requires w > 0
    ensures UnitOf(w) == Pow2(w - 1)
  {
  }

  // ---------------------------------------------------------------- decode table

  datatype DecodeCell = DecodeCell(symbol: nat, bitCount: nat)

  const MAX_HUFFMAN_TABLE_SIZE := 2048

  class HuffmanDecodeTable {
    var entries: seq<DecodeCell>
    var maxBits: nat
    var isReady: bool

    constructor ()
      ensures |entries| == MAX_HUFFMAN_TABLE_SIZE && !isReady
    {
      entries := seq(MAX_HUFFMAN_TABLE_SIZE, _ => DecodeCell(0, 0));
      maxBits, isReady := 0, false;
    }

    static ghost predicate Filled(entries: seq<DecodeCell>, weights: seq<nat>, bits: nat, upTo: nat) {
      && |entries| == MAX_HUFFMAN_TABLE_SIZE
      && forall s: nat, c: nat :: c < upTo && Owns(weights, s, c) && weights[s] <= bits ==>
           c < MAX_HUFFMAN_TABLE_SIZE && entries[c] == DecodeCell(s, CodeLength(weights, bits, s))
    }

    /** Every cell names its owner and the owner's code length. */
    ghost predicate DecodesBy(weights: seq<nat>)
      reads this
    {
      isReady && Complete(weights, maxBits) && Filled(entries, weights, maxBits, Pow2(maxBits))
    }

    /** The cell a window selects. */
    lemma CellOwner(weights: seq<nat>, cell: nat) returns (s: nat)
      requires DecodesBy(weights) && cell < Pow2(maxBits)
      ensures Owns(weights, s, cell) && cell < |entries|
      ensures 0 < weights[s] <= maxBits && entries[cell] == DecodeCell(s, CodeLength(weights, maxBits, s))
      ensures 1 <= entries[cell].bitCount <= maxBits && entries[cell].symbol == s < 256
    {
      hide Units, Start, Pow2;
      s := OwnerOf(weights, cell);
    }

    /** `build_huffman_decode_table`: accepts exactly the complete codes. */
    method Build(weights: seq<nat>) returns (ok: bool)
      requires |entries| == MAX_HUFFMAN_TABLE_SIZE
      modifies this
      ensures |entries| == MAX_HUFFMAN_TABLE_SIZE
      ensures ok <==> exists m :: Complete(weights, m)
      ensures ok ==> DecodesBy(weights)
      ensures !ok ==> !isReady
    {
      hide Units, UnitsLess, UnitsEq, Pow2, HighestBit, UnitOf, Filled;
      isReady := false;
      if |weights| == 0 || |weights| > MAX_WEIGHT_COUNT {
        return false;
      }
      var total := 0;
      NoUnits(weights);
      for s := 0 to |weights|
        invariant total == Units(weights[..s])
        invariant |entries| == MAX_HUFFMAN_TABLE_SIZE && !isReady
        invariant forall i :: 0 <= i < s ==> weights[i] <= MAX_BITS
      {
        if weights[s] > MAX_BITS {
          return false;
        }
        UnitsStep(weights, s);
        if weights[s] > 0 {
          UnitIs(weights[s]);
          total := total + Pow2(weights[s] - 1);
        } else {
          NoUnit();
        }
      }
      assert weights[..|weights|] == weights;
      if total == 0 {
        CompleteTotal(weights);
        return false;
      }
      var bits := HighestBit(total);
      CompleteTotal(weights);
      if bits > MAX_BITS {
        return false;
      }
      if total != Pow2(bits) {
        return false;
      }
      var position := FillCells(weights, bits);
      HeaviestWeight(weights, bits);
      if position != Pow2(bits) {
        return false;
      }
      maxBits := bits;
      isReady := true;
      return true;
    }

    method FillCells(weights: seq<nat>, bits: nat) returns (position: nat)
      requires |entries| == MAX_HUFFMAN_TABLE_SIZE && Units(weights) == Pow2(bits) && bits <= MAX_BITS
      modifies this`entries
      ensures |entries| == MAX_HUFFMAN_TABLE_SIZE
      ensures position == UnitsLess(weights, bits + 1) && Filled(entries, weights, bits, position)
    {
      hide Units, UnitsLess, UnitsEq, Pow2, UnitOf, Filled, Start;
      position := 0;
      UnitsLessStep(weights, 0);
      NothingFilled(weights, bits);
      for weight := 1 to bits + 1
        invariant position == UnitsLess(weights, weight) && Filled(entries, weights, bits, position)
        invariant |entries| == MAX_HUFFMAN_TABLE_SIZE
      {
        NoUnits(weights);
        for symbol := 0 to |weights|
          invariant position == UnitsLess(weights, weight) + UnitsEq(weights[..symbol], weight)
          invariant Filled(entries, weights, bits, position) && |entries| == MAX_HUFFMAN_TABLE_SIZE
        {
          UnitsStep(weights, symbol);
          if weights[symbol] == weight {
            UnitIs(weight);
            FillRun(weights, bits, symbol, position);
            position := position + Pow2(weight - 1);
          }
        }
        assert weights[..|weights|] == weights;
        UnitsLessStep(weights, weight);
      }
    }

    lemma NothingFilled(weights: seq<nat>, bits: nat)
      requires |entries| == MAX_HUFFMAN_TABLE_SIZE
      ensures Filled(entries, weights, bits, 0)
    {
    }

    /** The cells of one symbol; its block never leaves the table. */
    method FillRun(weights: seq<nat>, bits: nat, symbol: nat, position: nat)
      requires |entries| == MAX_HUFFMAN_TABLE_SIZE && Units(weights) == Pow2(bits) && bits <= MAX_BITS
      requires symbol < |weights| && 0 < weights[symbol] <= bits && Filled(entries, weights, bits, position)
      requires position == UnitsLess(weights, weights[symbol]) + UnitsEq(weights[..symbol], weights[symbol])
      modifies this`entries
      ensures |entries| == MAX_HUFFMAN_TABLE_SIZE
      ensures Filled(entries, weights, bits, position + Pow2(weights[symbol] - 1))
    {
      hide Units, UnitsLess, UnitsEq, Pow2;
      StartBound(weights, symbol);
      TableBound(bits);
      assert position == Start(weights, symbol);
      hide Start;
      var blockEnd := position + Pow2(weights[symbol] - 1);
      var cell := DecodeCell(symbol, bits + 1 - weights[symbol]);
      ghost var before := entries;
      var i := position;
      while i < blockEnd
        invariant position <= i <= blockEnd && |entries| == MAX_HUFFMAN_TABLE_SIZE
        invariant forall c :: 0 <= c < position ==> entries[c] == before[c]
        invariant forall c :: position <= c < i ==> entries[c] == cell
      {
        entries := entries[i := cell];
        i := i + 1;
      }
      forall s: nat, c: nat | c < blockEnd && Owns(weights, s, c) && weights[s] <= bits
        ensures entries[c] == DecodeCell(s, CodeLength(weights, bits, s))
      {
        if c >= position {
          OneOwner(weights, s, symbol, c);
        }
      }
    }
  }

  lemma TableBound(bits: nat)
    requires bits <= MAX_BITS
    ensures Pow2(bits) <= MAX_HUFFMAN_TABLE_SIZE
  {
    assert Pow2(11) == 2048;
    Pow2Mono(bits, 11);
  }

  lemma NoUnit()
    ensures UnitOf(0) == 0
  {
  }

  /** A complete code's bit depth can only be the highest bit of its cell total. */
  lemma CompleteTotal(weights: seq<nat>)
    ensures forall m :: Complete(weights, m) ==> Units(weights) > 0 && HighestBit(Units(weights)) == m
  {
    hide Units, HighestBit;
    forall m | Complete(weights, m)
      ensures Units(weights) > 0 && HighestBit(Units(weights)) == m
    {
      HighestBitUnique(Units(weights), m);
    }
  }

  /** All cells are owned by weights up to `bits` exactly when the code is complete. */
  lemma HeaviestWeight(weights: seq<nat>, bits: nat)
    requires 0 < |weights| <= MAX_WEIGHT_COUNT && bits <= MAX_BITS && Units(weights) == Pow2(bits)
    ensures UnitsLess(weights, bits + 1) == Pow2(bits) <==> Complete(weights, bits)
  {
    hide Units, UnitsLess, UnitsEq;
    PowPositive(bits);
    if bits == 0 {
      UnitsLessStep(weights, 0);
    } else if forall s :: 0 <= s < |weights| ==> weights[s] <= bits {
      UnitsLessAll(weights, bits + 1);
    } else {
      var s :| 0 <= s < |weights| && weights[s] > bits;
      StartBound(weights, s);
      PowPositive(weights[s] - 1);
      UnitsLessMonotone(weights, bits + 1, weights[s]);
    }
  }
}
