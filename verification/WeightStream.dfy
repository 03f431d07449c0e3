/** The FSE-coded weights of a Huffman table (section 4.2.1.2 of RFC 8878): two states take turns,
    and the end of the list is where a state runs out of bits. */
module WeightStream {
  import opened Bits
  import opened BitReader
  import opened BitWriter
  import opened Fse
  import opened FseTables

  const MAX_WEIGHTS := 255

  /** Every symbol of the list has cells, but not all of them. */
  ghost predicate Mixed(t: Tans, ws: seq<nat>) {
    ValidTans(t) && forall i :: 0 <= i < |ws| ==> ws[i] < 256 && 0 < Count(t, ws[i]) < |t.cells|
  }

  datatype Turns = Turns(first: nat, second: nat, stream: seq<bool>)

  /** The cells of the first two weights and the bits of the rest: each weight steps from the cell
      of the weight two places on. */
  ghost function EncodeTurns(t: Tans, ws: seq<nat>): (r: Turns)
    requires Mixed(t, ws) && |ws| >= 2
    ensures r.first < |t.cells| && r.second < |t.cells|
  {
    if |ws| == 2 then Turns(FirstCell(t, ws[0]), FirstCell(t, ws[1]), [])
    else
      var r := EncodeTurns(t, ws[1..]);
      var (cell, stream) := EncodeStep(t, r.second, ws[0], r.stream);
      Turns(cell, r.first, stream)
  }

  /** The decoder: push a weight, move its state; when the move wants more bits than are left, push
      the other state's weight and stop. `None` when a push finds no room. */
  ghost function DecodeTurns(t: Tans, first: nat, second: nat, rest: seq<bool>, room: nat): Option<seq<nat>>
    requires ValidTans(t) && first < |t.cells| && second < |t.cells|
    decreases room
  {
    if room == 0 then None
    else if CellBits(t, first) > |rest| then
      if room == 1 then None else Some([t.cells[first], t.cells[second]])
    else
      var (next, left) := DecodeStep(t, first, rest);
      var tail := DecodeTurns(t, second, next, left, room - 1);
      if tail.None? then None else Some([t.cells[first]] + tail.value)
  }

  lemma MixedTail(t: Tans, ws: seq<nat>)
    requires Mixed(t, ws) && ws != []
    ensures Mixed(t, ws[1..]) && 0 < Count(t, ws[0]) < |t.cells| && ValidTans(t)
  {
    hide Count, ValidTans;
  }

  /** Exactly the weights come back, and exactly as many, for odd and even counts: the cells the
      encoder started on ask for at least one bit, and none is left for them. */
  lemma {:induction false} TurnsRoundTrip(t: Tans, ws: seq<nat>, room: nat)
    requires Mixed(t, ws) && 2 <= |ws| <= room
    ensures var r := EncodeTurns(t, ws);
            DecodeTurns(t, r.first, r.second, r.stream, room) == Some(ws)
    decreases |ws|
  {
    hide Mixed, EncodeStep, DecodeStep, FirstCell, CellBits, Count, ValidTans;
    MixedTail(t, ws);
    if |ws| == 2 {
      MixedTail(t, ws[1..]);
      assert ws[1..][0] == ws[1];
      FirstCellNeedsBits(t, ws[0]);
      assert ws == [ws[0], ws[1]];
    } else {
      var r := EncodeTurns(t, ws[1..]);
      TurnsRoundTrip(t, ws[1..], room - 1);
      DecodeUndoesEncode(t, r.second, ws[0], r.stream);
      assert ws == [ws[0]] + ws[1..];
    }
  }

  /** The whole stream: the second state, then on top of it the first. */
  ghost function WeightBits(t: Tans, ws: seq<nat>): seq<bool>
    requires Mixed(t, ws) && |ws| >= 2
  {
    var r := EncodeTurns(t, ws);
    FlushState(t, r.first, FlushState(t, r.second, r.stream))
  }

  /** Opening a stream: both states must be there. */
  ghost function DecodeWeights(t: Tans, bits: seq<bool>, room: nat): Option<seq<nat>>
    requires ValidTans(t)
  {
    var (first, r1) := ReadState(t, bits);
    var (second, r2) := ReadState(t, r1);
    if t.log > |bits| || t.log > |r1| then None else DecodeTurns(t, first, second, r2, room)
  }

  lemma WeightsRoundTrip(t: Tans, ws: seq<nat>, room: nat)
    requires Mixed(t, ws) && 2 <= |ws| <= room
    ensures DecodeWeights(t, WeightBits(t, ws), room) == Some(ws)
  {
    hide EncodeTurns, DecodeTurns, ReadState, Count, CellBits;
    var r := EncodeTurns(t, ws);
    TurnsRoundTrip(t, ws, room);
    StateReadBack(t, r.second, r.stream);
    StateReadBack(t, r.first, FlushState(t, r.second, r.stream));
  }

  // ---------------------------------------------------------------- the writer

  lemma TurnsStep(t: Tans, ws: seq<nat>, k: nat)
    requires Mixed(t, ws) && k + 2 < |ws|
    ensures Mixed(t, ws[k..]) && Mixed(t, ws[k + 1..]) && ws[k] < 256 && Count(t, ws[k]) > 0
    ensures var r := EncodeTurns(t, ws[k + 1..]);
            var (cell, stream) := EncodeStep(t, r.second, ws[k], r.stream);
            EncodeTurns(t, ws[k..]) == Turns(cell, r.first, stream)
  {
    hide EncodeStep, Count, ValidTans, FirstCell;
    assert ws[k..][1..] == ws[k + 1..];
  }

  lemma TurnsStart(t: Tans, ws: seq<nat>)
    requires Mixed(t, ws) && |ws| >= 2
    ensures var n := |ws| - 2;
            && Mixed(t, ws[n..]) && ws[n] < 256 && ws[n + 1] < 256 && Count(t, ws[n]) > 0 && Count(t, ws[n + 1]) > 0
            && EncodeTurns(t, ws[n..]) == Turns(FirstCell(t, ws[n]), FirstCell(t, ws[n + 1]), [])
  {
    hide EncodeStep, Count, ValidTans, FirstCell;
  }

  /** What the writer holds after the weights from `k` on: of the two states, the one whose turn `k`
      was stands on its cell. */
  ghost predicate WrittenFrom(w: ForwardBitWriter, own: FseEncodeState, other: FseEncodeState, t: Tans, ws: seq<nat>,
                              k: nat)
    reads w, w.output, own, other
  {
    && k + 2 <= |ws| && Mixed(t, ws[k..]) && w.Valid() && w.Clean()
    && var r := EncodeTurns(t, ws[k..]);
       own.At(t, r.first) && other.At(t, r.second) && w.Contents() == r.stream
  }

  /** One turn: the state two places on takes the weight. */
  method WriteTurn(writer: BackwardBitWriter, table: FseEncodeTable, own: FseEncodeState, other: FseEncodeState,
                   ws: seq<nat>, k: nat, ghost t: Tans) returns (ok: bool)
    requires Mixed(t, ws) && k + 2 < |ws| && table.Encodes(t) && own != other
    requires WrittenFrom(writer.bitWriter, other, own, t, ws, k + 1)
    modifies own, writer.bitWriter, writer.bitWriter.output
    ensures ok ==> WrittenFrom(writer.bitWriter, own, other, t, ws, k)
    ensures !ok ==> |WeightBits(t, ws)| >= 8 * writer.bitWriter.output.Length
  {
    hide Mixed, EncodeTurns, FseEncodeTable.Encodes, FseEncodeState.At, EncodeNext, EncodeBits, Count, ToBits,
      BytesToBits, Pow2, WeightBits;
    TurnsStep(t, ws, k);
    TurnsGrow(t, ws, k + 1);
    ghost var r := EncodeTurns(t, ws[k + 1..]);
    ok := own.EncodeSymbol(writer, table, ws[k], t, r.second);
  }

  /** The turns from any place on are at most the whole stream. */
  lemma {:induction false} TurnsGrow(t: Tans, ws: seq<nat>, k: nat)
    requires Mixed(t, ws) && k + 2 <= |ws|
    ensures Mixed(t, ws[k..]) && |EncodeTurns(t, ws[k..]).stream| <= |WeightBits(t, ws)|
    decreases k
  {
    hide Mixed, EncodeTurns, Count, EncodeNext, EncodeBits, ToBits;
    if k == 0 {
      assert ws[0..] == ws;
    } else {
      TurnsGrow(t, ws, k - 1);
      TurnsStep(t, ws, k - 1);
    }
  }

  /** `write_interleaved_weight_stream`: Ok exactly when the output can take the stream. */
  method WriteInterleaved(output: array<byte>, table: FseEncodeTable, ws: seq<nat>, ghost t: Tans)
    returns (ok: bool, size: nat)
    requires Mixed(t, ws) && |ws| >= 2 && table.Encodes(t)
    modifies output
    ensures ok <==> |WeightBits(t, ws)| + 1 <= 8 * output.Length
    ensures ok ==> size <= output.Length && MarkedBits(output[..size]) == Some(WeightBits(t, ws))
  {
    hide Mixed, EncodeTurns, FseEncodeTable.Encodes, FseEncodeState.At, WrittenFrom, MarkedBits, Count, ToBits,
      BytesToBits, Pow2, WeightBits;
    TurnsStart(t, ws);
    var n := |ws|;
    var lastEven := if (n - 1) % 2 == 0 then n - 1 else n - 2;
    var lastOdd := if (n - 1) % 2 == 0 then n - 2 else n - 1;
    var writer := new BackwardBitWriter(output);
    var state1 := new FseEncodeState(table, ws[lastEven], t);
    var state2 := new FseEncodeState(table, ws[lastOdd], t);
    size := 0;
    var k: nat := n - 2;
    StartWritten(writer.bitWriter, if k % 2 == 0 then state1 else state2, if k % 2 == 0 then state2 else state1, t, ws);
    while k > 0
      modifies state1, state2, writer.bitWriter, output
      invariant k + 2 <= n
      invariant WrittenFrom(writer.bitWriter, if k % 2 == 0 then state1 else state2,
                            if k % 2 == 0 then state2 else state1, t, ws, k)
    {
      if (k - 1) % 2 == 0 {
        ok := WriteTurn(writer, table, state1, state2, ws, k - 1, t);
      } else {
        ok := WriteTurn(writer, table, state2, state1, ws, k - 1, t);
      }
      if !ok {
        return;
      }
      k := k - 1;
    }
    assert ws[0..] == ws;
    ok, size := FinishTurns(writer, table, state1, state2, ws, t);
  }

  lemma StartWritten(w: ForwardBitWriter, own: FseEncodeState, other: FseEncodeState, t: Tans, ws: seq<nat>)
    requires Mixed(t, ws) && |ws| >= 2 && w.Valid() && w.Clean() && w.Contents() == []
    requires var n := |ws| - 2;
             && Count(t, ws[n]) > 0 && Count(t, ws[n + 1]) > 0
             && own.At(t, FirstCell(t, ws[n])) && other.At(t, FirstCell(t, ws[n + 1]))
    ensures WrittenFrom(w, own, other, t, ws, |ws| - 2)
  {
    hide Mixed, EncodeTurns, FseEncodeState.At, Count, ForwardBitWriter.Valid, ForwardBitWriter.Contents;
    TurnsStart(t, ws);
  }

  method FinishTurns(writer: BackwardBitWriter, table: FseEncodeTable, state1: FseEncodeState, state2: FseEncodeState,
                     ws: seq<nat>, ghost t: Tans) returns (ok: bool, size: nat)
    requires table.Encodes(t) && WrittenFrom(writer.bitWriter, state1, state2, t, ws, 0) && ws[0..] == ws
    modifies writer.bitWriter, writer.bitWriter.output
    ensures Mixed(t, ws) && |ws| >= 2
    ensures ok <==> |WeightBits(t, ws)| + 1 <= 8 * writer.bitWriter.output.Length
    ensures ok ==> size <= writer.bitWriter.output.Length
                   && MarkedBits(writer.bitWriter.output[..size]) == Some(WeightBits(t, ws))
  {
    hide Mixed, EncodeTurns, FseEncodeTable.Encodes, FseEncodeState.At, MarkedBits, Count, ToBits, BytesToBits, Pow2;
    ghost var r := EncodeTurns(t, ws);
    size := 0;
    ok := state2.Flush(writer, table, t, r.second);
    if !ok {
      return;
    }
    ok := state1.Flush(writer, table, t, r.first);
    if !ok {
      return;
    }
    ok, size := writer.Finish();
    if ok {
      MarkerFound(writer.bitWriter.output[..size], WeightBits(t, ws), 8 * size - |WeightBits(t, ws)| - 1);
    }
  }

  // ---------------------------------------------------------------- the reader

  /** The loop of `read_fse_weights`: each state pushes its weight, then moves. */
  method ReadTurns(reader: BackwardBitReader, table: FseDecodeTable, state1: FseDecodeState, state2: FseDecodeState,
                   ghost t: Tans) returns (ok: bool, ws: seq<nat>)
    requires reader.Valid() && !reader.hasOverflowed && table.Decodes(t) && ValidTans(t) && state1 != state2
    requires state1.state < |t.cells| && state2.state < |t.cells|
    modifies reader, state1, state2
    ensures var r := DecodeTurns(t, old(state1.state), old(state2.state), old(reader.Rest()), MAX_WEIGHTS);
            (ok <==> r.Some?) && (ok ==> ws == r.value)
  {
    hide CellBits, CellBase, DecodeStep, FseDecodeTable.Decodes, ValidTans, BytesToBits, WordFrom;
    ghost var whole := DecodeTurns(t, state1.state, state2.state, reader.Rest(), MAX_WEIGHTS);
    ws := [];
    NothingPushed(whole);
    while true
      modifies reader, state1, state2
      invariant reader.Valid() && !reader.hasOverflowed && state1.state < |t.cells| && state2.state < |t.cells|
      invariant |ws| <= MAX_WEIGHTS
      invariant table.Decodes(t) && ValidTans(t)
      invariant whole == Pushed(ws, DecodeTurns(t, state1.state, state2.state, reader.Rest(), MAX_WEIGHTS - |ws|))
      decreases MAX_WEIGHTS - |ws|
    {
      var done;
      ok, done, ws := PushAndMove(reader, table, state1, state2, ws, t, whole);
      if done {
        return;
      }
      ok, done, ws := PushAndMove(reader, table, state2, state1, ws, t, whole);
      if done {
        return;
      }
    }
  }

  ghost function Pushed(before: seq<nat>, rest: Option<seq<nat>>): Option<seq<nat>> {
    if rest.None? then None else Some(before + rest.value)
  }

  lemma NothingPushed(rest: Option<seq<nat>>)
    ensures Pushed([], rest) == rest
  {
    if rest.Some? {
      assert [] + rest.value == rest.value;
    }
  }

  method PushAndMove(reader: BackwardBitReader, table: FseDecodeTable, own: FseDecodeState, other: FseDecodeState,
                     before: seq<nat>, ghost t: Tans, ghost whole: Option<seq<nat>>)
    returns (ok: bool, done: bool, ws: seq<nat>)
    requires reader.Valid() && !reader.hasOverflowed && table.Decodes(t) && ValidTans(t) && own != other
    requires |before| <= MAX_WEIGHTS
    requires own.state < |t.cells| && other.state < |t.cells|
    requires whole == Pushed(before, DecodeTurns(t, own.state, other.state, reader.Rest(), MAX_WEIGHTS - |before|))
    modifies reader, own
    ensures done ==> (ok <==> whole.Some?) && (ok ==> ws == whole.value)
    ensures !done ==>
              && reader.Valid() && !reader.hasOverflowed && own.state < |t.cells| && |before| < |ws| <= MAX_WEIGHTS
              && whole == Pushed(ws, DecodeTurns(t, other.state, own.state, reader.Rest(), MAX_WEIGHTS - |ws|))
  {
    hide CellBits, CellBase, DecodeStep, FseDecodeTable.Decodes, ValidTans, BytesToBits, WordFrom;
    ok, done, ws := false, true, before;
    if |ws| >= MAX_WEIGHTS {
      return;
    }
    ghost var c, rest := own.state, reader.Rest();
    var symbol := own.GetSymbol(table, t);
    ws := ws + [symbol];
    own.Update(reader, table, t);
    if reader.hasOverflowed {
      if |ws| >= MAX_WEIGHTS {
        return;
      }
      var last := other.GetSymbol(table, t);
      ws := ws + [last];
      assert ws == before + [symbol, last];
      return true, true, ws;
    }
    done := false;
    ghost var tail := DecodeTurns(t, other.state, own.state, reader.Rest(), MAX_WEIGHTS - |ws|);
    if tail.Some? {
      ConcatAssoc(before, [symbol], tail.value);
    }
  }
}
