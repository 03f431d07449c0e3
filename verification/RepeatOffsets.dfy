/** The three repeat offsets (section 3.1.1.5 of RFC 8878). The encoder and the decoder each keep
    a history; an offset value sent by one moves both the same way. */
module RepeatOffsets {
  const U32 := 0x1_0000_0000

  datatype History = History(first: nat, second: nat, third: nat)

  const INITIAL := History(1, 4, 8)

  /** All three are 32-bit words. */
  ghost predicate Small(h: History) {
    h.first < U32 && h.second < U32 && h.third < U32
  }

  /** A new offset goes to the front. */
  function Pushed(h: History, offset: nat): History {
    History(offset, h.first, h.second)
  }

  /** The offset an offset value stands for: 1 to 3 name old offsets, shifted by one place when no
      literals precede, where the third becomes one less than the first (as a 32-bit word). */
  function OffsetOf(h: History, value: nat, literalLength: nat): nat {
    if value > 3 then value - 3
    else if literalLength != 0 then
      if value == 1 then h.first else if value == 2 then h.second else h.third
    else
      if value == 1 then h.second else if value == 2 then h.third else (h.first + (U32 - 1)) % U32
  }

  /** The history after it: the first offset again changes nothing, the second swaps two. */
  function After(h: History, value: nat, literalLength: nat): History {
    var offset := OffsetOf(h, value, literalLength);
    if value <= 3 && literalLength != 0 && value == 1 then h
    else if value <= 3 && value == (if literalLength != 0 then 2 else 1) then History(h.second, h.first, h.third)
    else Pushed(h, offset)
  }

  /** The value the encoder picks: a repeat code if one stands for the offset. */
  function ValueOf(h: History, offset: nat, literalLength: nat): (value: nat)
    ensures offset > 0 ==> value > 0
  {
    if literalLength != 0 then
      if offset == h.first then 1 else if offset == h.second then 2 else if offset == h.third then 3 else offset + 3
    else
      if offset == h.second then 1 else if offset == h.third then 2
      else if h.first > 0 && offset == h.first - 1 then 3 else if offset == 0 then 4 else offset + 3
  }

  /** What the encoder sends the decoder resolves to the same offset. */
  lemma ValueResolves(h: History, offset: nat, literalLength: nat)
    requires 0 < offset && h.first < U32
    ensures OffsetOf(h, ValueOf(h, offset, literalLength), literalLength) == offset
  {
    if literalLength == 0 && h.first > 0 && offset == h.first - 1 {
      assert (h.first + (U32 - 1)) % U32 == h.first - 1;
    }
  }

  /** After any value the newest offset is in front and nothing but the three offsets is kept. */
  lemma OffsetMovesToFront(h: History, value: nat, literalLength: nat)
    requires value > 0
    ensures var a := After(h, value, literalLength);
            && a.first == OffsetOf(h, value, literalLength)
            && (a == h || a.second == h.first)
            && a.third in {h.second, h.third}
  {
  }

  class RepeatOffsets {
    var first: nat
    var second: nat
    var third: nat

    ghost function State(): History
      reads this
    {
      History(first, second, third)
    }

    constructor ()
      ensures State() == INITIAL
    {
      first, second, third := 1, 4, 8;
    }

    /** `get_offset`. */
    method GetOffset(offsetValue: nat, literalLength: nat) returns (offset: nat)
      requires offsetValue > 0
      modifies this
      ensures offset == OffsetOf(old(State()), offsetValue, literalLength)
      ensures State() == After(old(State()), offsetValue, literalLength)
    {
      if offsetValue > 3 {
        offset := offsetValue - 3;
        third := second;
        second := first;
        first := offset;
        return;
      }
      if literalLength != 0 {
        if offsetValue == 1 {
          return first;
        }
        if offsetValue == 2 {
          first, second := second, first;
          return first;
        }
        offset := third;
      } else {
        if offsetValue == 1 {
          first, second := second, first;
          return first;
        }
        offset := if offsetValue == 2 then third else (first + (U32 - 1)) % U32;
      }
      third := second;
      second := first;
      first := offset;
    }

    /** `get_offset_value`. */
    method GetOffsetValue(offset: nat, literalLength: nat) returns (value: nat)
      requires 0 < offset && first < U32
      modifies this
      ensures value == ValueOf(old(State()), offset, literalLength)
      ensures OffsetOf(old(State()), value, literalLength) == offset
      ensures State() == After(old(State()), value, literalLength)
    {
      var matchingCode := 0;
      if literalLength != 0 {
        if offset == first {
          matchingCode := 1;
        } else if offset == second {
          matchingCode := 2;
        } else if offset == third {
          matchingCode := 3;
        }
      } else if offset == second {
        matchingCode := 1;
      } else if offset == third {
        matchingCode := 2;
      } else if first > 0 && offset == first - 1 {
        matchingCode := 3;
      }
      var nonRepeatValue := if offset == 0 then 4 else offset + 3;
      value := if matchingCode != 0 then matchingCode else nonRepeatValue;
      ValueResolves(State(), offset, literalLength);
      var resolved := GetOffset(value, literalLength);
    }
  }
}
