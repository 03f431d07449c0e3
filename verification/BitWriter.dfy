/** The two bit writers: `ForwardBitWriter` packs fields into a 64-bit container that is
    drained to the output in whole bytes, `BackwardBitWriter` adds the end marker that lets
    the stream be read from its last bit to its first. */
module BitWriter {
  import opened Bits

  /** Adding a field above the bits already in the container. */
  lemma ContainerAdd(container: nat, used: nat, value: nat, count: nat)
    requires container < Pow2(used) && used + count <= 64
    ensures var c := Or(container, Shl64(LowBits(value, count), used));
            && c < Pow2(used + count)
            && ToBits(c, used + count) == ToBits(container, used) + ToBits(value, count)
  {
    hide *;
    var field := LowBits(value, count);
    var bits := ToBits(container, used) + ToBits(value, count);
    FromBitsConcat(ToBits(container, used), ToBits(value, count));
    FromToBits(container, used);
    FromToBits(value, count);
    LowBitsId(container, used);
    assert FromBits(bits) == container + Shl(field, used);
    Shl64Exact(field, count, used);
    OrDisjoint(container, field, used);
    ToFromBits(bits);
  }

  /** Draining `count` low bytes of the container. */
  lemma ContainerDrain(container: nat, used: nat, count: nat)
    requires container < Pow2(used) && 8 * count <= used
    ensures Shr(container, 8 * count) < Pow2(used - 8 * count)
    ensures ToBits(container, used)
         == BytesToBits(LeBytes(container, count)) + ToBits(Shr(container, 8 * count), used - 8 * count)
  {
    hide *;
    LeBytesBits(container, count);
    ToBitsConcat(container, 8 * count, used - 8 * count);
    ShrBound(container, used, 8 * count);
  }

  /** `to_le_bytes()[..k]` is the first `k` of the eight bytes. */
  lemma {:induction false} LeBytesPrefix(v: nat, count: nat, k: nat)
    requires k <= count
    ensures LeBytes(v, count)[..k] == LeBytes(v, k)
    decreases k
  {
    if k > 0 {
      LeBytesPrefix(v / 256, count - 1, k - 1);
      assert LeBytes(v, count)[..k] == [v % 256] + LeBytes(v / 256, count - 1)[..k - 1];
    }
  }

  /** Bytes taken off a container of exactly its bits leave everything written as it was. */
  lemma DrainedBits(before: seq<byte>, container: nat, used: nat, count: nat)
    requires container < Pow2(used) && 8 * count <= used <= 64
    ensures Shr(container, 8 * count) < Pow2(used - 8 * count)
    ensures BytesToBits(before + LeBytes(container, 8)[..count]) + ToBits(Shr(container, 8 * count), used - 8 * count)
         == BytesToBits(before) + ToBits(container, used)
  {
    hide *;
    LeBytesPrefix(container, 8, count);
    BytesToBitsConcat(before, LeBytes(container, 8)[..count]);
    ContainerDrain(container, used, count);
  }

  /** `shift_right_by_bits`: nothing is left of a word shifted by its whole width. */
  function ShiftRightByBits(value: nat, bits: nat): (r: nat)
    requires value < Pow2(64)
    ensures r == Shr(value, bits)
  {
    if bits >= 64 then
      Pow2Mono(64, bits);
      LowBitsId(value, bits);
      0
    else Shr(value, bits)
  }

  /** The container word after adding a field above `used` bits. The shift is taken modulo 64, and
      what it pushes past the top is lost. */
  function AddedWord(word: nat, used: nat, value: nat, count: nat): (r: nat)
    requires word < Pow2(64)
    ensures r < Pow2(64)
  {
    OrBound(word, Shl64(LowBits(value, count), used % 64), 64);
    Or(word, Shl64(LowBits(value, count), used % 64))
  }

  /** One store of several bytes. */
  method StoreBytes(output: array<byte>, at: nat, bytes: seq<byte>)
    requires at + |bytes| <= output.Length
    modifies output
    ensures output[..] == old(output[..at]) + bytes + old(output[at + |bytes|..])
  {
    forall i | 0 <= i < |bytes| {
      output[at + i] := bytes[i];
    }
  }

  class ForwardBitWriter {
    const output: array<byte>
    var container: nat
    var bitsInContainer: nat
    var position: nat
    var hasOverflowed: bool
    /** Every field added without a flush so far has found room in the container, or came after the
        output had overflowed. */
    ghost var withinBudget: bool

    /** The container is a word. Once a flush has failed, it keeps failing: the pending whole bytes
        do not fit, and neither does an eight-byte store. */
    ghost predicate Valid()
      reads this, output
    {
      && container < Pow2(64)
      && (hasOverflowed ==>
            && bitsInContainer >= 8 && output.Length < position + bitsInContainer / 8
            && output.Length < position + 8)
    }

    /** What has been written can be told from the fields: the container holds exactly its bits. */
    ghost predicate Clean()
      reads this, output
    {
      !hasOverflowed && position <= output.Length && bitsInContainer <= 64 && container < Pow2(bitsInContainer)
    }

    /** The pending whole bytes are at most a word, or do not fit anyway. */
    predicate Flushable()
      reads this
    {
      bitsInContainer < 72 || position + bitsInContainer / 8 > output.Length
    }

    /** Everything written so far, first bit first. */
    ghost function Contents(): (s: seq<bool>)
      requires Clean()
      reads this, output
      ensures |s| == 8 * position + bitsInContainer
    {
      BytesToBits(output[..position]) + ToBits(container, bitsInContainer)
    }

    constructor (output: array<byte>)
      ensures this.output == output && Valid() && Clean() && Contents() == [] && position == 0 && withinBudget
    {
      this.output := output;
      container, bitsInContainer, position, hasOverflowed := 0, 0, 0, false;
      withinBudget := true;
    }

    /** Fails exactly when a flush is due and the pending whole bytes do not fit. */
    method AddBits(value: nat, count: nat) returns (ok: bool)
      requires Valid() && count <= 56 && Flushable()
      modifies this, output
      ensures Valid() && hasOverflowed == old(hasOverflowed) && withinBudget == old(withinBudget)
      ensures ok <==> count == 0 || old(bitsInContainer) + count <= 64
                      || old(position) + old(bitsInContainer) / 8 <= output.Length
      ensures ok ==> 8 * position + bitsInContainer == 8 * old(position) + old(bitsInContainer) + count && Flushable()
      ensures ok ==> bitsInContainer >= count
      ensures ok && old(Clean()) ==> Clean() && Contents() == old(Contents()) + ToBits(value, count)
      ensures ok && (count == 0 || old(bitsInContainer) + count <= 64) ==>
                bitsInContainer == old(bitsInContainer) + count && position == old(position) && unchanged(output)
      ensures !ok ==> unchanged(this) && unchanged(output)
    {
      hide Pow2, Shl, Shr, LowBits, Shl64, Or, ToBits, FromBits, BytesToBits, LeBytes;
      if count == 0 {
        assert ToBits(value, 0) == [];
        return true;
      }
      if bitsInContainer + count > 64 {
        ok := FlushBytes();
        if !ok {
          return;
        }
      }
      ghost var clean := Clean();
      ghost var before := if clean then Contents() else [];
      if clean {
        ContainerAdd(container, bitsInContainer, value, count);
      }
      WordStays(container, bitsInContainer, value, count);
      container := Or(container, Shl64(LowBits(value, count), bitsInContainer));
      bitsInContainer := bitsInContainer + count;
      assert clean ==> Contents() == before + ToBits(value, count);
      return true;
    }

    method FlushBytes() returns (ok: bool)
      requires Valid() && Flushable()
      modifies this, output
      ensures Valid() && hasOverflowed == old(hasOverflowed) && withinBudget == old(withinBudget)
      ensures ok <==> old(bitsInContainer) < 8 || old(position) + old(bitsInContainer) / 8 <= output.Length
      ensures ok ==> !hasOverflowed && bitsInContainer == old(bitsInContainer) % 8
                     && position == old(position) + old(bitsInContainer) / 8
      ensures ok && old(Clean()) ==> Clean() && Contents() == old(Contents())
      ensures !ok ==> unchanged(this) && unchanged(output)
    {
      hide Pow2, Shl, Shr, LowBits, Shl64, Or, ToBits, FromBits, BytesToBits, LeBytes;
      var byteCount := bitsInContainer / 8;
      if byteCount == 0 {
        return true;
      }
      var end := position + byteCount;
      if end > output.Length {
        return false;
      }
      var bytes := LeBytes(container, 8)[..byteCount];
      forall i | 0 <= i < byteCount {
        output[position + i] := bytes[i];
      }
      if old(Clean()) {
        assert output[..end] == old(output[..position]) + bytes;
        DrainedBits(old(output[..position]), container, bitsInContainer, byteCount);
      }
      position := end;
      var bitsWritten := byteCount * 8;
      container := ShiftRightByBits(container, bitsWritten);
      bitsInContainer := bitsInContainer - bitsWritten;
      return true;
    }

    /** `wrapping_shl` takes the shift modulo 64. Within the budget the contents grow by the field;
        past it the word is what the shift leaves of it. */
    method AddBitsWithoutFlush(value: nat, count: nat)
      requires Valid() && count < 64
      modifies this
      ensures Valid() && hasOverflowed == old(hasOverflowed)
      ensures position == old(position) && bitsInContainer == old(bitsInContainer) + count
      ensures container == AddedWord(old(container), old(bitsInContainer), value, count)
      ensures withinBudget <==> old(withinBudget) && (hasOverflowed || old(bitsInContainer) + count <= 64)
      ensures old(Clean()) && old(bitsInContainer) + count <= 64 ==>
                Clean() && Contents() == old(Contents()) + ToBits(value, count)
    {
      hide Pow2, Shl, Shr, LowBits, Shl64, Or, ToBits, FromBits, BytesToBits, LeBytes;
      var bits := LowBits(value, count);
      if Clean() && bitsInContainer + count <= 64 {
        ContainerAdd(container, bitsInContainer, value, count);
        if bitsInContainer == 64 {
          NoBits(value);
        }
      }
      WordStays(container, bitsInContainer % 64, value, count);
      withinBudget := withinBudget && (hasOverflowed || bitsInContainer + count <= 64);
      container := Or(container, Shl64(bits, bitsInContainer % 64));
      bitsInContainer := bitsInContainer + count;
    }

    /** The eight-byte store. The position moves on by all pending whole bytes, even by more than the
        store has written when the container was over-full. */
    method FlushWholeBytes()
      requires Valid()
      modifies this, output
      ensures Valid() && withinBudget == old(withinBudget)
      ensures old(hasOverflowed) ==> hasOverflowed
      ensures hasOverflowed && !old(hasOverflowed) ==>
                old(position) + old(bitsInContainer) / 8 > output.Length
      ensures !hasOverflowed ==> && bitsInContainer == old(bitsInContainer) % 8
                                 && position == old(position) + old(bitsInContainer) / 8
      ensures !hasOverflowed && old(Clean()) ==> Clean() && Contents() == old(Contents())
      ensures !hasOverflowed && old(bitsInContainer) >= 64 ==>
                && container == 0 && old(position) + 8 <= output.Length
                && output[..] == old(output[..position]) + LeBytes(old(container), 8) + old(output[position + 8..])
    {
      hide Pow2, Shl, Shr, LowBits, Shl64, Or, ToBits, FromBits, BytesToBits, LeBytes;
      if position + 8 > output.Length {
        var ok := FlushBytes();
        hasOverflowed := hasOverflowed || !ok;
        return;
      }
      var bytes := LeBytes(container, 8);
      StoreBytes(output, position, bytes);
      var bitsWritten := bitsInContainer - bitsInContainer % 8;
      if old(Clean()) {
        ghost var byteCount := bitsWritten / 8;
        assert output[..position + byteCount] == old(output[..position]) + bytes[..byteCount];
        DrainedBits(old(output[..position]), container, bitsInContainer, byteCount);
      }
      if bitsWritten >= 64 {
        ShiftedAway(container, bitsWritten);
      }
      position := position + bitsWritten / 8;
      container := ShiftRightByBits(container, bitsWritten);
      bitsInContainer := bitsInContainer - bitsWritten;
    }

    /** The bits written, padded with zeros to whole bytes, or an error exactly when the
        output could not take them. */
    method Finish() returns (ok: bool, size: nat)
      requires Valid() && Flushable()
      modifies this, output
      ensures withinBudget == old(withinBudget)
      ensures ok <==> && !old(hasOverflowed)
                      && (old(bitsInContainer) == 0 || 8 * output.Length >= 8 * old(position) + old(bitsInContainer))
      ensures ok ==> 8 * old(position) + old(bitsInContainer) <= 8 * size < 8 * old(position) + old(bitsInContainer) + 8
      ensures ok && old(Clean()) ==>
                     var pad := 8 * size - |old(Contents())|;
                     && size <= output.Length && 0 <= pad < 8
                     && BytesToBits(output[..size]) == old(Contents()) + Zeros(pad)
    {
      hide Pow2, Shl, Shr, LowBits, Shl64, Or, ToBits, FromBits, BytesToBits, LeBytes;
      if hasOverflowed {
        return false, 0;
      }
      ok := FlushBytes();
      if !ok {
        return false, 0;
      }
      if bitsInContainer > 0 {
        if position >= output.Length {
          return false, 0;
        }
        ghost var used := bitsInContainer;
        ghost var whole := output[..position];
        output[position] := container % 256;
        if old(Clean()) {
          assert output[..position + 1] == whole + [container % 256];
          BytesToBitsConcat(whole, [container % 256]);
          LastByteBits(container, used);
        }
        position := position + 1;
      } else if old(Clean()) {
        assert Contents() == Contents() + Zeros(0);
      }
      return true, position;
    }
  }

  lemma WordStays(word: nat, shift: nat, value: nat, count: nat)
    requires word < Pow2(64)
    ensures Or(word, Shl64(LowBits(value, count), shift)) < Pow2(64)
  {
    OrBound(word, Shl64(LowBits(value, count), shift), 64);
  }

  lemma ShiftedAway(word: nat, bits: nat)
    requires word < Pow2(64) && bits >= 64
    ensures Shr(word, bits) == 0
  {
    hide *;
    Pow2Mono(64, bits);
    LowBitsId(word, bits);
  }

  /** The final partial byte holds the pending bits and zeros above them. */
  lemma LastByteBits(container: nat, used: nat)
    requires 0 < used < 8 && container < Pow2(used)
    ensures BytesToBits([container % 256]) == ToBits(container, used) + Zeros(8 - used)
  {
    assert BytesToBits([container % 256]) == ToBits(container % 256, 8) + BytesToBits([]);
    assert BytesToBits([]) == [];
    hide *;
    ToBitsConcat(container, used, 8 - used);
    LowBitsId(container, used);
    ToBitsZero(8 - used);
    ShrByte(container);
    ToBitsMasked(container, 8);
  }

  lemma NoBits(value: nat)
    ensures LowBits(value, 0) == 0 && Shl64(0, 0) == Shl64(0, 64)
  {
    ShlZero(64);
    Shl64Def(0, 64);
    Shl64Def(0, 0);
  }

  lemma MarkerBits()
    ensures ToBits(1, 1) == [true]
  {
  }

  class BackwardBitWriter {
    const bitWriter: ForwardBitWriter

    ghost predicate Valid()
      reads this, bitWriter, bitWriter.output
    {
      bitWriter.Valid()
    }

    constructor (output: array<byte>)
      ensures bitWriter.output == output && fresh(bitWriter) && Valid() && bitWriter.position == 0
      ensures bitWriter.withinBudget
      ensures bitWriter.Clean() && bitWriter.Contents() == []
    {
      bitWriter := new ForwardBitWriter(output);
    }

    /** The bits written, then the end marker, then fewer than eight zeros. */
    method Finish() returns (ok: bool, size: nat)
      requires Valid() && bitWriter.Flushable()
      modifies bitWriter, bitWriter.output
      ensures bitWriter.withinBudget == old(bitWriter.withinBudget)
      ensures ok <==> !old(bitWriter.hasOverflowed)
                      && 8 * bitWriter.output.Length >= 8 * old(bitWriter.position) + old(bitWriter.bitsInContainer) + 1
      ensures ok ==> size <= bitWriter.output.Length
                     && 8 * size > 8 * old(bitWriter.position) + old(bitWriter.bitsInContainer) >= 8 * size - 8
      ensures ok && old(bitWriter.Clean()) ==>
                     var pad := 8 * size - |old(bitWriter.Contents())| - 1;
                        && 0 <= pad < 8
                        && BytesToBits(bitWriter.output[..size]) == old(bitWriter.Contents()) + [true] + Zeros(pad)
    {
      hide Pow2, Shl, Shr, LowBits, Shl64, Or, ToBits, FromBits, BytesToBits, LeBytes;
      ok := bitWriter.AddBits(1, 1);
      MarkerBits();
      if !ok {
        return false, 0;
      }
      ok, size := bitWriter.Finish();
    }
  }
}
