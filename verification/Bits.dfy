/** Bits, bytes and machine words.

    A bit sequence is a `seq<bool>` with the least significant bit first. Machine words are
    natural numbers; shifts, masks and `|` are defined bit by bit, so that every fact about
    them is an induction over linear arithmetic. */
module Bits {
  type byte = b: int | 0 <= b < 256

  function Pow2(n: nat): (p: nat)
    ensures p >= 1
  {
    if n == 0 then 1 else 2 * Pow2(n - 1)
  }

  function Min(a: int, b: int): int {
    if a < b then a else b
  }

  function Max(a: int, b: int): int {
    if a < b then b else a
  }

  // ---------------------------------------------------------------- word operations

  /** `v << n` without a width limit. */
  function Shl(v: nat, n: nat): (r: nat)
    ensures r >= v
    decreases n, v
  {
    if n == 0 then v else 2 * Shl(v, n - 1)
  }

  /** `v >> n`. */
  function Shr(v: nat, n: nat): (r: nat)
    ensures r <= v
    decreases n, v
  {
    if n == 0 then v else Shr(v / 2, n - 1)
  }

  /** `v & ((1 << n) - 1)`. */
  function LowBits(v: nat, n: nat): (r: nat)
    ensures r < Pow2(n) && r <= v
    decreases n, v
  {
    if n == 0 then 0 else v % 2 + 2 * LowBits(v / 2, n - 1)
  }

  /** `v << n` on 64-bit words: bits pushed past the top are lost. */
  function Shl64(v: nat, n: nat): nat {
    LowBits(Shl(v, n), 64)
  }

  /** Bitwise `a | b`. */
  function Or(a: nat, b: nat): nat
    decreases a + b
  {
    if a == 0 then b else if b == 0 then a
    else Max(a % 2, b % 2) + 2 * Or(a / 2, b / 2)
  }

  /** Position of the highest set bit of a positive number. */
  function HighestBit(v: nat): (h: nat)
    requires v > 0
    ensures Pow2(h) <= v < Pow2(h + 1)
  {
    if v == 1 then 0 else 1 + HighestBit(v / 2)
  }

  // ---------------------------------------------------------------- their laws

  lemma {:induction false} Pow2Mono(a: nat, b: nat)
    requires a <= b
    ensures Pow2(a) <= Pow2(b)
    ensures a < b ==> 2 * Pow2(a) <= Pow2(b)
    decreases b
  {
    if a < b { Pow2Mono(a, b - 1); }
  }

  lemma HighestBitUnique(v: nat, h: nat)
    requires v > 0 && Pow2(h) <= v < Pow2(h + 1)
    ensures HighestBit(v) == h
  {
    var g := HighestBit(v);
    if g < h { Pow2Mono(g + 1, h); }
    if h < g { Pow2Mono(h + 1, g); }
  }

  lemma {:induction false} ShlAdd(a: nat, b: nat, n: nat)
    ensures Shl(a + b, n) == Shl(a, n) + Shl(b, n)
    decreases n
  {
    if n > 0 { ShlAdd(a, b, n - 1); }
  }

  lemma {:induction false} ShlMono(a: nat, b: nat, n: nat)
    ensures a <= b ==> Shl(a, n) <= Shl(b, n)
    ensures a < b ==> Shl(a, n) + Pow2(n) <= Shl(b, n)
    decreases n
  {
    if n > 0 { ShlMono(a, b, n - 1); }
  }

  lemma {:induction false} ShlShl(v: nat, m: nat, n: nat)
    ensures Shl(Shl(v, m), n) == Shl(v, m + n)
    decreases n
  {
    if n > 0 { ShlShl(v, m, n - 1); }
  }

  /** Doubling before or after the shift is the same. */
  lemma {:induction false} ShlDouble(v: nat, n: nat)
    ensures Shl(2 * v, n) == 2 * Shl(v, n)
    decreases n
  {
    if n > 0 { ShlDouble(v, n - 1); }
  }

  lemma {:induction false} ShlPow2(m: nat, n: nat)
    ensures Shl(Pow2(m), n) == Pow2(m + n)
    decreases n
  {
    if n > 0 { ShlPow2(m, n - 1); }
  }

  lemma {:induction false} ShlTimes(v: nat, n: nat)
    ensures Shl(v, n) == v * Pow2(n)
    decreases n
  {
    if n > 0 { ShlTimes(v, n - 1); }
  }

  lemma {:induction false} ShrShr(v: nat, m: nat, n: nat)
    ensures Shr(Shr(v, m), n) == Shr(v, m + n)
    decreases m
  {
    if m > 0 { ShrShr(v / 2, m - 1, n); }
  }

  /** A number is its low bits and its shifted rest. */
  lemma {:induction false} SplitBits(v: nat, n: nat)
    ensures v == LowBits(v, n) + Shl(Shr(v, n), n)
    decreases n
  {
    if n > 0 {
      SplitBits(v / 2, n - 1);
    }
  }

  /** That split is unique. */
  lemma {:induction false} SplitUnique(low: nat, high: nat, n: nat)
    requires low < Pow2(n)
    ensures LowBits(low + Shl(high, n), n) == low
    ensures Shr(low + Shl(high, n), n) == high
    decreases n
  {
    if n > 0 {
      SplitUnique(low / 2, high, n - 1);
      var v := low + Shl(high, n);
      assert v / 2 == low / 2 + Shl(high, n - 1) && v % 2 == low % 2;
    }
  }

  lemma LowBitsId(v: nat, n: nat)
    requires v < Pow2(n)
    ensures LowBits(v, n) == v && Shr(v, n) == 0
  {
    ShlZero(n);
    SplitUnique(v, 0, n);
  }

  lemma {:induction false} LowLow(v: nat, wide: nat, narrow: nat)
    requires narrow <= wide
    ensures LowBits(LowBits(v, wide), narrow) == LowBits(v, narrow)
    decreases narrow
  {
    if narrow > 0 {
      LowLow(v / 2, wide - 1, narrow - 1);
      assert LowBits(v, wide) / 2 == LowBits(v / 2, wide - 1) && LowBits(v, wide) % 2 == v % 2;
    }
  }

  /** `(v << count) & mask` keeps what stays below the mask. */
  lemma {:induction false} MaskedShift(v: nat, n: nat, count: nat)
    requires count <= n
    ensures LowBits(Shl(v, count), n) == Shl(LowBits(v, n - count), count)
    decreases count
  {
    if count > 0 {
      MaskedShift(v, n - 1, count - 1);
    }
  }

  lemma {:induction false} ShlZero(n: nat)
    ensures Shl(0, n) == 0
    decreases n
  {
    if n > 0 { ShlZero(n - 1); }
  }

  lemma Shl64Def(v: nat, n: nat)
    ensures Shl64(v, n) == LowBits(Shl(v, n), 64)
  {
  }

  /** Nothing is lost when the word is wide enough. */
  lemma Shl64Exact(v: nat, k: nat, n: nat)
    requires v < Pow2(k) && k + n <= 64
    ensures Shl64(v, n) == Shl(v, n) < Pow2(k + n)
  {
    hide *;
    Shl64Def(v, n);
    ShlBound(v, k, n);
    Pow2Mono(k + n, 64);
    LowBitsId(Shl(v, n), 64);
  }

  lemma ShrBound(v: nat, n: nat, k: nat)
    requires v < Pow2(n) && k <= n
    ensures Shr(v, k) < Pow2(n - k)
  {
    SplitBits(v, k);
    ShlPow2(n - k, k);
    ShlMono(Pow2(n - k), Shr(v, k), k);
  }

  lemma ShlBound(v: nat, n: nat, k: nat)
    requires v < Pow2(n)
    ensures Shl(v, k) + Pow2(k) <= Pow2(n + k)
  {
    ShlPow2(n, k);
    ShlMono(v, Pow2(n), k);
  }

  /** `|` of a word with bits above its own is their sum. */
  lemma {:induction false} OrDisjoint(a: nat, b: nat, n: nat)
    requires a < Pow2(n)
    ensures Or(a, Shl(b, n)) == a + Shl(b, n)
    decreases n
  {
    if a > 0 && b > 0 {
      OrDisjoint(a / 2, b, n - 1);
    } else if b == 0 {
      ShlZero(n);
    }
  }

  lemma {:induction false} OrBound(a: nat, b: nat, n: nat)
    requires a < Pow2(n) && b < Pow2(n)
    ensures Or(a, b) < Pow2(n)
    decreases n
  {
    if n > 0 {
      OrBound(a / 2, b / 2, n - 1);
    }
  }

  // ---------------------------------------------------------------- numbers as bits

  /** The low `n` bits of `v`. */
  function ToBits(v: nat, n: nat): (s: seq<bool>)
    ensures |s| == n
    decreases n, v
  {
    if n == 0 then [] else [v % 2 == 1] + ToBits(v / 2, n - 1)
  }

  function FromBits(s: seq<bool>): (v: nat)
    ensures v < Pow2(|s|)
  {
    if s == [] then 0 else (if s[0] then 1 else 0) + 2 * FromBits(s[1..])
  }

  lemma {:induction false} FromToBits(v: nat, n: nat)
    ensures FromBits(ToBits(v, n)) == LowBits(v, n)
    decreases n
  {
    if n > 0 {
      FromToBits(v / 2, n - 1);
      assert ToBits(v, n)[1..] == ToBits(v / 2, n - 1);
    }
  }

  lemma {:induction false} ToFromBits(s: seq<bool>)
    ensures ToBits(FromBits(s), |s|) == s
  {
    if s != [] {
      ToFromBits(s[1..]);
      assert FromBits(s) / 2 == FromBits(s[1..]);
      assert s == [s[0]] + s[1..];
    }
  }

  lemma {:induction false} FromBitsConcat(a: seq<bool>, b: seq<bool>)
    ensures FromBits(a + b) == FromBits(a) + Shl(FromBits(b), |a|)
  {
    if a == [] {
      assert a + b == b;
    } else {
      assert (a + b)[1..] == a[1..] + b;
      FromBitsConcat(a[1..], b);
    }
  }

  lemma {:induction false} ToBitsConcat(v: nat, n: nat, m: nat)
    ensures ToBits(v, n + m) == ToBits(v, n) + ToBits(Shr(v, n), m)
    decreases n
  {
    if n > 0 {
      ToBitsConcat(v / 2, n - 1, m);
      assert n + m - 1 == n - 1 + m;
      ConcatAssoc([v % 2 == 1], ToBits(v / 2, n - 1), ToBits(Shr(v, n), m));
    }
  }

  lemma ConcatAssoc<T>(a: seq<T>, b: seq<T>, c: seq<T>)
    ensures a + b + c == a + (b + c)
  {
  }

  /** Masking before storing changes nothing: only the low bits are kept. */
  lemma ToBitsMasked(v: nat, n: nat)
    ensures ToBits(LowBits(v, n), n) == ToBits(v, n)
  {
    FromToBits(v, n);
    ToFromBits(ToBits(v, n));
  }

  lemma FromBitsMiddle(a: seq<bool>, b: seq<bool>, c: seq<bool>)
    ensures FromBits(b) == LowBits(Shr(FromBits(a + (b + c)), |a|), |b|)
  {
    FromBitsConcat(a, b + c);
    SplitUnique(FromBits(a), FromBits(b + c), |a|);
    FromBitsConcat(b, c);
    SplitUnique(FromBits(b), FromBits(c), |b|);
  }

  /** A field of a bit sequence is a shift and a mask of its value. */
  lemma FromBitsSlice(s: seq<bool>, i: nat, j: nat)
    requires i <= j <= |s|
    ensures FromBits(s[i..j]) == LowBits(Shr(FromBits(s), i), j - i)
  {
    var a, b, c := s[..i], s[i..j], s[j..];
    assert s == a + (b + c);
    FromBitsMiddle(a, b, c);
  }

  function Zeros(n: nat): (s: seq<bool>)
    ensures |s| == n
    ensures forall i :: 0 <= i < n ==> !s[i]
  {
    seq(n, i => false)
  }

  lemma {:induction false} ToBitsZero(n: nat)
    ensures ToBits(0, n) == Zeros(n) && FromBits(Zeros(n)) == 0
  {
    if n > 0 {
      ToBitsZero(n - 1);
      assert Zeros(n)[1..] == Zeros(n - 1);
      assert Zeros(n) == [false] + Zeros(n - 1);
    }
  }

  // ---------------------------------------------------------------- bytes

  /** `to_le_bytes` cut to its first `count` bytes. */
  function LeBytes(v: nat, count: nat): (bs: seq<byte>)
    ensures |bs| == count
    decreases count, v
  {
    if count == 0 then [] else [v % 256] + LeBytes(v / 256, count - 1)
  }

  /** `from_le_bytes`. */
  function LeWord(bs: seq<byte>): nat {
    if bs == [] then 0 else bs[0] + 256 * LeWord(bs[1..])
  }

  function BytesToBits(bs: seq<byte>): (s: seq<bool>)
    ensures |s| == 8 * |bs|
  {
    if bs == [] then [] else ToBits(bs[0], 8) + BytesToBits(bs[1..])
  }

  lemma {:induction false} BytesToBitsConcat(a: seq<byte>, b: seq<byte>)
    ensures BytesToBits(a + b) == BytesToBits(a) + BytesToBits(b)
  {
    if a == [] {
      assert a + b == b;
    } else {
      assert (a + b)[1..] == a[1..] + b;
      BytesToBitsConcat(a[1..], b);
    }
  }

  lemma BytesToBitsSlice(bs: seq<byte>, i: nat, j: nat)
    requires i <= j <= |bs|
    ensures 8 * i <= 8 * j <= |BytesToBits(bs)|
    ensures BytesToBits(bs)[8 * i..8 * j] == BytesToBits(bs[i..j])
  {
    hide BytesToBits;
    var a, b, c := bs[..i], bs[i..j], bs[j..];
    assert bs == a + (b + c);
    BytesToBitsConcat(a, b + c);
    BytesToBitsConcat(b, c);
    MiddleSlice(BytesToBits(a), BytesToBits(b), BytesToBits(c));
    assert |a| == i && |b| == j - i;
    assert 8 * |a| + 8 * |b| == 8 * j;
  }

  lemma MiddleSlice<T>(a: seq<T>, b: seq<T>, c: seq<T>)
    ensures (a + (b + c))[|a|..|a| + |b|] == b
  {
  }

  lemma ShlByte(v: nat)
    ensures Shl(v, 8) == 256 * v
  {
    assert Shl(v, 4) == 2 * Shl(v, 3) && Shl(v, 3) == 2 * Shl(v, 2) && Shl(v, 2) == 2 * Shl(v, 1)
           && Shl(v, 1) == 2 * Shl(v, 0);
    ShlShl(v, 4, 4);
    var w := Shl(v, 4);
    assert Shl(w, 4) == 2 * Shl(w, 3) && Shl(w, 3) == 2 * Shl(w, 2) && Shl(w, 2) == 2 * Shl(w, 1)
           && Shl(w, 1) == 2 * Shl(w, 0);
  }

  lemma ShrNibble(v: nat)
    ensures Shr(v, 4) == v / 16
  {
    assert Shr(v, 4) == Shr(v / 2, 3) == Shr(v / 2 / 2, 2) == Shr(v / 2 / 2 / 2, 1) == Shr(v / 2 / 2 / 2 / 2, 0);
  }

  lemma ShrByte(v: nat)
    ensures Shr(v, 8) == v / 256 && LowBits(v, 8) == v % 256
  {
    hide Shl, Shr, LowBits;
    ShrNibble(v);
    ShrNibble(v / 16);
    ShrShr(v, 4, 4);
    SplitBits(v, 8);
    ShlByte(Shr(v, 8));
    assert Pow2(8) == 256;
  }

  lemma {:induction false} LeBytesBits(v: nat, count: nat)
    ensures BytesToBits(LeBytes(v, count)) == ToBits(v, 8 * count)
    decreases count
  {
    if count > 0 {
      LeBytesBits(v / 256, count - 1);
      ShrByte(v);
      ToBitsConcat(v, 8, 8 * (count - 1));
      ToBitsMasked(v, 8);
    }
  }

  lemma {:induction false} LeWordBits(bs: seq<byte>)
    ensures FromBits(BytesToBits(bs)) == LeWord(bs)
  {
    hide ToBits, LowBits, Shl, Shr;
    if bs != [] {
      LeWordBits(bs[1..]);
      FromBitsConcat(ToBits(bs[0], 8), BytesToBits(bs[1..]));
      FromToBits(bs[0], 8);
      ShrByte(bs[0]);
      ShlByte(LeWord(bs[1..]));
    }
  }
}
