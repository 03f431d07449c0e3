/** Common prefixes of two suffixes of one text and the order of suffixes by their first
    differing byte. Suffixes whose difference lies past the text's end are not ordered. */
module SuffixOrder {
  import opened Bits

  /** The number of bytes the suffixes at `a` and `b` have in common. */
  function Lcp(text: seq<byte>, a: nat, b: nat): (n: nat)
    decreases |text| - a
  {
    if a < |text| && b < |text| && text[a] == text[b] then 1 + Lcp(text, a + 1, b + 1) else 0
  }

  lemma {:induction false} LcpEqual(text: seq<byte>, a: nat, b: nat, k: nat)
    requires k < Lcp(text, a, b)
    ensures a + k < |text| && b + k < |text| && text[a + k] == text[b + k]
    decreases k
  {
    if k > 0 { LcpEqual(text, a + 1, b + 1, k - 1); }
  }

  lemma {:induction false} LcpEnds(text: seq<byte>, a: nat, b: nat)
    ensures var n := Lcp(text, a, b);
            a + n >= |text| || b + n >= |text| || text[a + n] != text[b + n]
    ensures a <= |text| ==> a + Lcp(text, a, b) <= |text|
    decreases |text| - a
  {
    if a < |text| && b < |text| && text[a] == text[b] { LcpEnds(text, a + 1, b + 1); }
  }

  predicate Same(text: seq<byte>, a: nat, b: nat, k: nat) {
    a + k < |text| && b + k < |text| && text[a + k] == text[b + k]
  }

  /** A common prefix of at least `n` bytes. */
  ghost predicate Agree(text: seq<byte>, a: nat, b: nat, n: nat) {
    forall k: nat :: k < n ==> Same(text, a, b, k)
  }

  lemma LcpAgree(text: seq<byte>, a: nat, b: nat, n: nat)
    ensures n <= Lcp(text, a, b) <==> Agree(text, a, b, n)
  {
    hide Lcp;
    if n <= Lcp(text, a, b) {
      forall k: nat | k < n
        ensures Same(text, a, b, k)
      {
        LcpEqual(text, a, b, k);
      }
    } else {
      LcpEnds(text, a, b);
      assert !Same(text, a, b, Lcp(text, a, b));
    }
  }

  lemma {:induction false} LcpSymmetric(text: seq<byte>, a: nat, b: nat)
    ensures Lcp(text, a, b) == Lcp(text, b, a)
    decreases |text| - a
  {
    if Same(text, a, b, 0) { LcpSymmetric(text, a + 1, b + 1); }
  }

  /** Known common bytes can be skipped. */
  lemma {:induction false} LcpSkip(text: seq<byte>, a: nat, b: nat, n: nat)
    requires n <= Lcp(text, a, b)
    ensures Lcp(text, a, b) == n + Lcp(text, a + n, b + n)
    decreases n
  {
    if n > 0 { LcpSkip(text, a + 1, b + 1, n - 1); }
  }

  // ---------------------------------------------------------------- the order

  /** The suffix at `a` comes before the one at `b`: smaller at the first byte that differs. */
  ghost predicate Before(text: seq<byte>, a: nat, b: nat) {
    var n := Lcp(text, a, b);
    a + n < |text| && b + n < |text| && text[a + n] < text[b + n]
  }

  /** The same with the common length as a witness. */
  lemma BeforeAt(text: seq<byte>, a: nat, b: nat, n: nat)
    requires Agree(text, a, b, n)
    requires a + n < |text| && b + n < |text| && text[a + n] < text[b + n]
    ensures Lcp(text, a, b) == n && Before(text, a, b)
  {
    hide Lcp;
    LcpAgree(text, a, b, n);
    LcpAgree(text, a, b, n + 1);
    assert !Same(text, a, b, n);
  }

  lemma BeforeWitness(text: seq<byte>, a: nat, b: nat)
    requires Before(text, a, b)
    ensures var n := Lcp(text, a, b);
            a + n < |text| && b + n < |text| && text[a + n] < text[b + n] && Agree(text, a, b, n)
  {
    hide Lcp;
    LcpAgree(text, a, b, Lcp(text, a, b));
  }

  lemma BeforeTransitive(text: seq<byte>, a: nat, b: nat, c: nat)
    requires Before(text, a, b) && Before(text, b, c)
    ensures Before(text, a, c)
  {
    hide Lcp, Before;
    BeforeWitness(text, a, b);
    BeforeWitness(text, b, c);
    var n := Min(Lcp(text, a, b), Lcp(text, b, c));
    forall k: nat | k < n
      ensures Same(text, a, c, k)
    {
      assert Same(text, a, b, k) && Same(text, b, c, k);
    }
    assert n < Lcp(text, a, b) ==> Same(text, a, b, n);
    assert n < Lcp(text, b, c) ==> Same(text, b, c, n);
    BeforeAt(text, a, c, n);
  }

  /** A suffix between two others shares with a fourth at least what both of them share with it. */
  lemma Sandwich(text: seq<byte>, low: nat, middle: nat, high: nat, fourth: nat, n: nat)
    requires Before(text, low, middle) && Before(text, middle, high)
    requires n <= Lcp(text, fourth, low) && n <= Lcp(text, fourth, high)
    ensures n <= Lcp(text, fourth, middle)
  {
    hide Lcp, Before;
    LcpAgree(text, fourth, low, n);
    LcpAgree(text, fourth, high, n);
    forall k: nat | k < n
      ensures Same(text, low, high, k)
    {
      assert Same(text, fourth, low, k) && Same(text, fourth, high, k);
    }
    InBetween(text, low, middle, high, n);
    LcpAgree(text, low, middle, n);
    forall k: nat | k < n
      ensures Same(text, fourth, middle, k)
    {
      assert Same(text, fourth, low, k) && Same(text, low, middle, k);
    }
    LcpAgree(text, fourth, middle, n);
  }

  /** What two suffixes share, every suffix between them shares. */
  lemma InBetween(text: seq<byte>, low: nat, middle: nat, high: nat, n: nat)
    requires Before(text, low, middle) && Before(text, middle, high) && Agree(text, low, high, n)
    ensures n <= Lcp(text, low, middle)
  {
    hide Lcp, Before;
    BeforeWitness(text, low, middle);
    BeforeWitness(text, middle, high);
    var k, m := Lcp(text, low, middle), Lcp(text, middle, high);
    assert k < n ==> Same(text, low, high, k);
    assert m < n ==> Same(text, low, high, m);
    assert m < k ==> Same(text, low, middle, m);
    assert k < m ==> Same(text, middle, high, k);
  }

  /** A longer text changes neither the order nor the lengths that decided it. */
  lemma BeforeGrows(text: seq<byte>, more: seq<byte>, a: nat, b: nat)
    requires Before(text, a, b)
    ensures Before(text + more, a, b)
  {
    hide Lcp, Before;
    BeforeWitness(text, a, b);
    var n := Lcp(text, a, b);
    forall k: nat | k < n
      ensures Same(text + more, a, b, k)
    {
      assert Same(text, a, b, k);
    }
    BeforeAt(text + more, a, b, n);
  }
}
