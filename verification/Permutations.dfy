/** Distinct positions, and sequences that are rearrangements of each other. */
module Permutations {
  ghost predicate Distinct(w: seq<nat>) {
    forall i, j :: 0 <= i < j < |w| ==> w[i] != w[j]
  }

  ghost function Elements(w: seq<nat>): set<nat> {
    set x | x in w
  }

  ghost function Range(n: nat): (r: set<nat>)
    ensures |r| == n
    ensures forall i: nat :: i in r <==> i < n
  {
    if n == 0 then {} else Range(n - 1) + {n - 1}
  }

  lemma {:induction false} DistinctCard(w: seq<nat>)
    requires Distinct(w)
    ensures |Elements(w)| == |w|
  {
    if w == [] {
      assert Elements(w) == {};
    } else {
      var init, last := w[..|w| - 1], w[|w| - 1];
      DistinctCard(init);
      assert Elements(w) == Elements(init) + {last};
    }
  }

  /** Distinct numbers below `n` are at most `n`, and all of them when there are `n`. */
  lemma DistinctCoversRange(w: seq<nat>, n: nat)
    requires Distinct(w) && forall i :: 0 <= i < |w| ==> w[i] < n
    ensures |w| <= n
    ensures |w| == n ==> forall p: nat :: p < n ==> p in w
  {
    DistinctCard(w);
    assert Elements(w) <= Range(n);
    assert |Range(n) - Elements(w)| == |Range(n)| - |Elements(w)|;
    if |w| == n {
      assert Range(n) - Elements(w) == {};
      forall p: nat | p < n
        ensures p in w
      {
        assert p in Range(n);
      }
    }
  }

  /** Moving element `i` to position `p[i]` keeps the multiset. */
  lemma {:induction false} PermutedMultiset<T>(a: seq<T>, b: seq<T>, p: seq<nat>)
    requires |a| == |b| == |p| && Distinct(p)
    requires forall i :: 0 <= i < |p| ==> p[i] < |b| && b[p[i]] == a[i]
    ensures multiset(a) == multiset(b)
    decreases |a|
  {
    if a != [] {
      var n := |a| - 1;
      var k := p[n];
      var b' := b[..k] + b[k + 1..];
      var p' := seq(n, i requires 0 <= i < n => if p[i] < k then p[i] else p[i] - 1);
      forall i | 0 <= i < n
        ensures 0 <= p[i] < |b| && p[i] != k
      {
        assert p[i] != p[n];
      }
      forall i, j | 0 <= i < j < n
        ensures p'[i] != p'[j]
      {
        assert p[i] != p[j];
      }
      PermutedMultiset(a[..n], b', p');
      assert a == a[..n] + [a[n]];
      assert b == b[..k] + [b[k]] + b[k + 1..];
    }
  }

  // ---------------------------------------------------------------- sums over a sequence

  function SumOver<T>(s: seq<T>, f: T -> nat): nat {
    if s == [] then 0 else SumOver(s[..|s| - 1], f) + f(s[|s| - 1])
  }

  lemma {:induction false} SumOverConcat<T>(a: seq<T>, b: seq<T>, f: T -> nat)
    ensures SumOver(a + b, f) == SumOver(a, f) + SumOver(b, f)
  {
    if b == [] {
      assert a + b == a;
    } else {
      SumOverConcat(a, b[..|b| - 1], f);
      assert (a + b)[..|a + b| - 1] == a + b[..|b| - 1];
    }
  }

  lemma RemoveOne<T>(a: seq<T>, b: seq<T>, l: seq<T>, r: seq<T>)
    requires a != [] && multiset(a) == multiset(b) && b == l + ([a[|a| - 1]] + r)
    ensures multiset(a[..|a| - 1]) == multiset(l + r)
  {
    var x := a[|a| - 1];
    assert a == a[..|a| - 1] + [x];
    var before, after := multiset(a[..|a| - 1]), multiset(l) + multiset(r);
    assert multiset(a) == before + multiset{x};
    assert multiset([x] + r) == multiset{x} + multiset(r);
    assert multiset(b) == multiset(l) + multiset([x] + r);
    assert multiset(b) == after + multiset{x};
    assert before == multiset(a) - multiset{x} && after == multiset(b) - multiset{x};
  }

  /** A sum does not depend on the order of its terms. */
  lemma {:induction false} SumOverRearranged<T>(a: seq<T>, b: seq<T>, f: T -> nat)
    requires multiset(a) == multiset(b)
    ensures SumOver(a, f) == SumOver(b, f)
    decreases |a|
  {
    hide SumOver;
    if a == [] {
      assert |multiset(b)| == 0;
      assert b == [];
    } else {
      var x := a[|a| - 1];
      assert a == a[..|a| - 1] + [x];
      assert x in multiset(a);
      assert x in b;
      var k :| 0 <= k < |b| && b[k] == x;
      var l, r := b[..k], b[k + 1..];
      assert b == l + ([x] + r);
      RemoveOne(a, b, l, r);
      SumOverRearranged(a[..|a| - 1], l + r, f);
      SumOverConcat(a[..|a| - 1], [x], f);
      SumOverConcat(l, [x] + r, f);
      SumOverConcat([x], r, f);
      SumOverConcat(l, r, f);
    }
  }
}
