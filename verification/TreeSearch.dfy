/** What a walk through one of the matcher's trees meets, what it may pass by, and what it leaves
    in the trees: the longest match hangs where the walk goes, and nothing is lost but what hangs
    below the node where the walk is cut off. */
module TreeSearch {
  import opened Bits
  import opened SuffixOrder
  import opened SearchForest

  // ---------------------------------------------------------------- what hangs in a tree

  ghost predicate Roomy(w: Window, tree: seq<nat>) {
    w.size > 1 && w.lowest > 0 && 2 * w.size <= |tree|
  }

  /** Node `m` hangs below `from`, along child slots of live nodes that are not being rewritten. */
  ghost predicate Hangs(w: Window, tree: seq<nat>, newest: nat, holes: set<nat>, from: nat, m: nat)
    requires Roomy(w, tree)
    decreases from, 1
  {
    m >= w.lowest && (m == from || HangsOn(w, tree, newest, holes, from, true, m)
                      || HangsOn(w, tree, newest, holes, from, false, m))
  }

  /** On one side of it. */
  ghost predicate HangsOn(w: Window, tree: seq<nat>, newest: nat, holes: set<nat>, from: nat, up: bool, m: nat)
    requires Roomy(w, tree)
    decreases from, 0
  {
    && Live(w, from, newest) && SlotOf(w, from, up) !in holes && tree[SlotOf(w, from, up)] < from
    && Hangs(w, tree, newest, holes, tree[SlotOf(w, from, up)], m)
  }

  lemma OnSide(w: Window, tree: seq<nat>, newest: nat, holes: set<nat>, from: nat, up: bool, m: nat)
    requires Roomy(w, tree)
    ensures SlotOf(w, from, up) < |tree|
    ensures HangsOn(w, tree, newest, holes, from, up, m)
       <==> && Live(w, from, newest) && SlotOf(w, from, up) !in holes && tree[SlotOf(w, from, up)] < from
            && Hangs(w, tree, newest, holes, tree[SlotOf(w, from, up)], m)
  {
    hide Hangs, Slot;
  }

  lemma {:induction false} HangsBelow(w: Window, tree: seq<nat>, newest: nat, holes: set<nat>, from: nat, m: nat)
    requires Roomy(w, tree) && Hangs(w, tree, newest, holes, from, m)
    ensures w.lowest <= m <= from
    decreases from
  {
    hide Roomy, Slot, HangsOn;
    if m != from {
      var up :| HangsOn(w, tree, newest, holes, from, up, m);
      OnSide(w, tree, newest, holes, from, up, m);
      HangsBelow(w, tree, newest, holes, tree[SlotOf(w, from, up)], m);
    }
  }

  lemma {:induction false} HangsTransitive(w: Window, tree: seq<nat>, newest: nat, holes: set<nat>, a: nat, b: nat,
                                           c: nat)
    requires Roomy(w, tree) && Hangs(w, tree, newest, holes, a, b) && Hangs(w, tree, newest, holes, b, c)
    ensures Hangs(w, tree, newest, holes, a, c)
    decreases a
  {
    hide Roomy, Slot, HangsOn;
    if a != b {
      var up :| HangsOn(w, tree, newest, holes, a, up, b);
      OnSide(w, tree, newest, holes, a, up, b);
      HangsTransitive(w, tree, newest, holes, tree[SlotOf(w, a, up)], b, c);
      HangsBelow(w, tree, newest, holes, b, c);
      OnSide(w, tree, newest, holes, a, up, c);
    }
  }

  // ---------------------------------------------------------------- what a walk passes by

  /** What hangs on one side of a node lies on that side of it in the order of suffixes. */
  lemma {:induction false} HangsBeyond(w: Window, tree: seq<nat>, nodes: map<nat, Node>, before: nat, newest: nat,
                                       x: nat, up: bool, d: nat, m: nat)
    requires Forest(w, tree, nodes, before, {}) && before <= newest && Roomy(w, tree) && x != 0
    requires d in nodes && d >= w.lowest && Tight(w, up, Bound(nodes[d], up), x)
    requires Hangs(w, tree, newest, {}, d, m)
    ensures m in nodes && Dir(w, up, x, m)
    decreases d
  {
    hide Dir, Slot, Tight, ChildOk, Hangs, HangsOn;
    TightNotNone(w, up, Bound(nodes[d], up), x);
    if m == d {
      TightBeyond(w, up, Bound(nodes[d], up), x, d);
    } else {
      HangsCases(w, tree, newest, {}, d, m);
      var side :| HangsOn(w, tree, newest, {}, d, side, m);
      OnSide(w, tree, newest, {}, d, side, m);
      var e := tree[SlotOf(w, d, side)];
      HangsBelow(w, tree, newest, {}, e, m);
      assert Live(w, d, before);
      assert ChildOk(w, nodes, d, side, e, SlotOf(w, d, side));
      ChildParts(w, nodes, d, side, e, SlotOf(w, d, side));
      NodeTight(w, nodes[d], d, up);
      if side == up {
        TightTransitive(w, up, d, Bound(nodes[d], up), x);
        TightTransitive(w, up, Bound(nodes[e], up), d, x);
      } else {
        TightTransitive(w, up, Bound(nodes[e], up), Bound(nodes[d], up), x);
      }
      HangsBeyond(w, tree, nodes, before, newest, x, up, e, m);
    }
  }

  lemma TightNotNone(w: Window, up: bool, a: nat, b: nat)
    requires Tight(w, up, a, b) && b != 0
    ensures a != 0
  {
  }

  lemma ChildParts(w: Window, nodes: map<nat, Node>, i: nat, up: bool, c: nat, slot: nat)
    requires i in nodes && ChildOk(w, nodes, i, up, c, slot) && c >= w.lowest
    ensures c in nodes && c < i && nodes[c].at == slot
    ensures Tight(w, up, Bound(nodes[c], up), i) && Tight(w, !up, Bound(nodes[c], !up), Bound(nodes[i], !up))
  {
    hide Tight;
  }

  /** A node is at least as close a bound as its own. */
  lemma NodeTight(w: Window, node: Node, i: nat, up: bool)
    requires NodeOk(w, node, i) && i != 0
    ensures Tight(w, up, i, Bound(node, up))
  {
    hide Dir;
  }

  /** Suffixes on the far side of a node have no more in common with the new one than the node. */
  lemma OuterShorter(w: Window, up: bool, x: nat, m: nat, newest: nat)
    requires Dir(w, up, x, newest) && Dir(w, !up, x, m)
    ensures Lcp(w.text, Pos(w, newest), Pos(w, m)) <= Lcp(w.text, Pos(w, newest), Pos(w, x))
  {
    hide Lcp, Before, Pos;
    var a, b, c := Pos(w, m), Pos(w, x), Pos(w, newest);
    var n := Lcp(w.text, c, a);
    LcpAgree(w.text, c, a, n);
    AgreeSymmetric(w.text, c, a, n);
    if up {
      InBetween(w.text, a, b, c, n);
      LcpAgree(w.text, a, b, n);
    } else {
      InBetween(w.text, c, b, a, n);
      LcpSymmetric(w.text, c, b);
      LcpAgree(w.text, b, c, n);
      AgreeSymmetric(w.text, b, c, n);
      LcpAgree(w.text, c, b, n);
      return;
    }
    AgreeChains(w.text, c, a, b, n);
    LcpAgree(w.text, c, b, n);
  }

  lemma AgreeSymmetric(text: seq<byte>, a: nat, b: nat, n: nat)
    requires Agree(text, a, b, n)
    ensures Agree(text, b, a, n)
  {
    forall k: nat | k < n
      ensures Same(text, b, a, k)
    {
      assert Same(text, a, b, k);
    }
  }

  lemma AgreeChains(text: seq<byte>, a: nat, b: nat, c: nat, n: nat)
    requires Agree(text, a, b, n) && Agree(text, b, c, n)
    ensures Agree(text, a, c, n)
  {
    forall k: nat | k < n
      ensures Same(text, a, c, k)
    {
      assert Same(text, a, b, k) && Same(text, b, c, k);
    }
  }

  /** Every node that hung below the root and has more than `best` bytes in common with the new one
      hangs below the node to compare next. */
  ghost predicate Covered(w: Window, tree: seq<nat>, newest: nat, root: nat, next: nat, best: nat)
    requires Roomy(w, tree)
  {
    forall m: nat ::
      Hangs(w, tree, newest, {}, root, m) ==>
        Lcp(w.text, Pos(w, newest), Pos(w, m)) <= best || Hangs(w, tree, newest, {}, next, m)
  }

  /** Below a node: the node itself, what hangs on the inner side, and what hangs on the outer. */
  lemma InnerOrShorter(w: Window, tree: seq<nat>, nodes: map<nat, Node>, before: nat, newest: nat, x: nat, up: bool,
                       m: nat)
    requires Forest(w, tree, nodes, before, {}) && before <= newest && Roomy(w, tree)
    requires x in nodes && x >= w.lowest && Dir(w, up, x, newest) && Hangs(w, tree, newest, {}, x, m)
    ensures Lcp(w.text, Pos(w, newest), Pos(w, m)) <= Lcp(w.text, Pos(w, newest), Pos(w, x))
            || HangsOn(w, tree, newest, {}, x, up, m)
  {
    hide Dir, Slot, Tight, ChildOk, Lcp, Hangs, HangsOn;
    HangsCases(w, tree, newest, {}, x, m);
    OnSide(w, tree, newest, {}, x, !up, m);
    if HangsOn(w, tree, newest, {}, x, !up, m) {
      var c := tree[SlotOf(w, x, !up)];
      HangsBelow(w, tree, newest, {}, c, m);
      assert Live(w, x, before);
      assert ChildOk(w, nodes, x, !up, c, SlotOf(w, x, !up));
      ChildParts(w, nodes, x, !up, c, SlotOf(w, x, !up));
      HangsBeyond(w, tree, nodes, before, newest, x, !up, c, m);
      OuterShorter(w, up, x, m, newest);
    }
  }

  lemma HangsCases(w: Window, tree: seq<nat>, newest: nat, holes: set<nat>, from: nat, m: nat)
    requires Roomy(w, tree)
    ensures Hangs(w, tree, newest, holes, from, m)
       <==> m >= w.lowest && (m == from || HangsOn(w, tree, newest, holes, from, true, m)
                              || HangsOn(w, tree, newest, holes, from, false, m))
  {
    hide HangsOn;
  }

  lemma {:induction false} HangsNode(w: Window, tree: seq<nat>, nodes: map<nat, Node>, before: nat, newest: nat, d: nat,
                                     m: nat)
    requires Forest(w, tree, nodes, before, {}) && before <= newest && Roomy(w, tree)
    requires d in nodes && d >= w.lowest && Hangs(w, tree, newest, {}, d, m)
    ensures m in nodes
    decreases d
  {
    hide Dir, Slot, Tight, ChildOk, Hangs, HangsOn, NodeOk;
    HangsCases(w, tree, newest, {}, d, m);
    if m != d {
      var side :| HangsOn(w, tree, newest, {}, d, side, m);
      OnSide(w, tree, newest, {}, d, side, m);
      var e := tree[SlotOf(w, d, side)];
      HangsBelow(w, tree, newest, {}, e, m);
      assert Live(w, d, before);
      assert ChildOk(w, nodes, d, side, e, SlotOf(w, d, side));
      ChildParts(w, nodes, d, side, e, SlotOf(w, d, side));
      HangsNode(w, tree, nodes, before, newest, e, m);
    }
  }

  /** Going on to the inner child covers as much. */
  lemma CoveredOn(w: Window, tree: seq<nat>, nodes: map<nat, Node>, before: nat, newest: nat, root: nat, x: nat,
                  up: bool, best: nat)
    requires Forest(w, tree, nodes, before, {}) && before <= newest && Roomy(w, tree)
    requires x in nodes && x >= w.lowest && Dir(w, up, x, newest)
    requires Covered(w, tree, newest, root, x, best) && Lcp(w.text, Pos(w, newest), Pos(w, x)) <= best
    ensures Covered(w, tree, newest, root, if Live(w, x, newest) then tree[SlotOf(w, x, up)] else 0, best)
  {
    hide Dir, Slot, Lcp, Hangs, HangsOn, Forest;
    var next := if Live(w, x, newest) then tree[SlotOf(w, x, up)] else 0;
    forall m: nat | Hangs(w, tree, newest, {}, root, m)
      ensures Lcp(w.text, Pos(w, newest), Pos(w, m)) <= best || Hangs(w, tree, newest, {}, next, m)
    {
      if Hangs(w, tree, newest, {}, x, m) {
        InnerOrShorter(w, tree, nodes, before, newest, x, up, m);
        OnSide(w, tree, newest, {}, x, up, m);
      }
    }
  }

  lemma CoveredMore(w: Window, tree: seq<nat>, newest: nat, root: nat, next: nat, best: nat, more: nat)
    requires Roomy(w, tree) && Covered(w, tree, newest, root, next, best) && best <= more
    ensures Covered(w, tree, newest, root, next, more)
  {
    hide Lcp, Hangs;
  }

  // ---------------------------------------------------------------- what a walk keeps

  /** Slots that were not being rewritten are as they were, and still are not. */
  ghost predicate SlotsKept(w: Window, tree: seq<nat>, holes: set<nat>, tree': seq<nat>, holes': set<nat>, newest: nat,
                            limit: nat, except: nat)
    requires Roomy(w, tree) && Roomy(w, tree')
  {
    forall i: nat, side ::
      i <= limit && i != except && Live(w, i, newest) && SlotOf(w, i, side) !in holes ==>
        SlotOf(w, i, side) !in holes' && tree'[SlotOf(w, i, side)] == tree[SlotOf(w, i, side)]
  }

  /** So whatever hangs below a node, but not through the excepted one, still does. */
  lemma {:induction false} HangsKept(w: Window, tree: seq<nat>, holes: set<nat>, tree': seq<nat>, holes': set<nat>,
                                     newest: nat, limit: nat, except: nat, from: nat, m: nat)
    requires Roomy(w, tree) && Roomy(w, tree') && SlotsKept(w, tree, holes, tree', holes', newest, limit, except)
    requires from <= limit && !Hangs(w, tree, newest, holes, from, except) && Hangs(w, tree, newest, holes, from, m)
    ensures Hangs(w, tree', newest, holes', from, m)
    decreases from
  {
    hide Roomy, Slot, HangsOn, Hangs;
    HangsCases(w, tree, newest, holes, from, m);
    HangsCases(w, tree', newest, holes', from, m);
    if m != from {
      var up :| HangsOn(w, tree, newest, holes, from, up, m);
      OnSide(w, tree, newest, holes, from, up, m);
      OnSide(w, tree', newest, holes', from, up, m);
      OnSide(w, tree, newest, holes, from, up, except);
      HangsCases(w, tree, newest, holes, from, except);
      HangsCases(w, tree, newest, holes, tree[SlotOf(w, from, up)], except);
      HangsKept(w, tree, holes, tree', holes', newest, limit, except, tree[SlotOf(w, from, up)], m);
    }
  }

  /** Only a waiting slot or the replaced root points to the next node. */
  lemma {:induction false} NextNotHung(w: Window, tree: seq<nat>, hash: seq<nat>, nodes: map<nat, Node>, k: Walk,
                                       from: nat)
    requires Walking(w, tree, hash, nodes, k) && Roomy(w, tree) && k.next >= w.lowest && from != k.next
    requires from >= w.lowest ==> from in nodes
    ensures !Hangs(w, tree, k.newest, {k.lowSlot, k.highSlot}, from, k.next)
    decreases from
  {
    hide Dir, Slot, Tight, Hangs, HangsOn, NodeOk, Roots, SideOk;
    var holes := {k.lowSlot, k.highSlot};
    if Hangs(w, tree, k.newest, holes, from, k.next) {
      HangsCases(w, tree, k.newest, holes, from, k.next);
      var up :| HangsOn(w, tree, k.newest, holes, from, up, k.next);
      OnSide(w, tree, k.newest, holes, from, up, k.next);
      var c := tree[SlotOf(w, from, up)];
      HangsBelow(w, tree, k.newest, holes, c, k.next);
      assert ChildOk(w, nodes, from, up, c, SlotOf(w, from, up));
      if c != k.next {
        NextNotHung(w, tree, hash, nodes, k, c);
      }
    }
  }

  /** Since the walk began: the other trees are whole, and of its own tree what does not hang below the
      new node hangs below the one to compare next, whose slots are as they were. */
  ghost predicate Keeping(w: Window, tree0: seq<nat>, hash0: seq<nat>, tree: seq<nat>, k: Walk)
    requires Roomy(w, tree0) && Roomy(w, tree) && k.bucket < |hash0|
  {
    && SlotsKept(w, tree0, {}, tree, {k.lowSlot, k.highSlot}, k.newest, k.next, k.newest)
    && (forall h, m: nat ::
          0 <= h < |hash0| && h != k.bucket && Hangs(w, tree0, k.newest, {}, hash0[h], m) ==>
            Hangs(w, tree, k.newest, {k.lowSlot, k.highSlot}, hash0[h], m))
    && (forall m: nat ::
          Hangs(w, tree0, k.newest, {}, hash0[k.bucket], m) ==>
            || Hangs(w, tree, k.newest, {k.lowSlot, k.highSlot}, k.newest, m)
            || Hangs(w, tree0, k.newest, {}, k.next, m))
    && (forall up ::
          Last(k, up) != 0 ==> Hangs(w, tree, k.newest, {k.lowSlot, k.highSlot}, k.newest, Last(k, up)))
  }

  lemma KeepingStarts(w: Window, tree: seq<nat>, hash: seq<nat>, nodes: map<nat, Node>, before: nat, k: Walk)
    requires Forest(w, tree, nodes, before, {}) && Roots(w, hash, nodes) && Roomy(w, tree)
    requires before < k.newest && k.newest >= w.lowest && k.bucket < |hash| && k.next == hash[k.bucket]
    requires k.low == 0 && k.high == 0 && k.lowSlot == Slot(w, k.newest) && k.highSlot == Slot(w, k.newest) + 1
    ensures Keeping(w, tree, hash, tree, k)
  {
    hide Dir, Slot, Hangs, HangsOn, NodeOk, ChildOk;
    var holes := {k.lowSlot, k.highSlot};
    forall i: nat, side | i <= before && Live(w, i, k.newest)
      ensures SlotOf(w, i, side) !in holes
    {
      SlotsApart(w, i, side, k.newest, true, k.newest);
      SlotsApart(w, i, side, k.newest, false, k.newest);
    }
    assert SlotsKept(w, tree, {}, tree, holes, k.newest, before, k.newest);
    forall h, m: nat | 0 <= h < |hash| && h != k.bucket && Hangs(w, tree, k.newest, {}, hash[h], m)
      ensures Hangs(w, tree, k.newest, holes, hash[h], m)
    {
      HangsBelow(w, tree, k.newest, {}, hash[h], m);
      NotAbove(w, tree, k.newest, {}, hash[h], k.newest);
      HangsKept(w, tree, {}, tree, holes, k.newest, before, k.newest, hash[h], m);
    }
    if k.next >= w.lowest {
      assert k.next <= before;
    } else {
      assert forall i: nat :: i <= k.next ==> !Live(w, i, k.newest);
    }
  }

  lemma NotAbove(w: Window, tree: seq<nat>, newest: nat, holes: set<nat>, from: nat, m: nat)
    requires Roomy(w, tree) && from < m
    ensures !Hangs(w, tree, newest, holes, from, m)
  {
    hide Hangs;
    if Hangs(w, tree, newest, holes, from, m) {
      HangsBelow(w, tree, newest, holes, from, m);
    }
  }

  /** The waiting slot's owner hangs below the new node, and so does what is put there. */
  lemma HoleFilled(w: Window, nodes: map<nat, Node>, k: Walk, up: bool, tree: seq<nat>, tree': seq<nat>,
                   holes': set<nat>)
    requires Roomy(w, tree) && Roomy(w, tree') && SideOk(w, nodes, k, up) && SideOk(w, nodes, k, !up)
    requires k.newest >= w.lowest && w.lowest <= k.next < k.newest && (Last(k, up) != 0 ==> k.next < Last(k, up))
    requires Last(k, up) != 0 ==> Hangs(w, tree', k.newest, holes', k.newest, Last(k, up))
    requires Hole(k, up) < |tree'| && tree'[Hole(k, up)] == k.next && Hole(k, up) !in holes'
    ensures Hangs(w, tree', k.newest, holes', k.newest, k.next)
  {
    hide Dir, Slot, Hangs, HangsOn, SideOk;
    var owner, side := HoleOwner(w, nodes, k, up);
    HangsCases(w, tree', k.newest, holes', k.newest, k.newest);
    HangsCases(w, tree', k.newest, holes', k.next, k.next);
    OnSide(w, tree', k.newest, holes', owner, side, k.next);
    HangsCases(w, tree', k.newest, holes', owner, k.next);
    assert side == true || side == false;
    HangsTransitive(w, tree', k.newest, holes', k.newest, owner, k.next);
  }

  /** The two waiting slots differ. */
  lemma HolesApart(w: Window, nodes: map<nat, Node>, k: Walk)
    requires w.size > 1 && k.newest >= w.lowest && SideOk(w, nodes, k, true) && SideOk(w, nodes, k, false)
    ensures k.lowSlot != k.highSlot
  {
    hide Dir, Slot;
    var a, aSide := HoleOwner(w, nodes, k, true);
    var b, bSide := HoleOwner(w, nodes, k, false);
    SlotsApart(w, a, aSide, b, bSide, k.newest);
    SidesApart(w, nodes, k);
  }

  /** The last nodes met on the two sides are not the same. */
  lemma SidesApart(w: Window, nodes: map<nat, Node>, k: Walk)
    requires w.size > 1 && SideOk(w, nodes, k, true) && SideOk(w, nodes, k, false)
    ensures k.low == k.high ==> k.low == 0
  {
    hide Slot;
    if k.low == k.high && k.low != 0 {
      BeforeOneWay(w.text, Pos(w, k.low), Pos(w, k.newest));
    }
  }

  lemma BeforeOneWay(text: seq<byte>, a: nat, b: nat)
    ensures !(Before(text, a, b) && Before(text, b, a))
  {
    if Before(text, a, b) && Before(text, b, a) {
      LcpSymmetric(text, a, b);
    }
  }

  /** After the next node has been put in the waiting slot, and its inner slot waits instead unless it
      may be in use again: nothing that hung below another node is lost. */
  lemma LinkKeeps(w: Window, tree: seq<nat>, hash: seq<nat>, nodes: map<nat, Node>, k: Walk, up: bool, tree': seq<nat>,
                  holes': set<nat>, from: nat, m: nat)
    requires Walking(w, tree, hash, nodes, k) && Roomy(w, tree) && k.next >= w.lowest && Hole(k, up) < |tree|
    requires tree' == tree[Hole(k, up) := k.next]
    requires holes' == if Live(w, k.next, k.newest) then {SlotOf(w, k.next, up), Hole(k, !up)} else {Hole(k, !up)}
    requires from <= k.newest && from != k.next && (from >= w.lowest ==> from in nodes)
    requires Hangs(w, tree, k.newest, {k.lowSlot, k.highSlot}, from, m)
    ensures Hangs(w, tree', k.newest, holes', from, m)
  {
    hide Dir, Slot, Hangs, HangsOn, Forest, Roots, SideOk, NodeOk, Tight;
    NextNotHung(w, tree, hash, nodes, k, from);
    forall i: nat, side |
      i <= k.newest && i != k.next && Live(w, i, k.newest) && SlotOf(w, i, side) !in {k.lowSlot, k.highSlot}
      ensures SlotOf(w, i, side) !in holes' && tree'[SlotOf(w, i, side)] == tree[SlotOf(w, i, side)]
    {
      if Live(w, k.next, k.newest) {
        SlotsApart(w, i, side, k.next, up, k.newest);
      }
      OnSide(w, tree, k.newest, {}, i, side, 0);
    }
    assert SlotsKept(w, tree, {k.lowSlot, k.highSlot}, tree', holes', k.newest, k.newest, k.next);
    HangsKept(w, tree, {k.lowSlot, k.highSlot}, tree', holes', k.newest, k.newest, k.next, from, m);
  }

  lemma KeepingParts(w: Window, tree0: seq<nat>, hash0: seq<nat>, tree: seq<nat>, k: Walk, m: nat)
    requires Roomy(w, tree0) && Roomy(w, tree) && k.bucket < |hash0| && Keeping(w, tree0, hash0, tree, k)
    requires Hangs(w, tree0, k.newest, {}, hash0[k.bucket], m)
    ensures Hangs(w, tree, k.newest, {k.lowSlot, k.highSlot}, k.newest, m) || Hangs(w, tree0, k.newest, {}, k.next, m)
  {
    hide Hangs, SlotsKept;
  }

  /** Facts about the walk that its steps rely on. */
  lemma WalkFacts(w: Window, tree: seq<nat>, hash: seq<nat>, nodes: map<nat, Node>, k: Walk)
    requires Walking(w, tree, hash, nodes, k) && k.next >= w.lowest
    ensures Roomy(w, tree) && k.newest >= w.lowest && k.next in nodes && k.next < k.newest && k.newest in nodes
    ensures forall up :: SideOk(w, nodes, k, up) && (Last(k, up) != 0 ==> k.next < Last(k, up))
    ensures k.lowSlot < |tree| && k.highSlot < |tree| && k.lowSlot != k.highSlot
    ensures |hash| > k.bucket && hash[k.bucket] == k.newest && Roots(w, hash, nodes)
    ensures forall up :: Live(w, k.next, k.newest) ==> SlotOf(w, k.next, up) !in {k.lowSlot, k.highSlot}
  {
    hide Dir, Slot, Tight, NodeOk, Roots, ChildOk;
    ForestShape(w, tree, nodes, k.newest, {k.lowSlot, k.highSlot});
    var owner, side := HoleOwner(w, nodes, k, true);
    owner, side := HoleOwner(w, nodes, k, false);
    assert SideOk(w, nodes, k, true) && SideOk(w, nodes, k, false);
    HolesApart(w, nodes, k);
    forall up | Live(w, k.next, k.newest)
      ensures SlotOf(w, k.next, up) !in {k.lowSlot, k.highSlot}
    {
      NextIsApart(w, nodes, k, up, true);
      NextIsApart(w, nodes, k, up, false);
    }
  }

  /** What hangs on the outer side of the next node keeps hanging there. */
  lemma OuterKept(w: Window, tree0: seq<nat>, tree': seq<nat>, holes': set<nat>, k: Walk, up: bool, m: nat)
    requires Roomy(w, tree0) && Roomy(w, tree') && HangsOn(w, tree0, k.newest, {}, k.next, !up, m)
    requires SlotOf(w, k.next, !up) !in holes' && tree'[SlotOf(w, k.next, !up)] == tree0[SlotOf(w, k.next, !up)]
    requires k.next > 0 && SlotsKept(w, tree0, {}, tree', holes', k.newest, k.next - 1, k.newest) && k.next < k.newest
    ensures Hangs(w, tree', k.newest, holes', k.next, m)
  {
    hide Slot, Hangs, HangsOn, SlotsKept;
    var c := tree0[SlotOf(w, k.next, !up)];
    OnSide(w, tree0, k.newest, {}, k.next, !up, m);
    OnSide(w, tree', k.newest, holes', k.next, !up, m);
    NotAbove(w, tree0, k.newest, {}, c, k.newest);
    HangsBelow(w, tree0, k.newest, {}, c, m);
    HangsKept(w, tree0, {}, tree', holes', k.newest, k.next - 1, k.newest, c, m);
    HangsCases(w, tree', k.newest, holes', k.next, m);
    assert up == true || up == false;
  }

  /** Slots of nodes below the next one are not touched by a step. */
  lemma LowerSlotsKept(w: Window, nodes: map<nat, Node>, tree0: seq<nat>, tree: seq<nat>, k: Walk, up: bool,
                       tree': seq<nat>, holes': set<nat>)
    requires Roomy(w, tree0) && Roomy(w, tree) && w.lowest <= k.next < k.newest && Hole(k, up) < |tree|
    requires SlotsKept(w, tree0, {}, tree, {k.lowSlot, k.highSlot}, k.newest, k.next, k.newest)
    requires tree' == tree[Hole(k, up) := k.next]
    requires holes' == if Live(w, k.next, k.newest) then {SlotOf(w, k.next, up), Hole(k, !up)} else {Hole(k, !up)}
    ensures SlotsKept(w, tree0, {}, tree', holes', k.newest, k.next - 1, k.newest)
  {
    hide Slot;
    forall i: nat, side | i <= k.next - 1 && i != k.newest && Live(w, i, k.newest) && SlotOf(w, i, side) !in {}
      ensures SlotOf(w, i, side) !in holes' && tree'[SlotOf(w, i, side)] == tree0[SlotOf(w, i, side)]
    {
      assert SlotOf(w, i, side) !in {k.lowSlot, k.highSlot};
      if Live(w, k.next, k.newest) {
        SlotsApart(w, i, side, k.next, up, k.newest);
      }
      OnSide(w, tree, k.newest, {}, i, side, 0);
    }
  }

  /** The next node, once linked, hangs below the new one. */
  lemma NextHung(w: Window, tree0: seq<nat>, hash0: seq<nat>, tree: seq<nat>, hash: seq<nat>, nodes: map<nat, Node>,
                 k: Walk, up: bool, tree': seq<nat>, holes': set<nat>)
    requires Walking(w, tree, hash, nodes, k) && k.next >= w.lowest && Roomy(w, tree0) && Roomy(w, tree)
    requires k.bucket < |hash0| && Keeping(w, tree0, hash0, tree, k) && Hole(k, up) < |tree|
    requires tree' == tree[Hole(k, up) := k.next]
    requires holes' == if Live(w, k.next, k.newest) then {SlotOf(w, k.next, up), Hole(k, !up)} else {Hole(k, !up)}
    ensures Hangs(w, tree', k.newest, holes', k.newest, k.next)
    ensures Last(k, !up) != 0 ==> Hangs(w, tree', k.newest, holes', k.newest, Last(k, !up))
  {
    hide Dir, Slot, Hangs, HangsOn, SideOk, Walking, SlotsKept;
    WalkFacts(w, tree, hash, nodes, k);
    assert SideOk(w, nodes, k, up) && SideOk(w, nodes, k, !up);
    if Last(k, up) != 0 {
      LinkKeeps(w, tree, hash, nodes, k, up, tree', holes', k.newest, Last(k, up));
    }
    if Last(k, !up) != 0 {
      LinkKeeps(w, tree, hash, nodes, k, up, tree', holes', k.newest, Last(k, !up));
    }
    HolesAre(k);
    HoleFilled(w, nodes, k, up, tree, tree', holes');
  }

  lemma HolesAre(k: Walk)
    ensures Hole(k, true) == k.lowSlot && Hole(k, false) == k.highSlot
  {
  }

  /** What hung below the old root hangs below the new one, or below the node to compare after next. */
  lemma NextKept(w: Window, tree0: seq<nat>, hash0: seq<nat>, tree: seq<nat>, hash: seq<nat>, nodes: map<nat, Node>,
                 k: Walk, up: bool, tree': seq<nat>, holes': set<nat>, m: nat)
    requires Walking(w, tree, hash, nodes, k) && k.next >= w.lowest && Roomy(w, tree0) && Roomy(w, tree)
    requires k.bucket < |hash0| && Keeping(w, tree0, hash0, tree, k) && Hole(k, up) < |tree|
    requires tree' == tree[Hole(k, up) := k.next]
    requires holes' == if Live(w, k.next, k.newest) then {SlotOf(w, k.next, up), Hole(k, !up)} else {Hole(k, !up)}
    requires Hangs(w, tree0, k.newest, {}, hash0[k.bucket], m)
    ensures Hangs(w, tree', k.newest, holes', k.newest, m) || HangsOn(w, tree0, k.newest, {}, k.next, up, m)
  {
    hide Dir, Slot, Hangs, HangsOn, SideOk, Walking, SlotsKept;
    WalkFacts(w, tree, hash, nodes, k);
    KeepingParts(w, tree0, hash0, tree, k, m);
    NextHung(w, tree0, hash0, tree, hash, nodes, k, up, tree', holes');
    if Hangs(w, tree, k.newest, {k.lowSlot, k.highSlot}, k.newest, m) {
      LinkKeeps(w, tree, hash, nodes, k, up, tree', holes', k.newest, m);
    } else {
      HangsCases(w, tree0, k.newest, {}, k.next, m);
      assert up == true || up == false;
      if HangsOn(w, tree0, k.newest, {}, k.next, !up, m) {
        OnSide(w, tree0, k.newest, {}, k.next, !up, m);
        OnSide(w, tree, k.newest, {}, k.next, !up, m);
        SlotOfNext(w, tree0, tree, k, !up);
        LowerSlotsKept(w, nodes, tree0, tree, k, up, tree', holes');
        SlotsApart(w, k.next, up, k.next, !up, k.newest);
        HolesAre(k);
        OuterKept(w, tree0, tree', holes', k, up, m);
        HangsTransitive(w, tree', k.newest, holes', k.newest, k.next, m);
      }
    }
  }

  lemma SlotOfNext(w: Window, tree0: seq<nat>, tree: seq<nat>, k: Walk, side: bool)
    requires Roomy(w, tree0) && Roomy(w, tree) && Live(w, k.next, k.newest) && k.next < k.newest
    requires SlotsKept(w, tree0, {}, tree, {k.lowSlot, k.highSlot}, k.newest, k.next, k.newest)
    ensures SlotOf(w, k.next, side) < |tree| && SlotOf(w, k.next, side) < |tree0|
    ensures tree[SlotOf(w, k.next, side)] == tree0[SlotOf(w, k.next, side)]
  {
    hide Slot;
    OnSide(w, tree, k.newest, {}, k.next, side, 0);
    OnSide(w, tree0, k.newest, {}, k.next, side, 0);
    assert SlotOf(w, k.next, side) !in {};
  }

  /** The other trees are not touched by a step. */
  lemma OthersKept(w: Window, tree0: seq<nat>, hash0: seq<nat>, tree: seq<nat>, hash: seq<nat>, nodes: map<nat, Node>,
                   k: Walk, up: bool, tree': seq<nat>, holes': set<nat>, h: nat, m: nat)
    requires Walking(w, tree, hash, nodes, k) && k.next >= w.lowest && Roomy(w, tree0) && Roomy(w, tree)
    requires k.bucket < |hash0| && hash == hash0[k.bucket := k.newest]
    requires Keeping(w, tree0, hash0, tree, k) && Hole(k, up) < |tree|
    requires tree' == tree[Hole(k, up) := k.next]
    requires holes' == if Live(w, k.next, k.newest) then {SlotOf(w, k.next, up), Hole(k, !up)} else {Hole(k, !up)}
    requires h < |hash0| && h != k.bucket && Hangs(w, tree0, k.newest, {}, hash0[h], m)
    ensures Hangs(w, tree', k.newest, holes', hash0[h], m)
  {
    hide Dir, Slot, Hangs, HangsOn, SideOk, SlotsKept, NodeOk, Tight, ChildOk;
    HangsBelow(w, tree0, k.newest, {}, hash0[h], m);
    assert hash[h] == hash0[h] && hash[h] >= w.lowest;
    assert hash[h] in nodes && nodes[hash[h]].at == -1 - h;
    LinkKeeps(w, tree, hash, nodes, k, up, tree', holes', hash0[h], m);
  }

  /** One step down keeps everything. */
  lemma StepKeeps(w: Window, tree0: seq<nat>, hash0: seq<nat>, tree: seq<nat>, hash: seq<nat>, nodes: map<nat, Node>,
                  k: Walk, up: bool)
    requires Walking(w, tree, hash, nodes, k) && Live(w, k.next, k.newest) && Roomy(w, tree0) && Roomy(w, tree)
    requires k.bucket < |hash0| && hash == hash0[k.bucket := k.newest] && Keeping(w, tree0, hash0, tree, k)
    ensures Hole(k, up) < |tree|
    ensures var tree' := tree[Hole(k, up) := k.next]; Keeping(w, tree0, hash0, tree', Stepped(w, tree', k, up))
    ensures SlotOf(w, k.next, up) < |tree0|
    ensures Stepped(w, tree[Hole(k, up) := k.next], k, up).next == tree0[SlotOf(w, k.next, up)] < k.next
  {
    hide Dir, Slot, Hangs, HangsOn, SideOk, Walking, SlotsKept;
    WalkFacts(w, tree, hash, nodes, k);
    HolesAre(k);
    SlotOfNext(w, tree0, tree, k, up);
    var tree' := tree[Hole(k, up) := k.next];
    var k' := Stepped(w, tree', k, up);
    var holes' := {SlotOf(w, k.next, up), Hole(k, !up)};
    assert holes' == {k'.lowSlot, k'.highSlot};
    InnerBelow(w, tree, hash, nodes, k, up);
    LowerSlotsKept(w, nodes, tree0, tree, k, up, tree', holes');
    FewerSlotsKept(w, tree0, tree', holes', k.newest, k.next - 1, k'.next, k.newest);
    forall h, m: nat | 0 <= h < |hash0| && h != k.bucket && Hangs(w, tree0, k.newest, {}, hash0[h], m)
      ensures Hangs(w, tree', k.newest, holes', hash0[h], m)
    {
      OthersKept(w, tree0, hash0, tree, hash, nodes, k, up, tree', holes', h, m);
    }
    forall m: nat | Hangs(w, tree0, k.newest, {}, hash0[k.bucket], m)
      ensures Hangs(w, tree', k.newest, holes', k.newest, m) || Hangs(w, tree0, k.newest, {}, k'.next, m)
    {
      NextKept(w, tree0, hash0, tree, hash, nodes, k, up, tree', holes', m);
      OnSide(w, tree0, k.newest, {}, k.next, up, m);
    }
    NextHung(w, tree0, hash0, tree, hash, nodes, k, up, tree', holes');
  }

  lemma FewerSlotsKept(w: Window, tree0: seq<nat>, tree': seq<nat>, holes': set<nat>, newest: nat, limit: nat,
                       fewer: nat, except: nat)
    requires Roomy(w, tree0) && Roomy(w, tree') && SlotsKept(w, tree0, {}, tree', holes', newest, limit, except)
    requires fewer <= limit
    ensures SlotsKept(w, tree0, {}, tree', holes', newest, fewer, except)
  {
    hide Slot;
  }

  lemma InnerBelow(w: Window, tree: seq<nat>, hash: seq<nat>, nodes: map<nat, Node>, k: Walk, up: bool)
    requires Walking(w, tree, hash, nodes, k) && Live(w, k.next, k.newest) && Roomy(w, tree)
    ensures SlotOf(w, k.next, up) < |tree| && tree[SlotOf(w, k.next, up)] < k.next
  {
    hide Dir, Slot, SideOk, NodeOk, Tight, Roots;
    NextIsApart(w, nodes, k, up, true);
    NextIsApart(w, nodes, k, up, false);
    OnSide(w, tree, k.newest, {}, k.next, up, 0);
    assert ChildOk(w, nodes, k.next, up, tree[SlotOf(w, k.next, up)], SlotOf(w, k.next, up));
  }

  // ---------------------------------------------------------------- what a finished walk has kept

  /** After an insertion: the bucket has the new root and the others theirs; the other trees are whole;
      and what hung below the old root hangs below the new one, or below the node `cut` where the walk
      was cut off. */
  ghost predicate TreesKept(w: Window, tree0: seq<nat>, hash0: seq<nat>, tree: seq<nat>, hash: seq<nat>, newest: nat,
                            bucket: nat, cut: nat)
    requires Roomy(w, tree0) && Roomy(w, tree) && bucket < |hash0|
  {
    && hash == hash0[bucket := newest]
    && (forall h, m: nat ::
          0 <= h < |hash0| && h != bucket && Hangs(w, tree0, newest, {}, hash0[h], m) ==>
            Hangs(w, tree, newest, {}, hash0[h], m))
    && (forall m: nat ::
          Hangs(w, tree0, newest, {}, hash0[bucket], m) ==>
            Hangs(w, tree, newest, {}, newest, m) || Hangs(w, tree0, newest, {}, cut, m))
  }

  /** Emptying the waiting slots loses nothing. */
  lemma EndKeeps(w: Window, tree0: seq<nat>, hash0: seq<nat>, tree: seq<nat>, hash: seq<nat>, k: Walk)
    requires Roomy(w, tree0) && Roomy(w, tree) && k.bucket < |hash0| && hash == hash0[k.bucket := k.newest]
    requires Keeping(w, tree0, hash0, tree, k) && k.lowSlot < |tree| && k.highSlot < |tree|
    ensures TreesKept(w, tree0, hash0, tree[k.lowSlot := 0][k.highSlot := 0], hash, k.newest, k.bucket, k.next)
  {
    hide Slot, Hangs, HangsOn;
    var tree', holes := tree[k.lowSlot := 0][k.highSlot := 0], {k.lowSlot, k.highSlot};
    forall from: nat, m: nat | Hangs(w, tree, k.newest, holes, from, m)
      ensures Hangs(w, tree', k.newest, {}, from, m)
    {
      assert SlotsKept(w, tree, holes, tree', {}, k.newest, from, from + 1);
      NotAbove(w, tree, k.newest, holes, from, from + 1);
      HangsKept(w, tree, holes, tree', {}, k.newest, from, from + 1, from, m);
    }
  }

  /** Ending at a node whose slots may be in use again keeps that node too. */
  lemma DeadEndKeeps(w: Window, tree0: seq<nat>, hash0: seq<nat>, tree: seq<nat>, hash: seq<nat>,
                     nodes: map<nat, Node>, k: Walk, up: bool)
    requires Walking(w, tree, hash, nodes, k) && k.next >= w.lowest && !Live(w, k.next, k.newest)
    requires Roomy(w, tree0) && Roomy(w, tree)
    requires k.bucket < |hash0| && hash == hash0[k.bucket := k.newest] && Keeping(w, tree0, hash0, tree, k)
    ensures k.lowSlot < |tree| && k.highSlot < |tree|
    ensures TreesKept(w, tree0, hash0, tree[Hole(k, up) := k.next][Hole(k, !up) := 0], hash, k.newest, k.bucket, 0)
  {
    hide Dir, Slot, Hangs, HangsOn, SideOk, Walking, SlotsKept;
    WalkFacts(w, tree, hash, nodes, k);
    HolesAre(k);
    var tree1, holes1 := tree[Hole(k, up) := k.next], {Hole(k, !up)};
    var tree' := tree1[Hole(k, !up) := 0];
    forall h, m: nat | 0 <= h < |hash0| && h != k.bucket && Hangs(w, tree0, k.newest, {}, hash0[h], m)
      ensures Hangs(w, tree', k.newest, {}, hash0[h], m)
    {
      OthersKept(w, tree0, hash0, tree, hash, nodes, k, up, tree1, holes1, h, m);
      HoleEmptied(w, tree1, Hole(k, !up), k.newest, hash0[h], m);
    }
    forall m: nat | Hangs(w, tree0, k.newest, {}, hash0[k.bucket], m)
      ensures Hangs(w, tree', k.newest, {}, k.newest, m)
    {
      NextKept(w, tree0, hash0, tree, hash, nodes, k, up, tree1, holes1, m);
      OnSide(w, tree0, k.newest, {}, k.next, up, m);
      HoleEmptied(w, tree1, Hole(k, !up), k.newest, k.newest, m);
    }
  }

  lemma HoleEmptied(w: Window, tree: seq<nat>, slot: nat, newest: nat, from: nat, m: nat)
    requires Roomy(w, tree) && slot < |tree| && Hangs(w, tree, newest, {slot}, from, m)
    ensures Hangs(w, tree[slot := 0], newest, {}, from, m)
  {
    hide Slot, Hangs, HangsOn;
    assert SlotsKept(w, tree, {slot}, tree[slot := 0], {}, newest, from, from + 1);
    NotAbove(w, tree, newest, {slot}, from, from + 1);
    HangsKept(w, tree, {slot}, tree[slot := 0], {}, newest, from, from + 1, from, m);
  }

  // ---------------------------------------------------------------- the whole walk

  /** The longest match so far and the index up to which positions may be skipped. */
  datatype Best = Best(length: nat, end: nat)

  /** After one more node with `length` bytes in common. */
  function BestWith(b: Best, x: nat, length: nat): Best {
    if length > b.length then Best(length, if length > b.end - x then x + length else b.end) else b
  }

  function CommonWith(w: Window, newest: nat, x: nat): nat {
    Lcp(w.text, Pos(w, newest), Pos(w, x))
  }

  lemma CommonIs(w: Window, newest: nat, x: nat)
    ensures CommonWith(w, newest, x) == Lcp(w.text, Pos(w, newest), Pos(w, x))
  {
  }

  function BestAfter(w: Window, newest: nat, start: Best, met: seq<nat>): Best {
    if met == [] then start
    else
      var x := met[|met| - 1];
      BestWith(BestAfter(w, newest, start, met[..|met| - 1]), x, CommonWith(w, newest, x))
  }

  lemma BestStep(w: Window, newest: nat, start: Best, met: seq<nat>, x: nat)
    ensures BestAfter(w, newest, start, met + [x])
         == BestWith(BestAfter(w, newest, start, met), x, CommonWith(w, newest, x))
  {
    hide BestWith, CommonWith;
    assert (met + [x])[..|met|] == met;
  }

  /** It is the longest of all: no node met has more, and it is what the walk began with or what one of
      them has. */
  lemma {:induction false} BestIsLongest(w: Window, newest: nat, start: Best, met: seq<nat>)
    ensures var best := BestAfter(w, newest, start, met);
            && start.length <= best.length
            && (forall i :: 0 <= i < |met| ==> CommonWith(w, newest, met[i]) <= best.length)
            && (best.length == start.length
                || exists i :: 0 <= i < |met| && CommonWith(w, newest, met[i]) == best.length)
  {
    hide CommonWith;
    if met != [] {
      var n := |met| - 1;
      BestIsLongest(w, newest, start, met[..n]);
      assert forall i :: 0 <= i < n ==> met[..n][i] == met[i];
    }
  }

  /** The end only moves on. */
  lemma {:induction false} EndGrows(w: Window, newest: nat, start: Best, met: seq<nat>)
    ensures BestAfter(w, newest, start, met).end >= start.end
  {
    hide CommonWith;
    if met != [] { EndGrows(w, newest, start, met[..|met| - 1]); }
  }

  /** From node to node: up where a node comes before the new one, down where it does not. */
  ghost predicate Path(w: Window, tree: seq<nat>, newest: nat, root: nat, met: seq<nat>)
    requires Roomy(w, tree)
  {
    && (met != [] ==> met[0] == root)
    && forall i :: 0 <= i < |met| - 1 ==>
         Live(w, met[i], newest) && met[i + 1] == tree[SlotOf(w, met[i], Dir(w, true, met[i], newest))]
  }

  /** The walk need not go on: the match reaches the end of the text, or is longer than the limit. */
  ghost predicate GoodEnough(w: Window, newest: nat, limit: nat, x: nat) {
    Pos(w, newest) + CommonWith(w, newest, x) >= |w.text| || CommonWith(w, newest, x) > limit
  }

  /** How a walk may be asked to go: not below `low`, so many nodes, from what is known already, and up
      to a match longer than the limit. */
  datatype Errand = Errand(newest: nat, bucket: nat, low: nat, budget: nat, start: Best, limit: nat)

  /** What it comes back with: the nodes met, the best of them, and where it was cut off. */
  datatype Visit = Visit(met: seq<nat>, best: Best, cut: nat)

  /** The walk on its way. */
  ghost predicate OnTheWay(w: Window, tree0: seq<nat>, hash0: seq<nat>, tree: seq<nat>, k: Walk, e: Errand,
                           met: seq<nat>)
    requires Roomy(w, tree0) && Roomy(w, tree) && k.bucket < |hash0|
  {
    && e.newest == k.newest && e.bucket == k.bucket && e.low >= w.lowest
    && Keeping(w, tree0, hash0, tree, k)
    && Covered(w, tree0, k.newest, hash0[k.bucket], k.next, BestAfter(w, k.newest, e.start, met).length)
    && (k.next >= w.lowest ==> Hangs(w, tree0, k.newest, {}, hash0[k.bucket], k.next))
    && Path(w, tree0, k.newest, hash0[k.bucket], met + [k.next])
    && forall i :: 0 <= i < |met| ==> met[i] >= e.low && !GoodEnough(w, k.newest, e.limit, met[i])
  }

  /** The walk is over: it met nodes along one path, of the window and no more than it may; it found the
      longest match among all that hung in the tree but below where it was cut off, and it was cut off
      inside the window only by its budget or by a match that is good enough; and it kept the trees. */
  ghost predicate Walked(w: Window, tree0: seq<nat>, hash0: seq<nat>, tree: seq<nat>, hash: seq<nat>, e: Errand,
                         v: Visit)
    requires e.bucket < |hash0|
  {
    && Roomy(w, tree0) && Roomy(w, tree)
    && Path(w, tree0, e.newest, hash0[e.bucket], v.met)
    && |v.met| <= e.budget && (e.budget > 0 && hash0[e.bucket] >= e.low ==> v.met != [])
    && (forall i :: 0 <= i < |v.met| ==> v.met[i] >= e.low)
    && (forall i :: 0 <= i < |v.met| - 1 ==> !GoodEnough(w, e.newest, e.limit, v.met[i]))
    && v.best == BestAfter(w, e.newest, e.start, v.met)
    && Covered(w, tree0, e.newest, hash0[e.bucket], v.cut, v.best.length)
    && (v.cut >= e.low ==>
          || |v.met| == e.budget
          || (v.met != [] && GoodEnough(w, e.newest, e.limit, v.met[|v.met| - 1])))
    && TreesKept(w, tree0, hash0, tree, hash, e.newest, e.bucket, v.cut)
  }

  lemma WalkBegins(w: Window, tree: seq<nat>, hash: seq<nat>, nodes: map<nat, Node>, before: nat, k: Walk, e: Errand)
    requires Forest(w, tree, nodes, before, {}) && Roots(w, hash, nodes) && Roomy(w, tree)
    requires before < k.newest && k.newest >= w.lowest && k.bucket < |hash| && k.next == hash[k.bucket]
    requires k.low == 0 && k.high == 0 && k.lowSlot == Slot(w, k.newest) && k.highSlot == Slot(w, k.newest) + 1
    requires e.newest == k.newest && e.bucket == k.bucket && e.low >= w.lowest
    ensures OnTheWay(w, tree, hash, tree, k, e, [])
  {
    hide *;
    KeepingStarts(w, tree, hash, nodes, before, k);
    HangsCases(w, tree, k.newest, {}, k.next, k.next);
    StartCovered(w, tree, k.newest, k.next, BestAfter(w, k.newest, e.start, []).length);
    StartPath(w, tree, k.newest, k.next);
    assert [] + [k.next] == [k.next];
    OnTheWayIs(w, tree, hash, tree, k, e, []);
  }

  lemma StartCovered(w: Window, tree: seq<nat>, newest: nat, root: nat, best: nat)
    requires Roomy(w, tree)
    ensures Covered(w, tree, newest, root, root, best)
  {
    hide Hangs, Lcp;
  }

  lemma StartPath(w: Window, tree: seq<nat>, newest: nat, root: nat)
    requires Roomy(w, tree)
    ensures Path(w, tree, newest, root, [root])
  {
  }

  lemma OnTheWayIs(w: Window, tree0: seq<nat>, hash0: seq<nat>, tree: seq<nat>, k: Walk, e: Errand, met: seq<nat>)
    requires Roomy(w, tree0) && Roomy(w, tree) && k.bucket < |hash0|
    ensures OnTheWay(w, tree0, hash0, tree, k, e, met)
       <==> && e.newest == k.newest && e.bucket == k.bucket && e.low >= w.lowest
            && Keeping(w, tree0, hash0, tree, k)
            && Covered(w, tree0, k.newest, hash0[k.bucket], k.next, BestAfter(w, k.newest, e.start, met).length)
            && (k.next >= w.lowest ==> Hangs(w, tree0, k.newest, {}, hash0[k.bucket], k.next))
            && Path(w, tree0, k.newest, hash0[k.bucket], met + [k.next])
            && forall i :: 0 <= i < |met| ==> met[i] >= e.low && !GoodEnough(w, k.newest, e.limit, met[i])
  {
    hide Keeping, Covered, Hangs, Path, GoodEnough, BestAfter;
  }

  lemma NextIsNode(w: Window, tree0: seq<nat>, hash0: seq<nat>, nodes0: map<nat, Node>, before: nat, newest: nat,
                   bucket: nat, x: nat)
    requires Forest(w, tree0, nodes0, before, {}) && Roots(w, hash0, nodes0) && before < newest && Roomy(w, tree0)
    requires bucket < |hash0| && Hangs(w, tree0, newest, {}, hash0[bucket], x)
    ensures x in nodes0 && x >= w.lowest
  {
    hide Dir, Slot, Hangs, HangsOn, NodeOk, ChildOk, Forest;
    HangsBelow(w, tree0, newest, {}, hash0[bucket], x);
    HangsNode(w, tree0, nodes0, before, newest, hash0[bucket], x);
  }

  lemma PathOn(w: Window, tree: seq<nat>, newest: nat, root: nat, met: seq<nat>, x: nat, up: bool)
    requires Roomy(w, tree) && Path(w, tree, newest, root, met + [x]) && Live(w, x, newest) && Dir(w, up, x, newest)
    ensures SlotOf(w, x, up) < |tree|
    ensures Path(w, tree, newest, root, met + [x] + [tree[SlotOf(w, x, up)]])
  {
    hide Slot;
    DirOne(w, up, x, newest);
    OnSide(w, tree, newest, {}, x, up, 0);
    var longer := met + [x] + [tree[SlotOf(w, x, up)]];
    forall i | 0 <= i < |longer| - 1
      ensures Live(w, longer[i], newest)
      ensures longer[i + 1] == tree[SlotOf(w, longer[i], Dir(w, true, longer[i], newest))]
    {
      if i < |met| {
        assert longer[i] == (met + [x])[i] && longer[i + 1] == (met + [x])[i + 1];
      }
    }
  }

  lemma DirOne(w: Window, up: bool, i: nat, j: nat)
    requires Dir(w, up, i, j)
    ensures Dir(w, true, i, j) == up
  {
    BeforeOneWay(w.text, Pos(w, i), Pos(w, j));
  }

  /** What is covered when the next node has been met and the walk goes to its inner child, or has to
      end there because its slots may be in use again. */
  lemma NextCovered(w: Window, tree0: seq<nat>, hash0: seq<nat>, nodes0: map<nat, Node>, before: nat, tree: seq<nat>,
                    k: Walk, e: Errand, met: seq<nat>, up: bool)
    requires Forest(w, tree0, nodes0, before, {}) && Roots(w, hash0, nodes0) && before < k.newest
    requires Roomy(w, tree0) && Roomy(w, tree) && k.bucket < |hash0| && OnTheWay(w, tree0, hash0, tree, k, e, met)
    requires k.next >= w.lowest && Dir(w, up, k.next, k.newest)
    ensures Covered(w, tree0, k.newest, hash0[k.bucket],
                    if Live(w, k.next, k.newest) then tree0[SlotOf(w, k.next, up)] else 0,
                    BestAfter(w, k.newest, e.start, met + [k.next]).length)
  {
    hide *;
    OnTheWayIs(w, tree0, hash0, tree, k, e, met);
    var now := BestAfter(w, k.newest, e.start, met).length;
    var later := BestAfter(w, k.newest, e.start, met + [k.next]).length;
    NextIsNode(w, tree0, hash0, nodes0, before, k.newest, k.bucket, k.next);
    BestGrows(w, k.newest, e.start, met, k.next);
    CoveredMore(w, tree0, k.newest, hash0[k.bucket], k.next, now, later);
    CoveredOn(w, tree0, nodes0, before, k.newest, hash0[k.bucket], k.next, up, later);
  }

  lemma BestGrows(w: Window, newest: nat, start: Best, met: seq<nat>, x: nat)
    ensures BestAfter(w, newest, start, met).length <= BestAfter(w, newest, start, met + [x]).length
    ensures Lcp(w.text, Pos(w, newest), Pos(w, x)) <= BestAfter(w, newest, start, met + [x]).length
  {
    hide Lcp, BestAfter;
    BestStep(w, newest, start, met, x);
  }

  /** One step of the walk. */
  lemma WalkGoesOn(w: Window, tree0: seq<nat>, hash0: seq<nat>, nodes0: map<nat, Node>, before: nat, tree: seq<nat>,
                   hash: seq<nat>, nodes: map<nat, Node>, k: Walk, e: Errand, met: seq<nat>, up: bool)
    requires Forest(w, tree0, nodes0, before, {}) && Roots(w, hash0, nodes0) && before < k.newest
    requires Roomy(w, tree0) && Roomy(w, tree) && k.bucket < |hash0| && OnTheWay(w, tree0, hash0, tree, k, e, met)
    requires Walking(w, tree, hash, nodes, k) && hash == hash0[k.bucket := k.newest]
    requires k.next >= e.low && Dir(w, up, k.next, k.newest) && Live(w, k.next, k.newest)
    requires !GoodEnough(w, k.newest, e.limit, k.next)
    ensures Hole(k, up) < |tree|
    ensures var tree' := tree[Hole(k, up) := k.next];
            && Roomy(w, tree') && Stepped(w, tree', k, up).bucket == k.bucket
            && OnTheWay(w, tree0, hash0, tree', Stepped(w, tree', k, up), e, met + [k.next])
  {
    hide *;
    OnTheWayIs(w, tree0, hash0, tree, k, e, met);
    StepKeeps(w, tree0, hash0, tree, hash, nodes, k, up);
    NextCovered(w, tree0, hash0, nodes0, before, tree, k, e, met, up);
    var tree' := tree[Hole(k, up) := k.next];
    StillRoomy(w, tree, tree');
    var k' := Stepped(w, tree', k, up);
    SteppedIs(w, tree', k, up);
    PathOn(w, tree0, k.newest, hash0[k.bucket], met, k.next, up);
    if k'.next >= w.lowest {
      OnSide(w, tree0, k.newest, {}, k.next, up, k'.next);
      HangsCases(w, tree0, k.newest, {}, k'.next, k'.next);
      HangsCases(w, tree0, k.newest, {}, k.next, k'.next);
      assert up == true || up == false;
      HangsTransitive(w, tree0, k.newest, {}, hash0[k.bucket], k.next, k'.next);
    }
    OnTheWayIs(w, tree0, hash0, tree', k', e, met + [k.next]);
  }

  lemma SteppedIs(w: Window, tree: seq<nat>, k: Walk, up: bool)
    requires w.size > 0 && 2 * w.size <= |tree|
    ensures var next := Stepped(w, tree, k, up); next.newest == k.newest && next.bucket == k.bucket
  {
  }

  lemma StillRoomy(w: Window, tree: seq<nat>, tree': seq<nat>)
    requires Roomy(w, tree) && |tree'| == |tree|
    ensures Roomy(w, tree') && w.size > 0 && 2 * w.size <= |tree'|
  {
  }

  lemma WalkedIs(w: Window, tree0: seq<nat>, hash0: seq<nat>, tree: seq<nat>, hash: seq<nat>, e: Errand, v: Visit)
    requires e.bucket < |hash0| && Roomy(w, tree0) && Roomy(w, tree)
    ensures Walked(w, tree0, hash0, tree, hash, e, v)
       <==> && Path(w, tree0, e.newest, hash0[e.bucket], v.met)
            && |v.met| <= e.budget && (e.budget > 0 && hash0[e.bucket] >= e.low ==> v.met != [])
            && (forall i :: 0 <= i < |v.met| ==> v.met[i] >= e.low)
            && (forall i :: 0 <= i < |v.met| - 1 ==> !GoodEnough(w, e.newest, e.limit, v.met[i]))
            && v.best == BestAfter(w, e.newest, e.start, v.met)
            && Covered(w, tree0, e.newest, hash0[e.bucket], v.cut, v.best.length)
            && (v.cut >= e.low ==>
                  || |v.met| == e.budget
                  || (v.met != [] && GoodEnough(w, e.newest, e.limit, v.met[|v.met| - 1])))
            && TreesKept(w, tree0, hash0, tree, hash, e.newest, e.bucket, v.cut)
  {
    hide Path, GoodEnough, BestAfter, Covered, TreesKept;
  }

  lemma WalkedBest(w: Window, tree0: seq<nat>, hash0: seq<nat>, tree: seq<nat>, hash: seq<nat>, e: Errand, v: Visit)
    requires e.bucket < |hash0| && Walked(w, tree0, hash0, tree, hash, e, v)
    ensures v.best == BestAfter(w, e.newest, e.start, v.met)
  {
    hide Path, GoodEnough, BestAfter, Covered, TreesKept;
  }

  lemma ShorterPath(w: Window, tree: seq<nat>, newest: nat, root: nat, met: seq<nat>, x: nat)
    requires Roomy(w, tree) && Path(w, tree, newest, root, met + [x])
    ensures Path(w, tree, newest, root, met) && (met == [] ==> x == root)
  {
    hide Slot;
    if met != [] {
      assert (met + [x])[0] == met[0];
      forall i | 0 <= i < |met| - 1
        ensures Live(w, met[i], newest) && met[i + 1] == tree[SlotOf(w, met[i], Dir(w, true, met[i], newest))]
      {
        assert (met + [x])[i] == met[i] && (met + [x])[i + 1] == met[i + 1];
        OnSide(w, tree, newest, {}, met[i], Dir(w, true, met[i], newest), 0);
      }
    } else {
      assert (met + [x])[0] == x;
    }
  }

  /** Out of nodes or out of budget. */
  lemma WalkRunsOut(w: Window, tree0: seq<nat>, hash0: seq<nat>, tree: seq<nat>, hash: seq<nat>, k: Walk, e: Errand,
                    met: seq<nat>)
    requires Roomy(w, tree0) && Roomy(w, tree) && k.bucket < |hash0| && OnTheWay(w, tree0, hash0, tree, k, e, met)
    requires hash == hash0[k.bucket := k.newest] && k.lowSlot < |tree| && k.highSlot < |tree|
    requires |met| <= e.budget && (|met| == e.budget || k.next < e.low)
    ensures Walked(w, tree0, hash0, tree[k.lowSlot := 0][k.highSlot := 0], hash, e,
                   Visit(met, BestAfter(w, k.newest, e.start, met), k.next))
  {
    hide *;
    OnTheWayIs(w, tree0, hash0, tree, k, e, met);
    ShorterPath(w, tree0, k.newest, hash0[k.bucket], met, k.next);
    EndKeeps(w, tree0, hash0, tree, hash, k);
    StillRoomy(w, tree, tree[k.lowSlot := 0][k.highSlot := 0]);
    WalkedIs(w, tree0, hash0, tree[k.lowSlot := 0][k.highSlot := 0], hash, e,
             Visit(met, BestAfter(w, k.newest, e.start, met), k.next));
  }

  /** At a match that is good enough. */
  lemma WalkIsEnough(w: Window, tree0: seq<nat>, hash0: seq<nat>, tree: seq<nat>, hash: seq<nat>, k: Walk, e: Errand,
                     met: seq<nat>)
    requires Roomy(w, tree0) && Roomy(w, tree) && k.bucket < |hash0| && OnTheWay(w, tree0, hash0, tree, k, e, met)
    requires hash == hash0[k.bucket := k.newest] && k.lowSlot < |tree| && k.highSlot < |tree|
    requires |met| < e.budget && k.next >= e.low && GoodEnough(w, k.newest, e.limit, k.next)
    ensures Walked(w, tree0, hash0, tree[k.lowSlot := 0][k.highSlot := 0], hash, e,
                   Visit(met + [k.next], BestAfter(w, k.newest, e.start, met + [k.next]), k.next))
  {
    hide *;
    OnTheWayIs(w, tree0, hash0, tree, k, e, met);
    BestGrows(w, k.newest, e.start, met, k.next);
    CoveredMore(w, tree0, k.newest, hash0[k.bucket], k.next, BestAfter(w, k.newest, e.start, met).length,
                BestAfter(w, k.newest, e.start, met + [k.next]).length);
    EndKeeps(w, tree0, hash0, tree, hash, k);
    StillRoomy(w, tree, tree[k.lowSlot := 0][k.highSlot := 0]);
    WalkedIs(w, tree0, hash0, tree[k.lowSlot := 0][k.highSlot := 0], hash, e,
             Visit(met + [k.next], BestAfter(w, k.newest, e.start, met + [k.next]), k.next));
  }

  /** At a node whose slots may be in use again. */
  lemma WalkEndsDead(w: Window, tree0: seq<nat>, hash0: seq<nat>, nodes0: map<nat, Node>, before: nat, tree: seq<nat>,
                     hash: seq<nat>, nodes: map<nat, Node>, k: Walk, e: Errand, met: seq<nat>, up: bool)
    requires Forest(w, tree0, nodes0, before, {}) && Roots(w, hash0, nodes0) && before < k.newest
    requires Roomy(w, tree0) && Roomy(w, tree) && k.bucket < |hash0| && OnTheWay(w, tree0, hash0, tree, k, e, met)
    requires Walking(w, tree, hash, nodes, k) && hash == hash0[k.bucket := k.newest] && |met| < e.budget
    requires k.next >= e.low && Dir(w, up, k.next, k.newest) && !Live(w, k.next, k.newest)
    ensures k.lowSlot < |tree| && k.highSlot < |tree| && Hole(k, up) < |tree| && Hole(k, !up) < |tree|
    ensures Walked(w, tree0, hash0, tree[Hole(k, up) := k.next][Hole(k, !up) := 0], hash, e,
                   Visit(met + [k.next], BestAfter(w, k.newest, e.start, met + [k.next]), 0))
  {
    hide *;
    OnTheWayIs(w, tree0, hash0, tree, k, e, met);
    NextCovered(w, tree0, hash0, nodes0, before, tree, k, e, met, up);
    DeadEndKeeps(w, tree0, hash0, tree, hash, nodes, k, up);
    HolesAre(k);
    assert up == true || up == false;
    StillRoomy(w, tree, tree[Hole(k, up) := k.next][Hole(k, !up) := 0]);
    LowestPositive(w, tree);
    WalkedIs(w, tree0, hash0, tree[Hole(k, up) := k.next][Hole(k, !up) := 0], hash, e,
             Visit(met + [k.next], BestAfter(w, k.newest, e.start, met + [k.next]), 0));
  }

  lemma LowestPositive(w: Window, tree: seq<nat>)
    requires Roomy(w, tree)
    ensures w.lowest > 0
  {
  }

  // ---------------------------------------------------------------- what it comes to

  /** Unless its budget or a good enough match cut it off, a walk has found the longest match of the
      window that hung in the tree, and has lost no node of the window. */
  lemma NothingMissed(w: Window, tree0: seq<nat>, hash0: seq<nat>, tree: seq<nat>, hash: seq<nat>, e: Errand,
                      v: Visit, m: nat)
    requires e.bucket < |hash0| && Walked(w, tree0, hash0, tree, hash, e, v)
    requires |v.met| < e.budget && forall i :: 0 <= i < |v.met| ==> !GoodEnough(w, e.newest, e.limit, v.met[i])
    requires m >= e.low && Hangs(w, tree0, e.newest, {}, hash0[e.bucket], m)
    ensures CommonWith(w, e.newest, m) <= v.best.length && Hangs(w, tree, e.newest, {}, e.newest, m)
  {
    hide Hangs, Lcp, GoodEnough;
    if Hangs(w, tree0, e.newest, {}, v.cut, m) {
      HangsBelow(w, tree0, e.newest, {}, v.cut, m);
      assert false;
    }
  }

  /** The old root is compared first, if there is any budget and it is inside the window. */
  lemma RootMet(w: Window, tree0: seq<nat>, hash0: seq<nat>, tree: seq<nat>, hash: seq<nat>, e: Errand, v: Visit)
    requires e.bucket < |hash0| && Walked(w, tree0, hash0, tree, hash, e, v)
    requires e.budget > 0 && hash0[e.bucket] >= e.low
    ensures CommonWith(w, e.newest, hash0[e.bucket]) <= v.best.length
  {
    hide Hangs, Lcp, GoodEnough, TreesKept, Covered;
    BestIsLongest(w, e.newest, e.start, v.met);
  }

  // ---------------------------------------------------------------- many insertions

  /** One insertion of a run: what it asks, the trees before it, and how its walk went. */
  datatype Insertion = Insertion(errand: Errand, tree: seq<nat>, hash: seq<nat>, visit: Visit)

  /** Walk after walk, each through what the one before left; the last entry is what is left in the end. */
  ghost predicate Chain(w: Window, run: seq<Insertion>) {
    && run != []
    && (forall j :: 0 <= j < |run| - 1 ==> run[j].errand.bucket < |run[j].hash|)
    && (forall j :: 0 <= j < |run| - 1 ==>
          Walked(w, run[j].tree, run[j].hash, run[j + 1].tree, run[j + 1].hash, run[j].errand, run[j].visit))
    && forall i, j :: 0 <= i < j < |run| - 1 ==> run[i].errand.newest < run[j].errand.newest
  }

  /** While a node is live, so is every node above it. */
  lemma {:induction false} HangsLater(w: Window, tree: seq<nat>, newest: nat, later: nat, from: nat, m: nat)
    requires Roomy(w, tree) && Hangs(w, tree, newest, {}, from, m) && Live(w, m, later)
    ensures Hangs(w, tree, later, {}, from, m)
    decreases from
  {
    hide Roomy, Slot, HangsOn, Hangs;
    HangsCases(w, tree, newest, {}, from, m);
    HangsCases(w, tree, later, {}, from, m);
    if m != from {
      var up :| HangsOn(w, tree, newest, {}, from, up, m);
      OnSide(w, tree, newest, {}, from, up, m);
      OnSide(w, tree, later, {}, from, up, m);
      HangsBelow(w, tree, newest, {}, tree[SlotOf(w, from, up)], m);
      HangsLater(w, tree, newest, later, tree[SlotOf(w, from, up)], m);
    }
  }

  /** A walk that is not cut off inside its window loses nothing of it, in any tree. */
  lemma WalkLosesNothing(w: Window, tree0: seq<nat>, hash0: seq<nat>, tree: seq<nat>, hash: seq<nat>, e: Errand,
                         v: Visit, b: nat, m: nat)
    requires e.bucket < |hash0| && Walked(w, tree0, hash0, tree, hash, e, v) && v.cut < e.low <= m && b < |hash0|
    requires Hangs(w, tree0, e.newest, {}, hash0[b], m)
    ensures |hash| == |hash0| && Hangs(w, tree, e.newest, {}, hash[b], m)
  {
    hide Hangs, GoodEnough, Covered, Path, BestAfter;
    NotAbove(w, tree0, e.newest, {}, v.cut, m);
  }

  /** So a node, once it hangs in its tree, hangs there as long as it is live and inside the windows of the
      walks, if none of them is cut off there. */
  lemma {:induction false} ChainLosesNothing(w: Window, run: seq<Insertion>, from: nat,
                                             until: nat, newest: nat, b: nat, m: nat)
    requires Chain(w, run) && from <= until <= |run| - 1 && Roomy(w, run[from].tree) && b < |run[from].hash|
    requires Hangs(w, run[from].tree, newest, {}, run[from].hash[b], m)
    requires forall j :: from <= j < until ==>
               run[j].visit.cut < run[j].errand.low <= m && Live(w, m, run[j].errand.newest)
    ensures Roomy(w, run[until].tree) && b < |run[until].hash|
    ensures Hangs(w, run[until].tree, if from < until then run[until - 1].errand.newest else newest, {},
                  run[until].hash[b], m)
    decreases until
  {
    hide Hangs, Roomy, Walked, Slot;
    if from < until {
      ChainLosesNothing(w, run, from, until - 1, newest, b, m);
      var before := if from < until - 1 then run[until - 2].errand.newest else newest;
      var e, v := run[until - 1].errand, run[until - 1].visit;
      HangsLater(w, run[until - 1].tree, before, e.newest, run[until - 1].hash[b], m);
      WalkLosesNothing(w, run[until - 1].tree, run[until - 1].hash, run[until].tree, run[until].hash, e, v, b, m);
      WalkedRoomy(w, run[until - 1].tree, run[until - 1].hash, run[until].tree, run[until].hash, e, v);
    }
  }

  lemma WalkedRoomy(w: Window, tree0: seq<nat>, hash0: seq<nat>, tree: seq<nat>, hash: seq<nat>, e: Errand, v: Visit)
    requires e.bucket < |hash0| && Walked(w, tree0, hash0, tree, hash, e, v)
    ensures Roomy(w, tree0) && Roomy(w, tree) && hash == hash0[e.bucket := e.newest]
  {
    hide Hangs, GoodEnough, Covered, Path, BestAfter;
  }

  /** The longest of all: after a run of insertions none of which is cut off, a walk that is not cut off
      either has found a match as long as that of any position the run inserted in the same bucket, if it
      is live and inside the windows. */
  lemma LongestOfAll(w: Window, run: seq<Insertion>, tree: seq<nat>, hash: seq<nat>, e: Errand,
                     v: Visit, i: nat)
    requires Chain(w, run) && i < |run| - 1 && run[i].errand.bucket == e.bucket < |run[|run| - 1].hash|
    requires Walked(w, run[|run| - 1].tree, run[|run| - 1].hash, tree, hash, e, v) && run[i].errand.newest >= w.lowest
    requires forall j :: i <= j < |run| - 1 ==> run[j].errand.newest < e.newest
    requires forall j :: i < j < |run| - 1 ==> run[j].visit.cut < run[j].errand.low <= run[i].errand.newest
    requires v.cut < e.low <= run[i].errand.newest && Live(w, run[i].errand.newest, e.newest)
    ensures CommonWith(w, e.newest, run[i].errand.newest) <= v.best.length
  {
    hide Hangs, Roomy, Walked, Slot, CommonWith, HangsOn;
    var n, m, b := |run| - 1, run[i].errand.newest, e.bucket;
    WalkedRoomy(w, run[i].tree, run[i].hash, run[i + 1].tree, run[i + 1].hash, run[i].errand, run[i].visit);
    HangsCases(w, run[i + 1].tree, m, {}, m, m);
    ChainLosesNothing(w, run, i + 1, n, m, b, m);
    HangsLater(w, run[n].tree, if i + 1 < n then run[n - 1].errand.newest else m, e.newest, run[n].hash[b], m);
    CutMisses(w, run[n].tree, run[n].hash, tree, hash, e, v, m);
  }

  lemma CutMisses(w: Window, tree0: seq<nat>, hash0: seq<nat>, tree: seq<nat>, hash: seq<nat>, e: Errand, v: Visit,
                  m: nat)
    requires e.bucket < |hash0| && Walked(w, tree0, hash0, tree, hash, e, v) && v.cut < m && Roomy(w, tree0)
    requires Hangs(w, tree0, e.newest, {}, hash0[e.bucket], m)
    ensures CommonWith(w, e.newest, m) <= v.best.length
  {
    hide Hangs, Lcp, GoodEnough, TreesKept, Path, BestAfter;
    NotAbove(w, tree0, e.newest, {}, v.cut, m);
  }
}
