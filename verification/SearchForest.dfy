/** The binary-tree matcher's trees, kept in one cyclic array of child slots. Every node is an
    index of the text; older nodes hang below newer ones, and the two child chains of a node are
    ordered around its suffix. The invariant is local: each node carries two bounds, newer nodes
    between which its whole subtree lies, and the one slot or root that points to it. */
module SearchForest {
  import opened Bits
  import opened SuffixOrder

  /** The text, the index of its first byte, the lowest usable index, and the number of nodes
      the cyclic array holds. */
  datatype Window = Window(text: seq<byte>, offset: nat, lowest: nat, size: nat)

  function Pos(w: Window, i: nat): nat {
    if i >= w.offset then i - w.offset else 0
  }

  /** `2 * (index & tree_mask)`. */
  function Slot(w: Window, i: nat): (slot: nat)
    requires w.size > 0
    ensures slot + 1 < 2 * w.size
  {
    2 * (i % w.size)
  }

  lemma SlotsDiffer(w: Window, i: nat, j: nat)
    requires w.size > 0 && i < j < i + w.size
    ensures Slot(w, i) != Slot(w, j) && Slot(w, i) != Slot(w, j) + 1 && Slot(w, i) + 1 != Slot(w, j)
  {
    RemaindersDiffer(i, j, w.size);
  }

  lemma RemaindersDiffer(i: nat, j: nat, n: nat)
    requires 0 < n && i < j < i + n
    ensures i % n != j % n
  {
    if i % n == j % n {
      DivideBack(i, n);
      DivideBack(j, n);
      MultipleGap(n, j / n, i / n);
    }
  }

  lemma DivideBack(i: nat, n: nat)
    requires n > 0
    ensures i == n * (i / n) + i % n
  {
  }

  lemma {:induction false} MultipleGap(n: nat, a: int, b: int)
    ensures a > b ==> n * a >= n * b + n
    ensures a <= b ==> n * a <= n * b
    decreases if a > b then a - b else b - a
  {
    if a > b {
      MultipleGap(n, a - 1, b);
      assert n * a == n * (a - 1) + n;
    } else if a < b {
      MultipleGap(n, a + 1, b);
      assert n * (a + 1) == n * a + n;
    }
  }

  /** Upwards: the suffix of `i` comes before that of `j`. Downwards: after it. */
  ghost predicate Dir(w: Window, up: bool, i: nat, j: nat) {
    if up then Before(w.text, Pos(w, i), Pos(w, j)) else Before(w.text, Pos(w, j), Pos(w, i))
  }

  lemma DirTransitive(w: Window, up: bool, i: nat, j: nat, k: nat)
    requires Dir(w, up, i, j) && Dir(w, up, j, k)
    ensures Dir(w, up, i, k)
  {
    hide Before;
    if up {
      BeforeTransitive(w.text, Pos(w, i), Pos(w, j), Pos(w, k));
    } else {
      BeforeTransitive(w.text, Pos(w, k), Pos(w, j), Pos(w, i));
    }
  }

  /** Bounds of a node's subtree (0: none) and what points to the node: a slot, or -1 - h for
      the root of bucket h. */
  datatype Node = Node(low: nat, high: nat, at: int)

  function Bound(node: Node, up: bool): nat {
    if up then node.low else node.high
  }

  /** The bound `a` is at least as close as the bound `b`. */
  ghost predicate Tight(w: Window, up: bool, a: nat, b: nat) {
    b == 0 || (a != 0 && (a == b || Dir(w, up, b, a)))
  }

  lemma TightTransitive(w: Window, up: bool, a: nat, b: nat, c: nat)
    requires Tight(w, up, a, b) && Tight(w, up, b, c)
    ensures Tight(w, up, a, c)
  {
    hide Dir;
    if c != 0 && a != b && b != c {
      DirTransitive(w, up, c, b, a);
    }
  }

  /** A bound at least as close as `b` keeps `i` beyond `b`. */
  lemma TightBeyond(w: Window, up: bool, a: nat, b: nat, i: nat)
    requires Tight(w, up, a, b) && b != 0 && Dir(w, up, a, i)
    ensures Dir(w, up, b, i)
  {
    hide Dir;
    if a != b {
      DirTransitive(w, up, b, a, i);
    }
  }

  /** A node lies between its bounds, which are newer. */
  ghost predicate NodeOk(w: Window, node: Node, i: nat) {
    forall up :: Bound(node, up) != 0 ==> Bound(node, up) > i && Dir(w, up, Bound(node, up), i)
  }

  /** The child `c` in `slot` of the node `i`, on the upper or lower side of it. */
  ghost predicate ChildOk(w: Window, nodes: map<nat, Node>, i: nat, up: bool, c: nat, slot: nat)
    requires i in nodes
  {
    c >= w.lowest ==>
      && c in nodes && c < i && nodes[c].at == slot
      && Tight(w, up, Bound(nodes[c], up), i) && Tight(w, !up, Bound(nodes[c], !up), Bound(nodes[i], !up))
  }

  /** The slot of the lower child, then the slot of the upper one. */
  function SlotOf(w: Window, i: nat, up: bool): nat
    requires w.size > 0
  {
    Slot(w, i) + (if up then 1 else 0)
  }

  ghost predicate Live(w: Window, i: nat, newest: nat) {
    i >= w.lowest && i + w.size > newest + 1
  }

  /** Every live node's two slots are in order, except for the two slots being rewritten. */
  ghost predicate Forest(w: Window, tree: seq<nat>, nodes: map<nat, Node>, newest: nat, holes: set<nat>) {
    && 0 < w.lowest && w.offset <= w.lowest && w.size > 1 && 2 * w.size <= |tree|
    && (forall i :: i in nodes ==> i <= newest)
    && (forall i :: i in nodes && i >= w.lowest ==> NodeOk(w, nodes[i], i))
    && forall i, up :: i in nodes && Live(w, i, newest) && SlotOf(w, i, up) !in holes ==>
         ChildOk(w, nodes, i, up, tree[SlotOf(w, i, up)], SlotOf(w, i, up))
  }

  /** A root that is still usable is a node and belongs to its bucket only. */
  ghost predicate Roots(w: Window, hash: seq<nat>, nodes: map<nat, Node>) {
    forall h :: 0 <= h < |hash| && hash[h] >= w.lowest ==> hash[h] in nodes && nodes[hash[h]].at == -1 - h
  }

  // ---------------------------------------------------------------- a walk that splits a tree

  /** Inserting `newest`: the last node met on each side (0: none), the slot that waits for the
      next one, and the node to compare next. */
  datatype Walk = Walk(newest: nat, bucket: nat, low: nat, high: nat, lowSlot: nat, highSlot: nat, next: nat)

  function Last(k: Walk, up: bool): nat {
    if up then k.low else k.high
  }

  function Hole(k: Walk, up: bool): nat {
    if up then k.lowSlot else k.highSlot
  }

  /** The waiting slot is the new node's own, or the inner slot of the last node on that side. */
  ghost predicate SideOk(w: Window, nodes: map<nat, Node>, k: Walk, up: bool)
    requires w.size > 0
  {
    var x := Last(k, up);
    if x == 0 then Hole(k, up) == SlotOf(w, k.newest, !up)
    else
      && x in nodes && Live(w, x, k.newest) && x < k.newest && Dir(w, up, x, k.newest)
      && Bound(nodes[x], !up) == k.newest && Hole(k, up) == SlotOf(w, x, up)
  }

  /** The next node and its subtree lie between the last nodes met, and only a waiting slot or
      the replaced root still points to it. */
  ghost predicate NextOk(w: Window, nodes: map<nat, Node>, k: Walk) {
    k.next >= w.lowest ==>
      && k.next in nodes && k.next < k.newest
      && nodes[k.next].at in {k.lowSlot as int, k.highSlot as int, -1 - k.bucket}
      && forall up :: Tight(w, up, Bound(nodes[k.next], up), Last(k, up)) && (Last(k, up) != 0 ==> k.next < Last(k, up))
  }

  ghost predicate Walking(w: Window, tree: seq<nat>, hash: seq<nat>, nodes: map<nat, Node>, k: Walk) {
    && Forest(w, tree, nodes, k.newest, {k.lowSlot, k.highSlot})
    && Roots(w, hash, nodes) && k.bucket < |hash| && hash[k.bucket] == k.newest
    && k.newest in nodes && k.newest >= w.lowest && nodes[k.newest] == Node(0, 0, -1 - k.bucket)
    && (forall up :: SideOk(w, nodes, k, up))
    && NextOk(w, nodes, k)
  }

  /** Bytes the next node surely shares with the new one. */
  function SureLength(w: Window, k: Walk): nat {
    Min(SideLength(w, k, true), SideLength(w, k, false))
  }

  function SideLength(w: Window, k: Walk, up: bool): nat {
    if Last(k, up) == 0 then 0 else Lcp(w.text, Pos(w, k.newest), Pos(w, Last(k, up)))
  }

  /** The skipped bytes are common bytes. */
  lemma SureBytesAgree(w: Window, tree: seq<nat>, hash: seq<nat>, nodes: map<nat, Node>, k: Walk)
    requires Walking(w, tree, hash, nodes, k) && k.next >= w.lowest
    ensures SureLength(w, k) <= Lcp(w.text, Pos(w, k.newest), Pos(w, k.next))
  {
    hide Lcp, Before, Roots;
    if k.low != 0 && k.high != 0 {
      NextBetween(w, tree, hash, nodes, k, true);
      NextBetween(w, tree, hash, nodes, k, false);
      Sandwich(w.text, Pos(w, k.low), Pos(w, k.next), Pos(w, k.high), Pos(w, k.newest), SureLength(w, k));
    }
  }

  lemma NextBetween(w: Window, tree: seq<nat>, hash: seq<nat>, nodes: map<nat, Node>, k: Walk, up: bool)
    requires Walking(w, tree, hash, nodes, k) && k.next >= w.lowest && Last(k, up) != 0
    ensures Dir(w, up, Last(k, up), k.next)
  {
    hide Roots, Dir, SideOk, ChildOk;
    var node := nodes[k.next];
    assert NodeOk(w, node, k.next);
    TightBeyond(w, up, Bound(node, up), Last(k, up), k.next);
  }

  // ---------------------------------------------------------------- start, step, end

  ghost function Started(nodes: map<nat, Node>, newest: nat, bucket: nat): map<nat, Node> {
    nodes[newest := Node(0, 0, -1 - bucket)]
  }

  lemma WalkStarts(w: Window, tree: seq<nat>, hash: seq<nat>, nodes: map<nat, Node>, before: nat, newest: nat,
                   bucket: nat)
    requires Forest(w, tree, nodes, before, {}) && Roots(w, hash, nodes) && bucket < |hash|
    requires newest > before && newest >= w.lowest
    ensures Walking(w, tree, hash[bucket := newest], Started(nodes, newest, bucket),
                    Walk(newest, bucket, 0, 0, Slot(w, newest), Slot(w, newest) + 1, hash[bucket]))
  {
    hide Dir, Slot;
    var after := Started(nodes, newest, bucket);
    forall i, up | i in after && Live(w, i, newest) && SlotOf(w, i, up) !in {Slot(w, newest), Slot(w, newest) + 1}
      ensures ChildOk(w, after, i, up, tree[SlotOf(w, i, up)], SlotOf(w, i, up))
    {
      assert i in nodes && Live(w, i, before);
      assert ChildOk(w, nodes, i, up, tree[SlotOf(w, i, up)], SlotOf(w, i, up));
    }
  }

  /** The node table after meeting `k.next` on the side `up`. */
  ghost function Met(nodes: map<nat, Node>, k: Walk, up: bool): map<nat, Node> {
    nodes[k.next := if up then Node(k.low, k.newest, k.lowSlot) else Node(k.newest, k.high, k.highSlot)]
  }

  /** The walk after meeting `k.next` on the side `up` and going to its inner child. */
  function Stepped(w: Window, tree: seq<nat>, k: Walk, up: bool): Walk
    requires w.size > 0 && 2 * w.size <= |tree|
  {
    var slot := SlotOf(w, k.next, up);
    if up then k.(low := k.next, lowSlot := slot, next := tree[slot])
    else k.(high := k.next, highSlot := slot, next := tree[slot])
  }

  /** Two live nodes, or a live node and the new one, never share a slot. */
  lemma SlotsApart(w: Window, i: nat, iUp: bool, j: nat, jUp: bool, newest: nat)
    requires w.size > 0 && Live(w, i, newest) && Live(w, j, newest) && i <= newest && j <= newest
    ensures SlotOf(w, i, iUp) == SlotOf(w, j, jUp) ==> i == j && iUp == jUp
  {
    hide Slot;
    if i < j {
      SlotsDiffer(w, i, j);
    } else if j < i {
      SlotsDiffer(w, j, i);
    }
  }

  /** The waiting slots belong to live nodes newer than the next one. */
  lemma HoleOwner(w: Window, nodes: map<nat, Node>, k: Walk, up: bool) returns (owner: nat, side: bool)
    requires w.size > 1 && SideOk(w, nodes, k, up) && k.newest >= w.lowest
    ensures Hole(k, up) == SlotOf(w, owner, side) && Live(w, owner, k.newest) && owner <= k.newest
    ensures if Last(k, up) == 0 then owner == k.newest && side == !up else owner == Last(k, up) && side == up
  {
    hide Dir, Slot;
    if Last(k, up) == 0 {
      owner, side := k.newest, !up;
    } else {
      owner, side := Last(k, up), up;
    }
  }

  lemma NextIsApart(w: Window, nodes: map<nat, Node>, k: Walk, side: bool, up: bool)
    requires w.size > 1 && SideOk(w, nodes, k, up) && k.newest >= w.lowest
    requires k.next < k.newest && Live(w, k.next, k.newest) && (Last(k, up) != 0 ==> k.next < Last(k, up))
    ensures SlotOf(w, k.next, side) != Hole(k, up)
  {
    hide Dir, Slot, SideOk;
    var owner, ownerSide := HoleOwner(w, nodes, k, up);
    SlotsApart(w, k.next, side, owner, ownerSide, k.newest);
  }

  lemma MetNodeOk(w: Window, tree: seq<nat>, hash: seq<nat>, nodes: map<nat, Node>, k: Walk, up: bool)
    requires Walking(w, tree, hash, nodes, k) && k.next >= w.lowest && Dir(w, up, k.next, k.newest)
    ensures NodeOk(w, Met(nodes, k, up)[k.next], k.next)
  {
    hide Dir, Roots, Forest, SideOk;
    if Last(k, up) != 0 {
      hide NodeOk;
      NextBetween(w, tree, hash, nodes, k, up);
    }
    DirOpposite(w, up, k.next, k.newest);
  }

  lemma DirOpposite(w: Window, up: bool, i: nat, j: nat)
    ensures Dir(w, up, i, j) == Dir(w, !up, j, i)
  {
  }

  /** A filled waiting slot is in order. */
  lemma FilledOk(w: Window, tree: seq<nat>, hash: seq<nat>, nodes: map<nat, Node>, k: Walk, up: bool, i: nat,
                 side: bool)
    requires Walking(w, tree, hash, nodes, k) && k.next >= w.lowest
    requires i in nodes && Live(w, i, k.newest) && i <= k.newest && SlotOf(w, i, side) == Hole(k, up)
    ensures i in Met(nodes, k, up) && ChildOk(w, Met(nodes, k, up), i, side, k.next, Hole(k, up))
  {
    hide Dir, Roots, Forest, NodeOk, Slot;
    var owner, ownerSide := HoleOwner(w, nodes, k, up);
    SlotsApart(w, i, side, owner, ownerSide, k.newest);
  }

  /** The met node keeps its outer child. */
  lemma OuterOk(w: Window, tree: seq<nat>, hash: seq<nat>, nodes: map<nat, Node>, k: Walk, up: bool)
    requires Walking(w, tree, hash, nodes, k) && k.next >= w.lowest && Live(w, k.next, k.newest)
    ensures ChildOk(w, Met(nodes, k, up), k.next, !up, tree[SlotOf(w, k.next, !up)], SlotOf(w, k.next, !up))
  {
    hide Dir, Roots, NodeOk, Slot, Tight;
    NextIsApart(w, nodes, k, !up, true);
    NextIsApart(w, nodes, k, !up, false);
    var c := tree[SlotOf(w, k.next, !up)];
    assert ChildOk(w, nodes, k.next, !up, c, SlotOf(w, k.next, !up));
    if c >= w.lowest {
      TightTransitive(w, up, Bound(nodes[c], up), Bound(nodes[k.next], up), Last(k, up));
    }
  }

  /** Nobody else points to the met node. */
  lemma OtherOk(w: Window, tree: seq<nat>, hash: seq<nat>, nodes: map<nat, Node>, k: Walk, up: bool, i: nat, side: bool)
    requires Walking(w, tree, hash, nodes, k) && k.next >= w.lowest
    requires i in nodes && Live(w, i, k.newest) && i != k.next && SlotOf(w, i, side) !in {k.lowSlot, k.highSlot}
    ensures ChildOk(w, Met(nodes, k, up), i, side, tree[SlotOf(w, i, side)], SlotOf(w, i, side))
  {
    hide Dir, Roots, NodeOk, Slot, Tight;
    assert ChildOk(w, nodes, i, side, tree[SlotOf(w, i, side)], SlotOf(w, i, side));
  }

  lemma RootsKept(w: Window, tree: seq<nat>, hash: seq<nat>, nodes: map<nat, Node>, k: Walk, up: bool)
    requires Walking(w, tree, hash, nodes, k) && k.next >= w.lowest
    ensures Roots(w, hash, Met(nodes, k, up))
  {
    hide Dir, Forest, NodeOk, Slot, Tight, SideOk;
  }

  /** The forest after the met node has moved; its inner slot is in order only if it is dead. */
  lemma MetForest(w: Window, tree: seq<nat>, hash: seq<nat>, nodes: map<nat, Node>, k: Walk, up: bool)
    requires Walking(w, tree, hash, nodes, k) && k.next >= w.lowest && Dir(w, up, k.next, k.newest)
    ensures Hole(k, up) < |tree|
    ensures Forest(w, tree[Hole(k, up) := k.next], Met(nodes, k, up), k.newest,
                   if Live(w, k.next, k.newest) then {SlotOf(w, k.next, up), Hole(k, !up)} else {Hole(k, !up)})
  {
    hide Dir, Roots, NodeOk, Slot, Tight, ChildOk, SideOk;
    var after := Met(nodes, k, up);
    var owner, ownerSide := HoleOwner(w, nodes, k, up);
    var tree' := tree[Hole(k, up) := k.next];
    var holes := if Live(w, k.next, k.newest) then {SlotOf(w, k.next, up), Hole(k, !up)} else {Hole(k, !up)};
    MetNodeOk(w, tree, hash, nodes, k, up);
    forall i, side | i in after && Live(w, i, k.newest) && SlotOf(w, i, side) !in holes
      ensures ChildOk(w, after, i, side, tree'[SlotOf(w, i, side)], SlotOf(w, i, side))
    {
      if SlotOf(w, i, side) == Hole(k, up) {
        FilledOk(w, tree, hash, nodes, k, up, i, side);
      } else if i == k.next {
        OuterOk(w, tree, hash, nodes, k, up);
      } else {
        OtherOk(w, tree, hash, nodes, k, up, i, side);
      }
    }
  }

  /** The inner child is the next node to meet. */
  lemma NextFollows(w: Window, tree: seq<nat>, hash: seq<nat>, nodes: map<nat, Node>, k: Walk, up: bool)
    requires Walking(w, tree, hash, nodes, k) && k.next >= w.lowest && Live(w, k.next, k.newest)
    ensures SlotOf(w, k.next, up) != Hole(k, up)
    ensures NextOk(w, Met(nodes, k, up), Stepped(w, tree, k, up))
  {
    hide Dir, Roots, NodeOk, Slot, Tight;
    NextIsApart(w, nodes, k, up, true);
    NextIsApart(w, nodes, k, up, false);
    var slot := SlotOf(w, k.next, up);
    var c := tree[slot];
    assert ChildOk(w, nodes, k.next, up, c, slot);
    if c >= w.lowest {
      TightTransitive(w, !up, Bound(nodes[c], !up), Bound(nodes[k.next], !up), Last(k, !up));
    }
  }

  /** One step down keeps everything in order. */
  lemma WalkSteps(w: Window, tree: seq<nat>, hash: seq<nat>, nodes: map<nat, Node>, k: Walk, up: bool)
    requires Walking(w, tree, hash, nodes, k) && k.next >= w.lowest && Dir(w, up, k.next, k.newest)
    requires Live(w, k.next, k.newest)
    ensures Hole(k, up) < |tree|
    ensures var tree' := tree[Hole(k, up) := k.next];
            Walking(w, tree', hash, Met(nodes, k, up), Stepped(w, tree', k, up))
  {
    hide Dir, NodeOk, Slot, Tight, Forest, Roots, ChildOk;
    MetForest(w, tree, hash, nodes, k, up);
    RootsKept(w, tree, hash, nodes, k, up);
    NextFollows(w, tree, hash, nodes, k, up);
    ForestShape(w, tree, nodes, k.newest, {k.lowSlot, k.highSlot});
    var tree' := tree[Hole(k, up) := k.next];
    var after, k' := Met(nodes, k, up), Stepped(w, tree', k, up);
    assert k' == Stepped(w, tree, k, up);
    assert SideOk(w, after, k', up);
    assert SideOk(w, nodes, k, !up);
    assert Last(k', !up) == Last(k, !up) && Hole(k', !up) == Hole(k, !up);
    assert SideOk(w, after, k', !up);
    assert {SlotOf(w, k.next, up), Hole(k, !up)} == {k'.lowSlot, k'.highSlot};
  }

  lemma ForestShape(w: Window, tree: seq<nat>, nodes: map<nat, Node>, newest: nat, holes: set<nat>)
    requires Forest(w, tree, nodes, newest, holes)
    ensures 0 < w.lowest && w.offset <= w.lowest && w.size > 1 && 2 * w.size <= |tree|
  {
    hide Dir, NodeOk, Slot, Tight, ChildOk;
  }

  /** An empty slot is in order. */
  lemma Emptied(w: Window, tree: seq<nat>, nodes: map<nat, Node>, newest: nat, slot: nat, holes: set<nat>)
    requires Forest(w, tree, nodes, newest, holes + {slot}) && slot < |tree|
    ensures Forest(w, tree[slot := 0], nodes, newest, holes)
  {
    hide Dir, NodeOk, Slot, Tight;
  }

  /** Ending the walk anywhere: both waiting slots are emptied. */
  lemma WalkEnds(w: Window, tree: seq<nat>, hash: seq<nat>, nodes: map<nat, Node>, k: Walk)
    requires Walking(w, tree, hash, nodes, k)
    ensures k.lowSlot < |tree| && k.highSlot < |tree|
    ensures Forest(w, tree[k.lowSlot := 0][k.highSlot := 0], nodes, k.newest, {}) && Roots(w, hash, nodes)
  {
    hide Dir, NodeOk, Slot, Tight, ChildOk, Forest, SideOk, NextOk, Roots;
    ForestShape(w, tree, nodes, k.newest, {k.lowSlot, k.highSlot});
    var owner, side := HoleOwner(w, nodes, k, true);
    owner, side := HoleOwner(w, nodes, k, false);
    assert {k.highSlot} + {k.lowSlot} == {k.lowSlot, k.highSlot};
    Emptied(w, tree, nodes, k.newest, k.lowSlot, {k.highSlot});
    assert {} + {k.highSlot} == {k.highSlot};
    Emptied(w, tree[k.lowSlot := 0], nodes, k.newest, k.highSlot, {});
  }

  /** Ending it at a node whose slots may already be reused: that node is still linked. */
  lemma WalkEndsAtDead(w: Window, tree: seq<nat>, hash: seq<nat>, nodes: map<nat, Node>, k: Walk, up: bool)
    requires Walking(w, tree, hash, nodes, k) && k.next >= w.lowest && Dir(w, up, k.next, k.newest)
    requires !Live(w, k.next, k.newest)
    ensures k.lowSlot < |tree| && k.highSlot < |tree|
    ensures Forest(w, tree[Hole(k, up) := k.next][Hole(k, !up) := 0], Met(nodes, k, up), k.newest, {})
    ensures Roots(w, hash, Met(nodes, k, up))
  {
    hide Dir, NodeOk, Slot, Tight, ChildOk, Forest, SideOk, NextOk, Roots;
    ForestShape(w, tree, nodes, k.newest, {k.lowSlot, k.highSlot});
    var owner, side := HoleOwner(w, nodes, k, true);
    owner, side := HoleOwner(w, nodes, k, false);
    MetForest(w, tree, hash, nodes, k, up);
    RootsKept(w, tree, hash, nodes, k, up);
    assert {} + {Hole(k, !up)} == {Hole(k, !up)};
    Emptied(w, tree[Hole(k, up) := k.next], Met(nodes, k, up), k.newest, Hole(k, !up), {});
  }

  // ---------------------------------------------------------------- between insertions

  /** Indices that fall below the window stop mattering. */
  lemma ForestForgets(w: Window, tree: seq<nat>, hash: seq<nat>, nodes: map<nat, Node>, newest: nat, lowest: nat)
    requires Forest(w, tree, nodes, newest, {}) && Roots(w, hash, nodes) && lowest >= w.lowest
    ensures Forest(w.(lowest := lowest), tree, nodes, newest, {}) && Roots(w.(lowest := lowest), hash, nodes)
  {
    hide Dir, Tight, ChildOk, NodeOk;
    var w' := w.(lowest := lowest);
    forall i | i in nodes && i >= w'.lowest
      ensures NodeOk(w', nodes[i], i)
    {
      NodeForgets(w, nodes[i], i, lowest);
    }
    forall i, up | i in nodes && Live(w', i, newest) && SlotOf(w', i, up) !in {}
      ensures ChildOk(w', nodes, i, up, tree[SlotOf(w', i, up)], SlotOf(w', i, up))
    {
      assert Live(w, i, newest) && SlotOf(w, i, up) == SlotOf(w', i, up);
      ChildForgets(w, nodes, i, up, tree[SlotOf(w, i, up)], SlotOf(w, i, up), lowest);
    }
  }

  lemma NodeForgets(w: Window, node: Node, i: nat, lowest: nat)
    requires NodeOk(w, node, i)
    ensures NodeOk(w.(lowest := lowest), node, i)
  {
    hide Before;
    forall up | Bound(node, up) != 0
      ensures Bound(node, up) > i && Dir(w.(lowest := lowest), up, Bound(node, up), i)
    {
      assert Dir(w, up, Bound(node, up), i);
    }
  }

  lemma ChildForgets(w: Window, nodes: map<nat, Node>, i: nat, up: bool, c: nat, slot: nat, lowest: nat)
    requires i in nodes && ChildOk(w, nodes, i, up, c, slot) && lowest >= w.lowest
    ensures ChildOk(w.(lowest := lowest), nodes, i, up, c, slot)
  {
    hide Before;
  }

  /** Shifting the indices past every node forgets them all. */
  lemma ForestShifts(w: Window, w': Window, tree: seq<nat>, hash: seq<nat>, nodes: map<nat, Node>, newest: nat)
    requires Forest(w, tree, nodes, newest, {}) && Roots(w, hash, nodes)
    requires w'.lowest > newest && w'.offset <= w'.lowest && w'.size == w.size && w'.lowest >= w.lowest
    ensures Forest(w', tree, nodes, newest, {}) && Roots(w', hash, nodes)
  {
    hide Before, ChildOk, NodeOk;
  }

  lemma DirGrows(w: Window, more: seq<byte>, up: bool, i: nat, j: nat)
    requires Dir(w, up, i, j)
    ensures Dir(w.(text := w.text + more), up, i, j)
  {
    hide Before;
    if up {
      BeforeGrows(w.text, more, Pos(w, i), Pos(w, j));
    } else {
      BeforeGrows(w.text, more, Pos(w, j), Pos(w, i));
    }
  }

  /** A longer text keeps the forest. */
  lemma ForestGrows(w: Window, more: seq<byte>, tree: seq<nat>, hash: seq<nat>, nodes: map<nat, Node>, newest: nat)
    requires Forest(w, tree, nodes, newest, {}) && Roots(w, hash, nodes)
    ensures var w' := w.(text := w.text + more); Forest(w', tree, nodes, newest, {}) && Roots(w', hash, nodes)
  {
    hide Dir;
    var w' := w.(text := w.text + more);
    forall up, i, j | Dir(w, up, i, j)
      ensures Dir(w', up, i, j)
    {
      DirGrows(w, more, up, i, j);
    }
    forall i, up | i in nodes && Live(w', i, newest) && SlotOf(w', i, up) !in {}
      ensures ChildOk(w', nodes, i, up, tree[SlotOf(w', i, up)], SlotOf(w', i, up))
    {
      assert Live(w, i, newest) && SlotOf(w, i, up) == SlotOf(w', i, up);
    }
  }

  /** No nodes at all. */
  lemma EmptyForest(w: Window, tree: seq<nat>, hash: seq<nat>, newest: nat)
    requires 0 < w.lowest && w.offset <= w.lowest && w.size > 1 && 2 * w.size <= |tree|
    requires forall h :: 0 <= h < |hash| ==> hash[h] == 0
    ensures Forest(w, tree, map[], newest, {}) && Roots(w, hash, map[])
  {
  }
}
