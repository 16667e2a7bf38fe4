/**
 The level-of-detail walk of `VisTree` (src/VisTree.cc): `UpdateLod` and
 its recursive helper `updateLod`, which turns the node it visits into an
 inner node, gives it all four children, recurses into the children whose
 rectangle contains the viewer and releases the subtrees of the others.

 The walk keeps the arena consistent: the nodes of the visited subtree and
 the free stack together hold the same indices before and after, none of
 them twice, nodes elsewhere are untouched, and every geom index the
 subtree drops is handed to the pool.
 */
module VisTreeLod {
  import opened IntMath
  import opened VisTreeTypes
  import opened VisTreeArena

  /**
   The subtree at `n` is a tree of height at most `h` and neither it nor
   the free stack repeats a node, nor do they share one.
   */
  ghost predicate Owns(t: VisTree, n: int, h: nat) {
    IsTree(t.nodes, n, h) && Distinct(t.freeNodes + Subtree(t.nodes, n, h))
  }

  /**
   From `s` to `s'` the subtree at `n` and the free stack exchange nodes
   without losing or duplicating any, the pool is handed exactly the geoms
   that left the subtree's leaves (after those handed to it before),
   the root index is kept, and no node outside the free stack and the
   subtree changes.
   */
  ghost predicate Conserves(s: Step, s': Step, n: int, h: nat)
    requires IsTree(s.tree.nodes, n, h) && IsTree(s'.tree.nodes, n, h)
  {
    && multiset(s'.tree.freeNodes) + multiset(Subtree(s'.tree.nodes, n, h))
       == multiset(s.tree.freeNodes) + multiset(Subtree(s.tree.nodes, n, h))
    && s.freed <= s'.freed
    && multiset(s'.freed) + multiset(LeafGeoms(s'.tree.nodes, n, h))
       == multiset(s.freed) + multiset(LeafGeoms(s.tree.nodes, n, h))
    && s'.tree.rootNode == s.tree.rootNode
    && forall k {:trigger Outside(s, n, h, k)} :: Outside(s, n, h, k) ==> s'.tree.nodes[k] == s.tree.nodes[k]
  }

  /** Node `k` is neither free nor part of the subtree at `n`. */
  ghost predicate Outside(s: Step, n: int, h: nat, k: int)
    requires IsTree(s.tree.nodes, n, h)
  {
    0 <= k < MaxNumNodes && k !in s.tree.freeNodes && k !in Subtree(s.tree.nodes, n, h)
  }

  /**
   `Done` with the new state, or `NodeExhausted` with the state reached
   when the free stack ran dry, where the source would pop an empty array.
   */
  datatype LodResult = Done(step: Step) | NodeExhausted(step: Step)

  /**
   `s'` is where a walk from `s` stopped for want of free nodes: the free
   stack is empty, and the subtree at `n` is still exclusively owned and
   conserved.
   */
  ghost predicate Stopped(s: Step, s': Step, n: int, h: nat)
    requires IsTree(s.tree.nodes, n, h)
  {
    && s'.tree.freeNodes == []
    && Owns(s'.tree, n, h)
    && Conserves(s, s', n, h)
  }

  /** The child rectangle exactly as the loop body writes it (only the low edges are offset by the half). */
  function ChildBounds(b: Bounds, halfX: int, halfY: int, x: nat, y: nat): Bounds {
    Bounds(b.x0 + x * halfX, b.x1 + halfX, b.y0 + y * halfY, b.y1 + halfY)
  }

  /** The rectangle of child `(y<<1)|x`, with the halves computed from the parent's rectangle as the loop does. */
  function ChildRect(b: Bounds, x: nat, y: nat): Bounds {
    ChildBounds(b, TruncHalf(b.x1 - b.x0), TruncHalf(b.y1 - b.y0), x, y)
  }

  //----------------------------------------------------------------------------
  // The shape the walk leaves behind
  //----------------------------------------------------------------------------

  /**
   What `updateLod` leaves at node `n`, visited with rectangle `b` for a
   viewer at `addr`: an inner node whose four child slots each hold a node
   settled for its own child rectangle.
   */
  ghost predicate Refined(nodes: NodeArray, n: int, b: Bounds, addr: Address)
    decreases NumLevels - addr.level, 2
  {
    && addr.level < NumLevels
    && 0 <= n < MaxNumNodes
    && !nodes[n].IsLeaf()
    && SlotSettled(nodes, n, b, addr, 0) && SlotSettled(nodes, n, b, addr, 1)
    && SlotSettled(nodes, n, b, addr, 2) && SlotSettled(nodes, n, b, addr, 3)
  }

  /** Slot `c` of `n` holds a node settled for the rectangle of child `c`. */
  ghost predicate SlotSettled(nodes: NodeArray, n: int, b: Bounds, addr: Address, c: nat)
    decreases NumLevels - addr.level, 1
  {
    && 0 <= n < MaxNumNodes && c < 4
    && Settled(nodes, nodes[n].slots[c], ChildRect(b, c % 2, c / 2), addr)
  }

  /**
   A real node `ch` with rectangle `cb`: when `cb` contains the viewer and
   a level remains below, it is refined in turn; when `cb` does not contain
   the viewer, it is a leaf or has no children left.
   */
  ghost predicate Settled(nodes: NodeArray, ch: int, cb: Bounds, addr: Address)
    decreases NumLevels - addr.level, 0
  {
    && 0 <= ch < MaxNumNodes
    && if cb.Inside(addr.x, addr.y) then
         addr.level + 1 < NumLevels ==> Refined(nodes, ch, cb, Address(addr.level + 1, addr.x, addr.y))
       else
         nodes[ch].IsLeaf() || nodes[ch].slots == NoSlots
  }

  /** The slots visited by the first `k` passes of the loop (0, 2, 1, 3) are settled. */
  ghost predicate Visited(nodes: NodeArray, n: int, b: Bounds, addr: Address, k: nat) {
    && (k > 0 ==> SlotSettled(nodes, n, b, addr, 0))
    && (k > 1 ==> SlotSettled(nodes, n, b, addr, 2))
    && (k > 2 ==> SlotSettled(nodes, n, b, addr, 1))
    && (k > 3 ==> SlotSettled(nodes, n, b, addr, 3))
  }

  /**
   From `cur` to `nxt`, apart from node `p` itself, only free nodes and
   the nodes under slot `c` of `p` may change.
   */
  ghost predicate SlotFrame(cur: Step, nxt: Step, p: int, c: nat, h: nat) {
    && c < 4
    && ChildrenAreTrees(cur.tree.nodes, p, 0, h)
    && forall k ::
         (0 <= k < MaxNumNodes && k != p && k !in cur.tree.freeNodes &&
          k !in SlotNodes(cur.tree.nodes, cur.tree.nodes[p].slots[c], h)) ==> nxt.tree.nodes[k] == cur.tree.nodes[k]
  }

  /**
   `s'` is `s` after `CreateLeaf` on node `n`: the nodes below `n` are
   pushed on the free stack in post-order, the geoms of the subtree's
   leaves go to the pool, and `n` keeps its flags but loses its children.
   */
  ghost predicate Released(s: Step, s': Step, n: int, h: nat) {
    && 0 <= n < MaxNumNodes
    && IsTree(s.tree.nodes, n, h)
    && (var S := Subtree(s.tree.nodes, n, h);
        && |S| > 0 && S[|S| - 1] == n
        && s'.tree.freeNodes == s.tree.freeNodes + S[..|S| - 1]
        && s'.freed == s.freed + LeafGeoms(s.tree.nodes, n, h)
        && s'.tree.nodes[n] == Cleared(s.tree.nodes[n]))
  }

  /** Writes child slot `c` of node `index`. */
  function SetChild(s: Step, index: NodeIndex, c: nat, v: Int16): Step
    requires c < 4
  {
    s.(tree := s.tree.(nodes := s.tree.nodes[index := s.tree.nodes[index].SetSlot(c, v)]))
  }

  /**
   `updateLod` on node `index` at address `addr` with rectangle `bounds`.
   A visited leaf first hands its geoms to the pool and becomes an inner
   node; the node then ends up with four valid children, each refined or
   released according to whether its rectangle contains the viewer.
   Recursion stops one level above `NumLevels`, so it terminates.
   */
  method UpdateLodAt(s: Step, index: NodeIndex, bounds: Bounds, addr: Address) returns (r: LodResult)
    requires addr.level < NumLevels
    requires Owns(s.tree, index, NumLevels - addr.level)
    ensures r.Done? ==> Owns(r.step.tree, index, NumLevels - addr.level)
    ensures r.Done? ==> Conserves(s, r.step, index, NumLevels - addr.level)
    ensures r.Done? ==> !r.step.tree.nodes[index].IsLeaf()
    ensures r.Done? ==> forall j :: 0 <= j < 4 ==> 0 <= r.step.tree.nodes[index].Child(j) < MaxNumNodes
    ensures r.Done? ==> Refined(r.step.tree.nodes, index, bounds, addr)
    ensures r.NodeExhausted? ==> Stopped(s, r.step, index, NumLevels - addr.level)
    decreases NumLevels - addr.level, 4
  {
    var h: nat := NumLevels - addr.level;
    var cur := MakeInner(s, index, h);
    assert Progress(s, cur, index, h, 0);
    var k := 0;
    while k < 4
      invariant 0 <= k <= 4 && Progress(s, cur, index, h, k)
      invariant Visited(cur.tree.nodes, index, bounds, addr, k)
    {
      var next := VisitPass(s, cur, index, bounds, addr, k);
      if next.NodeExhausted? {
        return next;
      }
      cur := next.step;
      k := k + 1;
    }
    VisitedAllChildren(cur.tree, index, h);
    r := Done(cur);
  }

  /**
   Pass `k` of the nested x/y loops of `updateLod`, flattened: it visits
   `x = k/2`, `y = k%2` and keeps the loop invariant, or stops the walk.
   */
  method VisitPass(s: Step, cur: Step, index: NodeIndex, bounds: Bounds, addr: Address, k: nat) returns (r: LodResult)
    requires addr.level < NumLevels && k < 4
    requires Progress(s, cur, index, NumLevels - addr.level, k)
    requires Visited(cur.tree.nodes, index, bounds, addr, k)
    ensures r.Done? ==> Progress(s, r.step, index, NumLevels - addr.level, k + 1)
    ensures r.Done? ==> Visited(r.step.tree.nodes, index, bounds, addr, k + 1)
    ensures r.NodeExhausted? ==> Stopped(s, r.step, index, NumLevels - addr.level)
    decreases NumLevels - addr.level, 3
  {
    var h: nat := NumLevels - addr.level;
    r := VisitChild(cur, index, bounds, addr, k / 2, k % 2);
    if r.NodeExhausted? {
      StoppedAfter(s, cur, r.step, index, h);
      return;
    }
    ProgressStep(s, cur, r.step, index, h, k);
    VisitedStep(cur, r.step, index, bounds, addr, h, k);
  }

  /**
   One pass of the loop body of `updateLod`, for child `(y<<1)|x`: the
   slot gets a node (freshly allocated if it was empty), and then the
   child is either visited one level down, when its rectangle contains
   the viewer, or has its children released, when it is not a leaf. The
   other three slots keep their values, and so do the nodes below them.
   */
  method VisitChild(cur: Step, index: NodeIndex, bounds: Bounds, addr: Address, x: nat, y: nat)
    returns (r: LodResult)
    requires addr.level < NumLevels && x < 2 && y < 2
    requires Owns(cur.tree, index, NumLevels - addr.level) && !cur.tree.nodes[index].IsLeaf()
    ensures r.Done? ==> Owns(r.step.tree, index, NumLevels - addr.level)
    ensures r.Done? ==> Conserves(cur, r.step, index, NumLevels - addr.level)
    ensures r.Done? ==> !r.step.tree.nodes[index].IsLeaf()
    ensures r.Done? ==> r.step.tree.nodes[index].Child(2 * y + x) != InvalidIndex
    ensures r.Done? ==> forall j :: 0 <= j < 4 && j != 2 * y + x ==>
      r.step.tree.nodes[index].Child(j) == cur.tree.nodes[index].Child(j)
    ensures r.Done? ==> SlotSettled(r.step.tree.nodes, index, bounds, addr, 2 * y + x)
    ensures r.Done? ==> SlotFrame(cur, r.step, index, 2 * y + x, NumLevels - addr.level)
    ensures r.NodeExhausted? ==> Stopped(cur, r.step, index, NumLevels - addr.level)
    decreases NumLevels - addr.level, 2
  {
    var h: nat := NumLevels - addr.level;
    var c := 2 * y + x;
    var filled := FillSlot(cur, index, c, h);
    if filled.NodeExhausted? {
      return filled;
    }
    var s1 := filled.step;
    var settled := SettleChild(s1, index, ChildRect(bounds, x, y), addr, c);
    if settled.NodeExhausted? {
      StoppedAfter(cur, s1, settled.step, index, h);
      return settled;
    }
    VisitStep(cur, s1, settled.step, index, bounds, addr, x, y);
    r := settled;
  }

  /**
   The second half of the loop body, for the node in slot `c` whose
   rectangle is `cb`: visited one level down when `cb` contains the
   viewer (and a level below exists), otherwise released unless it is
   already a leaf. The parent node itself is left as it is.
   */
  method SettleChild(s1: Step, index: NodeIndex, cb: Bounds, addr: Address, c: nat) returns (r: LodResult)
    requires addr.level < NumLevels && c < 4
    requires Owns(s1.tree, index, NumLevels - addr.level) && !s1.tree.nodes[index].IsLeaf()
    requires 0 <= s1.tree.nodes[index].Child(c) < MaxNumNodes
    ensures r.Done? ==> Owns(r.step.tree, index, NumLevels - addr.level)
    ensures r.Done? ==> Conserves(s1, r.step, index, NumLevels - addr.level)
    ensures r.Done? ==> r.step.tree.nodes[index] == s1.tree.nodes[index]
    ensures r.Done? ==> Settled(r.step.tree.nodes, s1.tree.nodes[index].Child(c), cb, addr)
    ensures r.Done? ==> SlotFrame(s1, r.step, index, c, NumLevels - addr.level)
    ensures !cb.Inside(addr.x, addr.y) ==> r.Done?
    ensures !cb.Inside(addr.x, addr.y) && !s1.tree.nodes[s1.tree.nodes[index].Child(c)].IsLeaf() ==>
      Released(s1, r.step, s1.tree.nodes[index].Child(c), NumLevels - addr.level - 1)
    ensures !cb.Inside(addr.x, addr.y) && s1.tree.nodes[s1.tree.nodes[index].Child(c)].IsLeaf() ==> r == Done(s1)
    ensures cb.Inside(addr.x, addr.y) && addr.level + 1 == NumLevels ==> r == Done(s1)
    ensures r.NodeExhausted? ==> Stopped(s1, r.step, index, NumLevels - addr.level)
    decreases NumLevels - addr.level, 1
  {
    var h: nat := NumLevels - addr.level;
    var child := s1.tree.nodes[index].Child(c);
    if cb.Inside(addr.x, addr.y) && addr.level + 1 < NumLevels {
      r := DescendChild(s1, index, cb, addr, c);
    } else if !cb.Inside(addr.x, addr.y) && !s1.tree.nodes[child].IsLeaf() {
      var s2 := ReleaseChild(s1, index, c, h);
      r := Done(s2);
    } else {
      KeepChild(s1, index, cb, addr, c);
      r := Done(s1);
    }
  }

  /** The recursive call of the loop body: the child at slot `c` is visited one level down. */
  method DescendChild(s1: Step, index: NodeIndex, cb: Bounds, addr: Address, c: nat) returns (r: LodResult)
    requires addr.level + 1 < NumLevels && c < 4
    requires Owns(s1.tree, index, NumLevels - addr.level) && !s1.tree.nodes[index].IsLeaf()
    requires 0 <= s1.tree.nodes[index].Child(c) < MaxNumNodes
    ensures r.Done? ==> Owns(r.step.tree, index, NumLevels - addr.level)
    ensures r.Done? ==> Conserves(s1, r.step, index, NumLevels - addr.level)
    ensures r.Done? ==> r.step.tree.nodes[index] == s1.tree.nodes[index]
    ensures r.Done? ==> Refined(r.step.tree.nodes, s1.tree.nodes[index].Child(c), cb, Address(addr.level + 1, addr.x, addr.y))
    ensures r.Done? ==> SlotFrame(s1, r.step, index, c, NumLevels - addr.level)
    ensures r.NodeExhausted? ==> Stopped(s1, r.step, index, NumLevels - addr.level)
    decreases NumLevels - addr.level, 0
  {
    var h: nat := NumLevels - addr.level;
    var child := s1.tree.nodes[index].Child(c);
    ChildOwned(s1, index, c, h);
    var down := UpdateLodAt(s1, child, cb, Address(addr.level + 1, addr.x, addr.y));
    RecurseStep(s1, down.step, index, c, h);
    r := down;
  }

  /**
   The loop invariant of `updateLod`: the subtree is still owned and
   conserved, the node is inner, and the first `k` visited slots
   (0, 2, 1, 3 in the order of the nested loops) hold nodes.
   */
  ghost predicate Progress(s: Step, cur: Step, index: NodeIndex, h: nat, k: nat) {
    && Owns(s.tree, index, h) && Owns(cur.tree, index, h)
    && !cur.tree.nodes[index].IsLeaf()
    && Conserves(s, cur, index, h)
    && (k > 0 ==> cur.tree.nodes[index].slots[0] != InvalidIndex)
    && (k > 1 ==> cur.tree.nodes[index].slots[2] != InvalidIndex)
    && (k > 2 ==> cur.tree.nodes[index].slots[1] != InvalidIndex)
    && (k > 3 ==> cur.tree.nodes[index].slots[3] != InvalidIndex)
  }

  /** One pass of the loop keeps `Progress` and fills the slot it visited. */
  lemma ProgressStep(s: Step, cur: Step, nxt: Step, index: NodeIndex, h: nat, k: nat)
    requires k < 4 && Progress(s, cur, index, h, k)
    requires Owns(nxt.tree, index, h) && Conserves(cur, nxt, index, h)
    requires !nxt.tree.nodes[index].IsLeaf()
    requires nxt.tree.nodes[index].Child(2 * (k % 2) + k / 2) != InvalidIndex
    requires forall j :: 0 <= j < 4 && j != 2 * (k % 2) + k / 2 ==>
      nxt.tree.nodes[index].Child(j) == cur.tree.nodes[index].Child(j)
    ensures Progress(s, nxt, index, h, k + 1)
  {
    ConservesTrans(s, cur, nxt, index, h);
    var a := cur.tree.nodes[index];
    var b := nxt.tree.nodes[index];
    if k == 0 {
      assert b.Child(0) != InvalidIndex;
    } else if k == 1 {
      assert b.Child(2) != InvalidIndex && b.Child(0) == a.Child(0);
    } else if k == 2 {
      assert b.Child(1) != InvalidIndex && b.Child(0) == a.Child(0) && b.Child(2) == a.Child(2);
    } else {
      assert b.Child(3) != InvalidIndex && b.Child(0) == a.Child(0) && b.Child(2) == a.Child(2) && b.Child(1) == a.Child(1);
    }
  }

  /** The head of `updateLod`: a leaf hands its geoms to the pool and loses its `Leaf` flag. */
  method MakeInner(s: Step, index: NodeIndex, h: nat) returns (r: Step)
    requires Owns(s.tree, index, h)
    ensures Owns(r.tree, index, h) && Conserves(s, r, index, h)
    ensures !r.tree.nodes[index].IsLeaf()
    ensures !s.tree.nodes[index].IsLeaf() ==> r == s
    ensures s.tree.nodes[index].IsLeaf() ==> r.freed == s.freed + ValidSlots(s.tree.nodes[index].slots)
  {
    if s.tree.nodes[index].IsLeaf() {
      var s1 := FreeGeoms(s, index);
      var node := s1.tree.nodes[index];
      r := s1.(tree := s1.tree.(nodes := s1.tree.nodes[index := node.(flags := node.flags & !FlagLeaf)]));
      UnleafStep(s, r, index, h);
    } else {
      ConservesRefl(s, index, h);
      r := s;
    }
  }

  /** The allocation at the top of the loop body: an empty slot `c` gets a fresh node. */
  method FillSlot(cur: Step, index: NodeIndex, c: nat, h: nat) returns (r: LodResult)
    requires c < 4 && h > 0
    requires Owns(cur.tree, index, h) && !cur.tree.nodes[index].IsLeaf()
    ensures r.NodeExhausted? <==> cur.tree.nodes[index].Child(c) == InvalidIndex && |cur.tree.freeNodes| == 0
    ensures r.Done? ==> Owns(r.step.tree, index, h) && Conserves(cur, r.step, index, h)
    ensures r.Done? ==> !r.step.tree.nodes[index].IsLeaf()
    ensures r.Done? ==> 0 <= r.step.tree.nodes[index].Child(c) < MaxNumNodes
    ensures r.Done? ==> cur.tree.nodes[index].Child(c) != InvalidIndex ==> r.step == cur
    ensures r.Done? ==> r.step.tree.nodes[index] == cur.tree.nodes[index].SetSlot(c, r.step.tree.nodes[index].Child(c))
    ensures r.Done? && cur.tree.nodes[index].Child(c) == InvalidIndex ==>
      && |cur.tree.freeNodes| > 0
      && r.step.tree.nodes[index].Child(c) == cur.tree.freeNodes[|cur.tree.freeNodes| - 1]
      && r.step.tree.freeNodes == cur.tree.freeNodes[..|cur.tree.freeNodes| - 1]
      && r.step.tree.nodes[r.step.tree.nodes[index].Child(c)] == FreshNode
    ensures r.Done? ==> SlotFrame(cur, r.step, index, c, h)
    ensures r.NodeExhausted? ==> r.step == cur && r.step.tree.freeNodes == []
  {
    if cur.tree.nodes[index].Child(c) != InvalidIndex {
      ConservesRefl(cur, index, h);
      OwnedChildrenInRange(cur.tree, index, h);
      assert cur.tree.nodes[index].SetSlot(c, cur.tree.nodes[index].Child(c)).slots == cur.tree.nodes[index].slots;
      StillFrame(cur, index, c, h);
      return Done(cur);
    }
    if |cur.tree.freeNodes| == 0 {
      return NodeExhausted(cur);
    }
    var a := AllocNode(cur.tree);
    var nxt := SetChild(Step(a.tree, cur.freed), index, c, a.index);
    AllocStep(cur, nxt, index, c, h);
    OwnedNodesAreBusy(cur.tree, index, h);
    RootIsLast(cur.tree.nodes, index, h);
    ghost var S := Subtree(cur.tree.nodes, index, h);
    assert index == S[|S| - 1] && index in S;
    assert a.index in cur.tree.freeNodes;
    assert a.index != index;
    r := Done(nxt);
  }

  /** The release branch of the loop body: the child at slot `c` gives back all of its children. */
  method ReleaseChild(s1: Step, index: NodeIndex, c: nat, h: nat) returns (s2: Step)
    requires c < 4 && h > 0
    requires Owns(s1.tree, index, h) && !s1.tree.nodes[index].IsLeaf()
    requires 0 <= s1.tree.nodes[index].Child(c) < MaxNumNodes
    requires !s1.tree.nodes[s1.tree.nodes[index].Child(c)].IsLeaf()
    ensures Owns(s2.tree, index, h) && Conserves(s1, s2, index, h)
    ensures s2.tree.nodes[index] == s1.tree.nodes[index]
    ensures Released(s1, s2, s1.tree.nodes[index].Child(c), h - 1)
    ensures SlotFrame(s1, s2, index, c, h)
  {
    var child := s1.tree.nodes[index].Child(c);
    ChildOwned(s1, index, c, h);
    s2 := CreateLeaf(s1, child, h - 1);
    ghost var S := Subtree(s1.tree.nodes, child, h - 1);
    RootIsLast(s1.tree.nodes, child, h - 1);
    assert S == S[..|S| - 1] + [child];
    ReleaseStep(s1, s2, index, c, h);
  }

  /**
   `UpdateLod(x, y)`: the walk from the root at level 0 with the rectangle
   `[0, 1<<NumLevels)` in both axes. The root must already be a node.
   */
  method UpdateLod(s: Step, x: UInt8, y: UInt8) returns (r: LodResult)
    requires Owns(s.tree, s.tree.rootNode, NumLevels)
    ensures r.Done? ==> Owns(r.step.tree, s.tree.rootNode, NumLevels)
    ensures r.Done? ==> Conserves(s, r.step, s.tree.rootNode, NumLevels)
    ensures r.Done? ==> forall j :: 0 <= j < 4 ==> 0 <= r.step.tree.nodes[s.tree.rootNode].Child(j) < MaxNumNodes
    ensures r.Done? ==> Refined(r.step.tree.nodes, s.tree.rootNode, Bounds(0, Pow2(NumLevels), 0, Pow2(NumLevels)), Address(0, x, y))
    ensures r.NodeExhausted? ==> Stopped(s, r.step, s.tree.rootNode, NumLevels)
  {
    var addr := Address(0, x, y);
    var bounds := Bounds(0, Pow2(NumLevels), 0, Pow2(NumLevels));
    r := UpdateLodAt(s, s.tree.rootNode, bounds, addr);
  }

  //----------------------------------------------------------------------------
  // Consequences of ownership and conservation
  //----------------------------------------------------------------------------

  /** A stop after a conserving prefix of the walk is a stop of the whole walk. */
  lemma StoppedAfter(s: Step, cur: Step, nxt: Step, n: int, h: nat)
    requires Owns(s.tree, n, h) && Owns(cur.tree, n, h) && Conserves(s, cur, n, h)
    requires Stopped(cur, nxt, n, h)
    ensures Stopped(s, nxt, n, h)
  {
    ConservesTrans(s, cur, nxt, n, h);
  }

  /** Conservation keeps the subtree and the free stack free of repeats. */
  lemma ConservesKeepsDistinct(s: Step, s': Step, n: int, h: nat)
    requires Owns(s.tree, n, h) && IsTree(s'.tree.nodes, n, h)
    requires Conserves(s, s', n, h)
    ensures Owns(s'.tree, n, h)
  {
    var a := s.tree.freeNodes + Subtree(s.tree.nodes, n, h);
    var b := s'.tree.freeNodes + Subtree(s'.tree.nodes, n, h);
    assert multiset(a) == multiset(b);
    DistinctSub(b, a);
  }

  /** Ownership means every node of the subtree is a real node, and none of them is free. */
  lemma OwnedNodesAreBusy(t: VisTree, n: int, h: nat)
    requires Owns(t, n, h)
    ensures forall k :: k in Subtree(t.nodes, n, h) ==> 0 <= k < MaxNumNodes && k !in t.freeNodes
  {
    DistinctParts(t.freeNodes, Subtree(t.nodes, n, h));
  }

  /** The child slots of an owned inner node that are not empty hold real node indices. */
  lemma OwnedChildrenInRange(t: VisTree, n: int, h: nat)
    requires Owns(t, n, h) && !t.nodes[n].IsLeaf()
    ensures forall j :: 0 <= j < 4 && t.nodes[n].Child(j) != InvalidIndex ==> 0 <= t.nodes[n].Child(j) < MaxNumNodes
  {
    forall j | 0 <= j < 4 && t.nodes[n].Child(j) != InvalidIndex
      ensures 0 <= t.nodes[n].Child(j) < MaxNumNodes
    {
      var c := t.nodes[n].slots[j];
      assert SlotIsTree(t.nodes, c, h);
      assert h > 0 && IsTree(t.nodes, c, h - 1);
    }
  }

  /** The four loop steps visit the four quadrants, so after them every slot holds a real node. */
  lemma VisitedAllChildren(t: VisTree, n: int, h: nat)
    requires Owns(t, n, h) && !t.nodes[n].IsLeaf()
    requires t.nodes[n].Child(0) != InvalidIndex && t.nodes[n].Child(1) != InvalidIndex
    requires t.nodes[n].Child(2) != InvalidIndex && t.nodes[n].Child(3) != InvalidIndex
    ensures forall j :: 0 <= j < 4 ==> 0 <= t.nodes[n].Child(j) < MaxNumNodes
  {
    OwnedChildrenInRange(t, n, h);
  }

  lemma ConservesRefl(s: Step, n: int, h: nat)
    requires IsTree(s.tree.nodes, n, h)
    ensures Conserves(s, s, n, h)
  {
  }

  lemma ConservesTrans(a: Step, b: Step, c: Step, n: int, h: nat)
    requires IsTree(a.tree.nodes, n, h) && IsTree(b.tree.nodes, n, h) && IsTree(c.tree.nodes, n, h)
    requires Conserves(a, b, n, h) && Conserves(b, c, n, h)
    ensures Conserves(a, c, n, h)
  {
    var ma := multiset(a.tree.freeNodes) + multiset(Subtree(a.tree.nodes, n, h));
    forall k | Outside(a, n, h, k)
      ensures c.tree.nodes[k] == a.tree.nodes[k]
    {
      assert ma[k] == 0;
      assert multiset(b.tree.freeNodes)[k] == 0 && multiset(Subtree(b.tree.nodes, n, h))[k] == 0;
      assert Outside(b, n, h, k);
    }
  }

  /**
   Swapping `O` for `N` on both sides: if the free stack gains what a slot
   loses and the children lose what the slot gains, the sum is unchanged.
   */
  lemma Exchange(F': multiset<int>, N: multiset<int>, F: multiset<int>, O: multiset<int>, C': multiset<int>, C: multiset<int>,
                  P: multiset<int>)
    requires F' + N == F + O && C' + O == C + N
    ensures F' + C' == F + C
    ensures F' + (C' + P) == F + (C + P)
  {
    forall x
      ensures (F' + C')[x] == (F + C)[x]
      ensures (F' + (C' + P))[x] == (F + (C + P))[x]
    {
      assert (F' + N)[x] == (F + O)[x];
      assert (C' + O)[x] == (C + N)[x];
    }
  }

  //----------------------------------------------------------------------------
  // One slot of an owned inner node changes
  //----------------------------------------------------------------------------

  /** Nodes of `S` have the same contents in both arrays. */
  ghost predicate Agree(nodes: NodeArray, nodes': NodeArray, S: seq<int>) {
    forall k :: k in S ==> 0 <= k < MaxNumNodes && nodes'[k] == nodes[k]
  }

  /** The slots `i..3` of `p` other than `c` keep their subtrees' nodes. */
  ghost predicate OthersAgree(nodes: NodeArray, nodes': NodeArray, p: int, c: nat, i: nat, h: nat)
    requires ChildrenAreTrees(nodes, p, i, h)
  {
    forall j :: i <= j < 4 && j != c ==> Agree(nodes, nodes', SlotNodes(nodes, nodes[p].slots[j], h))
  }

  /** The nodes under a slot do not depend on nodes outside them. */
  lemma FrameSlot(nodes: NodeArray, nodes': NodeArray, c: int, h: nat)
    requires SlotIsTree(nodes, c, h)
    requires Agree(nodes, nodes', SlotNodes(nodes, c, h))
    ensures SlotIsTree(nodes', c, h)
    ensures SlotNodes(nodes', c, h) == SlotNodes(nodes, c, h)
    ensures SlotGeoms(nodes', c, h) == SlotGeoms(nodes, c, h)
  {
    if c != InvalidIndex {
      FrameSubtree(nodes, nodes', c, h - 1);
    }
  }

  /** Replacing the subtree under slot `c` leaves every slot of the parent a tree. */
  lemma ReplaceSlotTrees(nodes: NodeArray, nodes': NodeArray, p: int, c: nat, i: nat, h: nat)
    requires ChildrenAreTrees(nodes, p, i, h) && c < 4
    requires nodes'[p].flags == nodes[p].flags
    requires forall j :: 0 <= j < 4 && j != c ==> nodes'[p].slots[j] == nodes[p].slots[j]
    requires SlotIsTree(nodes', nodes'[p].slots[c], h)
    requires OthersAgree(nodes, nodes', p, c, i, h)
    ensures ChildrenAreTrees(nodes', p, i, h)
  {
    forall j | i <= j < 4
      ensures SlotIsTree(nodes', nodes'[p].slots[j], h)
    {
      if j != c {
        FrameSlot(nodes, nodes', nodes[p].slots[j], h);
      }
    }
  }

  /**
   Replacing the subtree under slot `c` changes the children's nodes by
   exactly the old subtree out and the new one in.
   */
  lemma {:induction false} ReplaceSlot(nodes: NodeArray, nodes': NodeArray, p: int, c: nat, i: nat, h: nat)
    requires ChildrenAreTrees(nodes, p, i, h) && ChildrenAreTrees(nodes', p, i, h) && c < 4
    requires forall j :: 0 <= j < 4 && j != c ==> nodes'[p].slots[j] == nodes[p].slots[j]
    requires SlotIsTree(nodes', nodes'[p].slots[c], h) && SlotIsTree(nodes, nodes[p].slots[c], h)
    requires OthersAgree(nodes, nodes', p, c, i, h)
    ensures var oldN := if i <= c then multiset(SlotNodes(nodes, nodes[p].slots[c], h)) else multiset{};
      var newN := if i <= c then multiset(SlotNodes(nodes', nodes'[p].slots[c], h)) else multiset{};
      multiset(ChildNodes(nodes', p, i, h)) + oldN == multiset(ChildNodes(nodes, p, i, h)) + newN
    decreases 4 - i
  {
    if i < 4 {
      ReplaceSlot(nodes, nodes', p, c, i + 1, h);
      var a := nodes[p].slots[i];
      var a' := nodes'[p].slots[i];
      if i != c {
        FrameSlot(nodes, nodes', a, h);
      }
      var R' := multiset(ChildNodes(nodes', p, i + 1, h));
      var R := multiset(ChildNodes(nodes, p, i + 1, h));
      assert multiset(ChildNodes(nodes', p, i, h)) == multiset(SlotNodes(nodes', a', h)) + R';
      assert multiset(ChildNodes(nodes, p, i, h)) == multiset(SlotNodes(nodes, a, h)) + R;
      if i == c {
        SwapIn(multiset(SlotNodes(nodes', a', h)), multiset(SlotNodes(nodes, a, h)), R', R);
      } else if i < c {
        Prepend(multiset(SlotNodes(nodes, a, h)), R', R,
                multiset(SlotNodes(nodes, nodes[p].slots[c], h)), multiset(SlotNodes(nodes', nodes'[p].slots[c], h)));
      } else {
        Prepend(multiset(SlotNodes(nodes, a, h)), R', R, multiset{}, multiset{});
      }
    }
  }

  /** The same exchange for the geoms held by the children's leaves. */
  lemma {:induction false} ReplaceSlotGeoms(nodes: NodeArray, nodes': NodeArray, p: int, c: nat, i: nat, h: nat)
    requires ChildrenAreTrees(nodes, p, i, h) && ChildrenAreTrees(nodes', p, i, h) && c < 4
    requires forall j :: 0 <= j < 4 && j != c ==> nodes'[p].slots[j] == nodes[p].slots[j]
    requires SlotIsTree(nodes', nodes'[p].slots[c], h) && SlotIsTree(nodes, nodes[p].slots[c], h)
    requires OthersAgree(nodes, nodes', p, c, i, h)
    ensures var oldG := if i <= c then multiset(SlotGeoms(nodes, nodes[p].slots[c], h)) else multiset{};
      var newG := if i <= c then multiset(SlotGeoms(nodes', nodes'[p].slots[c], h)) else multiset{};
      multiset(ChildGeoms(nodes', p, i, h)) + oldG == multiset(ChildGeoms(nodes, p, i, h)) + newG
    decreases 4 - i
  {
    if i < 4 {
      ReplaceSlotGeoms(nodes, nodes', p, c, i + 1, h);
      var a := nodes[p].slots[i];
      var a' := nodes'[p].slots[i];
      if i != c {
        FrameSlot(nodes, nodes', a, h);
      }
      var R' := multiset(ChildGeoms(nodes', p, i + 1, h));
      var R := multiset(ChildGeoms(nodes, p, i + 1, h));
      assert multiset(ChildGeoms(nodes', p, i, h)) == multiset(SlotGeoms(nodes', a', h)) + R';
      assert multiset(ChildGeoms(nodes, p, i, h)) == multiset(SlotGeoms(nodes, a, h)) + R;
      if i == c {
        SwapIn(multiset(SlotGeoms(nodes', a', h)), multiset(SlotGeoms(nodes, a, h)), R', R);
      } else if i < c {
        Prepend(multiset(SlotGeoms(nodes, a, h)), R', R,
                multiset(SlotGeoms(nodes, nodes[p].slots[c], h)), multiset(SlotGeoms(nodes', nodes'[p].slots[c], h)));
      } else {
        Prepend(multiset(SlotGeoms(nodes, a, h)), R', R, multiset{}, multiset{});
      }
    }
  }

  /** The slot being replaced: new piece in front, old piece out. */
  lemma SwapIn(N: multiset<int>, O: multiset<int>, R': multiset<int>, R: multiset<int>)
    requires R' + multiset{} == R + multiset{}
    ensures (N + R') + O == (O + R) + N
  {
    forall x
      ensures ((N + R') + O)[x] == ((O + R) + N)[x]
    {
      assert (R' + multiset{})[x] == (R + multiset{})[x];
    }
  }

  /** A slot left alone: the same piece in front on both sides. */
  lemma Prepend(S: multiset<int>, R': multiset<int>, R: multiset<int>, O: multiset<int>, N: multiset<int>)
    requires R' + O == R + N
    ensures (S + R') + O == (S + R) + N
  {
    forall x
      ensures ((S + R') + O)[x] == ((S + R) + N)[x]
    {
      assert (R' + O)[x] == (R + N)[x];
    }
  }

  /** Two different child slots of an owned node share no node with each other, the parent or the free stack. */
  lemma SiblingsApart(t: VisTree, p: int, c: nat, j: nat, h: nat)
    requires Owns(t, p, h) && !t.nodes[p].IsLeaf() && c < 4 && j < 4 && j != c
    ensures forall k :: k in SlotNodes(t.nodes, t.nodes[p].slots[j], h) ==>
      k != p && k !in t.freeNodes && k !in SlotNodes(t.nodes, t.nodes[p].slots[c], h)
  {
    var nodes := t.nodes;
    var CN: seq<int> := ChildNodes(nodes, p, 0, h);
    var F: seq<int> := t.freeNodes;
    var D: seq<int> := t.freeNodes + Subtree(nodes, p, h);
    assert D == F + CN + [p];
    assert multiset(D) == multiset(F) + multiset(CN) + multiset{p};
    var A := SlotNodes(nodes, nodes[p].slots[j], h);
    var B := SlotNodes(nodes, nodes[p].slots[c], h);
    if j < c {
      TwoPiecesWithin(nodes, p, 0, j, c, h);
    } else {
      TwoPiecesWithin(nodes, p, 0, c, j, h);
    }
    forall k | k in A
      ensures k != p && k !in t.freeNodes && k !in B
    {
      assert multiset(A)[k] + multiset(B)[k] <= multiset(CN)[k];
      assert multiset(D)[k] <= 1;
    }
  }

  /**
   The lifting step: if the free stack plus the nodes under slot `c` are
   conserved and nothing else owned changes, then the whole subtree at `p`
   is conserved.
   */
  lemma LiftSlot(cur: Step, nxt: Step, p: NodeIndex, c: nat, h: nat)
    requires c < 4
    requires Owns(cur.tree, p, h) && !cur.tree.nodes[p].IsLeaf()
    requires nxt.tree.nodes[p].flags == cur.tree.nodes[p].flags
    requires forall j :: 0 <= j < 4 && j != c ==> nxt.tree.nodes[p].slots[j] == cur.tree.nodes[p].slots[j]
    requires SlotIsTree(nxt.tree.nodes, nxt.tree.nodes[p].slots[c], h)
    requires var oc := cur.tree.nodes[p].slots[c];
      var nc := nxt.tree.nodes[p].slots[c];
      && multiset(nxt.tree.freeNodes) + multiset(SlotNodes(nxt.tree.nodes, nc, h))
         == multiset(cur.tree.freeNodes) + multiset(SlotNodes(cur.tree.nodes, oc, h))
      && cur.freed <= nxt.freed
      && multiset(nxt.freed) + multiset(SlotGeoms(nxt.tree.nodes, nc, h))
         == multiset(cur.freed) + multiset(SlotGeoms(cur.tree.nodes, oc, h))
    requires forall k ::
      (0 <= k < MaxNumNodes && k != p && k !in cur.tree.freeNodes &&
       k !in SlotNodes(cur.tree.nodes, cur.tree.nodes[p].slots[c], h)) ==> nxt.tree.nodes[k] == cur.tree.nodes[k]
    requires nxt.tree.rootNode == cur.tree.rootNode
    ensures Owns(nxt.tree, p, h) && Conserves(cur, nxt, p, h)
  {
    var nodes := cur.tree.nodes;
    var nodes' := nxt.tree.nodes;
    forall j | 0 <= j < 4 && j != c
      ensures Agree(nodes, nodes', SlotNodes(nodes, nodes[p].slots[j], h))
    {
      SiblingsApart(cur.tree, p, c, j, h);
    }
    ReplaceSlotTrees(nodes, nodes', p, c, 0, h);
    assert IsTree(nodes', p, h);
    LiftNodes(cur, nxt, p, c, h);
    LiftGeoms(cur, nxt, p, c, h);
    LiftOutside(cur, nxt, p, c, h);
    assert Conserves(cur, nxt, p, h);
    ConservesKeepsDistinct(cur, nxt, p, h);
  }

  /** The node count of `LiftSlot`: the slot's exchange with the free stack is the subtree's. */
  lemma LiftNodes(cur: Step, nxt: Step, p: NodeIndex, c: nat, h: nat)
    requires c < 4
    requires IsTree(cur.tree.nodes, p, h) && !cur.tree.nodes[p].IsLeaf()
    requires IsTree(nxt.tree.nodes, p, h) && nxt.tree.nodes[p].flags == cur.tree.nodes[p].flags
    requires forall j :: 0 <= j < 4 && j != c ==> nxt.tree.nodes[p].slots[j] == cur.tree.nodes[p].slots[j]
    requires OthersAgree(cur.tree.nodes, nxt.tree.nodes, p, c, 0, h)
    requires var oc := cur.tree.nodes[p].slots[c];
      var nc := nxt.tree.nodes[p].slots[c];
      && SlotIsTree(nxt.tree.nodes, nc, h) && SlotIsTree(cur.tree.nodes, oc, h)
      && multiset(nxt.tree.freeNodes) + multiset(SlotNodes(nxt.tree.nodes, nc, h))
         == multiset(cur.tree.freeNodes) + multiset(SlotNodes(cur.tree.nodes, oc, h))
    ensures multiset(nxt.tree.freeNodes) + multiset(Subtree(nxt.tree.nodes, p, h))
      == multiset(cur.tree.freeNodes) + multiset(Subtree(cur.tree.nodes, p, h))
  {
    var nodes := cur.tree.nodes;
    var nodes' := nxt.tree.nodes;
    ReplaceSlot(nodes, nodes', p, c, 0, h);
    var CN: seq<int> := ChildNodes(nodes, p, 0, h);
    var CN': seq<int> := ChildNodes(nodes', p, 0, h);
    assert Subtree(nodes, p, h) == CN + [p];
    assert Subtree(nodes', p, h) == CN' + [p];
    var F := multiset(cur.tree.freeNodes);
    var F' := multiset(nxt.tree.freeNodes);
    var O := multiset(SlotNodes(nodes, nodes[p].slots[c], h));
    var N := multiset(SlotNodes(nodes', nodes'[p].slots[c], h));
    Exchange(F', N, F, O, multiset(CN'), multiset(CN), multiset{p});
    assert multiset(Subtree(nodes', p, h)) == multiset(CN') + multiset{p};
    assert multiset(Subtree(nodes, p, h)) == multiset(CN) + multiset{p};
  }

  /** The geom count of `LiftSlot`: the geoms the slot drops are the ones the subtree drops. */
  lemma LiftGeoms(cur: Step, nxt: Step, p: NodeIndex, c: nat, h: nat)
    requires c < 4
    requires IsTree(cur.tree.nodes, p, h) && !cur.tree.nodes[p].IsLeaf()
    requires IsTree(nxt.tree.nodes, p, h) && nxt.tree.nodes[p].flags == cur.tree.nodes[p].flags
    requires forall j :: 0 <= j < 4 && j != c ==> nxt.tree.nodes[p].slots[j] == cur.tree.nodes[p].slots[j]
    requires OthersAgree(cur.tree.nodes, nxt.tree.nodes, p, c, 0, h)
    requires var oc := cur.tree.nodes[p].slots[c];
      var nc := nxt.tree.nodes[p].slots[c];
      && SlotIsTree(nxt.tree.nodes, nc, h) && SlotIsTree(cur.tree.nodes, oc, h)
      && multiset(nxt.freed) + multiset(SlotGeoms(nxt.tree.nodes, nc, h))
         == multiset(cur.freed) + multiset(SlotGeoms(cur.tree.nodes, oc, h))
    ensures multiset(nxt.freed) + multiset(LeafGeoms(nxt.tree.nodes, p, h))
      == multiset(cur.freed) + multiset(LeafGeoms(cur.tree.nodes, p, h))
  {
    var nodes := cur.tree.nodes;
    var nodes' := nxt.tree.nodes;
    ReplaceSlotGeoms(nodes, nodes', p, c, 0, h);
    var G := multiset(cur.freed);
    var G' := multiset(nxt.freed);
    var OG := multiset(SlotGeoms(nodes, nodes[p].slots[c], h));
    var NG := multiset(SlotGeoms(nodes', nodes'[p].slots[c], h));
    Exchange(G', NG, G, OG, multiset(ChildGeoms(nodes', p, 0, h)), multiset(ChildGeoms(nodes, p, 0, h)), multiset{});
    assert LeafGeoms(nodes', p, h) == ChildGeoms(nodes', p, 0, h);
    assert LeafGeoms(nodes, p, h) == ChildGeoms(nodes, p, 0, h);
  }

  /** The frame of `LiftSlot`: a node outside the free stack and the subtree is outside the slot too. */
  lemma LiftOutside(cur: Step, nxt: Step, p: NodeIndex, c: nat, h: nat)
    requires c < 4
    requires IsTree(cur.tree.nodes, p, h) && !cur.tree.nodes[p].IsLeaf()
    requires forall k ::
      (0 <= k < MaxNumNodes && k != p && k !in cur.tree.freeNodes &&
       k !in SlotNodes(cur.tree.nodes, cur.tree.nodes[p].slots[c], h)) ==> nxt.tree.nodes[k] == cur.tree.nodes[k]
    ensures forall k {:trigger Outside(cur, p, h, k)} :: Outside(cur, p, h, k) ==> nxt.tree.nodes[k] == cur.tree.nodes[k]
  {
    var nodes := cur.tree.nodes;
    var CN: seq<int> := ChildNodes(nodes, p, 0, h);
    assert Subtree(nodes, p, h) == CN + [p];
    PieceWithin(nodes, p, 0, c, h);
    forall k | Outside(cur, p, h, k)
      ensures nxt.tree.nodes[k] == nodes[k]
    {
      assert k !in CN;
      assert multiset(CN)[k] == 0;
    }
  }

  //----------------------------------------------------------------------------
  // The steps of the walk
  //----------------------------------------------------------------------------

  /** A visited leaf hands its geoms to the pool and becomes an inner node without children. */
  lemma UnleafStep(s: Step, cur: Step, index: NodeIndex, h: nat)
    requires Owns(s.tree, index, h) && s.tree.nodes[index].IsLeaf()
    requires var s1 := FreeGeoms(s, index);
      var node := s1.tree.nodes[index];
      cur == s1.(tree := s1.tree.(nodes := s1.tree.nodes[index := node.(flags := node.flags & !FlagLeaf)]))
    ensures Owns(cur.tree, index, h) && Conserves(s, cur, index, h)
    ensures !cur.tree.nodes[index].IsLeaf()
  {
    NoChildren(cur.tree.nodes, index, h);
  }

  /** Attaching a freshly allocated node to the empty slot `c`. */
  lemma AllocStep(cur: Step, nxt: Step, index: NodeIndex, c: nat, h: nat)
    requires c < 4 && h > 0
    requires Owns(cur.tree, index, h) && !cur.tree.nodes[index].IsLeaf()
    requires cur.tree.nodes[index].slots[c] == InvalidIndex && |cur.tree.freeNodes| > 0
    requires var a := AllocNode(cur.tree); nxt == SetChild(Step(a.tree, cur.freed), index, c, a.index)
    ensures Owns(nxt.tree, index, h) && Conserves(cur, nxt, index, h)
    ensures !nxt.tree.nodes[index].IsLeaf()
    ensures nxt.tree.nodes[index] == cur.tree.nodes[index].SetSlot(c, AllocNode(cur.tree).index)
  {
    var a := AllocNode(cur.tree);
    var f := a.index;
    OwnedNodesAreBusy(cur.tree, index, h);
    assert f in cur.tree.freeNodes;
    assert f != index;
    NoChildren(nxt.tree.nodes, f, h - 1);
    LiftSlot(cur, nxt, index, c, h);
  }

  /** The child at slot `c` of an owned node is owned one level lower, and the parent is not part of it. */
  lemma ChildOwned(cur: Step, index: NodeIndex, c: nat, h: nat)
    requires c < 4
    requires Owns(cur.tree, index, h) && !cur.tree.nodes[index].IsLeaf()
    requires cur.tree.nodes[index].slots[c] != InvalidIndex
    ensures h > 0 && Owns(cur.tree, cur.tree.nodes[index].slots[c], h - 1)
    ensures Distinct(Subtree(cur.tree.nodes, cur.tree.nodes[index].slots[c], h - 1))
    ensures index !in cur.tree.freeNodes
    ensures index !in Subtree(cur.tree.nodes, cur.tree.nodes[index].slots[c], h - 1)
  {
    var nodes := cur.tree.nodes;
    var ch := nodes[index].slots[c];
    PieceWithin(nodes, index, 0, c, h);
    var D: seq<int> := cur.tree.freeNodes + Subtree(nodes, index, h);
    var CN: seq<int> := ChildNodes(nodes, index, 0, h);
    assert Subtree(nodes, index, h) == ChildNodes(nodes, index, 0, h) + [index];
    assert multiset(cur.tree.freeNodes + Subtree(nodes, ch, h - 1)) <= multiset(D);
    DistinctSub(cur.tree.freeNodes + Subtree(nodes, ch, h - 1), D);
    OwnedNodesAreBusy(cur.tree, index, h);
    RootIsLast(nodes, index, h);
    assert multiset(D)[index] <= 1;
    assert multiset(CN)[index] == 0;
    DistinctParts(cur.tree.freeNodes, Subtree(nodes, ch, h - 1));
  }

  /** Recursing into the child at slot `c` conserves the parent's subtree. */
  lemma RecurseStep(cur: Step, nxt: Step, index: NodeIndex, c: nat, h: nat)
    requires c < 4
    requires Owns(cur.tree, index, h) && !cur.tree.nodes[index].IsLeaf()
    requires cur.tree.nodes[index].slots[c] != InvalidIndex && h > 0
    requires var ch := cur.tree.nodes[index].slots[c];
      Owns(cur.tree, ch, h - 1) && Owns(nxt.tree, ch, h - 1) && Conserves(cur, nxt, ch, h - 1)
    ensures Owns(nxt.tree, index, h) && Conserves(cur, nxt, index, h)
    ensures nxt.tree.nodes[index] == cur.tree.nodes[index]
    ensures SlotFrame(cur, nxt, index, c, h)
  {
    var ch := cur.tree.nodes[index].slots[c];
    ChildOwned(cur, index, c, h);
    assert Outside(cur, ch, h - 1, index);
    assert nxt.tree.nodes[index] == cur.tree.nodes[index];
    forall k | 0 <= k < MaxNumNodes && k != index && k !in cur.tree.freeNodes && k !in SlotNodes(cur.tree.nodes, ch, h)
      ensures nxt.tree.nodes[k] == cur.tree.nodes[k]
    {
      assert Outside(cur, ch, h - 1, k);
    }
    LiftSlot(cur, nxt, index, c, h);
  }

  /** Releasing the children of the child at slot `c` conserves the parent's subtree. */
  lemma ReleaseStep(cur: Step, nxt: Step, index: NodeIndex, c: nat, h: nat)
    requires c < 4
    requires Owns(cur.tree, index, h) && !cur.tree.nodes[index].IsLeaf()
    requires cur.tree.nodes[index].slots[c] != InvalidIndex && h > 0
    requires var ch := cur.tree.nodes[index].slots[c];
      && IsTree(cur.tree.nodes, ch, h - 1) && !cur.tree.nodes[ch].IsLeaf()
      && var S := Subtree(cur.tree.nodes, ch, h - 1);
      && nxt.tree.freeNodes + [ch] == cur.tree.freeNodes + S
      && nxt.freed == cur.freed + LeafGeoms(cur.tree.nodes, ch, h - 1)
      && nxt.tree.nodes[ch] == Cleared(cur.tree.nodes[ch])
      && nxt.tree.rootNode == cur.tree.rootNode
    requires var ch := cur.tree.nodes[index].slots[c];
      forall k :: 0 <= k < MaxNumNodes && k != ch && k !in Subtree(cur.tree.nodes, ch, h - 1) ==>
        nxt.tree.nodes[k] == cur.tree.nodes[k]
    ensures Owns(nxt.tree, index, h) && Conserves(cur, nxt, index, h)
    ensures nxt.tree.nodes[index] == cur.tree.nodes[index]
    ensures SlotFrame(cur, nxt, index, c, h)
  {
    var nodes := cur.tree.nodes;
    var nodes' := nxt.tree.nodes;
    var ch := nodes[index].slots[c];
    ChildOwned(cur, index, c, h);
    var S := Subtree(nodes, ch, h - 1);
    RootIsLast(nodes, ch, h - 1);
    NoChildren(nodes', ch, h - 1);
    assert SlotNodes(nodes', ch, h) == [ch];
    assert SlotNodes(nodes, ch, h) == S;
    assert multiset(nxt.tree.freeNodes + [ch]) == multiset(cur.tree.freeNodes + S);
    assert multiset(nxt.tree.freeNodes + [ch]) == multiset(nxt.tree.freeNodes) + multiset([ch]);
    assert multiset(cur.tree.freeNodes + S) == multiset(cur.tree.freeNodes) + multiset(S);
    assert SlotGeoms(nodes', ch, h) == [];
    assert SlotGeoms(nodes, ch, h) == LeafGeoms(nodes, ch, h - 1);
    assert nxt.freed + SlotGeoms(nodes', ch, h) == cur.freed + SlotGeoms(nodes, ch, h);
    assert nodes'[index] == nodes[index];
    LiftSlot(cur, nxt, index, c, h);
  }

  //----------------------------------------------------------------------------
  // Keeping the shape
  //----------------------------------------------------------------------------

  /**
   The branch of the loop body that does nothing: a child whose rectangle
   contains the viewer on the last level, or a leaf outside the viewer's
   rectangle, is already settled.
   */
  lemma KeepChild(s1: Step, index: NodeIndex, cb: Bounds, addr: Address, c: nat)
    requires addr.level < NumLevels && c < 4
    requires Owns(s1.tree, index, NumLevels - addr.level) && !s1.tree.nodes[index].IsLeaf()
    requires 0 <= s1.tree.nodes[index].Child(c) < MaxNumNodes
    requires cb.Inside(addr.x, addr.y) ==> addr.level + 1 == NumLevels
    requires !cb.Inside(addr.x, addr.y) ==> s1.tree.nodes[s1.tree.nodes[index].Child(c)].IsLeaf()
    ensures Conserves(s1, s1, index, NumLevels - addr.level)
    ensures Settled(s1.tree.nodes, s1.tree.nodes[index].Child(c), cb, addr)
    ensures SlotFrame(s1, s1, index, c, NumLevels - addr.level)
  {
    ConservesRefl(s1, index, NumLevels - addr.level);
    StillFrame(s1, index, c, NumLevels - addr.level);
  }

  /** A step that changes nothing keeps every node outside slot `c`. */
  lemma StillFrame(s: Step, p: NodeIndex, c: nat, h: nat)
    requires c < 4 && Owns(s.tree, p, h) && !s.tree.nodes[p].IsLeaf()
    ensures SlotFrame(s, s, p, c, h)
  {
  }

  /** Chaining the two halves of the loop body. */
  lemma VisitStep(cur: Step, s1: Step, s2: Step, index: NodeIndex, bounds: Bounds, addr: Address, x: nat, y: nat)
    requires addr.level < NumLevels && x < 2 && y < 2
    requires var h := NumLevels - addr.level; var c := 2 * y + x;
      && Owns(cur.tree, index, h) && !cur.tree.nodes[index].IsLeaf()
      && Owns(s1.tree, index, h) && Conserves(cur, s1, index, h)
      && !s1.tree.nodes[index].IsLeaf()
      && 0 <= s1.tree.nodes[index].Child(c) < MaxNumNodes
      && (cur.tree.nodes[index].Child(c) != InvalidIndex ==> s1 == cur)
      && (cur.tree.nodes[index].Child(c) == InvalidIndex ==>
          && |cur.tree.freeNodes| > 0
          && s1.tree.nodes[index].Child(c) == cur.tree.freeNodes[|cur.tree.freeNodes| - 1]
          && s1.tree.freeNodes == cur.tree.freeNodes[..|cur.tree.freeNodes| - 1]
          && s1.tree.nodes[s1.tree.nodes[index].Child(c)] == FreshNode)
      && s1.tree.nodes[index] == cur.tree.nodes[index].SetSlot(c, s1.tree.nodes[index].Child(c))
      && SlotFrame(cur, s1, index, c, h)
      && Owns(s2.tree, index, h) && Conserves(s1, s2, index, h)
      && s2.tree.nodes[index] == s1.tree.nodes[index]
      && Settled(s2.tree.nodes, s1.tree.nodes[index].Child(c), ChildRect(bounds, x, y), addr)
      && SlotFrame(s1, s2, index, c, h)
    ensures var h := NumLevels - addr.level; var c := 2 * y + x;
      && Conserves(cur, s2, index, h)
      && SlotSettled(s2.tree.nodes, index, bounds, addr, c)
      && SlotFrame(cur, s2, index, c, h)
  {
    var h := NumLevels - addr.level;
    var c := 2 * y + x;
    ConservesTrans(cur, s1, s2, index, h);
    FillThenSettle(cur, s1, s2, index, c, h);
    SlotOfQuadrant(x, y);
  }

  /** Child `(y<<1)|x` has x as its low bit and y as its high bit. */
  lemma SlotOfQuadrant(x: nat, y: nat)
    requires x < 2 && y < 2
    ensures (2 * y + x) % 2 == x && (2 * y + x) / 2 == y
  {
  }

  /**
   Filling slot `c` takes a node from the free stack, and settling the
   child then changes only free nodes and the nodes under the slot, so
   together they too change only the free nodes and the nodes under slot
   `c` as it was before.
   */
  lemma FillThenSettle(cur: Step, s1: Step, s2: Step, p: NodeIndex, c: nat, h: nat)
    requires c < 4 && h > 0
    requires Owns(cur.tree, p, h) && !cur.tree.nodes[p].IsLeaf()
    requires SlotFrame(cur, s1, p, c, h) && SlotFrame(s1, s2, p, c, h)
    requires cur.tree.nodes[p].Child(c) != InvalidIndex ==> s1 == cur
    requires cur.tree.nodes[p].Child(c) == InvalidIndex ==>
      && |cur.tree.freeNodes| > 0
      && s1.tree.nodes[p].Child(c) == cur.tree.freeNodes[|cur.tree.freeNodes| - 1]
      && s1.tree.freeNodes == cur.tree.freeNodes[..|cur.tree.freeNodes| - 1]
      && s1.tree.nodes[s1.tree.nodes[p].Child(c)] == FreshNode
    ensures SlotFrame(cur, s2, p, c, h)
  {
    if cur.tree.nodes[p].Child(c) == InvalidIndex {
      var F := cur.tree.freeNodes;
      var f := s1.tree.nodes[p].slots[c];
      assert f in F;
      NoChildren(s1.tree.nodes, f, h - 1);
      assert SlotNodes(s1.tree.nodes, f, h) == [f];
      forall k | 0 <= k < MaxNumNodes && k != p && k !in F
        ensures k !in s1.tree.freeNodes
      {
        assert F == s1.tree.freeNodes + [f];
      }
    }
  }

  /** A node's shape after the walk depends only on the nodes of its subtree. */
  lemma {:induction false} FrameRefined(nodes: NodeArray, nodes': NodeArray, n: int, b: Bounds, addr: Address, h: nat)
    requires IsTree(nodes, n, h) && Agree(nodes, nodes', Subtree(nodes, n, h))
    requires Refined(nodes, n, b, addr)
    ensures Refined(nodes', n, b, addr)
    decreases h, 2
  {
    RootIsLast(nodes, n, h);
    assert nodes'[n] == nodes[n];
    assert Subtree(nodes, n, h) == ChildNodes(nodes, n, 0, h) + [n];
    FrameSlotSettled(nodes, nodes', n, b, addr, h, 0);
    FrameSlotSettled(nodes, nodes', n, b, addr, h, 1);
    FrameSlotSettled(nodes, nodes', n, b, addr, h, 2);
    FrameSlotSettled(nodes, nodes', n, b, addr, h, 3);
  }

  /** One slot of `FrameRefined`: the nodes under slot `c` are part of the subtree. */
  lemma {:induction false} FrameSlotSettled(nodes: NodeArray, nodes': NodeArray, n: int, b: Bounds, addr: Address, h: nat, c: nat)
    requires c < 4 && IsTree(nodes, n, h) && !nodes[n].IsLeaf()
    requires Agree(nodes, nodes', ChildNodes(nodes, n, 0, h) + [n])
    requires nodes'[n] == nodes[n]
    requires SlotSettled(nodes, n, b, addr, c)
    ensures SlotSettled(nodes', n, b, addr, c)
    decreases h, 1
  {
    PieceWithin(nodes, n, 0, c, h);
    var ch := nodes[n].slots[c];
    forall k | k in SlotNodes(nodes, ch, h)
      ensures k in ChildNodes(nodes, n, 0, h)
    {
      assert multiset(SlotNodes(nodes, ch, h))[k] > 0;
    }
    FrameSettled(nodes, nodes', ch, ChildRect(b, c % 2, c / 2), addr, h);
  }

  /** The same for a child settled under a parent `h` levels above the bottom. */
  lemma {:induction false} FrameSettled(nodes: NodeArray, nodes': NodeArray, ch: int, cb: Bounds, addr: Address, h: nat)
    requires SlotIsTree(nodes, ch, h) && Agree(nodes, nodes', SlotNodes(nodes, ch, h))
    requires Settled(nodes, ch, cb, addr)
    ensures Settled(nodes', ch, cb, addr)
    decreases h, 0
  {
    assert h > 0 && IsTree(nodes, ch, h - 1);
    RootIsLast(nodes, ch, h - 1);
    assert nodes'[ch] == nodes[ch];
    if cb.Inside(addr.x, addr.y) && addr.level + 1 < NumLevels {
      FrameRefined(nodes, nodes', ch, cb, Address(addr.level + 1, addr.x, addr.y), h - 1);
    }
  }

  /** A visit of slot `c` keeps a sibling slot `j` settled: nothing below `j` changes. */
  lemma KeepSettled(cur: Step, nxt: Step, p: NodeIndex, c: nat, j: nat, b: Bounds, addr: Address, h: nat)
    requires c < 4 && j < 4 && j != c
    requires Owns(cur.tree, p, h) && !cur.tree.nodes[p].IsLeaf()
    requires SlotFrame(cur, nxt, p, c, h)
    requires nxt.tree.nodes[p].slots[j] == cur.tree.nodes[p].slots[j]
    requires SlotSettled(cur.tree.nodes, p, b, addr, j)
    ensures SlotSettled(nxt.tree.nodes, p, b, addr, j)
  {
    var ch := cur.tree.nodes[p].slots[j];
    SiblingsApart(cur.tree, p, c, j, h);
    assert SlotIsTree(cur.tree.nodes, ch, h);
    FrameSettled(cur.tree.nodes, nxt.tree.nodes, ch, ChildRect(b, j % 2, j / 2), addr, h);
  }

  /** One pass of the loop settles the slot it visits and keeps the slots visited before settled. */
  lemma VisitedStep(cur: Step, nxt: Step, index: NodeIndex, b: Bounds, addr: Address, h: nat, k: nat)
    requires k < 4
    requires Owns(cur.tree, index, h) && !cur.tree.nodes[index].IsLeaf()
    requires Visited(cur.tree.nodes, index, b, addr, k)
    requires SlotFrame(cur, nxt, index, 2 * (k % 2) + k / 2, h)
    requires SlotSettled(nxt.tree.nodes, index, b, addr, 2 * (k % 2) + k / 2)
    requires forall j :: 0 <= j < 4 && j != 2 * (k % 2) + k / 2 ==>
      nxt.tree.nodes[index].Child(j) == cur.tree.nodes[index].Child(j)
    ensures Visited(nxt.tree.nodes, index, b, addr, k + 1)
  {
    var c := 2 * (k % 2) + k / 2;
    var a := cur.tree.nodes[index];
    var z := nxt.tree.nodes[index];
    if k > 0 {
      assert c != 0 ==> z.Child(0) == a.Child(0);
      KeepSettled(cur, nxt, index, c, 0, b, addr, h);
    }
    if k > 1 {
      assert z.Child(2) == a.Child(2);
      KeepSettled(cur, nxt, index, c, 2, b, addr, h);
    }
    if k > 2 {
      assert z.Child(1) == a.Child(1);
      KeepSettled(cur, nxt, index, c, 1, b, addr, h);
    }
  }

  //----------------------------------------------------------------------------
  // The child rectangles as written
  //----------------------------------------------------------------------------

  /**
   With a non-negative width and height, the first child's rectangle
   (x = 0, y = 0) contains every point of its parent's, so the walk always
   descends into child 0 while levels remain.
   */
  lemma FirstChildCoversParent(b: Bounds, px: int, py: int)
    requires b.x0 <= b.x1 && b.y0 <= b.y1 && b.Inside(px, py)
    ensures ChildBounds(b, TruncHalf(b.x1 - b.x0), TruncHalf(b.y1 - b.y0), 0, 0).Inside(px, py)
  {
  }

  /**
   The four child rectangles overlap: at the root, a viewer at (200, 200)
   lies inside all of them, so the walk recurses into every child.
   */
  lemma RootChildrenOverlap()
    ensures var b := Bounds(0, Pow2(NumLevels), 0, Pow2(NumLevels));
      var half := TruncHalf(Pow2(NumLevels));
      && ChildBounds(b, half, half, 0, 0).Inside(200, 200)
      && ChildBounds(b, half, half, 0, 1).Inside(200, 200)
      && ChildBounds(b, half, half, 1, 0).Inside(200, 200)
      && ChildBounds(b, half, half, 1, 1).Inside(200, 200)
  {
    assert Pow2(NumLevels) == 256;
  }

  /** The child rectangles keep the parent's high edges pushed out by half, so they never shrink. */
  lemma ChildBoundsNeverShrink(b: Bounds, x: nat, y: nat)
    requires b.x0 <= b.x1 && b.y0 <= b.y1 && x < 2 && y < 2
    ensures var cb := ChildBounds(b, TruncHalf(b.x1 - b.x0), TruncHalf(b.y1 - b.y0), x, y);
      cb.x1 - cb.x0 >= (b.x1 - b.x0) / 2 && cb.y1 - cb.y0 >= (b.y1 - b.y0) / 2
      && cb.x1 >= b.x1 && cb.y1 >= b.y1
  {
  }
}
