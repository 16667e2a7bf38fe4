/**
 The node arena of `VisTree` (src/VisTree.cc): a fixed array of
 `MaxNumNodes` nodes, a stack of free node indices, and the operations that
 move indices between the free stack and the live tree: `Setup`,
 `AllocNode`, `FreeGeoms`, the recursive `FreeNodes`, and the child-release
 loop of `CreateLeaf`.

 The geometry pool is seen only through the calls made to
 `GeomPool::Free`: every operation here carries the list of those calls,
 oldest first, and appends to it.

 The live tree is described by ghost functions over the node array:
 `IsTree(nodes, n, h)` says that following the child slots of inner nodes
 from `n` reaches only valid indices and bottoms out within `h` levels;
 `Subtree` lists the reached nodes in post-order (children before their
 parent), and `LeafGeoms` lists the geom indices held by the reached leaves.
 */
module VisTreeArena {
  import opened VisTreeTypes

  /** The node array: exactly `MaxNumNodes` nodes. */
  type NodeArray = s: seq<Node> | |s| == MaxNumNodes witness seq(MaxNumNodes, _ => Node(FlagNone, NoSlots))

  datatype VisTree = VisTree(nodes: NodeArray, freeNodes: seq<NodeIndex>, rootNode: Int16)

  /** A tree state together with the geom indices handed to `GeomPool::Free` so far. */
  datatype Step = Step(tree: VisTree, freed: seq<Int16>)

  /** The result of `AllocNode`: the new state and the popped index. */
  datatype Alloc = Alloc(tree: VisTree, index: NodeIndex)

  /** The node state `AllocNode` leaves behind: no flags, four empty slots. */
  const FreshNode: Node := Node(FlagNone, NoSlots)

  /** No element occurs twice. */
  ghost predicate Distinct(s: seq<int>) {
    forall x :: multiset(s)[x] <= 1
  }

  /** No element of `a` occurs in `b`. */
  ghost predicate Disjoint(a: seq<int>, b: seq<int>) {
    forall x :: x in a ==> x !in b
  }

  //----------------------------------------------------------------------------
  // Setup and AllocNode
  //----------------------------------------------------------------------------

  /** `[n-1, n-2, ..., 0]`. */
  function Descending(n: nat): (s: seq<NodeIndex>)
    requires n <= MaxNumNodes
  {
    seq(n, k requires 0 <= k < n => n - 1 - k)
  }

  /**
   `Setup`: pushes every node index onto the free stack, highest first,
   and marks the tree as having no root. The node array is not touched.
   */
  method Setup(t: VisTree) returns (r: VisTree)
    ensures r.nodes == t.nodes
    ensures r.rootNode == InvalidIndex
    ensures r.freeNodes == t.freeNodes + Descending(MaxNumNodes)
  {
    var free := t.freeNodes;
    var i: int := MaxNumNodes - 1;
    while i >= 0
      invariant -1 <= i < MaxNumNodes
      invariant |free| == |t.freeNodes| + (MaxNumNodes - 1 - i)
      invariant free[..|t.freeNodes|] == t.freeNodes
      invariant forall k :: |t.freeNodes| <= k < |free| ==> free[k] == MaxNumNodes - 1 - (k - |t.freeNodes|)
    {
      free := free + [i];
      i := i - 1;
    }
    assert free == t.freeNodes + Descending(MaxNumNodes);
    r := VisTree(t.nodes, free, InvalidIndex);
  }

  /** `Discard`: empties the free stack; the node array and the root are left as they are. */
  function Discard(t: VisTree): (r: VisTree)
    ensures |r.freeNodes| == 0
    ensures r.nodes == t.nodes && r.rootNode == t.rootNode
  {
    t.(freeNodes := [])
  }

  /**
   `AllocNode`: pops the top of the free stack and resets that node to
   "no flags, no children". The source pops without checking, so the
   stack must not be empty.
   */
  function AllocNode(t: VisTree): (r: Alloc)
    requires |t.freeNodes| > 0
    ensures r.index == t.freeNodes[|t.freeNodes| - 1]
    ensures r.tree.freeNodes == t.freeNodes[..|t.freeNodes| - 1]
    ensures multiset(r.tree.freeNodes) + multiset{r.index} == multiset(t.freeNodes)
    ensures r.tree.nodes[r.index] == FreshNode
    ensures !r.tree.nodes[r.index].IsLeaf()
    ensures forall i :: 0 <= i < 4 ==> r.tree.nodes[r.index].Child(i) == InvalidIndex
    ensures forall k :: 0 <= k < MaxNumNodes && k != r.index ==> r.tree.nodes[k] == t.nodes[k]
    ensures r.tree.rootNode == t.rootNode
  {
    var last := |t.freeNodes| - 1;
    var index := t.freeNodes[last];
    assert t.freeNodes == t.freeNodes[..last] + [index];
    Alloc(t.(nodes := t.nodes[index := FreshNode], freeNodes := t.freeNodes[..last]), index)
  }

  /** Pops `count` nodes in a row and lists the indices returned. */
  function AllocRun(t: VisTree, count: nat): (r: (VisTree, seq<NodeIndex>))
    requires count <= |t.freeNodes|
    ensures |r.1| == count
    ensures r.0.freeNodes == t.freeNodes[..|t.freeNodes| - count]
  {
    if count == 0 then (t, [])
    else
      var prev := AllocRun(t, count - 1);
      var a := AllocNode(prev.0);
      (a.tree, prev.1 + [a.index])
  }

  /** Right after `Setup` on an empty stack, successive `AllocNode` calls return 0, 1, 2, ... */
  lemma {:induction false} AllocAfterSetupCountsUp(t: VisTree, count: nat)
    requires t.freeNodes == Descending(MaxNumNodes)
    requires count <= MaxNumNodes
    ensures forall k :: 0 <= k < count ==> AllocRun(t, count).1[k] == k
  {
    if count > 0 {
      AllocAfterSetupCountsUp(t, count - 1);
      var prev := AllocRun(t, count - 1);
      assert prev.0.freeNodes == Descending(MaxNumNodes)[..MaxNumNodes - count + 1];
      assert AllocNode(prev.0).index == count - 1;
    }
  }

  /** After `Setup` on an empty stack every node index is free exactly once. */
  lemma SetupFreesEveryNodeOnce()
    ensures Distinct(Descending(MaxNumNodes))
    ensures forall k :: 0 <= k < MaxNumNodes ==> k in Descending(MaxNumNodes)
  {
    var d := Descending(MaxNumNodes);
    forall k | 0 <= k < MaxNumNodes
      ensures k in d
    {
      assert d[MaxNumNodes - 1 - k] == k;
    }
    DescendingDistinct(MaxNumNodes);
  }

  lemma {:induction false} DescendingDistinct(n: nat)
    requires n <= MaxNumNodes
    ensures Distinct(Descending(n))
    ensures forall x :: x in Descending(n) <==> 0 <= x < n
  {
    if n > 0 {
      DescendingDistinct(n - 1);
      assert Descending(n) == [n - 1] + Descending(n - 1);
      forall x
        ensures multiset(Descending(n))[x] <= 1
      {
        assert multiset(Descending(n)) == multiset{n - 1} + multiset(Descending(n - 1));
        if x == n - 1 {
          assert x !in Descending(n - 1);
        }
      }
    }
  }

  //----------------------------------------------------------------------------
  // FreeGeoms
  //----------------------------------------------------------------------------

  /** The slot values other than `InvalidIndex`, in slot order. */
  function ValidSlots(s: seq<Int16>): (r: seq<Int16>)
    ensures |r| <= |s|
    ensures forall g :: g in r ==> g != InvalidIndex && g in s
    ensures forall g :: g in s && g != InvalidIndex ==> g in r
  {
    if s == [] then []
    else (if s[0] != InvalidIndex then [s[0]] else []) + ValidSlots(s[1..])
  }

  /** The loop of `FreeGeoms` from slot `i` on: frees and clears every real geom index. */
  function FreeGeomSlots(slots: Slots, i: nat, freed: seq<Int16>): (r: (Slots, seq<Int16>))
    requires i <= 4
    ensures forall j :: 0 <= j < i ==> r.0[j] == slots[j]
    ensures forall j :: i <= j < 4 ==> r.0[j] == InvalidIndex
    ensures r.1 == freed + ValidSlots(slots[i..])
    decreases 4 - i
  {
    if i == 4 then (slots, freed)
    else
      assert slots[i..] == [slots[i]] + slots[i + 1..];
      if slots[i] != InvalidIndex then
        var r := FreeGeomSlots(slots[i := InvalidIndex], i + 1, freed + [slots[i]]);
        assert slots[i := InvalidIndex][i + 1..] == slots[i + 1..];
        r
      else
        FreeGeomSlots(slots, i + 1, freed)
  }

  /**
   `FreeGeoms`: on a leaf, hands every real geom index to the pool once,
   in slot order, and leaves all four slots empty.
   */
  function FreeGeoms(s: Step, index: NodeIndex): (r: Step)
    requires s.tree.nodes[index].IsLeaf()
    ensures r.tree.nodes[index] == s.tree.nodes[index].(slots := NoSlots)
    ensures r.freed == s.freed + ValidSlots(s.tree.nodes[index].slots)
    ensures forall k :: 0 <= k < MaxNumNodes && k != index ==> r.tree.nodes[k] == s.tree.nodes[k]
    ensures r.tree.freeNodes == s.tree.freeNodes && r.tree.rootNode == s.tree.rootNode
  {
    var node := s.tree.nodes[index];
    var res := FreeGeomSlots(node.slots, 0, s.freed);
    assert res.0 == NoSlots;
    assert node.slots[0..] == node.slots;
    Step(s.tree.(nodes := s.tree.nodes[index := node.(slots := res.0)]), res.1)
  }

  //----------------------------------------------------------------------------
  // Tree shape
  //----------------------------------------------------------------------------

  /** From `n`, child slots of inner nodes reach valid nodes only, within `h` levels. */
  ghost predicate IsTree(nodes: NodeArray, n: int, h: nat)
    decreases h, 1
  {
    && 0 <= n < MaxNumNodes
    && (nodes[n].IsLeaf() || forall j :: 0 <= j < 4 ==> SlotIsTree(nodes, nodes[n].slots[j], h))
  }

  /** A child slot of a node `h` levels above the bottom: empty, or a tree one level lower. */
  ghost predicate SlotIsTree(nodes: NodeArray, c: int, h: nat)
    decreases h, 0
  {
    c == InvalidIndex || (h > 0 && IsTree(nodes, c, h - 1))
  }

  /** `n` is an inner node whose child slots `i..3` are trees. */
  ghost predicate ChildrenAreTrees(nodes: NodeArray, n: int, i: nat, h: nat) {
    && 0 <= n < MaxNumNodes
    && !nodes[n].IsLeaf()
    && i <= 4
    && forall j :: i <= j < 4 ==> SlotIsTree(nodes, nodes[n].slots[j], h)
  }

  /** The nodes reached from `n`, in post-order. */
  ghost function Subtree(nodes: NodeArray, n: int, h: nat): seq<NodeIndex>
    requires IsTree(nodes, n, h)
    decreases h, 2
  {
    if nodes[n].IsLeaf() then [n] else ChildNodes(nodes, n, 0, h) + [n]
  }

  /** The nodes reached through child slots `i..3` of `n`, slot by slot. */
  ghost function ChildNodes(nodes: NodeArray, n: int, i: nat, h: nat): seq<NodeIndex>
    requires ChildrenAreTrees(nodes, n, i, h)
    decreases h, 1, 4 - i
  {
    if i == 4 then [] else SlotNodes(nodes, nodes[n].slots[i], h) + ChildNodes(nodes, n, i + 1, h)
  }

  ghost function SlotNodes(nodes: NodeArray, c: int, h: nat): seq<NodeIndex>
    requires SlotIsTree(nodes, c, h)
    decreases h, 0
  {
    if c == InvalidIndex then [] else Subtree(nodes, c, h - 1)
  }

  /** The geom indices held by the leaves reached from `n`. */
  ghost function LeafGeoms(nodes: NodeArray, n: int, h: nat): seq<Int16>
    requires IsTree(nodes, n, h)
    decreases h, 2
  {
    if nodes[n].IsLeaf() then ValidSlots(nodes[n].slots) else ChildGeoms(nodes, n, 0, h)
  }

  ghost function ChildGeoms(nodes: NodeArray, n: int, i: nat, h: nat): seq<Int16>
    requires ChildrenAreTrees(nodes, n, i, h)
    decreases h, 1, 4 - i
  {
    if i == 4 then [] else SlotGeoms(nodes, nodes[n].slots[i], h) + ChildGeoms(nodes, n, i + 1, h)
  }

  ghost function SlotGeoms(nodes: NodeArray, c: int, h: nat): seq<Int16>
    requires SlotIsTree(nodes, c, h)
    decreases h, 0
  {
    if c == InvalidIndex then [] else LeafGeoms(nodes, c, h - 1)
  }

  /** A node with all four slots emptied; its flags are kept. */
  function Cleared(n: Node): Node {
    n.(slots := NoSlots)
  }

  /** A node whose slots `i..3` are emptied. */
  function ClearFrom(n: Node, i: nat): (r: Node)
    requires i <= 4
    ensures r.flags == n.flags
    ensures forall j :: 0 <= j < i ==> r.slots[j] == n.slots[j]
    ensures forall j :: i <= j < 4 ==> r.slots[j] == InvalidIndex
    decreases 4 - i
  {
    if i == 4 then n else ClearFrom(n, i + 1).SetSlot(i, InvalidIndex)
  }

  //----------------------------------------------------------------------------
  // Facts about the shape functions
  //----------------------------------------------------------------------------

  lemma DistinctParts(a: seq<int>, b: seq<int>)
    requires Distinct(a + b)
    ensures Distinct(a) && Distinct(b)
    ensures Disjoint(a, b)
  {
    assert multiset(a + b) == multiset(a) + multiset(b);
    forall x
      ensures multiset(a)[x] <= 1 && multiset(b)[x] <= 1
    {
      assert multiset(a + b)[x] == multiset(a)[x] + multiset(b)[x];
    }
    forall x | x in a
      ensures x !in b
    {
      assert multiset(a + b)[x] == multiset(a)[x] + multiset(b)[x];
    }
  }

  lemma DistinctSub(a: seq<int>, b: seq<int>)
    requires Distinct(b) && multiset(a) <= multiset(b)
    ensures Distinct(a)
  {
    forall x
      ensures multiset(a)[x] <= 1
    {
      assert multiset(a)[x] <= multiset(b)[x];
    }
  }

  /** An inner node without children reaches only itself and holds no geoms. */
  lemma {:induction false} NoChildren(nodes: NodeArray, n: int, h: nat)
    requires 0 <= n < MaxNumNodes && !nodes[n].IsLeaf() && nodes[n].slots == NoSlots
    ensures IsTree(nodes, n, h)
    ensures Subtree(nodes, n, h) == [n]
    ensures LeafGeoms(nodes, n, h) == []
  {
    assert ChildNodes(nodes, n, 4, h) == [];
    assert ChildNodes(nodes, n, 3, h) == [];
    assert ChildNodes(nodes, n, 2, h) == [];
    assert ChildNodes(nodes, n, 1, h) == [];
    assert ChildNodes(nodes, n, 0, h) == [];
    assert ChildGeoms(nodes, n, 3, h) == [];
    assert ChildGeoms(nodes, n, 2, h) == [];
    assert ChildGeoms(nodes, n, 1, h) == [];
    assert ChildGeoms(nodes, n, 0, h) == [];
  }

  /** The post-order of a tree ends with its root. */
  lemma RootIsLast(nodes: NodeArray, n: int, h: nat)
    requires IsTree(nodes, n, h)
    ensures |Subtree(nodes, n, h)| > 0 && Subtree(nodes, n, h)[|Subtree(nodes, n, h)| - 1] == n
  {
  }

  /**
   Each child's subtree lies in the post-order of its parent, entirely before
   the parent itself.
   */
  lemma {:induction false} ChildBeforeParent(nodes: NodeArray, n: int, h: nat, j: nat)
    requires IsTree(nodes, n, h) && !nodes[n].IsLeaf() && j < 4
    ensures var S := Subtree(nodes, n, h);
      multiset(SlotNodes(nodes, nodes[n].slots[j], h)) <= multiset(S[..|S| - 1])
  {
    var S := Subtree(nodes, n, h);
    assert S[..|S| - 1] == ChildNodes(nodes, n, 0, h);
    PieceWithin(nodes, n, 0, j, h);
  }

  /** The nodes of slot `j` are among those of slots `i..3`. */
  lemma {:induction false} PieceWithin(nodes: NodeArray, n: int, i: nat, j: nat, h: nat)
    requires ChildrenAreTrees(nodes, n, i, h) && i <= j < 4
    ensures multiset(SlotNodes(nodes, nodes[n].slots[j], h)) <= multiset(ChildNodes(nodes, n, i, h))
    decreases j - i
  {
    if i < j {
      PieceWithin(nodes, n, i + 1, j, h);
    }
  }

  /** The nodes of two different slots `j < j'` are disjoint parts of those of slots `i..3`. */
  lemma {:induction false} TwoPiecesWithin(nodes: NodeArray, n: int, i: nat, j: nat, j': nat, h: nat)
    requires ChildrenAreTrees(nodes, n, i, h) && i <= j < j' < 4
    ensures multiset(SlotNodes(nodes, nodes[n].slots[j], h)) + multiset(SlotNodes(nodes, nodes[n].slots[j'], h))
            <= multiset(ChildNodes(nodes, n, i, h))
    decreases j - i
  {
    if i < j {
      TwoPiecesWithin(nodes, n, i + 1, j, j', h);
    } else {
      PieceWithin(nodes, n, i + 1, j', h);
    }
  }

  /**
   Frame: a tree reads only the nodes it reaches, so agreeing on those
   nodes gives the same shape, post-order and leaf geoms.
   */
  lemma {:induction false} FrameSubtree(nodes: NodeArray, nodes': NodeArray, n: int, h: nat)
    requires IsTree(nodes, n, h)
    requires forall k :: k in Subtree(nodes, n, h) ==> nodes'[k] == nodes[k]
    ensures IsTree(nodes', n, h)
    ensures Subtree(nodes', n, h) == Subtree(nodes, n, h)
    ensures LeafGeoms(nodes', n, h) == LeafGeoms(nodes, n, h)
    decreases h, 2
  {
    RootIsLast(nodes, n, h);
    assert nodes'[n] == nodes[n];
    if !nodes[n].IsLeaf() {
      forall k | k in ChildNodes(nodes, n, 0, h)
        ensures nodes'[k] == nodes[k]
      {
        assert k in Subtree(nodes, n, h);
      }
      FrameChildren(nodes, nodes', n, 0, h);
    }
  }

  lemma {:induction false} FrameChildren(nodes: NodeArray, nodes': NodeArray, n: int, i: nat, h: nat)
    requires ChildrenAreTrees(nodes, n, i, h)
    requires 0 <= n < MaxNumNodes && nodes'[n].flags == nodes[n].flags
    requires forall j :: i <= j < 4 ==> nodes'[n].slots[j] == nodes[n].slots[j]
    requires forall k :: k in ChildNodes(nodes, n, i, h) ==> nodes'[k] == nodes[k]
    ensures ChildrenAreTrees(nodes', n, i, h)
    ensures ChildNodes(nodes', n, i, h) == ChildNodes(nodes, n, i, h)
    ensures ChildGeoms(nodes', n, i, h) == ChildGeoms(nodes, n, i, h)
    decreases h, 1, 4 - i
  {
    if i < 4 {
      var c := nodes[n].slots[i];
      assert ChildNodes(nodes, n, i, h) == SlotNodes(nodes, c, h) + ChildNodes(nodes, n, i + 1, h);
      FrameSlotTree(nodes, nodes', c, h);
      FrameChildren(nodes, nodes', n, i + 1, h);
    }
  }

  /** The frame property for the tree under one child slot. */
  lemma {:induction false} FrameSlotTree(nodes: NodeArray, nodes': NodeArray, c: int, h: nat)
    requires SlotIsTree(nodes, c, h)
    requires forall k :: k in SlotNodes(nodes, c, h) ==> nodes'[k] == nodes[k]
    ensures SlotIsTree(nodes', c, h)
    ensures SlotNodes(nodes', c, h) == SlotNodes(nodes, c, h)
    ensures SlotGeoms(nodes', c, h) == SlotGeoms(nodes, c, h)
    decreases h, 0
  {
    if c != InvalidIndex {
      FrameSubtree(nodes, nodes', c, h - 1);
    }
  }

  //----------------------------------------------------------------------------
  // FreeNodes and the release loop of CreateLeaf
  //----------------------------------------------------------------------------

  /**
   `FreeNodes`: on a subtree in which no node is reached twice, pushes every
   reached node onto the free stack exactly once, children before their
   parent and `index` last; hands to the pool exactly the geoms of the
   reached leaves (never a child index of an inner node); empties all four
   slots of every reached node; and changes nothing else.
   */
  function FreeNodes(s: Step, index: NodeIndex, ghost h: nat): (r: Step)
    requires IsTree(s.tree.nodes, index, h)
    requires Distinct(Subtree(s.tree.nodes, index, h))
    ensures r.tree.freeNodes == s.tree.freeNodes + Subtree(s.tree.nodes, index, h)
    ensures r.freed == s.freed + LeafGeoms(s.tree.nodes, index, h)
    ensures r.tree.rootNode == s.tree.rootNode
    ensures forall k :: 0 <= k < MaxNumNodes ==>
      r.tree.nodes[k] == if k in Subtree(s.tree.nodes, index, h) then Cleared(s.tree.nodes[k]) else s.tree.nodes[k]
    decreases h, 2, 0, 0
  {
    var s1 := if s.tree.nodes[index].IsLeaf() then FreeGeoms(s, index) else FreeChildren(s, index, 0, h);
    s1.(tree := s1.tree.(freeNodes := s1.tree.freeNodes + [index]))
  }

  /**
   The child loop of `FreeNodes` (and of `CreateLeaf`) from slot `i` on:
   frees each non-empty child's subtree and then empties that slot.
   */
  function FreeChildren(s: Step, index: NodeIndex, i: nat, ghost h: nat): (r: Step)
    requires ChildrenAreTrees(s.tree.nodes, index, i, h)
    requires Distinct(ChildNodes(s.tree.nodes, index, i, h) + [index])
    ensures r.tree.freeNodes == s.tree.freeNodes + ChildNodes(s.tree.nodes, index, i, h)
    ensures r.freed == s.freed + ChildGeoms(s.tree.nodes, index, i, h)
    ensures r.tree.rootNode == s.tree.rootNode
    ensures r.tree.nodes[index] == ClearFrom(s.tree.nodes[index], i)
    ensures forall k :: 0 <= k < MaxNumNodes && k != index ==>
      r.tree.nodes[k] == if k in ChildNodes(s.tree.nodes, index, i, h) then Cleared(s.tree.nodes[k]) else s.tree.nodes[k]
    decreases h, 1, 4 - i, 1
  {
    if i == 4 then
      assert ClearFrom(s.tree.nodes[index], 4) == s.tree.nodes[index];
      s
    else
      var s2 := FreeChild(s, index, i, h);
      var r := FreeChildren(s2, index, i + 1, h);
      FreeChildrenJoin(s, s2, r, index, i, h);
      r
  }

  /** One pass of the child loop: frees the subtree in slot `i`, if any, and empties the slot. */
  function FreeChild(s: Step, index: NodeIndex, i: nat, ghost h: nat): (s2: Step)
    requires ChildrenAreTrees(s.tree.nodes, index, i, h) && i < 4
    requires Distinct(ChildNodes(s.tree.nodes, index, i, h) + [index])
    ensures ChildrenAreTrees(s2.tree.nodes, index, i + 1, h)
    ensures ChildrenAreTrees(s.tree.nodes, index, i + 1, h)
    ensures Distinct(ChildNodes(s2.tree.nodes, index, i + 1, h) + [index])
    ensures var B := ChildNodes(s.tree.nodes, index, i + 1, h);
      && ChildNodes(s2.tree.nodes, index, i + 1, h) == B
      && (forall k :: k in B ==> k in ChildNodes(s.tree.nodes, index, i, h))
      && s2.tree.freeNodes + B == s.tree.freeNodes + ChildNodes(s.tree.nodes, index, i, h)
      && s2.freed + ChildGeoms(s2.tree.nodes, index, i + 1, h) == s.freed + ChildGeoms(s.tree.nodes, index, i, h)
      && ClearFrom(s2.tree.nodes[index], i + 1) == ClearFrom(s.tree.nodes[index], i)
      && s2.tree.rootNode == s.tree.rootNode
      && (forall k :: 0 <= k < MaxNumNodes && k != index && k !in B ==>
            s2.tree.nodes[k] == if k in ChildNodes(s.tree.nodes, index, i, h) then Cleared(s.tree.nodes[k]) else s.tree.nodes[k])
      && (forall k :: k in B ==> s2.tree.nodes[k] == s.tree.nodes[k])
    decreases h, 1, 4 - i, 0
  {
    var c := s.tree.nodes[index].slots[i];
    if c == InvalidIndex then
      FreeChildrenSkip(s, index, i, h);
      s
    else
      FreeChildrenPieces(s.tree.nodes, index, i, h);
      assert forall k :: k in ChildNodes(s.tree.nodes, index, i + 1, h) ==> k in ChildNodes(s.tree.nodes, index, i, h);
      var s1 := FreeNodes(s, c, h - 1);
      var s2 := s1.(tree := s1.tree.(nodes := s1.tree.nodes[index := s1.tree.nodes[index].SetSlot(i, InvalidIndex)]));
      FreeChildrenStep(s, s1, s2, index, i, h);
      s2
  }

  /** One pass of the child loop followed by the rest of the loop is the loop from slot `i`. */
  lemma FreeChildrenJoin(s: Step, s2: Step, r: Step, index: NodeIndex, i: nat, h: nat)
    requires ChildrenAreTrees(s.tree.nodes, index, i, h) && i < 4
    requires ChildrenAreTrees(s2.tree.nodes, index, i + 1, h)
    requires ChildrenAreTrees(s.tree.nodes, index, i + 1, h)
    requires var B := ChildNodes(s.tree.nodes, index, i + 1, h);
      && ChildNodes(s2.tree.nodes, index, i + 1, h) == B
      && (forall k :: k in B ==> k in ChildNodes(s.tree.nodes, index, i, h))
      && s2.tree.freeNodes + B == s.tree.freeNodes + ChildNodes(s.tree.nodes, index, i, h)
      && s2.freed + ChildGeoms(s2.tree.nodes, index, i + 1, h) == s.freed + ChildGeoms(s.tree.nodes, index, i, h)
      && ClearFrom(s2.tree.nodes[index], i + 1) == ClearFrom(s.tree.nodes[index], i)
      && s2.tree.rootNode == s.tree.rootNode
      && (forall k :: 0 <= k < MaxNumNodes && k != index && k !in B ==>
            s2.tree.nodes[k] == if k in ChildNodes(s.tree.nodes, index, i, h) then Cleared(s.tree.nodes[k]) else s.tree.nodes[k])
      && (forall k :: k in B ==> s2.tree.nodes[k] == s.tree.nodes[k])
    requires var B2 := ChildNodes(s2.tree.nodes, index, i + 1, h);
      && r.tree.freeNodes == s2.tree.freeNodes + B2
      && r.freed == s2.freed + ChildGeoms(s2.tree.nodes, index, i + 1, h)
      && r.tree.rootNode == s2.tree.rootNode
      && r.tree.nodes[index] == ClearFrom(s2.tree.nodes[index], i + 1)
      && forall k :: 0 <= k < MaxNumNodes && k != index ==>
           r.tree.nodes[k] == if k in B2 then Cleared(s2.tree.nodes[k]) else s2.tree.nodes[k]
    ensures r.tree.freeNodes == s.tree.freeNodes + ChildNodes(s.tree.nodes, index, i, h)
    ensures r.freed == s.freed + ChildGeoms(s.tree.nodes, index, i, h)
    ensures r.tree.rootNode == s.tree.rootNode
    ensures r.tree.nodes[index] == ClearFrom(s.tree.nodes[index], i)
    ensures forall k :: 0 <= k < MaxNumNodes && k != index ==>
      r.tree.nodes[k] == if k in ChildNodes(s.tree.nodes, index, i, h) then Cleared(s.tree.nodes[k]) else s.tree.nodes[k]
  {
  }

  lemma FreeChildrenSkip(s: Step, index: NodeIndex, i: nat, h: nat)
    requires ChildrenAreTrees(s.tree.nodes, index, i, h) && i < 4
    requires Distinct(ChildNodes(s.tree.nodes, index, i, h) + [index])
    requires s.tree.nodes[index].slots[i] == InvalidIndex
    ensures ChildrenAreTrees(s.tree.nodes, index, i + 1, h)
    ensures ChildNodes(s.tree.nodes, index, i, h) == ChildNodes(s.tree.nodes, index, i + 1, h)
    ensures ChildGeoms(s.tree.nodes, index, i, h) == ChildGeoms(s.tree.nodes, index, i + 1, h)
    ensures Distinct(ChildNodes(s.tree.nodes, index, i + 1, h) + [index])
    ensures ClearFrom(s.tree.nodes[index], i + 1) == ClearFrom(s.tree.nodes[index], i)
  {
    var n := s.tree.nodes[index];
    assert ClearFrom(n, i + 1).slots == ClearFrom(n, i).slots;
  }

  /** Slot `i` of a distinct child list: its subtree, the rest, and the parent are disjoint. */
  lemma FreeChildrenPieces(nodes: NodeArray, index: NodeIndex, i: nat, h: nat)
    requires ChildrenAreTrees(nodes, index, i, h) && i < 4
    requires Distinct(ChildNodes(nodes, index, i, h) + [index])
    requires nodes[index].slots[i] != InvalidIndex
    ensures h > 0 && IsTree(nodes, nodes[index].slots[i], h - 1)
    ensures ChildrenAreTrees(nodes, index, i + 1, h)
    ensures var c := nodes[index].slots[i];
      && ChildNodes(nodes, index, i, h) == Subtree(nodes, c, h - 1) + ChildNodes(nodes, index, i + 1, h)
      && ChildGeoms(nodes, index, i, h) == LeafGeoms(nodes, c, h - 1) + ChildGeoms(nodes, index, i + 1, h)
      && Distinct(Subtree(nodes, c, h - 1))
      && Distinct(ChildNodes(nodes, index, i + 1, h) + [index])
      && index !in Subtree(nodes, c, h - 1)
      && index !in ChildNodes(nodes, index, i + 1, h)
    ensures Disjoint(ChildNodes(nodes, index, i + 1, h), Subtree(nodes, nodes[index].slots[i], h - 1))
  {
    var c := nodes[index].slots[i];
    var A := Subtree(nodes, c, h - 1);
    var B := ChildNodes(nodes, index, i + 1, h);
    assert ChildNodes(nodes, index, i, h) + [index] == A + (B + [index]);
    DistinctParts(A, B + [index]);
    DistinctParts(B, [index]);
  }

  lemma FreeChildrenStep(s: Step, s1: Step, s2: Step, index: NodeIndex, i: nat, h: nat)
    requires ChildrenAreTrees(s.tree.nodes, index, i, h) && i < 4
    requires Distinct(ChildNodes(s.tree.nodes, index, i, h) + [index])
    requires s.tree.nodes[index].slots[i] != InvalidIndex
    requires h > 0 && IsTree(s.tree.nodes, s.tree.nodes[index].slots[i], h - 1)
    requires var c := s.tree.nodes[index].slots[i];
      && s1.tree.freeNodes == s.tree.freeNodes + Subtree(s.tree.nodes, c, h - 1)
      && s1.freed == s.freed + LeafGeoms(s.tree.nodes, c, h - 1)
      && s1.tree.rootNode == s.tree.rootNode
      && forall k :: 0 <= k < MaxNumNodes ==>
           s1.tree.nodes[k] == if k in Subtree(s.tree.nodes, c, h - 1) then Cleared(s.tree.nodes[k]) else s.tree.nodes[k]
    requires s2 == s1.(tree := s1.tree.(nodes := s1.tree.nodes[index := s1.tree.nodes[index].SetSlot(i, InvalidIndex)]))
    ensures ChildrenAreTrees(s2.tree.nodes, index, i + 1, h)
    ensures ChildNodes(s2.tree.nodes, index, i + 1, h) == ChildNodes(s.tree.nodes, index, i + 1, h)
    ensures ChildGeoms(s2.tree.nodes, index, i + 1, h) == ChildGeoms(s.tree.nodes, index, i + 1, h)
    ensures Distinct(ChildNodes(s2.tree.nodes, index, i + 1, h) + [index])
    ensures s2.tree.freeNodes + ChildNodes(s2.tree.nodes, index, i + 1, h)
            == s.tree.freeNodes + ChildNodes(s.tree.nodes, index, i, h)
    ensures s2.freed + ChildGeoms(s2.tree.nodes, index, i + 1, h) == s.freed + ChildGeoms(s.tree.nodes, index, i, h)
    ensures ClearFrom(s2.tree.nodes[index], i + 1) == ClearFrom(s.tree.nodes[index], i)
    ensures forall k :: 0 <= k < MaxNumNodes && k != index && k !in ChildNodes(s.tree.nodes, index, i + 1, h) ==>
      s2.tree.nodes[k] == if k in ChildNodes(s.tree.nodes, index, i, h) then Cleared(s.tree.nodes[k]) else s.tree.nodes[k]
    ensures forall k :: k in ChildNodes(s.tree.nodes, index, i + 1, h) ==> s2.tree.nodes[k] == s.tree.nodes[k]
  {
    var nodes := s.tree.nodes;
    FreeChildrenPieces(nodes, index, i, h);
    var B := ChildNodes(nodes, index, i + 1, h);
    assert s2.tree.nodes[index] == nodes[index].SetSlot(i, InvalidIndex);
    forall k | k in B
      ensures s2.tree.nodes[k] == nodes[k]
    {
    }
    FrameChildren(nodes, s2.tree.nodes, index, i + 1, h);
    assert ClearFrom(s2.tree.nodes[index], i + 1).slots == ClearFrom(nodes[index], i).slots;
  }

  /**
   The child-release loop of `CreateLeaf` (the rest of that function is
   unfinished in the source): frees every child subtree of an inner node,
   leaving it an inner node without children.
   */
  function CreateLeaf(s: Step, index: NodeIndex, ghost h: nat): (r: Step)
    requires IsTree(s.tree.nodes, index, h) && !s.tree.nodes[index].IsLeaf()
    requires Distinct(Subtree(s.tree.nodes, index, h))
    ensures var S := Subtree(s.tree.nodes, index, h);
      r.tree.freeNodes == s.tree.freeNodes + S[..|S| - 1]
    ensures r.freed == s.freed + LeafGeoms(s.tree.nodes, index, h)
    ensures r.tree.nodes[index] == Cleared(s.tree.nodes[index])
    ensures forall k :: 0 <= k < MaxNumNodes && k != index ==>
      r.tree.nodes[k] == if k in Subtree(s.tree.nodes, index, h) then Cleared(s.tree.nodes[k]) else s.tree.nodes[k]
    ensures r.tree.rootNode == s.tree.rootNode
  {
    var S := Subtree(s.tree.nodes, index, h);
    assert S[..|S| - 1] == ChildNodes(s.tree.nodes, index, 0, h);
    assert ClearFrom(s.tree.nodes[index], 0) == Cleared(s.tree.nodes[index]);
    FreeChildren(s, index, 0, h)
  }
}
