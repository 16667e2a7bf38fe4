/**
 `VisNode` (src/VisNode.h): a quadtree node with a 16-bit flag word,
 three geom indices and four child indices. Unlike the nodes of the
 `VisTree` arena it has separate geom and child arrays, and a node is a
 leaf when its first child index is invalid.
 */
module VisNode {
  import VisTreeTypes

  /** Number of geom slots of a node. */
  const NumGeoms: nat := 3
  /** Number of child slots of a node. */
  const NumChilds: nat := 4

  /** `Flags` bits; the flag word is a `uint16`. */
  const CullInside: bv16 := 2
  const CullOutside: bv16 := 4

  type Int16 = VisTreeTypes.Int16
  type Geoms = s: seq<Int16> | |s| == NumGeoms witness [-1, -1, -1]
  type Childs = s: seq<Int16> | |s| == NumChilds witness [-1, -1, -1, -1]

  datatype VisNode = VisNode(flags: bv16, geoms: Geoms, childs: Childs) {

    /** `IsLeaf`: the first child index is invalid. */
    predicate IsLeaf() {
      childs[0] == VisTreeTypes.InvalidIndex
    }
  }

  /**
   `Reset`: flags cleared and every geom and child slot invalid. The
   result is the same whatever the node held before.
   */
  method Reset(n: VisNode) returns (r: VisNode)
    ensures r.flags == 0
    ensures forall i :: 0 <= i < NumGeoms ==> r.geoms[i] == VisTreeTypes.InvalidIndex
    ensures forall i :: 0 <= i < NumChilds ==> r.childs[i] == VisTreeTypes.InvalidIndex
    ensures r == Blank
  {
    var geoms := n.geoms;
    var i := 0;
    while i < NumGeoms
      invariant 0 <= i <= NumGeoms && |geoms| == NumGeoms
      invariant forall j :: 0 <= j < i ==> geoms[j] == VisTreeTypes.InvalidIndex
    {
      geoms := geoms[i := VisTreeTypes.InvalidIndex];
      i := i + 1;
    }
    var childs := n.childs;
    i := 0;
    while i < NumChilds
      invariant 0 <= i <= NumChilds && |childs| == NumChilds
      invariant forall j :: 0 <= j < i ==> childs[j] == VisTreeTypes.InvalidIndex
    {
      childs := childs[i := VisTreeTypes.InvalidIndex];
      i := i + 1;
    }
    r := VisNode(0, geoms, childs);
  }

  /** The node `Reset` produces: no flags, no geoms, no children. */
  const Blank: VisNode := VisNode(0, [-1, -1, -1], [-1, -1, -1, -1])

  /** A reset node is a leaf and carries no cull flag. */
  lemma BlankIsLeaf()
    ensures Blank.IsLeaf()
    ensures Blank.flags & (CullInside | CullOutside) == 0
  {
  }

  /** Leaf-ness reads only the first child: flags, geoms and the other children play no part. */
  lemma IsLeafReadsFirstChild(n: VisNode, m: VisNode)
    requires n.childs[0] == m.childs[0]
    ensures n.IsLeaf() <==> m.IsLeaf()
  {
  }

  /** The two flag bits are distinct single bits. */
  lemma FlagBits()
    ensures CullInside & CullOutside == 0
    ensures CullInside == 1 << 1 && CullOutside == 1 << 2
  {
  }
}
