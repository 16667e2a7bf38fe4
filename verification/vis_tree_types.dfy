/**
 The value types of the sparse LOD/visibility quadtree (src/VisTree.h):
 nodes whose four int16 slots are shared between child indices and geom
 indices, node addresses, half-open bounding rectangles, the quadrant
 numbering of the header comment, and `ComputeBounds` (src/VisTree.cc),
 which maps an address to its square of voxels.
 */
module VisTreeTypes {
  import opened IntMath
  import Config

  /** Number of tree levels. */
  const NumLevels: nat := 8
  /** Capacity of the node array. */
  const MaxNumNodes: nat := 2048
  /** The "no node / no geom" marker (`Oryol::InvalidIndex`). */
  const InvalidIndex: int := -1

  type Int16 = x: int | -0x8000 <= x < 0x8000
  type UInt8 = x: int | 0 <= x < 0x100
  /** An index into the node array. */
  type NodeIndex = x: int | 0 <= x < MaxNumNodes

  /** `Node::Flags`, stored in a `uint8`. */
  const FlagNone: bv8 := 0
  const FlagLeaf: bv8 := 1
  const FlagCullInside: bv8 := 4
  const FlagCullOutside: bv8 := 8

  /** The four int16 slots of the union `child[4]` / `geom[4]`. */
  type Slots = s: seq<Int16> | |s| == 4 witness [-1, -1, -1, -1]

  const NoSlots: Slots := [-1, -1, -1, -1]

  datatype Node = Node(flags: bv8, slots: Slots) {

    /** `child[i]`: the union read as child node indices. */
    function Child(i: nat): Int16
      requires i < 4
    {
      slots[i]
    }

    /** `geom[i]`: the same storage read as geom indices. */
    function Geom(i: nat): Int16
      requires i < 4
    {
      slots[i]
    }

    /** A leaf has the `Leaf` bit set; the slots play no part. */
    predicate IsLeaf() {
      flags & FlagLeaf != 0
    }

    /** Writing slot `i`, through either name of the union. */
    function SetSlot(i: nat, v: Int16): (n: Node)
      requires i < 4
      ensures n.flags == flags
      ensures n.Child(i) == v && n.Geom(i) == v
      ensures forall j :: 0 <= j < 4 && j != i ==> n.slots[j] == slots[j]
    {
      this.(slots := slots[i := v])
    }
  }

  /** A node address: level and x/y, each a `uint8`. */
  datatype Address = Address(level: UInt8, x: UInt8, y: UInt8)

  /** A bounding rectangle, half-open in both axes. */
  datatype Bounds = Bounds(x0: int, x1: int, y0: int, y1: int) {
    predicate Inside(x: int, y: int) {
      x >= x0 && x < x1 && y >= y0 && y < y1
    }
  }

  /** Side in voxels of a square at `level`: `(1<<(NumLevels-level-1)) * ChunkSizeXY`. */
  function Side(level: nat): nat
    requires level < NumLevels
  {
    Pow2(NumLevels - level - 1) * Config.ChunkSizeXY
  }

  /** Side of the whole map in voxels: `(1<<NumLevels) * ChunkSizeXY`. */
  const MapSide: nat := Pow2(NumLevels) * Config.ChunkSizeXY

  /**
   `ComputeBounds`: only the top `level+1` bits of x and y select the
   square, whose side halves from one level to the next.
   */
  function ComputeBounds(addr: Address): (b: Bounds)
    requires addr.level < NumLevels
    ensures b.x1 - b.x0 == Side(addr.level) && b.y1 - b.y0 == Side(addr.level)
    ensures b.x0 % Side(addr.level) == 0 && b.y0 % Side(addr.level) == 0
    ensures 0 <= b.x0 && b.x1 <= MapSide && 0 <= b.y0 && b.y1 <= MapSide
    ensures b.x0 <= addr.x * Config.ChunkSizeXY < b.x1 && b.y0 <= addr.y * Config.ChunkSizeXY < b.y1
  {
    var shift := NumLevels - addr.level - 1;
    var x0 := SquareOrigin(addr.x, shift);
    var y0 := SquareOrigin(addr.y, shift);
    Bounds(x0, x0 + Side(addr.level), y0, y0 + Side(addr.level))
  }

  /**
   `(v >> shift) * dim` with `dim = (1<<shift) * ChunkSizeXY`: the origin
   of the square that the top bits of an 8-bit coordinate select, a
   multiple of the side that leaves room for the whole square in the map
   and holds the chunk at `v`.
   */
  function SquareOrigin(v: UInt8, shift: nat): (o: nat)
    requires shift < NumLevels
    ensures o % (Pow2(shift) * Config.ChunkSizeXY) == 0
    ensures o + Pow2(shift) * Config.ChunkSizeXY <= MapSide
    ensures o <= v * Config.ChunkSizeXY < o + Pow2(shift) * Config.ChunkSizeXY
  {
    var p := Pow2(shift);
    var q := v / p;
    var dim := p * Config.ChunkSizeXY;
    assert Pow2(NumLevels) == 256;
    QuotientBelow(v, NumLevels, shift);
    BlockWithin(q, p, Config.ChunkSizeXY, Pow2(NumLevels));
    ScaledQuotient(v, p, Config.ChunkSizeXY);
    q * dim
  }

  /**
   The quadrant number of the header comment at level `lvl`: the x bit
   `((x<<lvl)&128)` goes to bit 0 (right half = 1) and the y bit to
   bit 1 (lower half = 2).
   */
  function ChildIndex(x: UInt8, y: UInt8, lvl: nat): (c: nat)
    ensures c < 4
    ensures c % 2 == (if (x * Pow2(lvl)) % 256 >= 128 then 1 else 0)
    ensures c / 2 == (if (y * Pow2(lvl)) % 256 >= 128 then 1 else 0)
  {
    var xb := if (x * Pow2(lvl)) % 256 >= 128 then 1 else 0;
    var yb := if (y * Pow2(lvl)) % 256 >= 128 then 2 else 0;
    xb + yb
  }

  //----------------------------------------------------------------------------
  // Properties of the value types
  //----------------------------------------------------------------------------

  /** Leaf-ness reads the flags only: the slot contents never change it. */
  lemma IsLeafIgnoresSlots(n: Node, s: Slots)
    ensures n.(slots := s).IsLeaf() == n.IsLeaf()
    ensures n.IsLeaf() <==> n.flags & FlagLeaf == FlagLeaf
  {
  }

  /** Writing `geom[i] = InvalidIndex` also clears `child[i]`: the union has one storage. */
  lemma ClearingGeomClearsChild(n: Node, i: nat)
    requires i < 4
    ensures n.SetSlot(i, InvalidIndex).Child(i) == InvalidIndex
    ensures forall j :: 0 <= j < 4 ==> n.Child(j) == n.Geom(j)
  {
  }

  /** Leaf and cull flags are distinct single bits. */
  lemma NodeFlagBits()
    ensures FlagLeaf & FlagCullInside == 0 && FlagLeaf & FlagCullOutside == 0
    ensures FlagCullInside & FlagCullOutside == 0
    ensures FlagNone & FlagLeaf == 0
  {
  }

  /** Two rectangles sharing a vertical edge never both contain a point. */
  lemma SharedEdgeDisjoint(a: Bounds, b: Bounds, x: int, y: int)
    requires a.x1 == b.x0
    ensures !(a.Inside(x, y) && b.Inside(x, y))
  {
  }

  /** `Inside` includes the low edges and excludes the high ones. */
  lemma InsideIsHalfOpen(b: Bounds)
    requires b.x0 < b.x1 && b.y0 < b.y1
    ensures b.Inside(b.x0, b.y0)
    ensures !b.Inside(b.x1, b.y0) && !b.Inside(b.x0, b.y1)
    ensures b.Inside(b.x1 - 1, b.y1 - 1)
  {
  }

  /** The square of an address at `level + 1` lies inside its square at `level`. */
  lemma ComputeBoundsNested(addr: Address)
    requires addr.level + 1 < NumLevels
    ensures var outer := ComputeBounds(addr);
      var inner := ComputeBounds(addr.(level := addr.level + 1));
      outer.x0 <= inner.x0 && inner.x1 <= outer.x1 && outer.y0 <= inner.y0 && inner.y1 <= outer.y1
  {
    var s := NumLevels - addr.level - 2;
    assert Side(addr.level + 1) == Pow2(s) * Config.ChunkSizeXY;
    assert Side(addr.level) == Pow2(s + 1) * Config.ChunkSizeXY;
    SquareNested(addr.x, s);
    SquareNested(addr.y, s);
  }

  /** On one axis: the square with shift `s` lies inside the square with shift `s + 1`. */
  lemma SquareNested(v: UInt8, s: nat)
    requires s + 1 < NumLevels
    ensures SquareOrigin(v, s + 1) <= SquareOrigin(v, s)
    ensures SquareOrigin(v, s) + Pow2(s) * Config.ChunkSizeXY <= SquareOrigin(v, s + 1) + Pow2(s + 1) * Config.ChunkSizeXY
  {
    assert Pow2(s + 1) * Config.ChunkSizeXY == 2 * (Pow2(s) * Config.ChunkSizeXY);
    ChildSquareOffset(v, s);
  }

  /**
   One level down the square's origin moves by 0 or by one child side, as
   bit `s` of the coordinate says.
   */
  lemma ChildSquareOffset(v: UInt8, s: nat)
    requires s + 1 < NumLevels
    ensures SquareOrigin(v, s) == SquareOrigin(v, s + 1) + ((v / Pow2(s)) % 2) * (Pow2(s) * Config.ChunkSizeXY)
    ensures (v / Pow2(s)) % 2 == 0 ==> SquareOrigin(v, s) == SquareOrigin(v, s + 1)
    ensures (v / Pow2(s)) % 2 == 1 ==> SquareOrigin(v, s) == SquareOrigin(v, s + 1) + Pow2(s) * Config.ChunkSizeXY
  {
    var p := Pow2(s);
    var d := p * Config.ChunkSizeXY;
    var q := v / p;
    var q2 := v / Pow2(s + 1);
    HalveQuotient(v, s);
    SquareOriginIs(v, s);
    SquareOriginIs(v, s + 1);
    MulAssoc(2, p, Config.ChunkSizeXY);
    assert Pow2(s + 1) * Config.ChunkSizeXY == 2 * d;
    OriginStep(q, q2, d);
  }

  lemma SquareOriginIs(v: UInt8, s: nat)
    requires s < NumLevels
    ensures SquareOrigin(v, s) == (v / Pow2(s)) * (Pow2(s) * Config.ChunkSizeXY)
  {
  }

  /** The header's bit test at `lvl` reads bit `7 - lvl` of the coordinate. */
  lemma QuadrantBit(v: UInt8, lvl: nat)
    requires lvl < NumLevels
    ensures ((v * Pow2(lvl)) % 256 >= 128) <==> ((v / Pow2(NumLevels - 1 - lvl)) % 2 == 1)
  {
    Pow2Add(lvl, NumLevels - 1 - lvl);
    assert Pow2(7) == 128;
    BitOfProduct(v, Pow2(NumLevels - 1 - lvl), Pow2(lvl));
  }

  /** With `p * m == 128`, bit 7 of `v * m` is bit 0 of `v / p`. */
  lemma BitOfProduct(v: nat, p: nat, m: nat)
    requires p * m == 128
    ensures ((v * m) % 256 >= 128) <==> ((v / p) % 2 == 1)
  {
    var q := v / p;
    var c := v % p;
    var b := q % 2;
    var a := q / 2;
    SplitProduct(v, q, p, c, m, a, b);
    MulLe(c + 1, p, m);
    MulSucc(c, m);
    DivUnique(v * m, 256, a, b * 128 + c * m);
  }

  lemma SplitProduct(v: int, q: int, p: int, c: int, m: int, a: int, b: int)
    requires v == q * p + c && q == 2 * a + b && p * m == 128
    ensures v * m == a * 256 + (b * 128 + c * m)
  {
    calc {
      v * m;
      (q * p + c) * m;
      q * (p * m) + c * m;
      q * 128 + c * m;
      a * 256 + (b * 128 + c * m);
    }
  }

  /**
   The quadrant number at `lvl` says which quarter of the square at
   `lvl - 1` holds the square at `lvl`: bit 0 moves right, bit 1 moves down.
   */
  lemma ChildIndexSelectsQuadrant(addr: Address)
    requires 1 <= addr.level < NumLevels
    ensures var parent := ComputeBounds(addr.(level := addr.level - 1));
      var child := ComputeBounds(addr);
      var c := ChildIndex(addr.x, addr.y, addr.level);
      child.x0 == parent.x0 + (c % 2) * Side(addr.level) &&
      child.y0 == parent.y0 + (c / 2) * Side(addr.level)
  {
    var lvl := addr.level;
    var c := ChildIndex(addr.x, addr.y, lvl);
    AxisOffset(addr.x, lvl);
    AxisOffset(addr.y, lvl);
    OriginsOfBounds(addr);
    OriginsOfBounds(addr.(level := lvl - 1));
  }

  /** The corner of `ComputeBounds` is the pair of square origins. */
  lemma OriginsOfBounds(addr: Address)
    requires addr.level < NumLevels
    ensures ComputeBounds(addr).x0 == SquareOrigin(addr.x, NumLevels - addr.level - 1)
    ensures ComputeBounds(addr).y0 == SquareOrigin(addr.y, NumLevels - addr.level - 1)
  {
  }

  /** On one axis: the child's origin moves by one side exactly when the header's bit test at `lvl` is set. */
  lemma AxisOffset(v: UInt8, lvl: nat)
    requires 1 <= lvl < NumLevels
    ensures SquareOrigin(v, NumLevels - lvl - 1)
      == SquareOrigin(v, NumLevels - lvl) + (if (v * Pow2(lvl)) % 256 >= 128 then 1 else 0) * Side(lvl)
  {
    var s := NumLevels - lvl - 1;
    assert Side(lvl) == Pow2(s) * Config.ChunkSizeXY;
    ChildSquareOffset(v, s);
    QuadrantBit(v, lvl);
  }
}
