/**
 `VisMap` (src/VisMap.h, src/VisMap.cc): the visibility/LOD quadtree laid
 out like a mip-map. Level `l` is a `2^l x 2^l` grid of chunks stored row
 by row (x major) in one flat array, right after the cells of all coarser
 levels; `LevelIndex[l]` is where level `l` starts.
 */
module VisMap {
  import opened IntMath
  import Config
  import VisTreeTypes

  /** `Chunk::Flags`, an `int16` enum used as a bit set. */
  const FlagNone: bv16 := 0
  const FlagCullInside: bv16 := 1
  const FlagCullOutside: bv16 := 2
  const FlagCullMask: bv16 := 3
  const FlagGeomValid: bv16 := 4

  datatype Chunk = Chunk(flags: bv16, geomIndex: VisTreeTypes.Int16)

  /** A default-constructed chunk: no flags and no geom. */
  const DefaultChunk: Chunk := Chunk(FlagNone, VisTreeTypes.InvalidIndex)

  /** Size of the flat chunk array: the finest level plus half of it again. */
  const MaxNumChunks: nat := Config.MapDimChunks * Config.MapDimChunks + (Config.MapDimChunks * Config.MapDimChunks) / 2

  type LevelTable = s: seq<int> | |s| == Config.NumLevels witness seq(Config.NumLevels, _ => 0)
  type ChunkArray = s: seq<Chunk> | |s| == MaxNumChunks witness seq(MaxNumChunks, _ => DefaultChunk)

  datatype VisMap = VisMap(levelIndex: LevelTable, chunks: ChunkArray)

  /** A chunk address: mip level and cell. */
  datatype ChunkAddress = ChunkAddress(lvl: nat, x: nat, y: nat)

  /** The address lies on the map: a level that exists and a cell of its grid. */
  predicate ValidAddress(a: ChunkAddress) {
    a.lvl < Config.NumLevels && a.x < Pow2(a.lvl) && a.y < Pow2(a.lvl)
  }

  /** Number of cells on the levels before `l`: `4^0 + ... + 4^(l-1)`. */
  function LevelStart(l: nat): nat {
    if l == 0 then 0 else LevelStart(l - 1) + Pow4(l - 1)
  }

  /** `LevelIndex` holds the level offsets, as `Setup` leaves it. */
  predicate IsSetUp(m: VisMap) {
    forall l :: 0 <= l < Config.NumLevels ==> m.levelIndex[l] == LevelStart(l)
  }

  /**
   `Setup`: fills `LevelIndex` with running sums of the level sizes
   `(1<<i)*(1<<i)`. The chunks are not touched.
   */
  method Setup(m: VisMap) returns (r: VisMap)
    ensures IsSetUp(r)
    ensures r.levelIndex[0] == 0
    ensures forall i :: 0 <= i < Config.NumLevels - 1 ==> r.levelIndex[i + 1] == r.levelIndex[i] + Pow4(i)
    ensures r.chunks == m.chunks
  {
    var levelIndex := m.levelIndex;
    var offset := 0;
    var i := 0;
    while i < Config.NumLevels
      invariant 0 <= i <= Config.NumLevels && |levelIndex| == Config.NumLevels
      invariant offset == LevelStart(i)
      invariant forall l :: 0 <= l < i ==> levelIndex[l] == LevelStart(l)
    {
      levelIndex := levelIndex[i := offset];
      Pow4IsSquare(i);
      offset := offset + Pow2(i) * Pow2(i);
      i := i + 1;
    }
    r := VisMap(levelIndex, m.chunks);
  }

  /**
   `IndexOf`: the level's offset plus the row-major cell number. The
   source asserts (in debug builds only) that the level exists, the cell
   is below `1<<lvl` and the result is below `MaxNumChunks`; it does not
   check for negative x or y.
   */
  function IndexOf(m: VisMap, a: ChunkAddress): (r: nat)
    requires IsSetUp(m) && ValidAddress(a)
    ensures LevelStart(a.lvl) <= r < LevelStart(a.lvl + 1)
    ensures r < MaxNumChunks
  {
    var dim := Pow2(a.lvl);
    RowMajorBelow(a.x, a.y, dim, dim);
    Pow4IsSquare(a.lvl);
    AllLevelsFit(a.lvl + 1);
    m.levelIndex[a.lvl] + a.x * dim + a.y
  }

  /** `At` (both overloads): the chunk stored for an address. */
  function At(m: VisMap, a: ChunkAddress): (c: Chunk)
    requires IsSetUp(m) && ValidAddress(a)
    ensures c == m.chunks[IndexOf(m, a)]
  {
    m.chunks[IndexOf(m, a)]
  }

  /** Writing through the reference `At` returns. */
  function SetAt(m: VisMap, a: ChunkAddress, c: Chunk): (r: VisMap)
    requires IsSetUp(m) && ValidAddress(a)
    ensures IsSetUp(r) && r.levelIndex == m.levelIndex
    ensures r.chunks[IndexOf(m, a)] == c
    ensures |r.chunks| == |m.chunks| && forall i :: 0 <= i < |m.chunks| && i != IndexOf(m, a) ==> r.chunks[i] == m.chunks[i]
  {
    m.(chunks := m.chunks[IndexOf(m, a) := c])
  }

  /** An axis-aligned rectangle in voxels, half-open like the tree's bounds. */
  datatype Rect = Rect(x0: int, x1: int, y0: int, y1: int) {
    predicate Contains(x: int, y: int) {
      x0 <= x < x1 && y0 <= y < y1
    }
  }

  /** Side in voxels of a chunk at `lvl`: `(1<<(NumLevels-lvl-1)) * ChunkSizeXY`. */
  function ChunkSide(lvl: nat): nat
    requires lvl < Config.NumLevels
  {
    Pow2(Config.NumLevels - lvl - 1) * Config.ChunkSizeXY
  }

  /** `Bounds`: the square of voxels a chunk covers. */
  function Bounds(a: ChunkAddress): (b: Rect)
    requires ValidAddress(a)
    ensures b.x1 - b.x0 == ChunkSide(a.lvl) && b.y1 - b.y0 == ChunkSide(a.lvl)
    ensures b.x0 % ChunkSide(a.lvl) == 0 && b.y0 % ChunkSide(a.lvl) == 0
    ensures 0 <= b.x0 && b.x1 <= Config.MapDimVoxels && 0 <= b.y0 && b.y1 <= Config.MapDimVoxels
  {
    var dim := ChunkSide(a.lvl);
    CellInMap(a.lvl, a.x);
    CellInMap(a.lvl, a.y);
    Rect(a.x * dim, a.x * dim + dim, a.y * dim, a.y * dim + dim)
  }

  //----------------------------------------------------------------------------
  // Layout properties
  //----------------------------------------------------------------------------

  /** The running sums have the closed form `(4^l - 1) / 3`. */
  lemma {:induction false} LevelStartClosedForm(l: nat)
    ensures 3 * LevelStart(l) + 1 == Pow4(l)
  {
    if l > 0 {
      LevelStartClosedForm(l - 1);
    }
  }

  /** Level starts grow with the level. */
  lemma {:induction false} LevelStartMonotone(a: nat, b: nat)
    requires a <= b
    ensures LevelStart(a) <= LevelStart(b)
    ensures a < b ==> LevelStart(a + 1) <= LevelStart(b)
    decreases b - a
  {
    if a < b {
      LevelStartMonotone(a + 1, b);
    }
  }

  /** All levels up to `l` fit in the flat array; all five need 341 of its 384 cells. */
  lemma AllLevelsFit(l: nat)
    requires l <= Config.NumLevels
    ensures LevelStart(l) <= LevelStart(Config.NumLevels)
    ensures LevelStart(Config.NumLevels) == 341 && MaxNumChunks == 384
  {
    LevelStartMonotone(l, Config.NumLevels);
    Config.MapSizes();
    assert Pow4(4) == 256 && Pow4(3) == 64;
  }

  /** The chunk flags are single bits, the mask covers exactly the two cull bits. */
  lemma ChunkFlagBits()
    ensures FlagCullInside & FlagCullOutside == 0
    ensures FlagCullMask == FlagCullInside | FlagCullOutside
    ensures FlagCullMask & FlagGeomValid == 0
    ensures DefaultChunk.flags == FlagNone && DefaultChunk.geomIndex == -1
  {
  }

  /** A cell of level `lvl` ends no further than the side of the map. */
  lemma CellInMap(lvl: nat, v: nat)
    requires lvl < Config.NumLevels && v < Pow2(lvl)
    ensures v * ChunkSide(lvl) % ChunkSide(lvl) == 0
    ensures v * ChunkSide(lvl) + ChunkSide(lvl) <= Config.MapDimVoxels
  {
    var dim := ChunkSide(lvl);
    var p := Pow2(Config.NumLevels - lvl - 1);
    Pow2Add(lvl, Config.NumLevels - lvl - 1);
    Config.MapSizes();
    assert Pow2(lvl) * p == 16;
    MulLe(v + 1, Pow2(lvl), p);
    MulAssoc(v + 1, p, Config.ChunkSizeXY);
    MulSucc(v, dim);
    DivUnique(v * dim, dim, v, 0);
  }

  //----------------------------------------------------------------------------
  // The inverse of IndexOf
  //----------------------------------------------------------------------------

  /** The level whose range holds flat index `i`, searched upwards from `l`. */
  function LevelOf(i: nat, l: nat): (r: nat)
    requires l < Config.NumLevels && LevelStart(l) <= i < LevelStart(Config.NumLevels)
    ensures l <= r < Config.NumLevels && LevelStart(r) <= i < LevelStart(r + 1)
    decreases Config.NumLevels - l
  {
    if i < LevelStart(l + 1) then l else LevelOf(i, l + 1)
  }

  /** The address stored at flat index `i` of the levels' cells. */
  function AddressOf(i: nat): (a: ChunkAddress)
    requires i < LevelStart(Config.NumLevels)
    ensures ValidAddress(a)
    ensures LevelStart(a.lvl) <= i < LevelStart(a.lvl + 1)
  {
    var l := LevelOf(i, 0);
    var p := Pow2(l);
    var off := i - LevelStart(l);
    Pow4IsSquare(l);
    RowBelow(off, p);
    ChunkAddress(l, off / p, off % p)
  }

  /** The row of a cell number below `p * p` is below `p`. */
  lemma RowBelow(off: nat, p: nat)
    requires p > 0 && off < p * p
    ensures off / p < p
  {
    if off / p >= p {
      MulLe(p, off / p, p);
    }
  }

  /** Only one level's range holds a given index. */
  lemma LevelUnique(a: nat, b: nat, i: nat)
    requires LevelStart(a) <= i < LevelStart(a + 1)
    requires LevelStart(b) <= i < LevelStart(b + 1)
    ensures a == b
  {
    if a < b {
      LevelStartMonotone(a, b);
    } else if b < a {
      LevelStartMonotone(b, a);
    }
  }

  /** Decoding then encoding gives the index back. */
  lemma IndexOfAddressOf(m: VisMap, i: nat)
    requires IsSetUp(m) && i < LevelStart(Config.NumLevels)
    ensures IndexOf(m, AddressOf(i)) == i
  {
    var l := LevelOf(i, 0);
    var p := Pow2(l);
    var off := i - LevelStart(l);
    var x := off / p;
    var y := off % p;
    assert AddressOf(i) == ChunkAddress(l, x, y);
    DivModSplit(off, p);
    assert m.levelIndex[l] == LevelStart(l);
  }

  /** Encoding then decoding gives the address back. */
  lemma AddressOfIndexOf(m: VisMap, a: ChunkAddress)
    requires IsSetUp(m) && ValidAddress(a)
    ensures IndexOf(m, a) < LevelStart(Config.NumLevels)
    ensures AddressOf(IndexOf(m, a)) == a
  {
    var i := IndexOf(m, a);
    AllLevelsFit(a.lvl + 1);
    var b := AddressOf(i);
    LevelUnique(a.lvl, b.lvl, i);
    var p := Pow2(a.lvl);
    DivUnique(a.x * p + a.y, p, a.x, a.y);
  }

  /** Distinct addresses never share a cell of the flat array. */
  lemma IndexOfInjective(m: VisMap, a: ChunkAddress, b: ChunkAddress)
    requires IsSetUp(m) && ValidAddress(a) && ValidAddress(b)
    requires IndexOf(m, a) == IndexOf(m, b)
    ensures a == b
  {
    AddressOfIndexOf(m, a);
    AddressOfIndexOf(m, b);
  }

  /** `At` reads back what `SetAt` wrote and sees every other address unchanged. */
  lemma AtSetAt(m: VisMap, a: ChunkAddress, b: ChunkAddress, c: Chunk)
    requires IsSetUp(m) && ValidAddress(a) && ValidAddress(b)
    ensures At(SetAt(m, a, c), b) == if a == b then c else At(m, b)
  {
    if a != b && IndexOf(m, a) == IndexOf(m, b) {
      IndexOfInjective(m, a, b);
    }
  }

  //----------------------------------------------------------------------------
  // The four children of a cell tile it
  //----------------------------------------------------------------------------

  /** Child `(i, j)` of a cell: the cell `(2x+i, 2y+j)` one level down. */
  function ChildAddress(a: ChunkAddress, i: nat, j: nat): (c: ChunkAddress)
    requires ValidAddress(a) && a.lvl + 1 < Config.NumLevels && i < 2 && j < 2
    ensures ValidAddress(c)
  {
    assert Pow2(a.lvl + 1) == 2 * Pow2(a.lvl);
    ChunkAddress(a.lvl + 1, 2 * a.x + i, 2 * a.y + j)
  }

  /** Child `(i, j)` sits `i` child sides right of and `j` child sides below the parent's origin. */
  lemma ChildOffsets(a: ChunkAddress, i: nat, j: nat)
    requires ValidAddress(a) && a.lvl + 1 < Config.NumLevels && i < 2 && j < 2
    ensures ChunkSide(a.lvl) == 2 * ChunkSide(a.lvl + 1)
    ensures Bounds(ChildAddress(a, i, j)).x0 == Bounds(a).x0 + i * ChunkSide(a.lvl + 1)
    ensures Bounds(ChildAddress(a, i, j)).y0 == Bounds(a).y0 + j * ChunkSide(a.lvl + 1)
  {
    var d := ChunkSide(a.lvl + 1);
    assert Pow2(Config.NumLevels - a.lvl - 1) == 2 * Pow2(Config.NumLevels - a.lvl - 2);
    assert ChunkSide(a.lvl) == 2 * d;
    MulSplit(2 * a.x + i, a.x, i, d);
    MulSplit(2 * a.y + j, a.y, j, d);
  }

  /** How many of the four children contain the point. */
  function ChildrenContaining(a: ChunkAddress, px: int, py: int): nat
    requires ValidAddress(a) && a.lvl + 1 < Config.NumLevels
  {
    (if Bounds(ChildAddress(a, 0, 0)).Contains(px, py) then 1 else 0) +
    (if Bounds(ChildAddress(a, 0, 1)).Contains(px, py) then 1 else 0) +
    (if Bounds(ChildAddress(a, 1, 0)).Contains(px, py) then 1 else 0) +
    (if Bounds(ChildAddress(a, 1, 1)).Contains(px, py) then 1 else 0)
  }

  /**
   The four cells one level down tile a cell exactly: each point of the
   cell lies in exactly one child, and no point outside lies in any.
   */
  lemma ChildrenTile(a: ChunkAddress, px: int, py: int)
    requires ValidAddress(a) && a.lvl + 1 < Config.NumLevels
    ensures Bounds(a).Contains(px, py) ==> ChildrenContaining(a, px, py) == 1
    ensures !Bounds(a).Contains(px, py) ==> ChildrenContaining(a, px, py) == 0
  {
    ChildOffsets(a, 0, 0);
    ChildOffsets(a, 0, 1);
    ChildOffsets(a, 1, 0);
    ChildOffsets(a, 1, 1);
  }
}
