/**
 The deterministic loops of the prototype `VoxelTest` (src/VoxelTest.cc):
 a grid of `NumChunksX x NumChunksZ` chunks, each with its own copy of
 the quad index buffer, a block volume that is solid except for a
 one-voxel border, and a colour volume that every frame repaints with a
 running 8-bit colour counter.
 */
module VoxelTest {
  import opened IntMath
  import QuadIndices

  /** Chunk volume size in voxels. */
  const SizeX: nat := 16
  const SizeY: nat := 16
  const SizeZ: nat := 16

  /** `Chunk::MaxNumVertices`, `1<<14`. */
  const MaxNumVertices: nat := Pow2(14)

  /** The chunk grid of the prototype. */
  const NumChunksX: nat := 8
  const NumChunksZ: nat := 8
  const NumChunks: nat := NumChunksX * NumChunksZ

  /** Range of the `int32` frame and update counters. */
  const Int32Min: int := -0x8000_0000
  const Int32Max: int := 0x7fff_ffff

  //----------------------------------------------------------------------------
  // The index buffer of a chunk
  //----------------------------------------------------------------------------

  /**
   The index loop of `Chunk::setup`: `MaxNumVertices / 4` quads, six
   entries each. All vertex numbers stay below `MaxNumVertices`, so the
   `uint16` stores never truncate.
   */
  method ChunkIndexBuffer() returns (indices: seq<int>)
    ensures |indices| == 6 * (MaxNumVertices / 4) && |indices| == 24576
    ensures forall i :: 0 <= i < |indices| ==> indices[i] == QuadIndices.QuadIndex(i)
    ensures forall i :: 0 <= i < |indices| ==> 0 <= indices[i] < MaxNumVertices
  {
    assert MaxNumVertices == 16384;
    var maxNumQuads := MaxNumVertices / 4;
    indices := QuadIndices.FillQuadIndices(maxNumQuads);
    forall i | 0 <= i < |indices|
      ensures indices[i] == QuadIndices.QuadIndex(i) < MaxNumVertices
    {
      QuadIndices.NoTruncation(maxNumQuads, i);
    }
  }

  //----------------------------------------------------------------------------
  // The block volume
  //----------------------------------------------------------------------------

  type Column = s: seq<int> | |s| == SizeZ witness seq(SizeZ, _ => 0)
  type Plane = s: seq<Column> | |s| == SizeY witness seq(SizeY, _ => EmptyColumn)
  /** `blocks[x][y][z]`, one `uchar` block type per voxel. */
  type Blocks = s: seq<Plane> | |s| == SizeX witness EmptyPlanes

  const EmptyColumn: Column := seq(SizeZ, _ => 0)
  const EmptyPlane: Plane := seq(SizeY, _ => EmptyColumn)
  const EmptyPlanes: seq<Plane> := seq(SizeX, _ => EmptyPlane)

  /** The volume after `Memory::Clear`: every block 0. */
  const ClearedBlocks: Blocks := EmptyPlanes

  /** Innermost loop of the block fill: sets blocks `1 .. SizeZ-2` of a cleared column. */
  method FillColumn(col: Column) returns (r: Column)
    requires forall z :: 0 <= z < SizeZ ==> col[z] == 0
    ensures forall z :: 0 <= z < SizeZ ==> r[z] == if 1 <= z < SizeZ - 1 then 1 else 0
  {
    r := col;
    var z := 1;
    while z < SizeZ - 1
      invariant 1 <= z <= SizeZ - 1
      invariant forall k :: 0 <= k < SizeZ ==> r[k] == if 1 <= k < z then 1 else 0
    {
      r := r[z := 1];
      z := z + 1;
    }
  }

  /** Middle loop of the block fill: fills columns `1 .. SizeY-2` of a cleared plane. */
  method FillPlane(plane: Plane) returns (r: Plane)
    requires forall y, z :: 0 <= y < SizeY && 0 <= z < SizeZ ==> plane[y][z] == 0
    ensures forall y, z :: 0 <= y < SizeY && 0 <= z < SizeZ ==>
      r[y][z] == if 1 <= y < SizeY - 1 && 1 <= z < SizeZ - 1 then 1 else 0
  {
    r := plane;
    var y := 1;
    while y < SizeY - 1
      invariant 1 <= y <= SizeY - 1
      invariant forall k, z :: 0 <= k < SizeY && 0 <= z < SizeZ ==>
        r[k][z] == if 1 <= k < y && 1 <= z < SizeZ - 1 then 1 else 0
    {
      forall z | 0 <= z < SizeZ
        ensures r[y][z] == 0
      {
        assert !(1 <= y < y);
      }
      var col := FillColumn(r[y]);
      var prev := r;
      r := r[y := col];
      forall k, z | 0 <= k < SizeY && 0 <= z < SizeZ
        ensures r[k][z] == if 1 <= k < y + 1 && 1 <= z < SizeZ - 1 then 1 else 0
      {
        if k != y {
          assert r[k] == prev[k];
        }
      }
      y := y + 1;
    }
  }

  /**
   The block fill of `Chunk::setup`: after clearing, a voxel is solid (1)
   exactly when none of its coordinates is on the border of the volume.
   */
  method FillBlocks() returns (blocks: Blocks)
    ensures forall x, y, z :: 0 <= x < SizeX && 0 <= y < SizeY && 0 <= z < SizeZ ==>
      (blocks[x][y][z] == 1 <==> 1 <= x < SizeX - 1 && 1 <= y < SizeY - 1 && 1 <= z < SizeZ - 1)
    ensures forall x, y, z :: 0 <= x < SizeX && 0 <= y < SizeY && 0 <= z < SizeZ ==>
      (blocks[x][y][z] == 0 || blocks[x][y][z] == 1)
  {
    blocks := ClearedBlocks;
    var x := 1;
    while x < SizeX - 1
      invariant 1 <= x <= SizeX - 1
      invariant forall k, y, z :: 0 <= k < SizeX && 0 <= y < SizeY && 0 <= z < SizeZ ==>
        blocks[k][y][z] == if 1 <= k < x && 1 <= y < SizeY - 1 && 1 <= z < SizeZ - 1 then 1 else 0
    {
      forall y, z | 0 <= y < SizeY && 0 <= z < SizeZ
        ensures blocks[x][y][z] == 0
      {
        assert !(1 <= x < x);
      }
      var plane := FillPlane(blocks[x]);
      var prev := blocks;
      blocks := blocks[x := plane];
      forall k, y, z | 0 <= k < SizeX && 0 <= y < SizeY && 0 <= z < SizeZ
        ensures blocks[k][y][z] == if 1 <= k < x + 1 && 1 <= y < SizeY - 1 && 1 <= z < SizeZ - 1 then 1 else 0
      {
        if k != x {
          assert blocks[k] == prev[k];
        }
      }
      x := x + 1;
    }
  }

  //----------------------------------------------------------------------------
  // The colour volume
  //----------------------------------------------------------------------------

  /** `stbvox_rgb`: three `uint8` channels. */
  datatype Rgb = Rgb(r: int, g: int, b: int)

  type ColorColumn = s: seq<Rgb> | |s| == SizeZ witness seq(SizeZ, _ => Rgb(0, 0, 0))
  type ColorPlane = s: seq<ColorColumn> | |s| == SizeY witness seq(SizeY, _ => BlackColumn)
  /** `colors[x][y][z]`. */
  type Colors = s: seq<ColorPlane> | |s| == SizeX witness BlackPlanes

  const BlackColumn: ColorColumn := seq(SizeZ, _ => Rgb(0, 0, 0))
  const BlackPlane: ColorPlane := seq(SizeY, _ => BlackColumn)
  const BlackPlanes: seq<ColorPlane> := seq(SizeX, _ => BlackPlane)

  /** Conversion to `uint8`: two's complement truncation, i.e. the residue modulo 256. */
  function ToUInt8(v: int): (r: int)
    ensures 0 <= r < 256
    ensures 0 <= v < 256 ==> r == v
  {
    v % 256
  }

  /** Position of voxel `(x, y, z)` in the visiting order of `update_volume`: y outermost, x innermost. */
  function Visit(x: int, y: int, z: int): int {
    (y * SizeZ + z) * SizeX + x
  }

  /** The colour `update_volume(u)` gives voxel `(x, y, z)`: the counters started at `u`, `u+33`, `u+55`. */
  function ColorAt(u: int, x: int, y: int, z: int): Rgb {
    Rgb(ToUInt8(u + Visit(x, y, z)), ToUInt8(u + 33 + Visit(x, y, z)), ToUInt8(u + 55 + Visit(x, y, z)))
  }

  /** Every voxel of the volume has the colour `update_volume(u)` gives it. */
  ghost predicate Painted(c: Colors, u: int) {
    forall x, y, z :: 0 <= x < SizeX && 0 <= y < SizeY && 0 <= z < SizeZ ==> c[x][y][z] == ColorAt(u, x, y, z)
  }

  /** The three counters before voxel `n` of the visiting order. */
  ghost predicate Counters(u: int, n: int, r: int, g: int, b: int) {
    r == ToUInt8(u + n) && g == ToUInt8(u + 33 + n) && b == ToUInt8(u + 55 + n)
  }

  /** Incrementing a `uint8` counter steps the residue. */
  lemma UInt8Step(a: int)
    ensures ToUInt8(ToUInt8(a) + 1) == ToUInt8(a + 1)
  {
    var q := a / 256;
    var m := a % 256;
    DivModSplit(a, 256);
    if m == 255 {
      DivUnique(a + 1, 256, q + 1, 0);
    } else {
      DivUnique(a + 1, 256, q, m + 1);
    }
  }

  /** The innermost loop of `update_volume`: paints the row of voxels `(0..SizeX-1, y, z)`. */
  method PaintRow(c: Colors, ghost u: int, y: nat, z: nat, r0: int, g0: int, b0: int)
    returns (c': Colors, r: int, g: int, b: int)
    requires y < SizeY && z < SizeZ
    requires Counters(u, Visit(0, y, z), r0, g0, b0)
    ensures Counters(u, Visit(0, y, z) + SizeX, r, g, b)
    ensures forall x :: 0 <= x < SizeX ==> c'[x][y][z] == ColorAt(u, x, y, z)
    ensures forall x, y', z' :: 0 <= x < SizeX && 0 <= y' < SizeY && 0 <= z' < SizeZ && (y' != y || z' != z) ==>
      c'[x][y'][z'] == c[x][y'][z']
  {
    c', r, g, b := c, r0, g0, b0;
    var x := 0;
    while x < SizeX
      invariant 0 <= x <= SizeX
      invariant Counters(u, Visit(x, y, z), r, g, b)
      invariant forall k :: 0 <= k < x ==> c'[k][y][z] == ColorAt(u, k, y, z)
      invariant forall k, y', z' :: 0 <= k < SizeX && 0 <= y' < SizeY && 0 <= z' < SizeZ && (y' != y || z' != z) ==>
        c'[k][y'][z'] == c[k][y'][z']
    {
      c' := c'[x := c'[x][y := c'[x][y][z := Rgb(r, g, b)]]];
      UInt8Step(u + Visit(x, y, z));
      UInt8Step(u + 33 + Visit(x, y, z));
      UInt8Step(u + 55 + Visit(x, y, z));
      r, g, b := ToUInt8(r + 1), ToUInt8(g + 1), ToUInt8(b + 1);
      x := x + 1;
    }
  }

  /** The middle loop of `update_volume`: paints the plane of voxels with the given `y`. */
  method PaintPlane(c: Colors, ghost u: int, y: nat, r0: int, g0: int, b0: int)
    returns (c': Colors, r: int, g: int, b: int)
    requires y < SizeY
    requires Counters(u, Visit(0, y, 0), r0, g0, b0)
    ensures Counters(u, Visit(0, y + 1, 0), r, g, b)
    ensures forall x, z :: 0 <= x < SizeX && 0 <= z < SizeZ ==> c'[x][y][z] == ColorAt(u, x, y, z)
    ensures forall x, y', z :: 0 <= x < SizeX && 0 <= y' < SizeY && 0 <= z < SizeZ && y' != y ==>
      c'[x][y'][z] == c[x][y'][z]
  {
    c', r, g, b := c, r0, g0, b0;
    var z := 0;
    while z < SizeZ
      invariant 0 <= z <= SizeZ
      invariant Counters(u, Visit(0, y, z), r, g, b)
      invariant forall x, k :: 0 <= x < SizeX && 0 <= k < z ==> c'[x][y][k] == ColorAt(u, x, y, k)
      invariant forall x, y', k :: 0 <= x < SizeX && 0 <= y' < SizeY && 0 <= k < SizeZ && (y' != y || k >= z) ==>
        c'[x][y'][k] == c[x][y'][k]
    {
      var prev := c';
      c', r, g, b := PaintRow(c', u, y, z, r, g, b);
      forall x, k | 0 <= x < SizeX && 0 <= k < z + 1
        ensures c'[x][y][k] == ColorAt(u, x, y, k)
      {
        if k < z {
          assert c'[x][y][k] == prev[x][y][k];
        }
      }
      z := z + 1;
    }
  }

  /**
   `update_volume(updateIndex)`: paints every voxel once, the red channel
   counting up from `updateIndex` in the visiting order and green and
   blue 33 and 55 ahead, all modulo 256; returns `updateIndex + 100`.
   */
  method UpdateVolume(c: Colors, updateIndex: int) returns (c': Colors, next: int)
    requires Int32Min <= updateIndex && updateIndex + 100 <= Int32Max
    ensures Painted(c', updateIndex)
    ensures next == updateIndex + 100
  {
    var r, g, b := ToUInt8(updateIndex), ToUInt8(updateIndex + 33), ToUInt8(updateIndex + 55);
    c' := c;
    var y := 0;
    while y < SizeY
      invariant 0 <= y <= SizeY
      invariant Counters(updateIndex, Visit(0, y, 0), r, g, b)
      invariant forall x, k, z :: 0 <= x < SizeX && 0 <= k < y && 0 <= z < SizeZ ==> c'[x][k][z] == ColorAt(updateIndex, x, k, z)
    {
      c', r, g, b := PaintPlane(c', updateIndex, y, r, g, b);
      y := y + 1;
    }
    next := updateIndex + 100;
  }

  /** Green and blue run 33 and 55 steps ahead of red, modulo 256. */
  lemma ChannelOffsets(u: int, x: int, y: int, z: int)
    ensures ColorAt(u, x, y, z).g == ToUInt8(ColorAt(u, x, y, z).r + 33)
    ensures ColorAt(u, x, y, z).b == ToUInt8(ColorAt(u, x, y, z).r + 55)
  {
    var a := u + Visit(x, y, z);
    DivModSplit(a, 256);
    DivModSplit(a % 256 + 33, 256);
    DivModSplit(a % 256 + 55, 256);
    ShiftResidue(a, 33);
    ShiftResidue(a, 55);
  }

  /** Adding `k` before or after reducing modulo 256 gives the same residue. */
  lemma ShiftResidue(a: int, k: int)
    ensures ToUInt8(ToUInt8(a) + k) == ToUInt8(a + k)
  {
    var q := a / 256;
    var m := a % 256;
    var q2 := (m + k) / 256;
    var m2 := (m + k) % 256;
    DivModSplit(a, 256);
    DivModSplit(m + k, 256);
    DivUnique(a + k, 256, q + q2, m2);
  }

  /** Consecutive voxels of the visiting order get consecutive red values. */
  lemma NextVoxelNextColor(u: int, x: int, y: int, z: int)
    requires x + 1 < SizeX
    ensures ColorAt(u, x + 1, y, z).r == ToUInt8(ColorAt(u, x, y, z).r + 1)
  {
    UInt8Step(u + Visit(x, y, z));
  }

  //----------------------------------------------------------------------------
  // Frames and chunk setup
  //----------------------------------------------------------------------------

  /**
   The volume part of `OnRunning`: the frame counter is incremented and
   the chunks are updated in order, each with the update index the
   previous one returned, so chunk `i` is painted from `frameIndex + 100*i`.
   */
  method RunFrame(chunks: seq<Colors>, frameIndex: int) returns (chunks': seq<Colors>, frameIndex': int)
    requires |chunks| == NumChunks
    requires Int32Min <= frameIndex && frameIndex + 1 + 100 * NumChunks <= Int32Max
    ensures frameIndex' == frameIndex + 1
    ensures |chunks'| == NumChunks
    ensures forall i :: 0 <= i < NumChunks ==> Painted(chunks'[i], frameIndex' + 100 * i)
  {
    frameIndex' := frameIndex + 1;
    var updateIndex := frameIndex';
    chunks' := chunks;
    var i := 0;
    while i < NumChunks
      invariant 0 <= i <= NumChunks && |chunks'| == NumChunks
      invariant updateIndex == frameIndex' + 100 * i
      invariant forall k :: 0 <= k < i ==> Painted(chunks'[k], frameIndex' + 100 * k)
    {
      var painted;
      painted, updateIndex := UpdateVolume(chunks'[i], updateIndex);
      chunks' := chunks'[i := painted];
      i := i + 1;
    }
  }

  /**
   The chunk loop of `OnInit`: the counter `i` runs along with `z` inside
   the `x` loop; `order[i]` is the grid cell `(x, z)` whose chunk `i`
   is set up.
   */
  method SetupOrder() returns (order: seq<(int, int)>)
    ensures |order| == NumChunks
    ensures forall i :: 0 <= i < NumChunks ==>
      0 <= order[i].0 < NumChunksX && 0 <= order[i].1 < NumChunksZ && order[i].0 * NumChunksZ + order[i].1 == i
  {
    order := [];
    var i := 0;
    var x := 0;
    while x < NumChunksX
      invariant 0 <= x <= NumChunksX && i == x * NumChunksZ && |order| == i
      invariant forall k :: 0 <= k < i ==>
        0 <= order[k].0 < NumChunksX && 0 <= order[k].1 < NumChunksZ && order[k].0 * NumChunksZ + order[k].1 == k
    {
      var z := 0;
      while z < NumChunksZ
        invariant 0 <= z <= NumChunksZ && i == x * NumChunksZ + z && |order| == i
        invariant forall k :: 0 <= k < i ==>
          0 <= order[k].0 < NumChunksX && 0 <= order[k].1 < NumChunksZ && order[k].0 * NumChunksZ + order[k].1 == k
      {
        order := order + [(x, z)];
        z := z + 1;
        i := i + 1;
      }
      x := x + 1;
    }
  }

  /** Every grid cell gets exactly one chunk: `i = x * NumChunksZ + z` is a bijection onto `0 .. NumChunks-1`. */
  lemma ChunkNumbering(x: int, z: int, i: int)
    requires 0 <= x < NumChunksX && 0 <= z < NumChunksZ && 0 <= i < NumChunks
    ensures x * NumChunksZ + z < NumChunks
    ensures x * NumChunksZ + z == i <==> (x == i / NumChunksZ && z == i % NumChunksZ)
  {
    if x * NumChunksZ + z == i {
      DivUnique(i, NumChunksZ, x, z);
    }
  }
}
