/**
 The static index buffer shared by all voxel meshes, built by the same
 loop in `GeomPool::Setup` (src/GeomPool.cc) and `Chunk::setup`
 (src/VoxelTest.cc): quad `q` owns vertices `4q .. 4q+3` and index
 entries `6q .. 6q+5`, which draw it as the two triangles `(0, 1, 2)`
 and `(0, 2, 3)`. Entries are stored in a `uint16` array, so a vertex
 number is truncated modulo 65536 on the way in.
 */
module QuadIndices {
  import opened IntMath

  /** `Geom::MaxNumVertices`, `1<<15`. */
  const GeomMaxNumVertices: nat := Pow2(15)
  /** `Geom::MaxNumQuads`: four vertices per quad. */
  const GeomMaxNumQuads: nat := GeomMaxNumVertices / 4
  /** `Geom::MaxNumIndices`: six index entries per quad. */
  const GeomMaxNumIndices: nat := GeomMaxNumQuads * 6

  /** Number of values a `uint16` holds. */
  const UInt16Range: nat := 0x1_0000

  /** The conversion of an `int` into a `uint16` array element. */
  function ToUInt16(v: int): (r: nat)
    ensures r < UInt16Range
    ensures 0 <= v < UInt16Range ==> r == v
  {
    v % UInt16Range
  }

  /** Vertex offsets within its quad of the six entries of a quad. */
  const Corner: seq<nat> := [0, 1, 2, 0, 2, 3]

  /** Entry `k` of the six of quad `q`, before truncation: vertex `Corner[k]` of the quad. */
  function QuadEntry(q: nat, k: nat): nat
    requires k < 6
  {
    4 * q + Corner[k]
  }

  /** Entry `i` of the buffer before truncation: an entry of quad `i / 6`. */
  function QuadIndex(i: nat): nat {
    QuadEntry(i / 6, i % 6)
  }

  /**
   The index loop for `numQuads` quads: each pass appends the six entries
   of the next quad, so every entry is written exactly once.
   */
  method FillQuadIndices(numQuads: nat) returns (indices: seq<int>)
    ensures |indices| == 6 * numQuads
    ensures forall i :: 0 <= i < |indices| ==> indices[i] == ToUInt16(QuadIndex(i))
  {
    indices := [];
    var quadIndex := 0;
    while quadIndex < numQuads
      invariant 0 <= quadIndex <= numQuads
      invariant |indices| == 6 * quadIndex
      invariant forall i :: 0 <= i < |indices| ==> indices[i] == ToUInt16(QuadIndex(i))
    {
      var baseVertexIndex := quadIndex * 4;
      var quad := [ToUInt16(baseVertexIndex + 0), ToUInt16(baseVertexIndex + 1), ToUInt16(baseVertexIndex + 2),
                   ToUInt16(baseVertexIndex + 0), ToUInt16(baseVertexIndex + 2), ToUInt16(baseVertexIndex + 3)];
      forall k | 0 <= k < 6
        ensures quad[k] == ToUInt16(QuadIndex(6 * quadIndex + k))
      {
        EntryOfQuad(quadIndex, k);
      }
      AppendQuad(indices, quad, quadIndex);
      indices := indices + quad;
      quadIndex := quadIndex + 1;
    }
  }

  /** Appending the six entries of quad `q` after the first `q` quads extends the buffer by one quad. */
  lemma AppendQuad(indices: seq<int>, quad: seq<int>, q: nat)
    requires |indices| == 6 * q && |quad| == 6
    requires forall i :: 0 <= i < |indices| ==> indices[i] == ToUInt16(QuadIndex(i))
    requires forall k :: 0 <= k < 6 ==> quad[k] == ToUInt16(QuadIndex(6 * q + k))
    ensures forall i :: 0 <= i < |indices + quad| ==> (indices + quad)[i] == ToUInt16(QuadIndex(i))
  {
    forall i | 0 <= i < |indices + quad|
      ensures (indices + quad)[i] == ToUInt16(QuadIndex(i))
    {
      if i >= |indices| {
        assert (indices + quad)[i] == quad[i - 6 * q];
      }
    }
  }

  /** Entry `6q + k` is corner `k` of quad `q`. */
  lemma EntryOfQuad(q: nat, k: nat)
    requires k < 6
    ensures QuadIndex(6 * q + k) == QuadEntry(q, k)
  {
    DivUnique(6 * q + k, 6, q, k);
  }

  /** Every entry of quad `q` is one of its own four vertices, and all four are used. */
  lemma QuadUsesItsCorners(q: nat)
    ensures forall k :: 0 <= k < 6 ==> 4 * q <= QuadEntry(q, k) <= 4 * q + 3
    ensures (set k | 0 <= k < 6 :: QuadEntry(q, k)) == {4 * q, 4 * q + 1, 4 * q + 2, 4 * q + 3}
  {
    assert QuadEntry(q, 0) == 4 * q && QuadEntry(q, 1) == 4 * q + 1;
    assert QuadEntry(q, 2) == 4 * q + 2 && QuadEntry(q, 5) == 4 * q + 3;
  }

  /**
   With at most 65536 vertices no entry is truncated: every entry is the
   vertex number itself and lies below `4 * numQuads`.
   */
  lemma NoTruncation(numQuads: nat, i: nat)
    requires 4 * numQuads <= UInt16Range && i < 6 * numQuads
    ensures ToUInt16(QuadIndex(i)) == QuadIndex(i) < 4 * numQuads
  {
    var q := i / 6;
    DivModSplit(i, 6);
    if q >= numQuads {
      MulLe(numQuads, q, 6);
    }
  }

  /** One quad beyond 16384 the first entry of that quad wraps to 0. */
  lemma TruncationBeyondUInt16()
    ensures QuadIndex(6 * 16384) == UInt16Range && ToUInt16(QuadIndex(6 * 16384)) == 0
  {
    EntryOfQuad(16384, 0);
  }

  /** The sizes of `Geom`: 32768 vertices, 8192 quads, 49152 entries, all addressable by `uint16`. */
  lemma GeomSizes()
    ensures GeomMaxNumVertices == 32768 && GeomMaxNumQuads == 8192 && GeomMaxNumIndices == 49152
    ensures 4 * GeomMaxNumQuads <= UInt16Range
  {
    assert Pow2(15) == 32768;
  }
}
