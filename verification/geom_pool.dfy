/**
 The index bookkeeping of `GeomPool` (src/GeomPool.h, src/GeomPool.cc):
 a fixed set of `NumGeoms` reusable meshes, the stack of free geom
 indices, and the static index buffer that all of them share. Graphics
 resources are reduced to whether the shared index mesh is valid and the
 contents of its index buffer.
 */
module GeomPool {
  import QuadIndices

  /** Number of geoms in the pool. */
  const NumGeoms: nat := 64

  datatype GeomPool = GeomPool(
    indexBuffer: seq<int>,     // the data handed to the shared index mesh
    indexMeshValid: bool,      // whether `IndexMesh` names a resource
    numQuads: seq<int>,        // `NumQuads` of each geom
    freeGeoms: seq<int>)       // indices of the geoms free for meshing

  /** Every geom index, in ascending order: what `FreeAll` leaves in the free list. */
  function AllGeoms(): (s: seq<int>)
    ensures |s| == NumGeoms
  {
    seq(NumGeoms, i => i)
  }

  /** `FreeAll`: clears the free list and appends `0, 1, ..., NumGeoms-1`. */
  method FreeAll(p: GeomPool) returns (r: GeomPool)
    ensures r.freeGeoms == AllGeoms()
    ensures r.indexBuffer == p.indexBuffer && r.indexMeshValid == p.indexMeshValid && r.numQuads == p.numQuads
  {
    var free: seq<int> := [];
    var i := 0;
    while i < NumGeoms
      invariant 0 <= i <= NumGeoms
      invariant free == AllGeoms()[..i]
    {
      free := free + [i];
      i := i + 1;
    }
    r := p.(freeGeoms := free);
  }

  /**
   `Setup` without the graphics: builds the shared index buffer for
   `maxNumQuads` quads, resets every geom's quad count and frees every
   geom. The source sizes the buffer from `Config::GeomMaxNumQuads`, which
   `Config` does not define, so the quad count is a parameter here; the
   buffer has six entries per quad as in `Geom`.
   */
  method Setup(p: GeomPool, maxNumQuads: nat) returns (r: GeomPool)
    ensures |r.indexBuffer| == 6 * maxNumQuads
    ensures forall i :: 0 <= i < |r.indexBuffer| ==> r.indexBuffer[i] == QuadIndices.ToUInt16(QuadIndices.QuadIndex(i))
    ensures r.indexMeshValid
    ensures |r.numQuads| == NumGeoms && forall g :: 0 <= g < NumGeoms ==> r.numQuads[g] == 0
    ensures r.freeGeoms == AllGeoms()
    ensures forall g :: 0 <= g < NumGeoms <==> g in r.freeGeoms
  {
    var indices := QuadIndices.FillQuadIndices(maxNumQuads);
    var quads: seq<int> := [];
    var g := 0;
    while g < NumGeoms
      invariant 0 <= g <= NumGeoms && |quads| == g
      invariant forall k :: 0 <= k < g ==> quads[k] == 0
    {
      quads := quads + [0];
      g := g + 1;
    }
    r := FreeAll(GeomPool(indices, true, quads, p.freeGeoms));
    EveryGeomFreeOnce();
  }

  /** `Discard`: invalidates the index mesh and empties the free list. */
  function Discard(p: GeomPool): (r: GeomPool)
    ensures !r.indexMeshValid && |r.freeGeoms| == 0
    ensures r.numQuads == p.numQuads
  {
    p.(indexMeshValid := false, freeGeoms := [])
  }

  /** After `FreeAll` each geom index is free exactly once, in ascending order. */
  lemma EveryGeomFreeOnce()
    ensures forall g :: 0 <= g < NumGeoms <==> g in AllGeoms()
    ensures forall i, j :: 0 <= i < j < NumGeoms ==> AllGeoms()[i] < AllGeoms()[j]
  {
    forall g | 0 <= g < NumGeoms
      ensures g in AllGeoms()
    {
      assert AllGeoms()[g] == g;
    }
  }
}
