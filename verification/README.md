# voxel-test LOD and visibility bookkeeping, in Dafny

This project models the integer bookkeeping of the voxel terrain renderer
voxel-test:

- the sparse level-of-detail quadtree `VisTree`: its node arena, its free
  stack, the recursive release of subtrees, the LOD walk `updateLod`, and the
  address-to-rectangle map `ComputeBounds`;
- its successor pieces `VisNode`, `VisBounds` and the mip-map-like chunk
  table `VisMap`;
- the shared 16-bit quad index buffer and the free list of `GeomPool`;
- the block and colour fills of the `VoxelTest` demo.

The model is functional. A tree state is a value `VisTree(nodes, freeNodes,
rootNode)`. Each operation returns a new state together with the log of
geom indices it handed to `GeomPool::Free`. The live tree is described by
ghost predicates:

- `IsTree` says that the child slots reach only valid nodes and bottom out
  within a height bound.
- `Subtree` lists the reached nodes in post-order.
- `LeafGeoms` lists the geoms held by the reached leaves.

The central invariant is `Owns`: the free stack followed by the live subtree
lists every node index at most once, so no node is ever both free and in
use, and none is in use twice. The LOD walk keeps `Owns`. It also keeps
`Conserves`: nodes move between the free stack and the subtree without loss
or duplication, and the pool receives exactly the geoms that left the
subtree's leaves.

The shape the LOD walk leaves behind is stated by ghost predicates in
`VisTreeLod`. `Refined` and `Settled` are mutually recursive, one level per
step:

- `Refined(nodes, n, b, addr)` says that node `n`, visited with rectangle
  `b` for a viewer at `addr`, is an inner node and each of its four slots
  holds a node that is `Settled` for that slot's child rectangle.
- `Settled(nodes, ch, cb, addr)` says what happened to a child with
  rectangle `cb`. If `cb` contains the viewer and a deeper level exists,
  the child is `Refined` one level down. If `cb` does not contain the
  viewer, the child is a leaf or has no children left.
- `SlotFrame(cur, nxt, p, c, h)` says that, apart from `p` itself, a visit
  of slot `c` changes only free nodes and nodes under that slot. So the
  slots settled earlier stay settled.
- `Stopped(s, s', n, h)` describes a walk cut short by the `NodeExhausted`
  result, which carries the state reached: the free stack is empty, and
  from `s` to `s'` the subtree at `n` is still exclusively owned and
  conserved.

C++ semantics are written out where they matter:

- `int / 2` truncates toward zero (`TruncHalf`).
- Stores into `uint16` and `uint8` wrap (`ToUInt16`, `ToUInt8`).
- Signed `int32` overflow, which is undefined behaviour, is excluded by
  the preconditions of `VoxelTest.UpdateVolume` and `VoxelTest.RunFrame`.
  `VisBounds.MinDist` does not model it and computes on unbounded
  integers (see "Left out").

The code is followed where its comments say otherwise:

- `VisBounds::MinDist` is documented as a Manhattan distance that is zero
  inside the rectangle. The code returns the smaller of the two axis
  distances instead. That result is zero whenever either coordinate lies
  within its closed range (`VisBounds.MinDistZeroIff`).
- The child rectangles in `updateLod` move the high edges out by half a side
  instead of placing them at the parent's midpoint. The model reproduces
  these rectangles as written (`VisTreeLod.ChildBoundsNeverShrink`,
  `VisTreeLod.RootChildrenOverlap`) and proves nothing that depends on
  children tiling their parent. The chunk rectangles of `VisMap` do tile
  their parent (`VisMap.ChildrenTile`).

## Model

| member | source | states |
|---|---|---|
| `VisTreeTypes.ComputeBounds` | src/VisTree.cc:149-160 | The square of an address has side `(1<<(7-level))*64` voxels. Its origin is a multiple of that side, and it lies within the `256*64`-voxel map. It holds the address's own chunk: `x*64` lies in `[x0, x1)` and `y*64` in `[y0, y1)`. |
| `VisTreeTypes.ChildSquareOffset` | src/VisTree.cc:152-157 | One level down, a square's origin moves by zero or by one child side. Coordinate bit `s` decides which. |
| `VisTreeTypes.ComputeBoundsNested` | src/VisTree.cc:149-160 | For the same x/y bytes, the square at `level+1` lies inside the square at `level`. |
| `VisTreeTypes.QuadrantBit` | src/VisTree.h:26-28 | The header's test `((x<<lvl)&128)` reads bit `7-lvl` of the coordinate. |
| `VisTreeTypes.ChildIndex` | src/VisTree.h:27-28 | The quadrant number is always in 0..3. Its bit 0 is the x coordinate's bit, so right = 1, and its bit 1 is the y coordinate's bit, so lower = 2. |
| `VisTreeTypes.ChildIndexSelectsQuadrant` | src/VisTree.h:14-17 | The quadrant number at `lvl` names the quarter of the parent square that holds the child square: bit 0 means the right half and bit 1 means the lower half. |
| `VisTreeTypes.IsLeafIgnoresSlots` | src/VisTree.h:58-60 | Leaf-ness is decided by the `Leaf` flag bit alone. Rewriting the slots never changes it. |
| `VisTreeTypes.ClearingGeomClearsChild` | src/VisTree.h:53-56 | `child[i]` and `geom[i]` share storage. Invalidating a geom invalidates the child read from the same slot. |
| `VisTreeTypes.NodeFlagBits` | src/VisTree.h:46-51 | The leaf and cull flags are pairwise distinct single bits, and `None` carries none of them. |
| `VisTreeTypes.InsideIsHalfOpen` | src/VisTree.h:79-81 | `Inside` includes the low edges and excludes the high ones. |
| `VisTreeTypes.SharedEdgeDisjoint` | src/VisTree.h:79-81 | Two rectangles that share a vertical edge never both contain a point. |
| `VisTreeArena.Setup` | src/VisTree.cc:11-18 | Setup pushes every node index from `MaxNumNodes-1` down to 0 onto the free stack, leaves the root invalid, and leaves the node array unchanged. |
| `VisTreeArena.SetupFreesEveryNodeOnce` | src/VisTree.cc:13-16 | The indices setup pushes are each of the 2048 node indices exactly once. |
| `VisTreeArena.Discard` | src/VisTree.cc:21-24 | Discard empties the free stack and leaves the nodes and the root unchanged. |
| `VisTreeArena.AllocNode` | src/VisTree.cc:26-36 | AllocNode pops the top of the free stack; the multiset of free indices loses exactly that index. The popped node becomes exactly the fresh node: no flags and four invalid children. No other node changes. |
| `VisTreeArena.AllocAfterSetupCountsUp` | src/VisTree.cc:11-36 | After setup, successive allocations hand out nodes 0, 1, 2, ... in order. |
| `VisTreeArena.FreeGeoms` | src/VisTree.cc:39-49 | FreeGeoms sends every valid geom of the leaf to the pool, in slot order, and leaves all four slots invalid. Nothing else changes. |
| `VisTreeArena.FreeNodes` | src/VisTree.cc:52-68 | FreeNodes pushes the whole subtree onto the free stack in post-order (children before parents) and hands its leaves' geoms to the pool. It clears exactly the nodes of that subtree. |
| `VisTreeArena.FreeChildren` | src/VisTree.cc:60-65 | Releasing children `i..3` frees their subtrees in order, hands over their geoms, and invalidates those slots. No other node or slot changes. |
| `VisTreeArena.CreateLeaf` | src/VisTree.cc:131-144 | CreateLeaf frees every node below the given node (its whole subtree except itself) and hands their geoms to the pool. It keeps the node with all slots invalid. |
| `VisTreeLod.UpdateLodAt` | src/VisTree.cc:79-128 | When the walk completes, the node is `Refined`: an inner node whose four children are each refined one level down when their rectangle contains the viewer, and are leaves or childless when it does not. The tree still owns its nodes exclusively, and nodes and geoms are conserved between the free stack, the subtree and the pool. Each recursive call is one level deeper, so the walk ends after at most `NumLevels` levels. If the free stack runs dry it stops with `NodeExhausted` in a `Stopped` state: the stack is empty, and ownership and conservation still hold. |
| `VisTreeLod.MakeInner` | src/VisTree.cc:83-87 | A leaf gives its geoms back to the pool and becomes an inner node. An inner node is left untouched. |
| `VisTreeLod.FillSlot` | src/VisTree.cc:98-102 | An empty child slot receives a freshly allocated node, and a filled slot is kept. Allocation runs out exactly when the slot is empty and the free stack is empty, and it then hands back the state unchanged. |
| `VisTreeLod.SettleChild` | src/VisTree.cc:109-125 | On completion the child is `Settled` for its rectangle. An outside inner child is released: the nodes below it go onto the free stack in post-order, their leaves' geoms go to the pool, and it keeps no children. An outside leaf, and an inside child on the last level, are left exactly as they were. The outside branch never runs out of nodes. Ownership and conservation are kept, the parent node is unchanged, and only nodes under this slot change. If the free stack runs dry it stops with `NodeExhausted` in a `Stopped` state: the stack is empty, and ownership and conservation still hold. |
| `VisTreeLod.DescendChild` | src/VisTree.cc:109-117 | A completed recursion into an inside child leaves that child `Refined` one level down, for the same viewer. Ownership and conservation are kept, the parent node is unchanged, and only nodes under this slot change. If the free stack runs dry it stops with `NodeExhausted` in a `Stopped` state: the stack is empty, and ownership and conservation still hold. |
| `VisTreeLod.ReleaseChild` | src/VisTree.cc:119-125 | An outside inner child is released as `CreateLeaf` does: exactly the nodes below it are pushed onto the free stack in post-order, exactly their leaves' geoms go to the pool, and the child loses all its children. Ownership and conservation are kept, the parent is unchanged, and only nodes under this slot change. |
| `VisTreeLod.VisitChild` | src/VisTree.cc:97-125 | A completed visit leaves child slot `2*y+x` holding a node that is `Settled` for the child rectangle `x`, `y`. Every other slot of the parent keeps its value, and only nodes under slot `2*y+x` or on the free stack change. Ownership and conservation are kept. If the free stack runs dry it stops with `NodeExhausted` in a `Stopped` state: the stack is empty, and ownership and conservation still hold. |
| `VisTreeLod.KeepSettled` | src/VisTree.cc:94-127 | A visit of one slot keeps every sibling slot settled, because nothing below a sibling changes. |
| `VisTreeLod.VisitedStep` | src/VisTree.cc:94-127 | After each pass of the nested loops, the slots visited so far, in the order 0, 2, 1, 3, are all settled. |
| `VisTreeLod.FrameRefined` | src/VisTree.cc:79-128 | Whether a node is `Refined` depends only on the nodes of its own subtree: changing any other node cannot undo it. |
| `VisTreeLod.VisitPass` | src/VisTree.cc:94-127 | One pass of the nested loops keeps the loop invariant: the slots visited so far hold nodes and are settled, and ownership and conservation hold from the start of the walk. If the free stack runs dry it stops with `NodeExhausted` in a `Stopped` state: the stack is empty, and ownership and conservation still hold. |
| `VisTreeLod.ProgressStep` | src/VisTree.cc:94-127 | After each visit, every child slot visited so far holds a node, in the loop's x-then-y order, and conservation composes across the visits. |
| `VisTreeLod.UpdateLod` | src/VisTree.cc:71-76 | A completed walk from an allocated root at level 0 leaves the root `Refined` for the rectangle `[0, 1<<NumLevels)` in both axes and the viewer `(0, x, y)`. The root's subtree is still exclusively owned and conserved. If the free stack runs dry it stops with `NodeExhausted` in a `Stopped` state: the stack is empty, and ownership and conservation still hold. |
| `VisTreeLod.FirstChildCoversParent` | src/VisTree.cc:104-109 | The child rectangle for x = y = 0, as the code computes it, contains every point of its parent. |
| `VisTreeLod.RootChildrenOverlap` | src/VisTree.cc:92-109 | At the root, all four child rectangles, as the code computes them, contain the point (200, 200). |
| `VisTreeLod.ChildBoundsNeverShrink` | src/VisTree.cc:104-108 | The child rectangles, as the code computes them, keep at least half the parent's width and height, and their high edges never move inward. |
| `VisNode.Reset` | src/VisNode.h:22-30 | Reset clears the flags and invalidates every geom and child slot. The result does not depend on the node's previous contents, so resetting twice is the same as resetting once. |
| `VisNode.BlankIsLeaf` | src/VisNode.h:22-34 | A freshly reset node counts as a leaf and carries no cull flag. |
| `VisNode.IsLeafReadsFirstChild` | src/VisNode.h:32-34 | Two nodes with the same first child slot agree on leaf-ness, whatever their other fields. |
| `VisNode.FlagBits` | src/VisNode.h:11-14 | `CullInside` and `CullOutside` are the distinct single bits 1 and 2. |
| `VisBounds.MinDist` | src/VisBounds.h:17-44 | The result is the smaller of the two axis distances. |
| `VisBounds.AxisDist` | src/VisBounds.h:18-28 | For a well-formed range, the per-axis branch computes the distance from the coordinate to the closed interval `[lo, hi]` (`IntervalDist`): 0 inside, both ends included, otherwise the gap to the nearer end. For an inverted range it is the smaller gap to the two edges. The result is never negative. |
| `VisBounds.MinDistZeroIff` | src/VisBounds.h:17-44 | For a well-formed rectangle, the result is zero exactly when x lies in `[x0, x1]` or y lies in `[y0, y1]`. |
| `VisBounds.MinDistInside` | src/VisBounds.h:16-17 | The result is zero at every point of the closed rectangle, its far corner included. |
| `VisBounds.ClosedUnlikeHalfOpen` | src/VisBounds.h:19-23 | The far corner `(x1, y1)` is at distance zero, yet it is outside the same rectangle read as a half-open `VisTree::Bounds`. |
| `VisBounds.MinDistSymmetric` | src/VisBounds.h:17-44 | Swapping the axes of both the rectangle and the point leaves the distance unchanged. |
| `VisBounds.DefaultMinDist` | src/VisBounds.h:12 | For the default rectangle, the distance is the smaller of `abs(x)` and `abs(y)`. |
| `VisMap.Setup` | src/VisMap.cc:11-20 | Setup makes each level's start index the previous start plus the previous level's `4^i` cells, starting from 0. The chunks are untouched. |
| `VisMap.LevelStartClosedForm` | src/VisMap.cc:14-19 | The start of level `l` is `(4^l - 1)/3`, the number of cells on all coarser levels. |
| `VisMap.AllLevelsFit` | src/VisMap.h:38-39 | All five levels use 341 cells, which fits the 384-entry chunk array. |
| `VisMap.IndexOf` | src/VisMap.cc:23-31 | The flat index of a valid address lies within its own level's block and below `MaxNumChunks`. |
| `VisMap.IndexOfAddressOf` | src/VisMap.cc:23-31 | Every cell of every level is the flat index of exactly the address decoded from it. |
| `VisMap.AddressOfIndexOf` | src/VisMap.cc:23-31 | Decoding the flat index of a valid address gives that address back. |
| `VisMap.IndexOfInjective` | src/VisMap.cc:28 | Distinct valid addresses have distinct flat indices. |
| `VisMap.SetAt` | src/VisMap.cc:34-37 | Writing through the reference `At` returns changes the chunk at the address's flat index and no other entry. The table keeps its length, and the level index and setup state are untouched. |
| `VisMap.AtSetAt` | src/VisMap.cc:34-37 | Writing through `At(a)` is seen by `At(a)` and by no other valid address. |
| `VisMap.Bounds` | src/VisMap.cc:46-57 | A chunk's rectangle has side `(1<<(4-lvl))*64`. Its origin is a multiple of that side, and it lies within `[0, MapDimVoxels)`. |
| `VisMap.ChildOffsets` | src/VisMap.cc:52-56 | The four children of a chunk sit at the parent's origin plus 0 or 1 child side in each axis, and the child side is half the parent's. |
| `VisMap.ChildrenTile` | src/VisMap.cc:46-57 | A point of a chunk's rectangle lies in exactly one of its four children's rectangles. A point outside lies in none. |
| `VisMap.ChunkFlagBits` | src/VisMap.h:18-33 | The two cull bits are distinct, the cull mask is their union and excludes `GeomValid`, and a default chunk has no flags and an invalid geom. |
| `QuadIndices.FillQuadIndices` | src/GeomPool.cc:19-28 | The index buffer has six entries per quad. Entry `i` is corner `[0,1,2,0,2,3][i%6]` of quad `i/6`, stored as a `uint16`. |
| `QuadIndices.EntryOfQuad` | src/GeomPool.cc:21-27 | Entry `6*q+k` of the buffer is the k-th listed corner of quad q. |
| `QuadIndices.QuadUsesItsCorners` | src/GeomPool.cc:20-27 | The six entries of quad q name exactly its four vertices `4q .. 4q+3`, and no others. |
| `QuadIndices.NoTruncation` | src/GeomPool.cc:18-28 | With at most 16384 quads, no entry wraps at 16 bits, and every entry names a vertex of the buffer. |
| `QuadIndices.TruncationBeyondUInt16` | src/GeomPool.cc:18-22 | Quad 16384 would wrap its first vertex to 0: the limit on quad counts is tight. |
| `GeomPool.FreeAll` | src/GeomPool.cc:83-89 | FreeAll replaces the free list with every geom index 0..63 in ascending order, whatever it held before, so a second call changes nothing. The rest of the pool is left unchanged. |
| `GeomPool.EveryGeomFreeOnce` | src/GeomPool.cc:86-88 | The free list after FreeAll holds each geom index exactly once, in ascending order. |
| `GeomPool.Setup` | src/GeomPool.cc:14-72 | Setup fills the shared index buffer quad by quad and sets every geom's quad count to 0. Its free list is exactly the geom indices 0..63 in ascending order. |
| `GeomPool.Discard` | src/GeomPool.cc:75-80 | Discard invalidates the index mesh and empties the free list. |
| `VoxelTest.ChunkIndexBuffer` | src/VoxelTest.cc:152-176 | A chunk's index buffer has 24576 entries, one quad pattern per six entries. Every entry names one of its 16384 vertices without wrapping. |
| `VoxelTest.FillColumn` | src/VoxelTest.cc:192-194 | A cleared column gets 1 at z = 1..14 and keeps 0 at both ends. |
| `VoxelTest.FillPlane` | src/VoxelTest.cc:191-195 | A cleared plane gets 1 on the interior rows and columns and keeps 0 on its border. |
| `VoxelTest.FillBlocks` | src/VoxelTest.cc:188-196 | After the clear and the fill, a block is solid exactly when all three coordinates are interior. Every block is 0 or 1. |
| `VoxelTest.PaintRow` | src/VoxelTest.cc:227-233 | One x-row receives consecutive colours from the running counters, and all other voxels are kept. |
| `VoxelTest.PaintPlane` | src/VoxelTest.cc:226-234 | One y-plane receives its colours in z-then-x order, and all other planes are kept. |
| `VoxelTest.UpdateVolume` | src/VoxelTest.cc:220-237 | Voxel `(x,y,z)` gets red `u + ((y*16+z)*16+x)` mod 256, with green and blue offset by 33 and 55. The next update index is `u+100`. |
| `VoxelTest.ChannelOffsets` | src/VoxelTest.cc:222-224 | At every voxel, green is red plus 33 and blue is red plus 55, each wrapped to 8 bits. |
| `VoxelTest.NextVoxelNextColor` | src/VoxelTest.cc:227-233 | Stepping one voxel along x raises red by one, wrapped to 8 bits. |
| `VoxelTest.RunFrame` | src/VoxelTest.cc:94-107 | A frame increments the frame index. Chunk i is then painted from the new frame index plus `100*i`. |
| `VoxelTest.SetupOrder` | src/VoxelTest.cc:83-88 | The setup loop visits chunk i at `x = i / 8`, `z = i % 8`. Every chunk number is reached once, with in-range coordinates. |
| `VoxelTest.ChunkNumbering` | src/VoxelTest.cc:83-84 | The running chunk counter equals `x*8+z` exactly for the pair `(i/8, i%8)`. |

## Left out

- VisTreeLod.UpdateLodAt: when the free stack runs dry the walk stops with `NodeExhausted` and an empty free stack, where the source pops an empty array without a guard. The stopped state is owned and conserved but only partly refined. The contract also allows a stop whenever the stack is empty, even if no further allocation would be needed.
- VisTreeLod.UpdateLod: requires the root to be an allocated node. `VisTree::Setup` leaves `rootNode` at `InvalidIndex`, and the source would then read `nodes[-1]`.
- VisTreeLod.SettleChild: does not state the debug assertion at src/VisTree.cc:123 that the child is a leaf afterwards. It states only that the released child has no children left. The part of `CreateLeaf` that would set the `Leaf` flag is missing from the source.
- VisTreeLod.Refined: says nothing about a child on the last level beyond its being a node. The source leaves such a child as it is.
- No bound on the number of nodes one `UpdateLod` visits or allocates is proved. The child rectangles overlap, so more than one child per level can contain the viewer. Following the rectangle arithmetic for every 8-bit viewer gives at most 59 visited nodes and 237 live nodes, far below the 2048-node arena, so the `NodeExhausted` result is not expected from a single walk.
- VisTreeArena.CreateLeaf: models only the child-release loop. The rest of the function is a `FIXME` placeholder that is not valid C++, so the node is not marked as a leaf and gets no geoms.
- VisTreeArena.AllocNode: requires a non-empty free stack. The source pops without checking.
- The nested `x`/`y` loop of `updateLod` is modelled as one loop over `k = 0..3`, with `x = k/2` and `y = k%2`. The visiting order is the same.
- The child rectangles of `updateLod` are kept as written, with overlapping children. No claim that the walk visits one path only is made.
- VisMap.IndexOf: requires that `Setup` has run. The source reads whatever `LevelIndex` holds.
- The two `VisMap::At` overloads are one pure read, `VisMap.At`. Writing through the returned reference is `VisMap.SetAt`.
- VisBounds.MinDist: does not model `int` overflow of `x - x0` and `x1 - x`. Coordinates are unbounded integers.
- GeomPool.Setup: the GPU resources (the index mesh, draw state, shader parameters with random colours, and per-geom meshes) are reduced to the flag `indexMeshValid` and the per-geom quad count. `Config::GeomMaxNumQuads` is not defined in `Config.h`, so the quad count is a parameter.
- The rest of `GeomPool` (`Reset`, `Begin`, `Meshify`, `End`, `bakeGeom`, `Alloc`, `Free`) has no bodies in the source. `VisTree` sees the pool only as the log of `Free` calls.
- VoxelTest.UpdateVolume: requires `updateIndex + 100` to stay within `int32`, because signed overflow is undefined.
- VoxelTest.RunFrame: requires the frame index plus all 64 chunk increments to stay within `int32`. The per-chunk shader update, meshing and draw calls are left out.
- Floating point is left out: `Translation` and `Scale` of `VisTree` and `VisMap`, the camera, chunk positions and shader parameters.
- External code is left out: the stb_voxel_render mesher (`update_mesh`), the `Gfx` calls, `VoxelGenerator` and the application entry point.
- The cull flags are declared but never set by the modelled code, so only their bit layout is stated.
- The default constructors of `VisTree::Address` and `VisTree::Bounds` are not modelled: `updateLod` assigns every field of the default-built `childAddr` and `childBounds` before reading them.
- The node lookup loop in the `VisTree.h` header comment is documentation, not code. Only its quadrant bit test is modelled.
