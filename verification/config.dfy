/**
 Global configuration values of the voxel map (src/Config.h).
 */
module Config {
  import opened IntMath

  /** Width and depth of one chunk in voxels. */
  const ChunkSizeXY: nat := 64
  /** Height of one chunk in voxels. */
  const ChunkSizeZ: nat := 32
  /** Number of mip levels of the visibility map. */
  const NumLevels: nat := 5
  /** Side of the whole map in chunks, `1<<(NumLevels-1)`. */
  const MapDimChunks: nat := Pow2(NumLevels - 1)
  /** Side of the whole map in voxels. */
  const MapDimVoxels: nat := MapDimChunks * ChunkSizeXY

  lemma MapSizes()
    ensures MapDimChunks == 16 && MapDimVoxels == 1024
  {
    assert Pow2(4) == 16;
  }
}
