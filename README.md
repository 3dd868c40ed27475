# Voxel terrain: grid store, chunk sampling and voxel rendering

A Dafny model of the data core of a small voxel-terrain game:

- **The terrain store** (`src/stores/useTerrainStore.ts`). A flat byte grid of
  `GRID_WIDTH × GRID_HEIGHT` = 100 × 50 cells, laid out row-major
  (`y * width + x`). It starts with its lower half holding material 1. The
  store offers one operation, `destroyTerrain(centerX, centerY, radius)`. It
  copies the grid, zeroes every cell strictly closer than `radius` to the
  centre, and installs the copy as the store's grid. Modelled as the class
  `TerrainStore.TerrainStore` with an `array` field, whose methods are proved
  against the functions `InitialGrid` and `Erase`.
- **Chunk sampling** (`src/components/Chunk.tsx`). The potential field passed
  to the surface extractor is 1 (air) outside the chunk's cube, and otherwise
  `1 - data[z*cs² + y*cs + x]` at the floored coordinates. If the extractor
  returns no positions or no cells, no geometry is built. Otherwise its
  position and cell triples are flattened into the vertex and index buffers.
  Modelled as pure functions with lemmas.
- **Voxel rendering** (`src/components/Terrain.tsx`). Every non-zero cell is
  decoded back to `(index % width, floor(index / width))`. It becomes one
  voxel keyed by that cell, with a collider and a box both placed at
  `(x - width/2, y - height/2, 0)`. Modelled as a pure function from the grid
  to the sequence of voxels, with soundness, completeness and ordering lemmas
  against the store's layout.

Files: `common.dfy` (the `Byte` and `Option` types and row-major div/mod
lemmas), `terrain_store.dfy`, `chunk.dfy`, `terrain.dfy`.

Modelling choices:

- `destroyTerrain` tests `Math.sqrt(dx² + dy²) < radius`. The model takes
  integer centres and an integer radius and tests `radius > 0 && dx² + dy² < radius²`.
  For an integer radius the two agree: with `radius <= 0` no distance is below
  it, and for `radius > 0` both sides are non-negative.
- `Uint8Array` cells are the subset type `Byte` (0..255).
- The potential takes real coordinates and floors them with `.Floor`, as
  `Math.floor` does. Indexing `data` past its end gives `undefined` in the
  source and so a NaN potential; the model returns `None` for it.
- The positions produced by the extractor are an opaque type parameter `P`.
- `index % width` and `Math.floor(index / width)` on a non-negative index and a
  positive width coincide with Dafny's Euclidean `%` and `/`.

## Model

| member | source | states |
|---|---|---|
| `TerrainStore.Index` | src/stores/useTerrainStore.ts:43 | Defines the row-major layout: cell `(x, y)` lives at `y * width + x` (also line 21); `Terrain.DecodeIndex` and `Terrain.Decode` prove it invertible |
| `TerrainStore.WithinRadius` | src/stores/useTerrainStore.ts:41-42 | Defines the erase test as integer squared distance: true iff `radius > 0` and `dx² + dy² < radius²`, which for an integer radius agrees with `sqrt(dx² + dy²) < radius`; it never holds for `radius <= 0` and always holds at the centre when `radius > 0` |
| `TerrainStore.CreateInitialTerrain` | src/stores/useTerrainStore.ts:17-25 | The returned grid has exactly `GRID_WIDTH*GRID_HEIGHT` cells; cell `(x, y)` at `y*GRID_WIDTH + x` is 1 iff `y < GRID_HEIGHT/2` and 0 otherwise; its contents are `InitialGrid()` |
| `TerrainStore.InitialCell` | src/stores/useTerrainStore.ts:18-24 | The initial grid has `GRID_WIDTH*GRID_HEIGHT` cells and cell `(x, y)` holds 1 exactly in the rows below half the height |
| `TerrainStore.TerrainStore.constructor` | src/stores/useTerrainStore.ts:28-31 | The store starts valid, with `width`/`height` equal to the grid constants and the initial terrain as its grid |
| `TerrainStore.TerrainStore.DestroyTerrain` | src/stores/useTerrainStore.ts:34-49 | The store's grid becomes a freshly allocated array holding `Erase` of the old contents; `width`, `height` and the grid length are preserved; the array held before the call still holds its old values (copy-on-write) |
| `TerrainStore.Erase` | src/stores/useTerrainStore.ts:37-45 | The erased grid has the same length, and each cell is either cleared to 0 or keeps its old value, so no empty cell ever becomes solid |
| `TerrainStore.EraseClearsDisc` | src/stores/useTerrainStore.ts:39-45 | Every in-grid cell strictly inside the disc is 0 afterwards |
| `TerrainStore.EraseKeepsOutside` | src/stores/useTerrainStore.ts:39-45 | Every in-grid cell not strictly inside the disc keeps its previous value |
| `TerrainStore.EraseBoundaryOpen` | src/stores/useTerrainStore.ts:41-43 | A cell at distance exactly `radius` is untouched: the disc is open |
| `TerrainStore.EraseNonPositiveRadius` | src/stores/useTerrainStore.ts:41-43 | With `radius <= 0` the grid content is unchanged |
| `TerrainStore.EraseIdempotent` | src/stores/useTerrainStore.ts:36-48 | Erasing the same disc twice gives the same grid as erasing it once |
| `Chunk.InChunk` | src/components/Chunk.tsx:15 | Defines the range guard: every coordinate in `[0, chunkSize)` |
| `Chunk.SampleIndex` | src/components/Chunk.tsx:18 | Defines the z-major index `z*cs*cs + y*cs + x`; `SampleIndexInCube` and `SampleIndexInjective` prove its range and injectivity |
| `Chunk.Potential` | src/components/Chunk.tsx:14-21 | Any sample outside `[0, chunkSize)³` gives 1; the potential never exceeds 1; when `data` holds at least `chunkSize³` cells it is never NaN |
| `Chunk.SampleIndexInCube` | src/components/Chunk.tsx:18 | For in-range voxel coordinates the index `z*cs*cs + y*cs + x` lies in `[0, cs³)` |
| `Chunk.SampleIndexInjective` | src/components/Chunk.tsx:18 | Distinct in-range voxel triples have distinct indices |
| `Chunk.PotentialAtVoxel` | src/components/Chunk.tsx:18-20 | At an in-range lattice point the potential is `1 - data[index]`; it is 1 iff the voxel is empty and 0 iff it holds material 1 |
| `Chunk.BorderIsAir` | src/components/Chunk.tsx:15-20 | An out-of-range sample has the same potential as an in-range empty voxel: the chunk border is air |
| `Chunk.Flatten` | src/components/Chunk.tsx:33-34 | The flat buffer has `3*n` entries and entry `3i+k` is component `k` of triple `i` |
| `Chunk.FlattenAt` | src/components/Chunk.tsx:33-34 | Conversely, every entry `j` of the flat buffer is component `j % 3` of triple `j / 3` |
| `Chunk.Group` | src/components/Chunk.tsx:53 | Reading a buffer with item size 3 gives one triple per three entries, triple `i` being entries `3i`, `3i+1`, `3i+2` |
| `Chunk.GroupFlatten` | src/components/Chunk.tsx:33-34 | Reading the flattened buffer back three at a time recovers exactly the extractor's triples |
| `Chunk.BuildGeometry` | src/components/Chunk.tsx:29-36 | No geometry iff the result has no positions or no cells; otherwise both buffers are non-empty (so the collider guard at line 47 holds) and read back as the extractor's positions and cells |
| `Terrain.Decode` | src/components/Terrain.tsx:21-22 | The decoded `x` lies in `[0, width)`, `y` is non-negative, and `y*width + x` gives back the index |
| `Terrain.DecodeIndex` | src/components/Terrain.tsx:21-22 | Decoding the store's index `y*width + x` of an in-row cell gives back `(x, y)` |
| `Terrain.DecodeInjective` | src/components/Terrain.tsx:21-24 | Distinct indices decode to distinct cells, so the `voxel-x-y` keys are unique |
| `Terrain.DecodeInGrid` | src/components/Terrain.tsx:21-22 | An index below `width*height` decodes to a row below `height` |
| `Terrain.Centred` | src/components/Terrain.tsx:26 | Defines the placement `(x - width/2, y - height/2, 0)` in reals, used for both the collider (line 26) and the box (line 31) |
| `Terrain.CellVoxel` | src/components/Terrain.tsx:17-31 | A cell yields no voxel iff its value is 0; otherwise the voxel's key is the decoded cell |
| `Terrain.VoxelsFrom` | src/components/Terrain.tsx:17-36 | Defines the mapped children from cell `from` on with null children dropped; its meaning is proved by `VoxelsFromSound`, `VoxelsFromComplete` and `VoxelsFromOrdered` |
| `Terrain.VoxelsFromSound` | src/components/Terrain.tsx:17-36 | Every voxel rendered from position `from` on comes from a non-zero cell at or after `from` and is that cell's voxel |
| `Terrain.VoxelsFromComplete` | src/components/Terrain.tsx:17-36 | Every non-zero cell at or after `from` is rendered |
| `Terrain.VoxelsFromOrdered` | src/components/Terrain.tsx:17-36 | Rendered voxels appear in strictly increasing cell index order |
| `Terrain.Voxels` | src/components/Terrain.tsx:17-36 | The rendered voxels are exactly one per non-zero cell, each that cell's decoding, in increasing index order |
| `Terrain.VoxelPlacement` | src/components/Terrain.tsx:26-31 | A rendered voxel of a `width × height` grid has its cell in range, and its collider and box are both at `(x - width/2, y - height/2, 0)` |
| `Terrain.NoVoxelInsideCrater` | src/stores/useTerrainStore.ts:39-48 | After a `destroyTerrain`, no rendered voxel lies strictly inside the erased disc |
| `Terrain.InitialVoxels` | src/stores/useTerrainStore.ts:17-25 | The initial terrain renders a voxel keyed `(x, y)` iff `0 <= x < GRID_WIDTH`, `0 <= y` and `y < GRID_HEIGHT/2`: exactly the lower half |

## Left out

- The surface extractor (`isosurface.surfaceNets`) is a foreign library. Its result is a parameter of `Chunk.BuildGeometry`, and only the potential passed to it is modelled.
- The `Float32Array` and `Uint16Array` conversions of the buffers (src/components/Chunk.tsx:33-34): float encoding and the 16-bit truncation of indices are not modelled.
- Rendering, physics bodies and React reconciliation: `Terrain.Voxel` records only the key and the two positions.
- `Terrain.Voxel`: the key is the pair `(x, y)`, not the string `voxel-${x}-${y}`. Uniqueness of the pair is proved; that formatting two non-negative integers around `-` is injective is not.
- `Terrain.Decode`: requires a positive width, the store's invariant. With width 0 the source would compute NaN.
- Float centres for `destroyTerrain`, possible from a context-menu path: centres and radius are integers in the model.
- `TerrainStore.WithinRadius`: replaces `Math.sqrt(...) < radius` by the squared-distance test. Rounding of the floating-point square root is not modelled.
- The store library's `create`/`set`/`get` machinery: a single class with `grid`, `width`, `height` fields stands for it. Subscriptions and re-rendering are not modelled.
- src/components/Player.tsx: per-frame physics, ray casts and keyboard polling on floats against a foreign physics engine.
- src/App.tsx, src/main.tsx and src/components/LevelUI.tsx: scene composition, camera and controls. The click mapping `Math.floor(e.point.x + width / 2)` is float ray-hit arithmetic.
- src/components/PlacementGrid.tsx and src/components/EmptyChunk.tsx: they call `createTerrain` and read `brushSize` and `selectedMaterialId`, which the store does not define, so there is nothing to model.
- src/lib/MarchingCubes.d.ts and src/types/isosurface.d.ts: type declarations of outside libraries, with no implementation.
