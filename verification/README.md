# Voxel chunks and greedy meshing, in Dafny

This project models the voxel core of a Godot voxel engine written in C#.

- **Type table** (`VoxelTypes.cs`): the ids Air, Dirt, Stone, Grass and Water, and the definitions table. The ids index a palette of colours.
- **Current chunk** (`Chunk.cs`): a 32³ block of type ids stored z-major, owned by a world map from chunk position to chunk.
  - `GetVoxel` reads a cell; out of range, it resolves the world coordinate to the neighbouring chunk or Air.
  - `SetVoxel` writes one cell.
  - `GenerateTerrainFromNoise` fills the block by classifying each cell against a surface height and a cave bit.
  - `PrepareData` runs that generation once.
  - `BuildPaddedVoxels` copies the block with a one-cell border of neighbour cells into a 34³ buffer.
  - `GenerateMesh` hands the buffer to the mesher.
- **Greedy mesher** (`GreedyMesher.GenerateMeshData`): sweeps the padded buffer along each axis, plane -1 to size-1.
  - For every plane it builds a mask of oriented faces `(type, forwardFace)`.
  - It merges equal cells row by row into maximal rectangles and clears them.
  - Each rectangle is emitted as four vertices, four normals, four colours and six indices.
- **Earlier chunk** (`ChunkData.cs`): the same store with a y-major layout, and its own inline greedy mesher.
  - Its mask keeps only the type of a face, not its orientation.
  - It emits six vertices per rectangle to a vertex list, wound by a back-face test on the rectangle's first cell.

The main results are these.

- `GreedyMesher.GenerateMeshData` fails exactly when a face's type has no palette entry. Otherwise:
  - its rectangles cover every face of the buffer exactly once, each rectangle only over cells that carry its face (`ExactCover`);
  - each rectangle is the greedy choice of its slice (`GreedyCover`): it starts at the first face in scan order that no earlier rectangle covers, takes the whole run of equal faces in that row, and grows until the next row does not match over its full width;
  - the rectangles come axis by axis and, along one axis, plane by plane (`SweepOrdered`); with the two facts above this fixes them: a buffer has exactly one greedy exact cover in sweep order (`GreedyCoverUnique`);
  - hence a run of k equal faces alone in its slice is one quad of width k, and a solid cube gives exactly six quads, each size×size (`SolidCubeSixQuads`);
  - the four lists it returns are those rectangles laid out quad by quad;
  - every index names a vertex of its own quad;
  - every triangle winds against its normal;
  - every vertex lies on the chunk's box;
  - an all-Air buffer gives four empty lists.
- `Chunk.BuildPaddedVoxels` produces exactly the buffer whose mesher index `Idx(x+1, y+1, z+1)` holds `GetVoxel(x, y, z)`, so `Chunk.GenerateMesh` meshes what the chunk reads.
- Neighbour resolution by floored division and the shifted C# remainder is the Euclidean quotient and remainder. It takes one hop, to a chunk other than the caller.
- The earlier mesher covers its type-only faces exactly once too, with the same greedy choice, and a solid cube again gives six quads. But its merged rectangles can span faces that look opposite ways: `LegacyCoverMergesOppositeFaces` derives this from the contract of `ChunkData.GenerateMesh` (see Findings).

Modules:

- `Geometry`: integer vectors, axes and colours.
- `VoxelTypes`: the type table.
- `SliceMerge`: the row-major mask and the rectangle-cover theory shared by both meshers.
- `SweepOrder`: the order of the sweep, axis by axis and plane by plane, and the uniqueness of a greedy exact cover in that order.
- `GreedyMesher`: the current mesher.
- `MeshProperties`: the layout, winding and bounds of its output.
- `ChunkStore`: `Chunk.cs` and its world map.
- `LegacyMesher`: the earlier mesher's mask, quads and vertex list, as functions.
- `ChunkDataStore`: `ChunkData.cs` and its world map.

Several inputs are taken as parameters:

- The noise-derived surface heights and cave bits (`TerrainInputs`, and `offsetAt` for the earlier chunk).
- The palette handed to the mesher.
- `LoadChunkFromFile`, which always answers false.

## Model

| member | source | states |
|---|---|---|
| VoxelTypes.IsSolid | src/Voxel/VoxelTypes.cs:31-43 | the table's solidity flag: every declared id except Air is solid, Water included |
| VoxelTypes.Palette | src/Voxel/VoxelTypes.cs:28-44 | one colour per definition, in id order: the colour of definition t at index t |
| VoxelTypes.IdsDistinctAndDeclared | src/Voxel/VoxelTypes.cs:22-26 | the five ids are pairwise distinct and are exactly the declared (indexable) ids; Air is 0, the meshers' empty value |
| VoxelTypes.GrassAndWaterLookLikeDirt | src/Voxel/VoxelTypes.cs:40-43 | Grass and Water carry the name "Dirt" and Dirt's colour, as written |
| Geometry.Along | src/Voxel/GreedyMesher.cs:96-97 | the vector with value a on one axis and 0 on the other two, as `du[u] = w` leaves the other components of a fresh vector zero |
| Geometry.AlongDot | src/Voxel/GreedyMesher.cs:96-97 | two vectors along one axis have as dot product the product of their values |
| Geometry.InPlaneAxes | src/Voxel/GreedyMesher.cs:29-30 | the in-plane axes are (axis+1)%3 and (axis+2)%3, and with the sweep axis they name all three axes |
| Geometry.SliceCoord | src/Voxel/GreedyMesher.cs:93-94 | the cursor point: `plane` on the sweep axis, u and v on the in-plane axes |
| SliceMerge.RowOffset | src/Voxel/GreedyMesher.cs:84 | row j+h starts h*size cells after row j, the `h * size` of the height loop's index |
| SliceMerge.RowStartMonotone | src/Voxel/GreedyMesher.cs:43-63 | a later row starts at least a full row further on |
| SliceMerge.CellIndexOrder | src/Voxel/GreedyMesher.cs:43-63 | cells met earlier in the build order have smaller indices `v*size+u`, all inside the mask |
| SliceMerge.CellIndexBound | src/Voxel/GreedyMesher.cs:38 | every cell's index lies in the size*size mask |
| SliceMerge.CellIndexInjective | src/Voxel/GreedyMesher.cs:43-63 | distinct mask cells have distinct indices |
| SliceMerge.RowRun | src/Voxel/GreedyMesher.cs:75-76 | the maximal run: in bounds, every cell of it equal to the start value, and the next cell, if any, different |
| SliceMerge.CoverCountAppend | src/Voxel/GreedyMesher.cs:66-146 | the number of quads covering a cell adds up over concatenated quad lists |
| SliceMerge.CoverCountElsewhere | src/Voxel/GreedyMesher.cs:40 | quads of one slice cover no cell of another slice |
| SliceMerge.CoverCountOfMember | src/Voxel/GreedyMesher.cs:66-146 | a cell inside some quad is covered at least once |
| SliceMerge.CoverCountPositive | src/Voxel/GreedyMesher.cs:66-146 | a cell covered a non-zero number of times lies inside some quad of that slice |
| SliceMerge.CoverCountOfPair | src/Voxel/GreedyMesher.cs:66-146 | two quads of one slice over a common cell cover it at least twice |
| SliceMerge.SliceCountAtCommonCell | src/Voxel/GreedyMesher.cs:66-146 | when every quad of a slice contains one cell, the number of quads of the slice is that cell's cover count |
| SliceMerge.AtUpdateOther | src/Voxel/GreedyMesher.cs:56-60 | writing one mask cell at its index v*size + u leaves every other cell of the mask as it was |
| SliceMerge.SliceCountOfMember | src/Voxel/GreedyMesher.cs:66-146 | every emitted quad counts in its own slice: that slice holds at least one quad |
| SliceMerge.SliceCountOfPair | src/Voxel/GreedyMesher.cs:66-146 | two distinct quads on one slice make that slice hold at least two quads |
| SliceMerge.OnlyQuadOfSlice | src/Voxel/GreedyMesher.cs:66-146 | when quad q is the only quad over one of its cells and that cell is covered once, q is the slice's only quad: the slice holds exactly one quad and every quad on it is q |
| SliceMerge.TwoPlanesCount | src/Voxel/GreedyMesher.cs:27-40 | quads lying only on two planes are counted by the six slices those planes give across the three axes |
| SliceMerge.ConsistentStep | src/Voxel/GreedyMesher.cs:133-136 | emitting a rectangle of equal faces and clearing it keeps "built mask = remaining mask + covered cells" |
| SliceMerge.WidthRun | src/Voxel/GreedyMesher.cs:75-76 | the width loop returns exactly the maximal run of cells equal to the start cell, at least 1 and within the row |
| SliceMerge.HeightRun | src/Voxel/GreedyMesher.cs:78-90 | the height loop: 1 <= h <= size-j, every row of the block matches over the full width, and the next row, if any, does not |
| SliceMerge.ClearRect | src/Voxel/GreedyMesher.cs:133-136 | after clearing, every cell of the rectangle is empty and every other cell is unchanged |
| SliceMerge.ScannedEmit | src/Voxel/GreedyMesher.cs:133-139 | after emitting and clearing the rectangle at (i, j), the scan resumes at i + w with the quad recorded |
| SliceMerge.ScannedSkip | src/Voxel/GreedyMesher.cs:141-145 | an empty cell is passed over |
| SliceMerge.ScannedNextRow | src/Voxel/GreedyMesher.cs:67-69 | the end of row j is the start of row j+1 |
| SliceMerge.ScannedFinished | src/Voxel/GreedyMesher.cs:66-146 | at the end of a slice every non-empty built cell is covered exactly once, empty cells not at all, and each quad fits the mask and lies over cells of its own face |
| SliceMerge.MaximalRect | src/Voxel/GreedyMesher.cs:74-90 | the width and height loops give a rectangle at (i, j) that fits the mask, is as wide as the run of equal cells, holds only the start cell's value, and whose next row, if any, does not match over the full width |
| SliceMerge.ChooseQuad | src/Voxel/GreedyMesher.cs:71-90 | the quad the width and height loops choose starts at (i, j) with that cell's face, spans the whole run, lies over cells of its face, and is GreedyQuad: no uncovered face earlier in scan order, the next cell of the row not open, the next row not open over the full width |
| SliceMerge.ScannedChoice | src/Voxel/GreedyMesher.cs:74-90 | a full-run rectangle whose next row does not match is the greedy choice with respect to the built mask, since cleared cells are exactly the covered ones |
| SliceMerge.GreedyAppend | src/Voxel/GreedyMesher.cs:66-146 | appending a greedy choice to a greedy sequence of quads keeps it greedy |
| SliceMerge.GreedyAt | src/Voxel/GreedyMesher.cs:66-146 | in a greedy sequence every quad is the greedy choice after the quads before it |
| SliceMerge.GreedyQuadTransfer | src/Voxel/GreedyMesher.cs:71-90 | the greedy choice depends only on the cells of the mask and on how often earlier quads cover them |
| SliceMerge.GreedyInRectangle | src/Voxel/GreedyMesher.cs:66-146 | when a slice's faces are one value c exactly on a rectangle R, every quad of that slice in a greedy exact cover is R with face c |
| SliceMerge.RectangleOneQuad | src/Voxel/GreedyMesher.cs:66-146 | when a slice's faces are one value c exactly on a rectangle R, a greedy exact cover holds exactly one quad of that slice, and it is R |
| SliceMerge.GreedySweepAt | src/Voxel/GreedyMesher.cs:27-148 | in a greedy sweep every quad is the greedy choice of its slice after that slice's earlier quads |
| SliceMerge.GreedySweepFromAll | src/Voxel/GreedyMesher.cs:27-148 | conversely, quads each the greedy choice of their slice make a greedy sweep |
| SliceMerge.GreedySweepStep | src/Voxel/GreedyMesher.cs:40-148 | appending the greedy merge of a later slice keeps a sweep greedy |
| SliceMerge.GreedySweepStepAt | src/Voxel/GreedyMesher.cs:40-148 | each appended quad of a later slice's greedy merge is the greedy choice in the sweep, since earlier slices do not cover its cells |
| SliceMerge.GreedyChoiceInSweep | src/Voxel/GreedyMesher.cs:40-148 | a slice's greedy choice stays the greedy choice when quads of other slices come before it |
| SliceMerge.SweptSliceGreedy | src/Voxel/GreedyMesher.cs:27-148 | a greedy sweep that covers one slice exactly is a greedy exact cover of that slice |
| SliceMerge.SweptRectangleOneQuad | src/Voxel/GreedyMesher.cs:27-148 | in a greedy sweep, a slice whose faces are one value exactly on a rectangle R is drawn as the single quad R |
| SweepOrder.SweepOrderedAppend | src/Voxel/GreedyMesher.cs:27-40 | appending the quads of one slice after quads of slices swept before it keeps the sequence in sweep order (axis by axis, plane by plane) |
| SweepOrder.ExtendsOnAxisTrans | src/Voxel/GreedyMesher.cs:40 | two extensions by quads of one axis make one extension by quads of that axis |
| SweepOrder.FreshQuad | src/Voxel/GreedyMesher.cs:66-146 | in an exact cover, every cell of a quad carries its face and is covered by no earlier quad |
| SweepOrder.GreedyStartUnique | src/Voxel/GreedyMesher.cs:66-72 | a greedy quad starts no later in scan order than any cell still open for its face |
| SweepOrder.GreedyWidthUnique | src/Voxel/GreedyMesher.cs:74-76 | of two quads from one start with one face, the greedy one is at least as wide as any open run |
| SweepOrder.GreedyHeightUnique | src/Voxel/GreedyMesher.cs:78-90 | of two quads from one start with one face and width, the greedy one is at least as tall as any open rectangle |
| SweepOrder.GreedyQuadUnique | src/Voxel/GreedyMesher.cs:66-90 | the greedy choice is unique: two greedy quads of one slice after the same earlier quads, each over open cells of its face, are equal |
| SweepOrder.NextSliceNotBefore | src/Voxel/GreedyMesher.cs:27-40 | of two exact covers sharing their first k quads, quad k of one lies in no slice swept before that of quad k of the other, if the other is in sweep order |
| SweepOrder.NextQuadEqual | src/Voxel/GreedyMesher.cs:27-148 | two ordered greedy covers that share their first k quads share quad k |
| SweepOrder.SweepPrefixEqual | src/Voxel/GreedyMesher.cs:27-148 | two ordered greedy covers of the same slices agree on every common prefix |
| SweepOrder.CoverNotLonger | src/Voxel/GreedyMesher.cs:66-146 | an exact cover extending another exact cover of the same slices has no extra quad |
| SweepOrder.SweepUnique | src/Voxel/GreedyMesher.cs:27-148 | a family of slices has exactly one greedy exact cover in sweep order |
| GreedyMesher.CubeIsProduct | src/Voxel/GreedyMesher.cs:17 | Square and Cube are n*n and n*n*n |
| GreedyMesher.IdxIsProduct | src/Voxel/GreedyMesher.cs:24 | the mesher's index function Idx is `z*P*P + y*P + x` with P = size + 2 |
| GreedyMesher.IdxInBounds | src/Voxel/GreedyMesher.cs:24 | every padded cell's Idx lies in [0, P³) |
| GreedyMesher.PaddedIndex | src/Voxel/GreedyMesher.cs:48-49 | the read of chunk cell x at `Idx(x+1, ...)` lies in the buffer for -1 <= x <= size on every axis |
| GreedyMesher.NearIndex | src/Voxel/GreedyMesher.cs:48 | the read of the near voxel lies in the buffer for planes -1..size-1 and u, v < size |
| GreedyMesher.FarIndex | src/Voxel/GreedyMesher.cs:49 | the read of the far voxel, one plane further, lies in the buffer |
| GreedyMesher.SliceCoordBounds | src/Voxel/GreedyMesher.cs:40-46 | the cursor's three coordinates stay within the bounds of plane, u and v |
| GreedyMesher.SliceCoordStep | src/Voxel/GreedyMesher.cs:32-33 | adding the unit step q moves the cursor to the next plane |
| GreedyMesher.FaceCell | src/Voxel/GreedyMesher.cs:51-61 | a face exactly when one side is solid; it is the solid side's type, and forward exactly when the near side is solid; otherwise `(0, false)` |
| GreedyMesher.BuildMask | src/Voxel/GreedyMesher.cs:43-63 | after the build loop, cell (u, v) at n = v*size + u is the face cell of that voxel pair |
| GreedyMesher.EmitAppend | src/Voxel/GreedyMesher.cs:102-131 | Emit of one more quad appends QuadMesh of that quad: its four vertices, normals and colours and its six indices, based at 4 × the number of earlier quads |
| GreedyMesher.ScanEmit | src/Voxel/GreedyMesher.cs:133-139 | emitting and clearing the rectangle at (i, j) advances the scan by w and keeps the palette invariant |
| GreedyMesher.ScanSkip | src/Voxel/GreedyMesher.cs:141-145 | a cell without a face is passed over |
| GreedyMesher.ScanNextRow | src/Voxel/GreedyMesher.cs:67-69 | the end of one row is the start of the next |
| GreedyMesher.ScanFinished | src/Voxel/GreedyMesher.cs:66-146 | at the end of a slice every face is covered exactly once by quads over cells of that face, and every face's type has a palette entry |
| GreedyMesher.EmitQuadAt | src/Voxel/GreedyMesher.cs:71-139 | at a face cell: fails exactly when the type has no palette entry; otherwise the quad starts at (i, j) with that cell's face, its width w >= 1 is the whole run of equal cells in the row (RowRun), and it is the greedy choice (GreedyQuad: first uncovered face in scan order, full run, grown until the next row does not match); its lists are appended, indexCount grows by 4, the rectangle is cleared and i advances by w |
| GreedyMesher.MergeRow | src/Voxel/GreedyMesher.cs:69-146 | one row of the merge: either row j is done, with n at the next row, the lists extended and every quad so far the greedy choice after the ones before it (Greedy), or a face whose type has no palette entry is reported |
| GreedyMesher.ScanCell | src/Voxel/GreedyMesher.cs:71-145 | one step of the row scan at cell (i, j): either the scan moves on by w ≥ 1 (the run of the face there, or 1 past an empty cell), with the lists extended and every quad so far the greedy choice after the ones before it, or the cell's type has no palette entry and is reported |
| GreedyMesher.MergeSlice | src/Voxel/GreedyMesher.cs:66-147 | the merge of one slice: on success the new quads cover every face of the built mask exactly once, each over cells of its own face, and each is the greedy choice after the ones before it (Greedy); otherwise a face with no palette entry is reported |
| GreedyMesher.ProgressStep | src/Voxel/GreedyMesher.cs:40-148 | a slice's exact cover of its mask moves the sweep's invariant (exact cover of all earlier slices) on to the next plane |
| GreedyMesher.SweptQuadsStep | src/Voxel/GreedyMesher.cs:40-148 | quads of all earlier slices lie in those slices, fit the mask and have palette entries |
| GreedyMesher.SweptCoverStep | src/Voxel/GreedyMesher.cs:40-148 | every face of an earlier slice is covered exactly once |
| GreedyMesher.QuadsCarryFacesStep | src/Voxel/GreedyMesher.cs:40-148 | every quad lies over faces equal to its own |
| GreedyMesher.NoFacesNoQuads | src/Voxel/GreedyMesher.cs:54-56 | an exact cover of a buffer with no faces is empty |
| GreedyMesher.QuadOnFace | src/Voxel/GreedyMesher.cs:71-72 | the first cell of every quad is a face of the buffer carrying the quad's face |
| GreedyMesher.GreedyCoverStep | src/Voxel/GreedyMesher.cs:40-148 | a slice's greedy merge over its faces keeps the sweep's quads each the greedy choice of their slice (GreedyCover) |
| GreedyMesher.RectangleSliceOneQuad | src/Voxel/GreedyMesher.cs:71-90 | a run of k equal faces, or any rectangle R of one face with nothing else in its slice, is emitted as exactly one quad, R; a fully covered slice is one size×size quad |
| GreedyMesher.SliceFacesAt | src/Voxel/GreedyMesher.cs:43-63 | inside the chunk's slices, the slice view reads the face the mask build computes for that cell |
| GreedyMesher.ExactCoverSlice | src/Voxel/GreedyMesher.cs:66-146 | an exact cover covers each face cell of a slice once and each empty cell never; a slice that is one rectangle R of face c reads c inside R and no face outside |
| GreedyMesher.ExactCoverSliceQuads | src/Voxel/GreedyMesher.cs:66-146 | the quads an exact cover places on a slice fit the slice, carry a face, and lie only over cells of that face |
| GreedyMesher.ExactCoverSlices | src/Voxel/GreedyMesher.cs:40-146 | an exact cover of the buffer covers, exactly once and with matching faces, the slices the mesher reads through SliceFaces |
| GreedyMesher.GreedyCoverUnique | src/Voxel/GreedyMesher.cs:27-148 | determinism of the sweep: two greedy exact covers of one buffer in sweep order are the same quad sequence, so GenerateMeshData's quads and lists are fixed by the buffer |
| GreedyMesher.ExactCoverCountAt | src/Voxel/GreedyMesher.cs:66-146 | in a slice that is one rectangle of face c, each cell of the rectangle is covered exactly once |
| GreedyMesher.FullSliceOneQuad | src/Voxel/GreedyMesher.cs:66-146 | a slice holding one face on all of its size×size cells is emitted as exactly one size×size quad, the slice's only quad |
| GreedyMesher.SolidCubeAt | src/Voxel/GreedyMesher.cs:48-49 | in a solid cube, the buffer holds t inside the chunk and 0 on the border |
| GreedyMesher.SolidCubeFaces | src/Voxel/GreedyMesher.cs:51-61 | a solid cube of type t has faces only on planes -1 (looking backward) and size-1 (looking forward), everywhere on those planes |
| GreedyMesher.SolidCubeSliceIs | src/Voxel/GreedyMesher.cs:41-62 | each outer slice of a solid cube holds one face, backward on plane -1 and forward on plane size-1, on every one of its size×size cells and nothing else |
| GreedyMesher.SolidCubeSlice | src/Voxel/GreedyMesher.cs:66-146 | each outer slice of a solid cube is one size×size quad of that face |
| GreedyMesher.SolidCubePlanes | src/Voxel/GreedyMesher.cs:41-62 | every quad of a solid cube's exact cover lies on plane -1 or size-1, the only planes with faces |
| GreedyMesher.SolidCubeDistinct | src/Voxel/GreedyMesher.cs:66-146 | no two quads of a solid cube's greedy exact cover share a slice |
| GreedyMesher.SolidCubeSixQuads | src/Voxel/GreedyMesher.cs:15-151 | the greedy exact cover of a solid cube is exactly six quads, each size×size, one per outer slice, on planes -1 and size-1 with the matching orientation |
| GreedyMesher.ProgressNextAxis | src/Voxel/GreedyMesher.cs:27-40 | planes -1..size-1 are all the planes of one axis |
| GreedyMesher.ProgressFinished | src/Voxel/GreedyMesher.cs:27-149 | after the last axis the quads are an exact cover of the buffer and every face has a palette entry |
| GreedyMesher.UncoveredFace | src/Voxel/GreedyMesher.cs:110 | a face whose type has no palette entry is one the palette does not cover |
| GreedyMesher.AirHasNoFaces | src/Voxel/GreedyMesher.cs:54-56 | an all-Air buffer has no faces |
| GreedyMesher.AirMeshesEmpty | src/Voxel/GreedyMesher.cs:54-56 | for an all-Air buffer every palette covers its faces and an exact cover of them is empty, so GenerateMeshData returns empty lists |
| GreedyMesher.SweepSlice | src/Voxel/GreedyMesher.cs:40-148 | one plane: build the mask and merge it; the sweep invariant (exact cover of earlier slices, every quad the greedy choice of its slice) moves on one plane, the new quads are appended after the old ones and all lie on this plane, so the quads stay in sweep order (SweepOrdered); or a face with no palette entry is reported |
| GreedyMesher.SliceStep | src/Voxel/GreedyMesher.cs:40-148 | the merge of one plane (quads on that slice covering each face of its mask once, over cells of their own face, each the greedy choice) moves the exact and greedy sweep invariants on to the next plane and keeps the quads in sweep order |
| GreedyMesher.UncoveredMaskCell | src/Voxel/GreedyMesher.cs:110 | a mask cell whose type has no palette entry is a face of the buffer with no palette entry, so the palette does not cover the buffer's faces |
| GreedyMesher.NewMask | src/Voxel/GreedyMesher.cs:38 | the new mask has size*size cells, all (0, false) |
| GreedyMesher.SweepAxis | src/Voxel/GreedyMesher.cs:27-149 | one axis: the sweep invariant, exact and greedy, moves on to the next axis; the quads of this axis are appended after the earlier ones, in sweep order (ExtendsOnAxis, SweepOrdered); or a face with no palette entry is reported |
| GreedyMesher.GenerateMeshData | src/Voxel/GreedyMesher.cs:15-151 | succeeds exactly when every face's type has a palette entry, and then returns the lists of an exact cover of the faces in which every quad is the greedy choice of its slice (GreedyCover) and the quads come axis by axis, plane by plane (SweepOrdered), which by GreedyCoverUnique fixes the quad sequence; on failure names such a type; an all-Air buffer gives four empty lists |
| MeshProperties.EmitShape | src/Voxel/GreedyMesher.cs:102-131 | Emit, the model of the per-quad appends: four vertices, normals and colours and six indices per quad, so the three per-vertex lists have equal length |
| MeshProperties.EmitVertex | src/Voxel/GreedyMesher.cs:102-111 | in Emit, vertex, normal and colour 4k+o are Corners(quad k)[o], FaceNormal(quad k) and the palette colour of its type |
| MeshProperties.QuadIndicesShift | src/Voxel/GreedyMesher.cs:113-130 | QuadIndices, the six indices of one quad, after c vertices is the pattern at 0 shifted by c |
| MeshProperties.EmitIndex | src/Voxel/GreedyMesher.cs:113-131 | in Emit, index 6k+r is entry r of QuadIndices for quad k's winding, plus 4k |
| MeshProperties.EmitLaid | src/Voxel/GreedyMesher.cs:102-131 | the emitted lists are laid out quad by quad |
| MeshProperties.LaidIndex | src/Voxel/GreedyMesher.cs:113-131 | index t lies among the four vertices of its own quad t/6 |
| MeshProperties.IndicesLocal | src/Voxel/GreedyMesher.cs:113-131 | every index is below the number of vertices, and names a corner of its own quad |
| MeshProperties.FaceNormalIsAxisUnit | src/Voxel/GreedyMesher.cs:35-107 | FaceNormal is +e_axis for a forward face and -e_axis otherwise, a unit vector |
| MeshProperties.CornerOffsetsByAxis | src/Voxel/GreedyMesher.cs:96-105 | the corner offsets 0, du, dv and du+dv on each sweep axis |
| MeshProperties.EdgeCrosses | src/Voxel/GreedyMesher.cs:113-130 | the edge cross product of each triangle QuadIndices names is w*h along -axis or +axis |
| MeshProperties.OffsetWinding | src/Voxel/GreedyMesher.cs:113-130 | both triangles of the pattern have an edge cross product of length w*h against the face normal |
| MeshProperties.CornersAreOffsets | src/Voxel/GreedyMesher.cs:93-105 | Corners are the base point (cursor plus one on the sweep axis) moved by 0, du, dv and du+dv |
| MeshProperties.QuadWinding | src/Voxel/GreedyMesher.cs:102-130 | both triangles of a quad wind against its normal, with signed area -w*h |
| MeshProperties.WindsFrom | src/Voxel/GreedyMesher.cs:113-130 | a triangle winds against its normal once its vertices and normals are known |
| MeshProperties.LaidTriangle | src/Voxel/GreedyMesher.cs:113-130 | triangle t of the index list is half t%2 of quad t/2's pattern shifted by 4(t/2) |
| MeshProperties.LaidVertex | src/Voxel/GreedyMesher.cs:102-108 | vertex and normal 4k+o are corner o and normal of quad k |
| MeshProperties.QuadTriangleWinds | src/Voxel/GreedyMesher.cs:102-130 | a triangle of a quad, placed in the lists, winds against its normal |
| MeshProperties.TriangleWinds | src/Voxel/GreedyMesher.cs:102-130 | triangle t of laid-out lists winds against its normal |
| MeshProperties.Winding | src/Voxel/GreedyMesher.cs:113-130 | every triangle of the lists winds against the normal of its vertices |
| MeshProperties.CornersInChunkBox | src/Voxel/GreedyMesher.cs:99-105 | the corners of a quad of planes -1..size-1 that fits the mask lie in [0, size]³ |
| MeshProperties.InChunkBoxAll | src/Voxel/GreedyMesher.cs:102-105 | every vertex lies in [0, size]³ |
| MeshProperties.LaidMesh | src/Voxel/GreedyMesher.cs:102-131 | every index names a vertex, every triangle winds against its normal, every vertex lies on the chunk's box |
| MeshProperties.MeshOfExactCover | src/Voxel/GreedyMesher.cs:15-151 | the lists of a successful GenerateMeshData are laid out quad by quad, with in-range indices, consistent winding and vertices on the box |
| MeshProperties.VertexOfInit | src/Voxel/GreedyMesher.cs:102-111 | adding a quad leaves every earlier vertex, normal and colour in place |
| MeshProperties.VertexOfLast | src/Voxel/GreedyMesher.cs:96-111 | the last quad's four vertices are base, base+du, base+dv and base+du+dv, with its face normal and the palette colour of its type |
| MeshProperties.IndexOfInit | src/Voxel/GreedyMesher.cs:113-131 | adding a quad leaves every earlier index in place |
| MeshProperties.IndexOfLast | src/Voxel/GreedyMesher.cs:113-131 | the last six indices are the quad's winding pattern shifted by indexCount = 4(n-1) |
| LegacyMesher.LegacyCell | src/Voxel/ChunkData.cs:65-84 | 0 when both sides have equal solidity, otherwise the solid side's type; the current mesher's cell with the orientation dropped |
| LegacyMesher.LegacyCellForgetsOrientation | src/Voxel/ChunkData.cs:55-84 | the legacy cell is symmetric in its two voxels, while the oriented cell of a face tells the two sides apart |
| LegacyMesher.LegacyCornersAreCorners | src/Voxel/ChunkData.cs:134-144 | LegacyCorners places a rectangle at the same four corners as the current mesher's Corners, at axis coordinate plane+1 |
| LegacyMesher.LegacyTriangles | src/Voxel/ChunkData.cs:147-158 | six vertices per quad |
| LegacyMesher.LegacyEmitAppend | src/Voxel/ChunkData.cs:131-158 | each quad appends its six vertices and six colours |
| LegacyMesher.LegacyEmitShape | src/Voxel/ChunkData.cs:131-158 | six vertices and six colours per quad |
| LegacyMesher.LegacyEmitLast | src/Voxel/ChunkData.cs:131-158 | the lists after n quads are those after the first n-1, six entries per quad, followed by the last quad's six vertices and colours |
| LegacyMesher.LegacyEmitPrefix | src/Voxel/ChunkData.cs:131-158 | the vertex and colour lists drawn for the first j quads are prefixes of those drawn for all of them |
| LegacyMesher.LegacyVertexOfLast | src/Voxel/ChunkData.cs:147-158 | the last six vertices of the list are the last quad's triangles, in the order its back-face test picks |
| LegacyMesher.LegacyColorOfLast | src/Voxel/ChunkData.cs:125-131 | the last six colours of the list are the colour of the last quad's type |
| LegacyMesher.LegacyEmitAt | src/Voxel/ChunkData.cs:147-158 | vertex 6k+r is vertex r of quad k's triangles, in the order its back-face test picks |
| LegacyMesher.LegacyColorAt | src/Voxel/ChunkData.cs:125-131 | every vertex of quad k has LegacyColor of its type: dirt for 1, stone for 2, the fallback otherwise |
| LegacyMesher.LegacyCornerEdges | src/Voxel/ChunkData.cs:134-144 | of LegacyCorners, v2-v1 is w along the first in-plane axis, v3-v1 is h along the second, v4-v1 their sum |
| LegacyMesher.LegacyEdgeCrosses | src/Voxel/ChunkData.cs:147-158 | the edge cross products of the two vertex orders are w*h along -axis (back face) or +axis |
| LegacyMesher.LegacyQuadWinding | src/Voxel/ChunkData.cs:147-158 | both triangles of a quad face along the normal its back-face test picks |
| LegacyMesher.QuadWindsFrom | src/Voxel/ChunkData.cs:147-158 | a quad in the vertex list faces along n when its six vertices are a pattern that does |
| LegacyMesher.LegacyQuadAt | src/Voxel/ChunkData.cs:147-158 | the six emitted vertices of quad k are its triangles |
| LegacyMesher.LegacyWinding | src/Voxel/ChunkData.cs:118-158 | every quad of the vertex list faces along the normal its back-face test picks |
| LegacyMesher.FirstCellFacing | src/Voxel/ChunkData.cs:120-122 | BackFace, the test on the far voxel of the quad's first cell, holds exactly when that cell's face looks forward (its near voxel is the solid owner), so the normal it picks is that face's true direction |
| LegacyMesher.LegacyProgressStart | src/Voxel/ChunkData.cs:45-58 | before the first slice nothing is covered |
| LegacyMesher.LegacyProgressInSlices | src/Voxel/ChunkData.cs:58-88 | every quad of the sweep lies on a plane -1..Size-1 and fits the mask |
| LegacyMesher.LegacyProgressStep | src/Voxel/ChunkData.cs:58-173 | a slice's exact cover of its mask moves the sweep invariant on one plane |
| LegacyMesher.LegacySweptCoverStep | src/Voxel/ChunkData.cs:58-173 | every type-only face of an earlier slice is covered exactly once |
| LegacyMesher.LegacyCarryStep | src/Voxel/ChunkData.cs:58-173 | every quad lies over faces of its own type |
| LegacyMesher.LegacyProgressNextAxis | src/Voxel/ChunkData.cs:45-58 | planes -1..Size-1 are all the planes of one axis |
| LegacyMesher.LegacyProgressFinished | src/Voxel/ChunkData.cs:45-174 | after the last axis the quads are an exact cover of the type-only faces |
| LegacyMesher.LegacyAirHasNoQuads | src/Voxel/ChunkData.cs:55-84 | a buffer of Air has no type-only faces, so its only exact cover is empty |
| LegacyMesher.LegacyGreedyCoverStep | src/Voxel/ChunkData.cs:58-173 | a slice's greedy merge keeps every quad of the sweep the greedy choice of its slice (LegacyGreedyCover) |
| LegacyMesher.LegacySliceStep | src/Voxel/ChunkData.cs:58-173 | the merge of one plane (quads covering each nonzero mask cell once, over cells of their own type, each the greedy choice) moves the sweep invariants on to the next plane and keeps the quads in sweep order |
| LegacyMesher.LegacyRectangleSliceOneQuad | src/Voxel/ChunkData.cs:91-116 | a rectangle R of one type with nothing else in its slice is emitted as exactly one quad, R |
| LegacyMesher.LegacySliceFacesAt | src/Voxel/ChunkData.cs:61-86 | inside the chunk's slices, the slice view reads the type the mask build writes for that cell |
| LegacyMesher.LegacyCoverSlice | src/Voxel/ChunkData.cs:91-172 | a legacy cover covers each nonzero cell of a slice once and each zero cell never; a slice that is one rectangle R of type t reads t inside R and 0 outside |
| LegacyMesher.LegacyCoverSliceQuads | src/Voxel/ChunkData.cs:91-172 | the quads a legacy cover places on a slice fit the slice, carry a nonzero type, and lie only over cells of that type |
| LegacyMesher.LegacyCoverSlices | src/Voxel/ChunkData.cs:58-172 | a legacy cover of the buffer covers, exactly once and with matching types, the slices the earlier mesher reads through LegacySliceFaces |
| LegacyMesher.LegacyCoverUnique | src/Voxel/ChunkData.cs:45-173 | determinism of the earlier sweep: two greedy legacy covers of one buffer in sweep order are the same quad sequence |
| LegacyMesher.LegacyCoverCountAt | src/Voxel/ChunkData.cs:91-172 | in a slice that is one rectangle of type t, each cell of the rectangle is covered exactly once |
| LegacyMesher.LegacyFullSliceOneQuad | src/Voxel/ChunkData.cs:91-172 | a slice holding type t on all of its Size×Size cells is emitted as exactly one Size×Size quad, the slice's only quad |
| LegacyMesher.LegacySolidCubeSlice | src/Voxel/ChunkData.cs:91-172 | each outer slice of a solid cube is one Size×Size quad of its type |
| LegacyMesher.LegacySolidCubePlanes | src/Voxel/ChunkData.cs:61-86 | every quad of a solid cube's cover lies on plane -1 or size-1, the only planes with faces |
| LegacyMesher.LegacySolidCubeSliceIs | src/Voxel/ChunkData.cs:61-86 | each outer slice of a solid cube holds type t in the legacy mask on every one of its size×size cells and nothing else |
| LegacyMesher.LegacySolidCubeDistinct | src/Voxel/ChunkData.cs:91-172 | no two quads of a solid cube's greedy cover share a slice |
| LegacyMesher.LegacySolidCubeSixQuads | src/Voxel/ChunkData.cs:38-178 | the greedy exact cover of a solid cube is exactly six quads, each size×size, on planes -1 and size-1, one per outer slice |
| LegacyMesher.LegacyCoverMesh | src/Voxel/ChunkData.cs:131-158 | an exact cover's vertex list has six vertices and six colours per quad, and is empty for a buffer of Air |
| LegacyMesher.LegacyMergesOppositeFaces | src/Voxel/ChunkData.cs:73-122 | two neighbouring faces of one type looking opposite ways get the same legacy cell and are merged into one quad facing the first cell's way; the oriented mask separates them |
| LegacyMesher.LegacyCoverMergesOppositeFaces | src/Voxel/ChunkData.cs:91-122 | when a slice holds only a forward face of type t at (0, 0) and a backward face of type t at (1, 0) (OppositePairSlice), any greedy exact legacy cover, and so the output of GenerateMesh, holds exactly one quad of that slice: Rect(0, 0, 2, 1) of type t, drawn along +axis by its first cell's back-face test (DrawnAlong), while the face at (1, 0) looks along -axis |
| LegacyMesher.OppositeFaceCells | src/Voxel/ChunkData.cs:65-122 | in that slice the legacy mask holds t on exactly the cells (0, 0) and (1, 0) and 0 elsewhere, the back-face test on the merged quad draws it along +axis, and the face at (1, 0) looks along -axis |
| LegacyMesher.OrientedQuadsFaceTheirCells | src/Voxel/GreedyMesher.cs:76-107 | in the current mesher's cover, every cell of a quad carries the quad's oriented face, so its normal is the true direction of every face it draws |
| ChunkStore.Digits | src/Voxel/Chunk.cs:78 | base-32 and base-1024 digits recombine and split back |
| ChunkStore.VoxelIndexInjective | src/Voxel/Chunk.cs:76-79 | the z-major index of a local cell lies in [0, 32³), and distinct cells have distinct indices |
| ChunkStore.VoxelIndexOnto | src/Voxel/Chunk.cs:76-79 | every storage index is the index of exactly one local cell |
| ChunkStore.CsRem | src/Voxel/Chunk.cs:90-92 | C#'s `%`: below the divisor in magnitude, with the dividend's sign |
| ChunkStore.CsRemIsEuclideanOrShifted | src/Voxel/Chunk.cs:90-92 | C#'s remainder equals the Euclidean one except for negative non-multiples, where it is one divisor lower |
| ChunkStore.ResolveAxis | src/Voxel/Chunk.cs:83-92 | per axis, NeighbourCoord(a) = floor(a/32) and LocalCoord(a) = `(a % 32 + 32) % 32` are the Euclidean quotient and remainder; the local coordinate lies in [0, 32); together they recombine to a |
| ChunkStore.OwnerAndLocalAreSourceFormulas | src/Voxel/Chunk.cs:83-92 | OwnerOf and LocalOf, the neighbour chunk and local coordinate, are the per-axis source formulas |
| ChunkStore.ResolveWorld | src/Voxel/Chunk.cs:81-92 | every world coordinate is a local, in-range cell of the chunk it resolves to, the chunk and cell GetVoxel reads out of range |
| ChunkStore.NeighbourIsOther | src/Voxel/Chunk.cs:87-93 | an out-of-range coordinate resolves to a chunk other than the caller |
| ChunkStore.ResolveExample | src/Voxel/Chunk.cs:81-93 | chunk (-1,0,0) at local x = -1 resolves to chunk (-2,0,0) at local x = 31 |
| ChunkStore.World.constructor | src/Voxel/World.cs:9 | the chunk map starts empty |
| ChunkStore.ClassifyCell | src/Voxel/Chunk.cs:147-178 | the cell is a declared type, and solid exactly when there is no cave and it is at or below the surface or at or below sea level |
| ChunkStore.ColumnLayers | src/Voxel/Chunk.cs:155-178 | outside caves a column goes stone, dirt, grass, water, air upward; grass exactly at the surface; dirt exactly in the 39 cells below it; water exactly between the surface and sea level |
| ChunkStore.TerrainStep | src/Voxel/Chunk.cs:143-180 | generating one cell extends the generated cells by that cell |
| ChunkStore.TerrainCarry | src/Voxel/Chunk.cs:127-129 | a finished column carries on to the next column, and a finished slab to the next slab |
| ChunkStore.PaddedOffset | src/Voxel/Chunk.cs:66 | every padded cell's offset lies in the 34³ buffer |
| ChunkStore.PaddedOffsetIsSourceFormula | src/Voxel/Chunk.cs:66 | the offset is `z*P*P + y*P + x` |
| ChunkStore.PaddedOffsetIsMesherIndex | src/Voxel/Chunk.cs:66 | the offset of padded cell (x, y, z) is the mesher's index for chunk cell (x-1, y-1, z-1) |
| ChunkStore.PaddedOffsetInjective | src/Voxel/Chunk.cs:66 | distinct padded cells have distinct offsets |
| ChunkStore.PaddedOffsetOnto | src/Voxel/Chunk.cs:59-66 | every buffer index is the offset of the padded cell its base-34 digits name |
| ChunkStore.PaddedOffsetDigits | src/Voxel/Chunk.cs:59-66 | the base-34 digits of a padded cell's offset, each less one, are that cell's chunk coordinates |
| ChunkStore.PaddedIndexCoord | src/Voxel/Chunk.cs:59-66 | the mesher's index of chunk cell (x, y, z), -1 <= x, y, z <= 32, lies in the buffer and its digits name that cell back |
| ChunkStore.FillStep | src/Voxel/Chunk.cs:64-67 | filling one padded cell extends the filled region by that cell |
| ChunkStore.FillNextRow | src/Voxel/Chunk.cs:62-64 | a filled z run carries on to the next y |
| ChunkStore.FillNextColumn | src/Voxel/Chunk.cs:60-62 | a filled y-z plane carries on to the next x |
| ChunkStore.PaddedBuffersAgree | src/Voxel/Chunk.cs:57-71 | two buffers agreeing at every padded cell's offset are equal |
| ChunkStore.Chunk.constructor | src/Voxel/Chunk.cs:9-21 | a new chunk has its world and position, a fresh all-Air block, and IsDataGenerated is false |
| ChunkStore.Chunk.OutOfRangeRead | src/Voxel/Chunk.cs:74-96 | GetVoxel out of range takes one hop: the stored cell of the owning chunk, which is another chunk, or Air if there is no world or no such chunk (in range it is the stored cell, see SetVoxel) |
| ChunkStore.Chunk.SetVoxel | src/Voxel/Chunk.cs:76-101 | the storage changes at one index only; in range, GetVoxel then returns the written value; the last ensures, every other in-range cell unchanged, is a corollary of the first with VoxelIndexInjective |
| ChunkStore.Chunk.Padded | src/Voxel/Chunk.cs:57-71 | the padded view has 34³ cells, and cell k holds GetVoxel at the chunk cell whose base-34 digits k names, each less one |
| ChunkStore.Chunk.PaddedAt | src/Voxel/Chunk.cs:57-71 | the padded view holds GetVoxel(x-1, y-1, z-1) at the offset of padded cell (x, y, z) |
| ChunkStore.Chunk.BuildPaddedVoxels | src/Voxel/Chunk.cs:57-72 | returns a fresh 34³ array equal to the padded view |
| ChunkStore.Chunk.MirrorsAt | src/Voxel/Chunk.cs:66 | in a mirror of the chunk, the mesher's read of chunk cell p sees GetVoxel(p) |
| ChunkStore.Chunk.PaddedMirrors | src/Voxel/Chunk.cs:57-72 | the padded view is a mirror: the mesher's read `Idx(x+1, y+1, z+1)` sees GetVoxel(x, y, z) for -1 <= x, y, z <= 32 |
| ChunkStore.Chunk.GenerateMesh | src/Voxel/Chunk.cs:31-35 | meshes the padded view of the chunk's reads with the table's colours; succeeds exactly when every face's type has a colour, always when every read is a declared type, and then yields an exact cover of the faces in which every quad is the greedy choice of its slice, in sweep order (the unique such cover, GreedyCoverUnique); a chunk that reads only Air gives the empty mesh |
| ChunkStore.Chunk.GenerateTerrainFromNoise | src/Voxel/Chunk.cs:123-184 | afterwards every local cell holds its classification from the surface height and cave bit at its world coordinate |
| ChunkStore.Chunk.LoadChunkFromFile | src/Voxel/Chunk.cs:117-121 | reports that nothing was loaded, always |
| ChunkStore.Chunk.PrepareData | src/Voxel/Chunk.cs:103-114 | generates once: a chunk whose IsDataGenerated holds is untouched; otherwise it is filled; either way IsDataGenerated holds afterwards, so a second call changes nothing |
| ChunkStore.ReadsUnchanged | src/Voxel/Chunk.cs:74-96 | GetVoxel and the padded view depend only on the world map and the chunks' blocks |
| ChunkStore.PaddedStill | src/Voxel/Chunk.cs:57-72 | the padded view depends only on what GetVoxel reads |
| ChunkStore.MirrorsStill | src/Voxel/Chunk.cs:74-96 | a mirror stays one while the reads are unchanged |
| ChunkStore.DeclaredBufferMeshes | src/Voxel/Chunk.cs:34 | a buffer of declared types never hits a missing palette entry under the table's colours |
| ChunkDataStore.DataIndexBijective | src/Voxel/ChunkData.cs:184-214 | the y-major index `y*S*S + z*S + x` of a local cell lies in [0, 32³), and distinct cells have distinct indices |
| ChunkDataStore.DataLayer | src/Voxel/ChunkData.cs:219-246 | air above the surface, stone below Size/3, dirt in between: solid exactly at or below the surface |
| ChunkDataStore.DataTerrainRepeatsVertically | src/Voxel/ChunkData.cs:226-234 | the surface is compared with the local height, so chunks stacked in one column get the same cells |
| ChunkDataStore.DataTerrainStep | src/Voxel/ChunkData.cs:232-246 | generating one cell extends the generated cells by that cell |
| ChunkDataStore.DataTerrainCarry | src/Voxel/ChunkData.cs:222-224 | a finished column carries on to the next column, and a finished slab to the next slab |
| ChunkDataStore.World.constructor | src/Voxel/World.cs:9 | the chunk map starts empty |
| ChunkDataStore.ChunkData.constructor | src/Voxel/ChunkData.cs:9-21 | a new chunk has its world and position and a fresh all-Air block |
| ChunkDataStore.ChunkData.OutOfRangeRead | src/Voxel/ChunkData.cs:180-210 | GetVoxel out of range takes one hop: the stored cell of the owning chunk, which is another chunk, or Air (in range it is the stored cell, see SetVoxel) |
| ChunkDataStore.ChunkData.SetVoxel | src/Voxel/ChunkData.cs:182-215 | the storage changes at one index only; in range, GetVoxel then returns the written value |
| ChunkDataStore.ChunkData.GenerateTerrain | src/Voxel/ChunkData.cs:217-249 | afterwards every local cell holds its layer from the column's surface height |
| ChunkDataStore.ChunkData.Padded | src/Voxel/ChunkData.cs:65-66 | the view of everything the mesher reads has 34³ cells, and cell k holds GetVoxel at the chunk cell whose base-34 digits k names, each less one |
| ChunkDataStore.ChunkData.MirrorsAt | src/Voxel/ChunkData.cs:65-66 | in a mirror, the read of cell p sees GetVoxel(p) |
| ChunkDataStore.ChunkData.PaddedAt | src/Voxel/ChunkData.cs:65-66 | the view holds GetVoxel(x-1, y-1, z-1) at padded cell (x, y, z) |
| ChunkDataStore.ChunkData.PaddedMirrorsAt | src/Voxel/ChunkData.cs:65-66 | the view holds GetVoxel(x, y, z) at the index of chunk cell (x, y, z) |
| ChunkDataStore.ChunkData.PaddedMirrors | src/Voxel/ChunkData.cs:65-122 | the view mirrors every read the mesher makes |
| ChunkDataStore.ChunkData.LegacyMaskCell | src/Voxel/ChunkData.cs:65-84 | reading the cursor voxel and the one a step along the axis gives the type-only face of that cell |
| ChunkDataStore.ChunkData.BuildLegacyMask | src/Voxel/ChunkData.cs:61-86 | after the build loops, every mask cell is the type-only face of its voxel pair |
| ChunkDataStore.ChunkData.LegacyEmitQuadAt | src/Voxel/ChunkData.cs:95-165 | at a face cell: the quad starts at (i, j) with that cell's type, its width w >= 1 is the whole run of equal cells in the row (RowRun), and it is the greedy choice (GreedyQuad); it is drawn and appended, its rectangle cleared, and the scan advances by w |
| ChunkDataStore.ChunkData.ClearDrawnQuad | src/Voxel/ChunkData.cs:160-163 | zeroing the drawn rectangle records the quad as scanned up to the cell after its row, and keeps the mirror |
| ChunkDataStore.ChunkData.LegacyDrawQuad | src/Voxel/ChunkData.cs:118-158 | draws one rectangle: its six vertices and colours are appended to the vertex list |
| ChunkDataStore.ChunkData.FarVoxel | src/Voxel/ChunkData.cs:88-122 | the back-face test reads GetVoxel at the quad's first cell on plane + 1 (after the sweep's increment), which is the buffer's far voxel of that cell |
| ChunkDataStore.ChunkData.LegacyMergeRow | src/Voxel/ChunkData.cs:93-171 | one row of the merge: every face cell not yet cleared is drawn, the row ends cleared, and every quad so far is the greedy choice after the ones before it (Greedy) |
| ChunkDataStore.ChunkData.LegacyMergeSlice | src/Voxel/ChunkData.cs:91-172 | the merge of one slice: the new quads cover every face of the built mask exactly once, each over cells of its own type, and each is the greedy choice after the ones before it (Greedy) |
| ChunkDataStore.ChunkData.LegacyMergeRows | src/Voxel/ChunkData.cs:91-172 | the row loop scans every row of the mask, each new quad the greedy choice, keeping the mirror and the vertex list in step with the quads |
| ChunkDataStore.ChunkData.LegacySweepSlice | src/Voxel/ChunkData.cs:58-173 | one plane: build the mask and merge it, moving the sweep invariant (exact cover, every quad the greedy choice of its slice) on one plane; the new quads are appended after the old ones and all lie on this plane, so the quads stay in sweep order |
| ChunkDataStore.ChunkData.LegacySweepAxis | src/Voxel/ChunkData.cs:58-173 | one axis: the planes -1 to Size-1 move the sweep invariant (exact cover, each quad the greedy choice) on to the next axis; the quads of this axis are appended after the earlier ones, in sweep order |
| ChunkDataStore.ChunkData.GenerateMesh | src/Voxel/ChunkData.cs:38-178 | the vertex list is the quads of an exact cover of the type-only faces of the chunk's reads, each the greedy choice of its slice (LegacyGreedyCover), in sweep order (SweepOrdered; the unique such cover, LegacyCoverUnique), each wound by its first cell, with as many colours as vertices; a chunk that reads only Air draws nothing |
| ChunkDataStore.ChunkData.LegacySweep | src/Voxel/ChunkData.cs:45-174 | the three axis sweeps of planes -1 to Size-1 leave an exact cover of the type-only faces in which every quad is the greedy choice of its slice, in sweep order, and its vertex list |
| ChunkDataStore.LegacyClearQuad | src/Voxel/ChunkData.cs:160-165 | clearing a drawn quad's cells records it as emitted and moves the scan past it |
| ChunkDataStore.MaskStep | src/Voxel/ChunkData.cs:63-84 | writing cell (u, v)'s face extends the built part of the mask by one cell |
| ChunkDataStore.MaskCellStep | src/Voxel/ChunkData.cs:73-84 | after cell (u, v) is written, that cell and every cell built before it hold their legacy face |
| ChunkDataStore.MaskCarry | src/Voxel/ChunkData.cs:61-63 | a finished mask row carries on to the next row |
| ChunkDataStore.LegacyAppendQuad | src/Voxel/ChunkData.cs:147-158 | drawing one more quad appends its six vertices and colours to the list |
| ChunkDataStore.DataReadsUnchanged | src/Voxel/ChunkData.cs:180-210 | GetVoxel and the view depend only on the world map and the chunks' blocks |
| ChunkDataStore.DataMirrorsStill | src/Voxel/ChunkData.cs:180-210 | a mirror stays one while the reads are unchanged |

## Left out

- Floats: `Mathf.Floor(world / (float)Size)` is modelled as exact floor division. The two agree only while world coordinates stay within the range where float holds integers exactly.
- Integer width: world coordinates and indices are unbounded integers; C#'s 32-bit overflow of `Position * Size + x` is not modelled.
- Noise and float scaling are inputs:
  - `TerrainInputs.surfaceAt` and `caveAt` replace `GetNoise2D`/`GetNoise3D`, the amplitude 200, the world scale 0.1 and the 0.6 cave threshold in `Chunk.cs`.
  - `offsetAt` replaces `(int)(noiseValue * 5)` in `ChunkData.cs`.
- Rendering is not modelled: `InitializeMesh`, `ApplyMeshData`, `RebuildMesh`, `MeshInstance3D`, `ArrayMesh`, and `SurfaceTool.GenerateNormals` and `Commit`.
  - The earlier chunk's `SurfaceTool` becomes a list of vertices with a colour per vertex.
  - Colours are opaque RGBA values.
- Concurrency and engine glue are not modelled: VoxelMesherPool.cs, and `World.cs` apart from its chunk map.
  - Each chunk file has its own world class holding a map from position to chunk. `World.cs` declares the map with `ChunkData` values, while `Chunk.cs` looks up `Chunk`.
  - The set of the chunks' voxel arrays is kept as a ghost field, to frame what `GetVoxel` reads.
- Debug camera and editor gizmo plugins are not modelled: they are input handling and drawing only.
- `Chunk.LoadChunkFromFile` always answers false, as in the source; there is no file I/O.
- `Chunk.GenerateMesh` passes the type table where the mesher expects a colour array. The model passes the table's colours (`Palette`).
- The earlier mesher's two-dimensional `mask[u, v]` is stored flat at `v * Size + u`. `GreedyMesher`'s `x[]` cursor is the point `SliceCoord(axis, plane, u, v)`.
- ChunkDataStore.ChunkData.GenerateTerrain: the layering compares the LOCAL height y with the surface height, as written (`Chunk.cs` uses the world height). The model keeps this and states the consequence in `DataTerrainRepeatsVertically`.
- GreedyMesher.SolidCubeSixQuads, LegacyMesher.LegacySolidCubeSixQuads: stated for size >= 1; a chunk of size 0 has no faces and no quads.
- ChunkStore.ReadsUnchanged, ChunkStore.PaddedStill, ChunkStore.MirrorsStill, ChunkDataStore.DataReadsUnchanged and ChunkDataStore.DataMirrorsStill are frame facts about the heap. They are not behaviour of the source.
- GreedyMesher.GenerateMeshData: a C# exception from `palette[type]` is modelled as an `Err` result naming the type. The lists built before the failure are not returned.

## Findings

| source | as written | input that shows it | evidently intended | confidence | as-written member | corrected member |
|---|---|---|---|---|---|---|
| src/Voxel/ChunkData.cs:55-122 | the mask stores only the face's type, so the width and height runs merge neighbouring faces of one type that look in opposite directions, and the whole quad is wound by its first cell's back-face test | a slice where cell (0,0) has a solid near voxel and an empty far voxel, and cell (1,0) the reverse, both of type t: one quad spans both cells, facing +axis, although the face at (1,0) looks along -axis | merge only faces of the same type AND orientation, so every cell of a quad faces the quad's way (what `GreedyMesher.cs:38,76,84` does) | not executed | LegacyMesher.LegacyCoverMergesOppositeFaces | LegacyMesher.OrientedQuadsFaceTheirCells |
