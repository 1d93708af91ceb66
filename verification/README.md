# Voxel world core of a Minecraft clone, in Dafny

This project models the voxel-world core of the Unity game *MinecraftClone*
(`Block.cs`, `WorldChunk.cs`, `ChunkManager.cs`) and proves properties of
that model. The world is a map from chunk corners to chunks. A chunk is a box
of cells, and each cell is air or a block type. The chunk manager streams
chunks in and out around the player, builds their meshes and applies batches
of block edits. Those edits reach the chunks that hold the edited positions,
and then the neighbouring chunks whose faces they may uncover.

Modules, one file each:

- `Options` (`options.dfy`): `Option` for nullable references and `Result` for
  operations that throw.
- `Int32` (`int32.dfy`): unchecked C# `int` arithmetic. `Wrap` is
  two's-complement wrap-around. `Div` is C#'s truncating `/`, which differs
  from Dafny's Euclidean `/` for negative dividends.
- `Vectors` (`vectors.dfy`): `Vector3Int` as `Vec3`, with wrapping `+` and `-`.
- `Seqs` (`seqs.dfy`): duplicate-freedom and reversal of sequences.
- `Blocks` (`blocks.dfy`): block types, blocks, `FACE_DIRECTIONS`, the
  `Block(string)` lookup, and the per-block face assembly (`GenerateFaces`,
  `GenerateBlockFace`).
- `Terrain` (`terrain.dfy`): the static generator
  `WorldChunk.GetBlockType(x, y, z)`.
- `ChunkGrid` (`chunk_grid.dfy`): `GetNearestChunkPosition` with its 32-bit
  offset trick, and `GetInRangeChunkPositions`.
- `WorldChunk` (`world_chunk.dfy`): one chunk. It covers generation,
  coordinate conversion, reads, neighbours, the external-block mask,
  face visibility, `UpdateBlocks`, and the cells each mesh pass draws.
- `ChunkManager` (`chunk_manager.dfy`): the manager state. It covers the
  load and unload queues, the per-frame `Update`, `UpdateLoadedChunks`,
  `Initialize`, block reads, `ModifyBlocks` and `ModifyBlock`.

Facts the model makes explicit:

- **Wrap-around.** `GetNearestChunkPosition` adds `int.MaxValue / 2` before
  dividing, so the result is the corner of the chunk holding the position only
  over a "safe" range of coordinates. Outside that range the arithmetic wraps.
  - Chunk corners are congruent to `-(int.MaxValue / 2)` modulo the chunk
    size; they are not multiples of it.
  - The starting sentinel `_prevPlayerChunk = int.MaxValue` on every axis can
    be a real chunk corner. That happens only when every chunk-size component
    divides `2^30 + 2`, for example size 2.
- **Load order.** The sorted insertion in `GetInRangeChunkPositions` always
  inserts at index 0. The load queue therefore comes out in reverse loop
  order, not nearest-first.
- **No lost edits.** A chunk no edit has modified always equals what the
  generator produces for it. Unloading therefore never loses an edit.

## Model

| member | source | states |
|---|---|---|
| Int32.Wrap | Minecraft/Assets/Scripts/ChunkManager.cs:319-333 | an unchecked `int` result is the unique 32-bit value congruent to the exact result |
| Int32.WrapRoundTrip | Minecraft/Assets/Scripts/WorldChunk.cs:384-392 | unchecked subtraction and addition of the same value undo each other, even across wrap-around |
| Int32.Div | Minecraft/Assets/Scripts/ChunkManager.cs:319-333 | C#'s integer `/` truncates toward zero: the remainder has the dividend's sign and is smaller than the divisor |
| Vectors.SubAddRoundTrip | Minecraft/Assets/Scripts/WorldChunk.cs:384-392 | `(p - m) + m == p` for every `Vector3Int` |
| Vectors.AddSubRoundTrip | Minecraft/Assets/Scripts/WorldChunk.cs:384-392 | `(p + m) - m == p` for every `Vector3Int` |
| Blocks.FaceDirectionsAreTheUnitOffsets | Minecraft/Assets/Scripts/Block.cs:26-33 | the six face directions are pairwise different and are exactly the unit offsets |
| Blocks.FindFirst | Minecraft/Assets/Scripts/Block.cs:51-58 | the index found is the first that matches, and there is none exactly when no entry matches |
| Blocks.NewBlock | Minecraft/Assets/Scripts/Block.cs:45-59 | a block gets a type exactly when some registered type has the requested display name, and then it gets the first such type in registry order |
| Blocks.GenerateBlockFace | Minecraft/Assets/Scripts/Block.cs:214-255 | one quad: four vertices facing the direction, four normals equal to it, and six triangle indices that all name one of the four vertices |
| Blocks.AppendFacePreservesAssembly | Minecraft/Assets/Scripts/Block.cs:155-203 | appending a face's quad with triangle indices shifted by four per earlier face keeps the mesh laid out face by face |
| Blocks.GenerateFaces | Minecraft/Assets/Scripts/Block.cs:148-212 | throws exactly when a visible face has a null type or an out-of-range atlas entry; otherwise the mesh holds exactly the visible faces, in direction order, each with its quad, normals, shifted triangles and atlas cell |
| Blocks.TriangleIndicesInRange | Minecraft/Assets/Scripts/Block.cs:148-212 | every triangle index of a generated mesh names one of its vertices |
| Terrain.Classify | Minecraft/Assets/Scripts/WorldChunk.cs:76-111 | each layer is characterised by its own height band (bedrock at or below 0, stone or ore below surface-3, dirt up to the surface, grass or sand at the surface depending on the water level, water up to level 35, air above all of these), both directions |
| Terrain.GetBlockType | Minecraft/Assets/Scripts/WorldChunk.cs:68-114 | the generated type is the registered type named after the layer, null for air, and always a registered type |
| Terrain.IronOreOnlyInStoneBand | Minecraft/Assets/Scripts/WorldChunk.cs:82-91 | iron ore appears only strictly below surface-3 and above the floor, and only where the ore roll succeeded |
| Terrain.AirExactlyAboveSurfaceAndWater | Minecraft/Assets/Scripts/WorldChunk.cs:68-114 | with every layer registered, a cell is air exactly when it is above the floor, the column's surface and the water level |
| ChunkGrid.NearestAxis | Minecraft/Assets/Scripts/ChunkManager.cs:319-333 | one axis of the nearest chunk position, computed with wrapping `int` operations, is itself an `int` |
| ChunkGrid.NearestAxisIsCorner | Minecraft/Assets/Scripts/ChunkManager.cs:319-333 | over the safe range, the computed value is the corner of the chunk span `[c, c + size)` holding the coordinate, aligned to `-(int.MaxValue / 2)`, and is itself safe |
| ChunkGrid.CornerUnique | Minecraft/Assets/Scripts/ChunkManager.cs:319-333 | along an axis a coordinate has only one aligned chunk corner |
| ChunkGrid.NearestChunkPositionHolds | Minecraft/Assets/Scripts/ChunkManager.cs:319-333 | for a safe position the nearest chunk position is the corner of a chunk holding it, and applying the function twice changes nothing |
| ChunkGrid.OffsetInChunk | Minecraft/Assets/Scripts/ChunkManager.cs:319-333 | a safe position minus its nearest chunk position, computed with wrap-around, is a local position inside the chunk |
| ChunkGrid.NearestChunkPositionUnique | Minecraft/Assets/Scripts/ChunkManager.cs:319-333 | any aligned corner of a chunk holding a safe position is the one the function returns |
| ChunkGrid.NearestIsAligned | Minecraft/Assets/Scripts/ChunkManager.cs:319-333 | the nearest chunk position of a safe position is an aligned corner: each component is congruent to `-(int.MaxValue / 2)` modulo the chunk size |
| ChunkGrid.CornerHoldingIsNearest | Minecraft/Assets/Scripts/ChunkManager.cs:319-333 | a safe aligned corner whose chunk span holds a safe position, measured with wrapping subtraction, is exactly the nearest chunk position of that position |
| ChunkGrid.NearestAxisMaxOnlyForDivisors | Minecraft/Assets/Scripts/ChunkManager.cs:319-333 | a corner coordinate can equal `int.MaxValue` only when the chunk size divides `2^30 + 2` |
| ChunkGrid.FirstUpdateRecomputes | Minecraft/Assets/Scripts/ChunkManager.cs:62 | for a safe player, or a chunk size with an axis not dividing `2^30 + 2`, the player's chunk differs from the `int.MaxValue` sentinel |
| ChunkGrid.SentinelReachableWithSizeTwo | Minecraft/Assets/Scripts/ChunkManager.cs:62 | with chunk size 2 a player at `int.MaxValue` is in the sentinel chunk, so the first update would do nothing |
| ChunkGrid.EnumerationFacts | Minecraft/Assets/Scripts/ChunkManager.cs:272-284 | the loops visit exactly the offsets in the box whose squared distance is within the squared x-radius, each once for positive sizes, and the centre for non-negative radii |
| ChunkGrid.InsertByDistance | Minecraft/Assets/Scripts/ChunkManager.cs:286-296 | the scan for the insertion index leaves it at 0 in every case, so a candidate and its distance always go to the front of both lists |
| ChunkGrid.CandidateAligned | Minecraft/Assets/Scripts/ChunkManager.cs:272-284 | a candidate `center + offset * size` around an aligned centre is itself an aligned corner |
| ChunkGrid.LoadOrderAligned | Minecraft/Assets/Scripts/ChunkManager.cs:263-317 | around an aligned centre every position the in-range list holds is an aligned corner |
| ChunkGrid.GetInRangeChunkPositions | Minecraft/Assets/Scripts/ChunkManager.cs:263-317 | the result is the accepted candidates in reverse loop order; it contains exactly the in-range chunk positions, each once for positive sizes, and the centre for non-negative radii |
| ChunkGrid.LoadOrderIsNotNearestFirst | Minecraft/Assets/Scripts/ChunkManager.cs:286-296 | along one axis of radius 1 the result starts with a chunk one width away, ahead of the centre |
| WorldChunk.LocalWorldRoundTrip | Minecraft/Assets/Scripts/WorldChunk.cs:384-392 | world-to-local and local-to-world conversion undo each other on every `Vector3Int` |
| WorldChunk.WorldToLocalPosition | Minecraft/Assets/Scripts/WorldChunk.cs:384-387 | the local position is an `int` vector, and adding the corner back with wrap-around recovers the world position |
| WorldChunk.LocalToWorldPosition | Minecraft/Assets/Scripts/WorldChunk.cs:389-392 | the world position is an `int` vector, and subtracting the corner again with wrap-around recovers the local position |
| WorldChunk.InChunkIsLocalRange | Minecraft/Assets/Scripts/WorldChunk.cs:394-397 | a world position lies in a chunk exactly when it is the world position of a local position that passes the range test `LocalPositionIsInRange` |
| WorldChunk.Initialize | Minecraft/Assets/Scripts/WorldChunk.cs:21-50 | the chunk has a cell exactly for each local position in range, and each cell holds the generated type of its world position |
| WorldChunk.GeneratedChunkMatchesTerrain | Minecraft/Assets/Scripts/WorldChunk.cs:60-66 | reading a generated chunk at a world position gives the generator's type there, or the "Air" type for air: generation does not depend on chunk boundaries |
| WorldChunk.ReadBlockType | Minecraft/Assets/Scripts/WorldChunk.cs:60-66 | a stored block reads as its own type; an air cell reads as a registered type named "Air", and as null exactly when no type of that name is registered |
| WorldChunk.NeighborsOfInRange | Minecraft/Assets/Scripts/WorldChunk.cs:307-338 | for an in-range cell the neighbour list holds every in-range face neighbour exactly once and nothing else; it has six entries exactly when the cell is interior |
| WorldChunk.GetNeighbors | Minecraft/Assets/Scripts/WorldChunk.cs:307-338 | at most six neighbours, and all six for an interior cell; `NeighborsOfInRange` states which ones |
| WorldChunk.BoundaryIsExposed | Minecraft/Assets/Scripts/WorldChunk.cs:282-286 | a cell on the boundary of the grid has a face that leaves the grid |
| WorldChunk.InteriorExposure | Minecraft/Assets/Scripts/WorldChunk.cs:288-299 | an interior cell has an open face exactly when one of its listed neighbours is air or transparent |
| WorldChunk.IsExternal | Minecraft/Assets/Scripts/WorldChunk.cs:274-299 | a cell is external exactly when it is not air and one of its six faces touches outside the grid or an air or transparent cell |
| WorldChunk.GetExternalBlockMatrix | Minecraft/Assets/Scripts/WorldChunk.cs:264-305 | the mask covers exactly the grid, and each flag is set exactly when the cell is non-air and has an open face |
| WorldChunk.NeighbourReadInBounds | Minecraft/Assets/Scripts/WorldChunk.cs:366-371 | when chunks are keyed by their corners, the chunk found for a safe world position holds it, so reading it never indexes outside that chunk's grid |
| WorldChunk.NeighbourTypeFromHolder | Minecraft/Assets/Scripts/WorldChunk.cs:364-377 | with every chunk of the map keyed by a safe aligned corner, the type read across a face that leaves the grid is the type stored in the chunk of the map holding that world position, and the generator's type when no chunk holds it |
| WorldChunk.GetVisibility | Minecraft/Assets/Scripts/WorldChunk.cs:340-382 | one flag per face direction, set exactly when the cell across that face, read in this chunk, a neighbouring chunk or the generator, is air or transparent and not of the same type; `NeighbourTypeFromHolder` says which neighbouring chunk is read |
| WorldChunk.SafeChunkReadable | Minecraft/Assets/Scripts/WorldChunk.cs:364-377 | for a chunk placed in the safe range, every out-of-grid face lookup reads inside the chunk it reaches |
| WorldChunk.UpdateBlocks | Minecraft/Assets/Scripts/WorldChunk.cs:399-431 | every cell ends up holding the type of the last edit that lands on it (null as air) or keeps its contents; it reports a rebuild exactly when some edit found a different type in its cell at that moment |
| WorldChunk.UntouchedCellsKept | Minecraft/Assets/Scripts/WorldChunk.cs:403-420 | a cell that no edit lands on keeps its contents |
| WorldChunk.LastEditWins | Minecraft/Assets/Scripts/WorldChunk.cs:403-420 | an edit with no later edit on the same cell decides that cell's final contents |
| WorldChunk.NoOpEditsChangeNothing | Minecraft/Assets/Scripts/WorldChunk.cs:409-418 | edits that write back what every targeted cell holds leave the chunk unchanged and do not trigger a rebuild |
| WorldChunk.UnchangedMeansSame | Minecraft/Assets/Scripts/WorldChunk.cs:412-418 | when no rebuild is reported the chunk comes back exactly as it was |
| WorldChunk.PassesDisjointForTransparentWater | Minecraft/Assets/Scripts/WorldChunk.cs:137 | a transparent cell drawn by the water pass is never drawn by the opaque pass |
| WorldChunk.Selected | Minecraft/Assets/Scripts/WorldChunk.cs:137 | the opaque pass draws a cell exactly when it is non-air, one of its faces leaves the grid or touches an air or transparent cell, and its type is not transparent; the water pass (line 205) demands the "Water" type instead |
| WorldChunk.SelectedCellsAreExposed | Minecraft/Assets/Scripts/WorldChunk.cs:205 | either pass draws only non-air cells with an open face |
| WorldChunk.CellOrderCoversGrid | Minecraft/Assets/Scripts/WorldChunk.cs:129-134 | the `i`, `j`, `k` loop nest visits exactly the cells of the grid |
| WorldChunk.BuildPassFails | Minecraft/Assets/Scripts/WorldChunk.cs:122-187 | a mesh pass fails exactly when generating the faces of one of its selected cells fails |
| WorldChunk.BuildPassSound | Minecraft/Assets/Scripts/WorldChunk.cs:189-262 | every mesh of a successful pass sits at a selected cell and is the mesh `GenerateFaces` builds for it |
| WorldChunk.BuildPassComplete | Minecraft/Assets/Scripts/WorldChunk.cs:189-262 | every selected cell contributes a mesh to a successful pass |
| WorldChunk.BuildPass | Minecraft/Assets/Scripts/WorldChunk.cs:122-262 | a successful pass yields at most one mesh per visited cell; `BuildPassFails`, `BuildPassSound` and `BuildPassComplete` state which meshes |
| WorldChunk.BuildMesh | Minecraft/Assets/Scripts/WorldChunk.cs:116-119 | building both meshes succeeds exactly when every cell selected by either pass can have its faces generated |
| ChunkManager.NewEntry | Minecraft/Assets/Scripts/ChunkManager.cs:244-261 | a new chunk is the generator's chunk at its id: active (a new game object is, and the chunk's own `Initialize` is assumed to leave it so), without a mesh and unmodified |
| ChunkManager.LoadChunk | Minecraft/Assets/Scripts/ChunkManager.cs:147-156 | the map and the other queue are untouched; the load queue gains one entry, this id, exactly when the id is not already in the map |
| ChunkManager.UnloadChunk | Minecraft/Assets/Scripts/ChunkManager.cs:134-145 | the map and the other queue are untouched; the unload queue gains one entry, this id, exactly when the id is in the map |
| ChunkManager.LoadNextChunk | Minecraft/Assets/Scripts/ChunkManager.cs:86-100 | the head of the queue joins the map (created if missing), becomes active and has a mesh; a mesh already built is not rebuilt; other chunks are untouched |
| ChunkManager.LoadNextPreservesInv | Minecraft/Assets/Scripts/ChunkManager.cs:86-100 | loading keeps every chunk keyed by its corner with the configured size, and a created chunk is the generator's chunk |
| ChunkManager.UnloadNextChunk | Minecraft/Assets/Scripts/ChunkManager.cs:116-132 | the head of the queue is removed from the map unless modified; a modified chunk stays but is deactivated; a missing id changes nothing |
| ChunkManager.UnloadKeepsEdits | Minecraft/Assets/Scripts/ChunkManager.cs:116-132 | a chunk leaves the map only when the generator would recreate it exactly; a chunk that stays keeps its voxels |
| ChunkManager.LoadSomeKeys | Minecraft/Assets/Scripts/ChunkManager.cs:86-100 | after `n` loads the map holds exactly its old keys and the first `n` queued ids |
| ChunkManager.LoadSomeUntouched | Minecraft/Assets/Scripts/ChunkManager.cs:86-100 | a chunk not named by the first `n` queued ids is left as it was |
| ChunkManager.LoadChunksImmediately | Minecraft/Assets/Scripts/ChunkManager.cs:75-81 | the queue empties; the map gains exactly the queued ids, each active and meshed; existing chunks keep their voxels; new chunks are unmodified |
| ChunkManager.UnloadSomeEffect | Minecraft/Assets/Scripts/ChunkManager.cs:116-132 | after `n` unloads a chunk stays exactly when it was modified or not queued, and keeps its voxels and flag |
| ChunkManager.UnloadChunksImmediately | Minecraft/Assets/Scripts/ChunkManager.cs:105-111 | the queue empties; queued unmodified chunks leave the map; modified ones stay with their edits but inactive; other chunks are untouched |
| ChunkManager.UnloadPreservesInv | Minecraft/Assets/Scripts/ChunkManager.cs:105-111 | unloading keeps every remaining chunk keyed by its corner, sized as configured and, if unmodified, as generated |
| ChunkManager.UpdateChunks | Minecraft/Assets/Scripts/ChunkManager.cs:186-205 | every scheduled chunk gets exactly one update call, nothing else changes, and the schedule is emptied |
| ChunkManager.FrameLoads | Minecraft/Assets/Scripts/ChunkManager.cs:162-168 | a frame loads at least one chunk when any is queued, never more than are queued or than fit in the frame, and stops short of the frame only when the queue runs out |
| ChunkManager.LoadThenUnloadKey | Minecraft/Assets/Scripts/ChunkManager.cs:162-173 | after the frame's loads and the unload drain a chunk is in the map exactly when it was there or was just loaded, and it was not queued for unloading unless an edit had modified it; a chunk that stays keeps its voxels and flag |
| ChunkManager.LoadThenUnloadActivates | Minecraft/Assets/Scripts/ChunkManager.cs:162-173 | a loaded id that was not also queued for unloading ends the frame active and meshed |
| ChunkManager.Update | Minecraft/Assets/Scripts/ChunkManager.cs:159-184 | one frame consumes exactly the first `FrameLoads` ids of the load queue, at least one when any is queued; afterwards a chunk is in the map exactly when it was there or was just loaded and was not queued for unloading unless modified; chunks that stay keep their voxels and flag; every loaded id not queued for unloading is active and meshed; the unload queue is empty, the schedule is cleared when the update is due, and the invariant holds |
| ChunkManager.GetNearestChunk | Minecraft/Assets/Scripts/ChunkManager.cs:335-344 | returns a chunk exactly when the nearest chunk position is a key of the map, and then the chunk stored there |
| ChunkManager.NearestEntryHolds | Minecraft/Assets/Scripts/ChunkManager.cs:335-344 | the chunk stored at a safe position's nearest chunk position holds that position |
| ChunkManager.ResidentAtCorners | Minecraft/Assets/Scripts/ChunkManager.cs:335-344 | a map keyed by safe aligned corners is seen by its chunks as a resident map keyed the same way |
| ChunkManager.GetNearestChunkFindsHolder | Minecraft/Assets/Scripts/ChunkManager.cs:335-344 | with every key a safe aligned corner, the chunk found for a safe position is the chunk of the map holding it, and none is found when no chunk holds it |
| ChunkManager.UpdateKeepsCorners | Minecraft/Assets/Scripts/ChunkManager.cs:159-184 | when the map and the load queue hold only safe aligned corners, they still do after a frame |
| ChunkManager.GetBlockAtPosition | Minecraft/Assets/Scripts/ChunkManager.cs:346-354 | reads null when no chunk of the map holds the position |
| ChunkManager.UneditedWorldIsTerrain | Minecraft/Assets/Scripts/ChunkManager.cs:346-354 | in a chunk no edit has modified, a block read gives the generator's type at that position |
| ChunkManager.UpdateLoadedChunks | Minecraft/Assets/Scripts/ChunkManager.cs:207-242 | nothing changes while the player stays in the same chunk; otherwise the load queue becomes the in-range positions around the player's chunk, and every chunk outside them is queued for unloading exactly once after the existing entries; for a safe player every queued id is an aligned corner |
| ChunkManager.InitializeManager | Minecraft/Assets/Scripts/ChunkManager.cs:45-69 | unless the player's chunk equals the sentinel, the map holds exactly the in-range chunks around the player, each active, meshed, unmodified and as generated; otherwise it stays empty; for a safe player every key is an aligned corner |
| ChunkManager.InitializeLoadsAroundPlayer | Minecraft/Assets/Scripts/ChunkManager.cs:45-69 | with a safe player position, or a chunk x-size not dividing `2^30 + 2`, initialisation does load around the player |
| ChunkManager.ChunkPositionsOf | Minecraft/Assets/Scripts/ChunkManager.cs:374-377 | lists the nearest chunk position of each edited position, in order |
| ChunkManager.NeighbourhoodIsUnitBox | Minecraft/Assets/Scripts/ChunkManager.cs:406-416 | the 27 offsets of the triple loop are exactly the vectors with every component in `{-1, 0, 1}` |
| ChunkManager.AroundAllMembers | Minecraft/Assets/Scripts/ChunkManager.cs:404-417 | every edited position plus every such offset is among the surrounding positions |
| ChunkManager.AroundAllOnly | Minecraft/Assets/Scripts/ChunkManager.cs:404-417 | every surrounding position is an edited position plus an offset with every component in `{-1, 0, 1}` |
| ChunkManager.SurroundingChunks | Minecraft/Assets/Scripts/ChunkManager.cs:396-417 | the surrounding chunk positions are exactly the nearest chunk positions of the edited positions moved by at most one step on every axis |
| ChunkManager.TargetsAreSurrounding | Minecraft/Assets/Scripts/ChunkManager.cs:374-417 | every chunk position an edit reaches is also a surrounding chunk position |
| ChunkManager.EditEntry | Minecraft/Assets/Scripts/WorldChunk.cs:399-431 | a chunk that applies an edit list keeps its corner and size, builds its mesh at most once, and is modified and loaded after a build; its activity and update calls are untouched |
| ChunkManager.EditEntryEffect | Minecraft/Assets/Scripts/WorldChunk.cs:403-430 | every cell of an edited chunk holds what the edits leave there, and the mesh is rebuilt exactly when some edit overwrote a cell |
| ChunkManager.ModifyBlocks | Minecraft/Assets/Scripts/ChunkManager.cs:370-445 | an edit never adds or removes chunks and leaves the queues and the player's chunk alone |
| ChunkManager.ModifiedEntry | Minecraft/Assets/Scripts/ChunkManager.cs:381-394 | a reached chunk applies the whole edit list and becomes modified exactly when a cell changed, and is loaded after any build; an unreached chunk keeps its voxels and flag |
| ChunkManager.ModifyReportsChange | Minecraft/Assets/Scripts/ChunkManager.cs:379-394 | the result is true exactly when some edit overwrote a cell of a reached chunk in the map |
| ChunkManager.ModifySchedulesChangedChunks | Minecraft/Assets/Scripts/ChunkManager.cs:385-392 | a chunk is scheduled for update afterwards exactly when it already was, or is a reached chunk in which an edit overwrote a cell |
| ChunkManager.ModifyWithoutChangeIsIdentity | Minecraft/Assets/Scripts/ChunkManager.cs:370-445 | an edit that changes no cell leaves the manager exactly as it was |
| ChunkManager.NoOpModifyChangesNothing | Minecraft/Assets/Scripts/ChunkManager.cs:370-445 | writing back what every reached cell already holds returns false and changes nothing |
| ChunkManager.ModifyKeepsOtherChunks | Minecraft/Assets/Scripts/ChunkManager.cs:370-445 | an unreached chunk keeps its voxels and flag; one that is also not around any edited position is not touched at all |
| ChunkManager.ModifyPreservesInv | Minecraft/Assets/Scripts/ChunkManager.cs:381-394 | after an edit every unmodified chunk still equals the generator's chunk |
| ChunkManager.ModifyWritesCell | Minecraft/Assets/Scripts/ChunkManager.cs:381-394 | in the chunk holding an edited position, that cell ends up holding the new block unless a later edit names the same position |
| ChunkManager.ModifyReadsBack | Minecraft/Assets/Scripts/ChunkManager.cs:346-354 | after the edit, reading a safe edited position whose chunk is in the map gives the new block of its last edit |
| ChunkManager.ModifyRebuildsNeighbours | Minecraft/Assets/Scripts/ChunkManager.cs:396-439 | each chunk of the map builds its mesh once more when anything changed and it is a reached or surrounding chunk position, and once more again when it is reached and one of its cells changed (the rebuild inside its own `UpdateBlocks`); no other chunk builds |
| ChunkManager.NearbyHolderRebuilds | Minecraft/Assets/Scripts/ChunkManager.cs:396-439 | with every key a safe aligned corner, a chunk of the map holding a safe position within one step of an edited one, diagonals included, is surrounding and builds its mesh again whenever anything changed |
| ChunkManager.SingleEditTarget | Minecraft/Assets/Scripts/ChunkManager.cs:361-368 | a single edit reaches only the chunk at its position's nearest chunk position |
| ChunkManager.ModifyBlock | Minecraft/Assets/Scripts/ChunkManager.cs:361-368 | a single edit whose chunk is not in the map returns false and changes nothing; otherwise no chunk is added or removed |
| ChunkManager.ModifyBlockReadsBack | Minecraft/Assets/Scripts/ChunkManager.cs:361-368 | a single edit at a safe position reports a change exactly when the block there differs from the new one, and the new block reads back afterwards |

## Left out

- Unity objects, game objects, materials, `Debug.Log` and mesh objects are not modelled. A mesh is the list of per-cell face meshes with their local positions. Float vertex positions and UVs are replaced by symbolic corners and the chosen atlas cell.
- The Perlin noise in `GetBlockType(x, y, z)` is not modelled. The column height is a function parameter `height(x, z)`; the original's is `floor(noise * 30) + 30`.
- `Random.value < 0.1` is not modelled. It is a boolean parameter `ironRoll(x, y, z)` that is fixed per cell. The original rolls again on each call, which only swaps stone for ore; both are opaque blocks.
- The `GetBlockType(Vector3)` overload (`WorldChunk.cs:52-58`) rounds floats. The model calls the integer generator directly. Float rounding of coordinates beyond 2^24 is not modelled.
- `BlockType.cs` and `AtlasReader` are not part of this model. `BlockType.GetBlockType(name)` is assumed to return the first registered type with that asset name (`Blocks.LookupName`). Type identity is record equality rather than reference equality.
- The members of `WorldChunk` that `ChunkManager.cs` calls but `WorldChunk.cs` does not define are modelled as an entry record: `IsLoaded`, `IsModified`, `UpdateChunk`, `SetActive`, the three-argument `Initialize`, `ModifyBlocks`, `GetBlockAtPosition` and `ID`. The assumptions:
  - a chunk's `ModifyBlocks` is `UpdateBlocks` plus a modified flag raised on change;
  - every mesh build, including the one `UpdateBlocks` triggers, marks the chunk loaded and is counted, not performed;
  - a new chunk's game object starts active, as `new GameObject` does, and its `Initialize` leaves it so;
  - `UpdateChunk` is counted;
  - `ID` is the map key;
  - a chunk's `GetBlockAtPosition` returns the stored cell.
- The frame timers in `Update` are not modelled. They are replaced by `extraLoads`, the number of loads after the first that fit in the frame, and `updateDue`.
- `GetPlayerPosition` (`Vector3.CeilToInt` of the transform) is not modelled. The player position is a parameter.
- ChunkGrid.GetInRangeChunkPositions: `center + offset` is computed without 32-bit wrap-around, and distances are exact integers rather than floats. Chunk positions are assumed far from the `int` limits.
- ChunkGrid.NearestChunkPositionHolds: the chunk-corner property is proved only over the safe coordinate range, where adding `int.MaxValue / 2` does not wrap. Outside it, the model computes the wrapped value but states no corner property.
- WorldChunk.BuildMesh: the rendering side effects are not modelled. Exceptions thrown while meshing during a load are treated as failure of that build only; the model does not propagate them through the manager.
- WorldChunk.GetVisibility and WorldChunk.BuildMesh: they require that every out-of-grid face lookup lands inside the chunk it reaches. `WorldChunk.SafeChunkReadable` shows this holds for chunks placed in the safe range. Behaviour for chunks near the `int` limits is not modelled.
- ChunkManager.GetBlockAtPosition: its own contract states only the null case; `UneditedWorldIsTerrain` and `ModifyReadsBack` state what it reads. It requires that the chunk found holds the position (`HoldsPosition`), which `ChunkManager.SafePositionHeld` establishes for every safe position under the invariant. Reads near the `int` limits are not modelled.
- ChunkManager.ModifyBlocks: its own contract states only what it leaves alone. Its effect is stated by the lemmas about it: `ModifiedEntry`, `ModifyReportsChange`, `ModifySchedulesChangedChunks`, `ModifyWritesCell`, `ModifyReadsBack` and `ModifyRebuildsNeighbours`. It requires that every reached chunk has a block for each of its edited positions, where the original would throw. `HashSet` iteration order is not modelled, because the final state does not depend on it.
- ChunkManager.ModifyBlock: its own contract states only the case of a missing chunk. `ModifyBlockReadsBack` states the read-back and the returned flag.
- ChunkManager.UpdateLoadedChunks: the order in which chunks are queued for unloading follows the `Dictionary` enumeration. The model fixes it as an arbitrary choice, and only the set of queued ids and their distinctness are stated.
- Negative chunk sizes are not modelled. The configuration requires every chunk-size component to be positive.
- `Center`, `Highlight`, `OnDrawGizmos` and the `GenerateCube` and `GenerateQuad` helpers are not modelled; they are debugging and editor aids.
- `Block.IsTransparent` has no contract of its own. It is the type's flag, and reading it requires a non-null type, as the original dereferences it.
- The load queue is in reverse loop order, not nearest-first. The model follows the code (`ChunkGrid.InsertByDistance`), and `ChunkGrid.LoadOrderIsNotNearestFirst` exhibits the difference.
- WorldChunk.UpdateBlocks: it requires a new block for every edited position that falls in the chunk (`EditsCovered`). The original throws `ArgumentOutOfRangeException` when `newBlocks` is too short (`WorldChunk.cs:407-409`); that error path is not modelled.
- WorldChunk.GetVisibility: the neighbouring chunk it reads is identified with the chunk of the map holding the cell (`NeighbourTypeFromHolder`, `ChunkManager.GetNearestChunkFindsHolder`) only when every key is a safe, aligned chunk corner. `InitializeManager` and `UpdateLoadedChunks` produce aligned ids for a safe player, and `UpdateKeepsCorners` keeps corner keys through a frame. That the ids they produce lie in the safe range is not proved, because `GetInRangeChunkPositions` is modelled without wrap-around. The public `LoadChunk` accepts any id, aligned or not.
- ChunkManager.ModifyRebuildsNeighbours: it counts builds by surrounding chunk position. `NearbyHolderRebuilds` identifies these with the chunks holding the positions around an edit only when every key is a safe, aligned chunk corner, for the reason given for `WorldChunk.GetVisibility`.
