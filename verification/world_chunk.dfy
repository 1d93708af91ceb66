/** The voxel contents of one chunk (`WorldChunk.cs`): generation, reads,
    neighbourhoods, the external-cell mask, face visibility, batch edits and
    the cells the two mesh passes visit. Unity objects, meshes and materials
    are not modelled. */
module WorldChunk {
  import opened Options
  import opened Int32
  import opened Vectors
  import opened Seqs
  import opened Blocks
  import opened Terrain
  import opened ChunkGrid

  /** A chunk: the world position of its cell (0, 0, 0), its size, and one
      cell per local position in `[0, size)` on every axis. */
  datatype Chunk = Chunk(minCorner: Vec3, size: Vec3, cells: map<Vec3, Cell>)

  /** `LocalPositionIsInRange`. */
  predicate InRangeLocal(size: Vec3, p: Vec3) {
    0 <= p.x < size.x && 0 <= p.y < size.y && 0 <= p.z < size.z
  }

  /** The grid is allocated for exactly the local positions in range. */
  ghost predicate Valid(c: Chunk) {
    forall p :: p in c.cells <==> InRangeLocal(c.size, p)
  }

  predicate NonNegativeSize(s: Vec3) {
    s.x >= 0 && s.y >= 0 && s.z >= 0
  }

  function Box(size: Vec3): (b: set<Vec3>)
    ensures forall p :: p in b <==> InRangeLocal(size, p)
  {
    var b := set x, y, z | 0 <= x < size.x && 0 <= y < size.y && 0 <= z < size.z :: Vec3(x, y, z);
    assert forall p :: InRangeLocal(size, p) ==> Vec3(p.x, p.y, p.z) in b;
    b
  }

  // ------------------------------------------------------- coordinates

  /** `WorldToLocalPosition`: `worldPos - _minCorner`, wrapping like `int`;
      adding the corner back recovers the world position. */
  function WorldToLocalPosition(minCorner: Vec3, worldPos: Vec3): (r: Vec3)
    ensures IsInt32(r)
    ensures IsInt32(worldPos) ==> Add32(r, minCorner) == worldPos
  {
    if IsInt32(worldPos) then SubAddRoundTrip(worldPos, minCorner); Sub32(worldPos, minCorner)
    else Sub32(worldPos, minCorner)
  }

  /** `LocalToWorldPosition`: `localPos + _minCorner`, wrapping like `int`;
      subtracting the corner again recovers the local position. */
  function LocalToWorldPosition(minCorner: Vec3, localPos: Vec3): (r: Vec3)
    ensures IsInt32(r)
    ensures IsInt32(localPos) ==> Sub32(r, minCorner) == localPos
  {
    if IsInt32(localPos) then AddSubRoundTrip(localPos, minCorner); Add32(localPos, minCorner)
    else Add32(localPos, minCorner)
  }

  /** The two conversions undo each other on every pair of `Vector3Int`s,
      even where the arithmetic wraps around. */
  lemma LocalWorldRoundTrip(minCorner: Vec3, p: Vec3)
    requires IsInt32(p)
    ensures LocalToWorldPosition(minCorner, WorldToLocalPosition(minCorner, p)) == p
    ensures WorldToLocalPosition(minCorner, LocalToWorldPosition(minCorner, p)) == p
  {
    SubAddRoundTrip(p, minCorner);
    AddSubRoundTrip(p, minCorner);
  }

  /** World position `w` falls inside chunk `c`. */
  predicate InChunk(c: Chunk, w: Vec3) {
    InRangeLocal(c.size, WorldToLocalPosition(c.minCorner, w))
  }

  /** The world positions a chunk holds are exactly the world positions of
      its in-range local positions. */
  lemma InChunkIsLocalRange(c: Chunk, w: Vec3)
    requires IsInt32(w)
    ensures InChunk(c, w) <==>
      exists lp :: IsInt32(lp) && InRangeLocal(c.size, lp) && LocalToWorldPosition(c.minCorner, lp) == w
  {
    var lp := WorldToLocalPosition(c.minCorner, w);
    if InChunk(c, w) {
      LocalWorldRoundTrip(c.minCorner, w);
    }
  }

  // -------------------------------------------------------- generation

  /** `Initialize(minCorner, size)`: every cell holds the generated type of
      its world position (`x + _minCorner.x`, and so on). */
  function Initialize(g: Generator, minCorner: Vec3, size: Vec3): (c: Chunk)
    requires NonNegativeSize(size)
    ensures Valid(c) && c.minCorner == minCorner && c.size == size
    ensures forall p :: p in c.cells ==> c.cells[p] == GetBlockType(g, LocalToWorldPosition(minCorner, p))
  {
    Chunk(minCorner, size, map p | p in Box(size) :: GetBlockType(g, LocalToWorldPosition(minCorner, p)))
  }

  /** `ReadBlockType`: the type at world position `w`, with an empty cell
      read as the registry's "Air" type (null when there is none). Indexing
      outside the grid throws, so `w` must lie in the chunk. */
  function ReadBlockType(c: Chunk, types: seq<BlockType>, w: Vec3): (r: Cell)
    requires Valid(c) && InChunk(c, w)
    ensures var cell := c.cells[WorldToLocalPosition(c.minCorner, w)];
      && (cell.Some? ==> r == cell)
      && (cell.None? ==> (r.Some? <==> exists i :: 0 <= i < |types| && types[i].name == "Air"))
      && (cell.None? && r.Some? ==> r.value in types && r.value.name == "Air")
  {
    match c.cells[WorldToLocalPosition(c.minCorner, w)]
    case None => LookupName(types, "Air")
    case Some(t) => Some(t)
  }

  /** Generation is independent of chunk boundaries: reading a generated
      chunk at `w` gives the type the generator computes for `w` directly. */
  lemma GeneratedChunkMatchesTerrain(g: Generator, minCorner: Vec3, size: Vec3, w: Vec3)
    requires NonNegativeSize(size) && IsInt32(w)
    requires InChunk(Initialize(g, minCorner, size), w)
    ensures GetBlockType(g, w).Some? ==> ReadBlockType(Initialize(g, minCorner, size), g.types, w) == GetBlockType(g, w)
    ensures GetBlockType(g, w).None? ==> ReadBlockType(Initialize(g, minCorner, size), g.types, w) == LookupName(g.types, "Air")
  {
    LocalWorldRoundTrip(minCorner, w);
  }

  // ------------------------------------------------------ neighbourhood

  /** A cell with an in-range neighbour across each of its six faces. */
  predicate Interior(size: Vec3, p: Vec3) {
    0 < p.x < size.x - 1 && 0 < p.y < size.y - 1 && 0 < p.z < size.z - 1
  }

  /** `GetNeighbors`: the face neighbours that exist in the grid, listed
      -x, +x, -y, +y, -z, +z. */
  function GetNeighbors(size: Vec3, p: Vec3): (r: seq<Vec3>)
    ensures |r| <= 6
    ensures Interior(size, p) ==> |r| == 6
  {
    (if p.x != 0 then [Vec3(p.x - 1, p.y, p.z)] else [])
      + (if p.x != size.x - 1 then [Vec3(p.x + 1, p.y, p.z)] else [])
      + (if p.y != 0 then [Vec3(p.x, p.y - 1, p.z)] else [])
      + (if p.y != size.y - 1 then [Vec3(p.x, p.y + 1, p.z)] else [])
      + (if p.z != 0 then [Vec3(p.x, p.y, p.z - 1)] else [])
      + (if p.z != size.z - 1 then [Vec3(p.x, p.y, p.z + 1)] else [])
  }

  /** A face-adjacent position is one of the six unit steps. */
  lemma AdjacentCases(p: Vec3, n: Vec3)
    requires FaceAdjacent(p, n)
    ensures n == Vec3(p.x - 1, p.y, p.z) || n == Vec3(p.x + 1, p.y, p.z)
         || n == Vec3(p.x, p.y - 1, p.z) || n == Vec3(p.x, p.y + 1, p.z)
         || n == Vec3(p.x, p.y, p.z - 1) || n == Vec3(p.x, p.y, p.z + 1)
  {
  }

  /** For a cell in the grid, `GetNeighbors` lists every in-range face
      neighbour exactly once and nothing else, and all six exist exactly
      when the cell is interior. */
  lemma NeighborsOfInRange(size: Vec3, p: Vec3)
    requires InRangeLocal(size, p)
    ensures Distinct(GetNeighbors(size, p))
    ensures forall n :: n in GetNeighbors(size, p) <==> InRangeLocal(size, n) && FaceAdjacent(p, n)
    ensures |GetNeighbors(size, p)| == 6 <==> Interior(size, p)
  {
    NeighborsDistinct(size, p);
    NeighborsInRange(size, p);
  }

  lemma NeighborsDistinct(size: Vec3, p: Vec3)
    ensures Distinct(GetNeighbors(size, p))
  {
    var r := GetNeighbors(size, p);
    forall i, j | 0 <= i < j < |r|
      ensures r[i] != r[j]
    {
      assert FaceAdjacent(p, r[i]) && FaceAdjacent(p, r[j]);
    }
  }

  lemma NeighborsInRange(size: Vec3, p: Vec3)
    requires InRangeLocal(size, p)
    ensures forall n :: n in GetNeighbors(size, p) <==> InRangeLocal(size, n) && FaceAdjacent(p, n)
  {
    forall n | InRangeLocal(size, n) && FaceAdjacent(p, n)
      ensures n in GetNeighbors(size, p)
    {
      AdjacentCases(p, n);
    }
  }

  // ----------------------------------------------------- external cells

  /** One of the six faces of cell `p` touches a position outside the grid
      or an empty or transparent cell. */
  ghost predicate Exposed(c: Chunk, p: Vec3)
    requires Valid(c)
  {
    exists i :: 0 <= i < 6 &&
      (Add(p, FaceDirections[i]) !in c.cells || Open(c.cells[Add(p, FaceDirections[i])]))
  }

  /** A boundary cell has a face step that leaves the grid. */
  lemma BoundaryIsExposed(c: Chunk, p: Vec3)
    requires Valid(c) && InRangeLocal(c.size, p) && !Interior(c.size, p)
    ensures Exposed(c, p)
  {
    if p.x == 0 {
      assert Add(p, FaceDirections[3]) !in c.cells;
    } else if p.x == c.size.x - 1 {
      assert Add(p, FaceDirections[2]) !in c.cells;
    } else if p.y == 0 {
      assert Add(p, FaceDirections[1]) !in c.cells;
    } else if p.y == c.size.y - 1 {
      assert Add(p, FaceDirections[0]) !in c.cells;
    } else if p.z == 0 {
      assert Add(p, FaceDirections[5]) !in c.cells;
    } else {
      assert Add(p, FaceDirections[4]) !in c.cells;
    }
  }

  /** For an interior cell, `GetNeighbors` lists exactly the six face steps. */
  lemma InteriorNeighborsAreFaceSteps(size: Vec3, p: Vec3)
    requires Interior(size, p)
    ensures GetNeighbors(size, p) == [
      Add(p, FaceDirections[3]), Add(p, FaceDirections[2]),
      Add(p, FaceDirections[1]), Add(p, FaceDirections[0]),
      Add(p, FaceDirections[5]), Add(p, FaceDirections[4])]
  {
  }

  /** An interior cell is exposed exactly when one of the neighbours
      `GetNeighbors` lists is empty or transparent. */
  lemma InteriorExposure(c: Chunk, p: Vec3)
    requires Valid(c) && InRangeLocal(c.size, p) && Interior(c.size, p)
    ensures Exposed(c, p) <==>
      exists n :: n in GetNeighbors(c.size, p) && n in c.cells && Open(c.cells[n])
  {
    var ns := GetNeighbors(c.size, p);
    InteriorNeighborsAreFaceSteps(c.size, p);
    var perm := [3, 2, 1, 0, 5, 4];
    assert forall k :: 0 <= k < 6 ==> ns[k] == Add(p, FaceDirections[perm[k]]);
    assert forall i :: 0 <= i < 6 ==> Add(p, FaceDirections[i]) in c.cells;
    if Exposed(c, p) {
      var i :| 0 <= i < 6 && Open(c.cells[Add(p, FaceDirections[i])]);
      assert perm[perm[i]] == i;
      assert ns[perm[i]] == Add(p, FaceDirections[i]);
    }
  }

  /** One entry of `GetExternalBlockMatrix`: a non-empty cell is external
      exactly when one of its faces touches outside the grid or an empty or
      transparent cell; an empty cell never is. */
  function IsExternal(c: Chunk, p: Vec3): (r: bool)
    requires Valid(c) && InRangeLocal(c.size, p)
    ensures r <==> c.cells[p].Some? && Exposed(c, p)
  {
    if c.cells[p].None? then false
    else
      var ns := GetNeighbors(c.size, p);
      NeighborsOfInRange(c.size, p);
      if |ns| < 6 then
        BoundaryIsExposed(c, p);
        true
      else
        InteriorExposure(c, p);
        exists n :: n in ns && Open(c.cells[n])
  }

  /** `GetExternalBlockMatrix`: the external flag of every cell of the grid. */
  function GetExternalBlockMatrix(c: Chunk): (m: map<Vec3, bool>)
    requires Valid(c)
    ensures forall p :: p in m <==> InRangeLocal(c.size, p)
    ensures forall p :: p in m ==> (m[p] <==> c.cells[p].Some? && Exposed(c, p))
  {
    map p | p in Box(c.size) :: IsExternal(c, p)
  }

  // --------------------------------------------------------- visibility

  /** The manager's chunk map as a chunk sees it through `GetNearestChunk`:
      every resident chunk is keyed by its corner and has the manager's size. */
  ghost predicate ResidentsWellFormed(resident: map<Vec3, Chunk>, chunkSize: Vec3) {
    forall k :: k in resident ==>
      Valid(resident[k]) && resident[k].minCorner == k && resident[k].size == chunkSize
  }

  /** Reading world position `w` from the resident chunk `GetNearestChunk`
      returns, if there is one, stays inside that chunk's grid. */
  ghost predicate ReadableAt(resident: map<Vec3, Chunk>, chunkSize: Vec3, w: Vec3)
    requires IsInt32(w) && PositiveSize(chunkSize)
  {
    var k := NearestChunkPosition(w, chunkSize);
    k in resident ==> Valid(resident[k]) && InChunk(resident[k], w)
  }

  /** In a well-formed chunk map, the chunk found for a safe world position
      always holds that position, so the read never leaves its grid. */
  lemma NeighbourReadInBounds(resident: map<Vec3, Chunk>, chunkSize: Vec3, w: Vec3)
    requires PositiveSize(chunkSize) && ResidentsWellFormed(resident, chunkSize)
    requires IsInt32(w) && IsSafe(w)
    ensures ReadableAt(resident, chunkSize, w)
  {
    OffsetInChunk(w, chunkSize);
  }

  /** The type `GetVisibility` sees at local position `np` of chunk `c`: the
      chunk's own cell when in range, otherwise the block read from the
      resident chunk holding the world position, or else the generated type. */
  function NeighbourType(c: Chunk, resident: map<Vec3, Chunk>, chunkSize: Vec3, g: Generator, np: Vec3): Cell
    requires Valid(c) && PositiveSize(chunkSize)
    requires !InRangeLocal(c.size, np) ==>
      ReadableAt(resident, chunkSize, LocalToWorldPosition(c.minCorner, np))
  {
    if InRangeLocal(c.size, np) then c.cells[np]
    else
      var w := LocalToWorldPosition(c.minCorner, np);
      var k := NearestChunkPosition(w, chunkSize);
      if k in resident then ReadBlockType(resident[k], g.types, w) else GetBlockType(g, w)
  }

  /** Every resident chunk is keyed by a chunk corner in the safe range. */
  ghost predicate ResidentsAtCorners(resident: map<Vec3, Chunk>, chunkSize: Vec3)
    requires PositiveSize(chunkSize)
  {
    forall k :: k in resident ==> IsSafe(k) && Aligned(k, chunkSize)
  }

  /** An out-of-grid neighbour at a safe world position is read from the
      resident chunk that holds it when there is one, and taken from the
      generator when no resident chunk holds it. */
  lemma NeighbourTypeFromHolder(c: Chunk, resident: map<Vec3, Chunk>, chunkSize: Vec3, g: Generator, np: Vec3)
    requires Valid(c) && PositiveSize(chunkSize) && !InRangeLocal(c.size, np)
    requires ResidentsWellFormed(resident, chunkSize) && ResidentsAtCorners(resident, chunkSize)
    requires IsSafe(LocalToWorldPosition(c.minCorner, np))
    ensures ReadableAt(resident, chunkSize, LocalToWorldPosition(c.minCorner, np))
    ensures var w := LocalToWorldPosition(c.minCorner, np);
      forall k :: k in resident && InChunk(resident[k], w) ==>
        NeighbourType(c, resident, chunkSize, g, np) == ReadBlockType(resident[k], g.types, w)
    ensures var w := LocalToWorldPosition(c.minCorner, np);
      (forall k :: k in resident ==> !InChunk(resident[k], w)) ==>
        NeighbourType(c, resident, chunkSize, g, np) == GetBlockType(g, w)
  {
    var w := LocalToWorldPosition(c.minCorner, np);
    NeighbourReadInBounds(resident, chunkSize, w);
    forall k | k in resident && InChunk(resident[k], w)
      ensures NearestChunkPosition(w, chunkSize) == k
    {
      CornerHoldingIsNearest(w, chunkSize, k);
    }
  }

  /** Every out-of-grid face neighbour of `p` can be looked up safely. */
  ghost predicate VisibilityReadable(c: Chunk, resident: map<Vec3, Chunk>, chunkSize: Vec3, p: Vec3)
    requires PositiveSize(chunkSize)
  {
    forall i :: 0 <= i < 6 && !InRangeLocal(c.size, Add(p, FaceDirections[i])) ==>
      ReadableAt(resident, chunkSize, LocalToWorldPosition(c.minCorner, Add(p, FaceDirections[i])))
  }

  /** A face of a block of type `t` is drawn when the cell across it is air
      or transparent and does not hold the same type. */
  predicate FaceVisible(t: BlockType, across: Cell) {
    Open(across) && across != Some(t)
  }

  /** `GetVisibility`: one flag per face in `FACE_DIRECTIONS` order. */
  function GetVisibility(c: Chunk, resident: map<Vec3, Chunk>, chunkSize: Vec3, g: Generator, p: Vec3): (r: seq<bool>)
    requires Valid(c) && PositiveSize(chunkSize) && InRangeLocal(c.size, p) && c.cells[p].Some?
    requires VisibilityReadable(c, resident, chunkSize, p)
    ensures |r| == 6
    ensures forall i :: 0 <= i < 6 ==>
      (r[i] <==> FaceVisible(c.cells[p].value, NeighbourType(c, resident, chunkSize, g, Add(p, FaceDirections[i]))))
  {
    var t := c.cells[p].value;
    var ns := [
      Vec3(p.x, p.y + 1, p.z), Vec3(p.x, p.y - 1, p.z),
      Vec3(p.x + 1, p.y, p.z), Vec3(p.x - 1, p.y, p.z),
      Vec3(p.x, p.y, p.z + 1), Vec3(p.x, p.y, p.z - 1)];
    assert forall i :: 0 <= i < 6 ==> ns[i] == Add(p, FaceDirections[i]);
    seq(6, ni requires 0 <= ni < 6 => FaceVisible(t, NeighbourType(c, resident, chunkSize, g, ns[ni])))
  }

  /** A chunk whose grid, widened by one cell on every side, lies in the
      safe coordinate range. */
  predicate SafelyPlaced(c: Chunk) {
    IsSafe(Add(c.minCorner, Vec3(-1, -1, -1))) && IsSafe(Add(c.minCorner, c.size))
  }

  /** In a safely placed chunk, every face lookup of every cell reads inside
      the grid of the chunk it reaches. */
  lemma SafeChunkReadable(c: Chunk, resident: map<Vec3, Chunk>, chunkSize: Vec3, p: Vec3)
    requires Valid(c) && SafelyPlaced(c) && InRangeLocal(c.size, p)
    requires PositiveSize(chunkSize) && ResidentsWellFormed(resident, chunkSize)
    ensures VisibilityReadable(c, resident, chunkSize, p)
  {
    forall i | 0 <= i < 6 && !InRangeLocal(c.size, Add(p, FaceDirections[i]))
      ensures ReadableAt(resident, chunkSize, LocalToWorldPosition(c.minCorner, Add(p, FaceDirections[i])))
    {
      var np := Add(p, FaceDirections[i]);
      var w := Add(np, c.minCorner);
      assert IsSafe(w);
      WrapOfInRange(w.x);
      WrapOfInRange(w.y);
      WrapOfInRange(w.z);
      assert LocalToWorldPosition(c.minCorner, np) == w;
      NeighbourReadInBounds(resident, chunkSize, w);
    }
  }

  // -------------------------------------------------------- batch edits

  /** `newBlocks[i]` is read only for positions that fall in the chunk, and
      must exist for those. */
  ghost predicate EditsCovered(c: Chunk, positions: seq<Vec3>, newBlocks: seq<Block>) {
    forall i :: 0 <= i < |positions| && InChunk(c, positions[i]) ==> i < |newBlocks|
  }

  /** The type written to local cell `q` by the last of the first `n` edits
      that lands on it, if any does. A block whose type is null is stored
      as air. */
  function LastWrite(c: Chunk, positions: seq<Vec3>, newBlocks: seq<Block>, q: Vec3, n: nat): Option<Cell>
    requires n <= |positions| && EditsCovered(c, positions, newBlocks)
  {
    if n == 0 then None
    else if InChunk(c, positions[n - 1]) && WorldToLocalPosition(c.minCorner, positions[n - 1]) == q then
      Some(newBlocks[n - 1].blockType)
    else LastWrite(c, positions, newBlocks, q, n - 1)
  }

  /** The contents of cell `q` after the first `n` edits. */
  function ContentsAfter(c: Chunk, positions: seq<Vec3>, newBlocks: seq<Block>, q: Vec3, n: nat): Cell
    requires Valid(c) && q in c.cells
    requires n <= |positions| && EditsCovered(c, positions, newBlocks)
  {
    LastWrite(c, positions, newBlocks, q, n).GetOr(c.cells[q])
  }

  /** Edit `i` lands in the chunk and writes a type different from what the
      cell holds at that moment. */
  ghost predicate Overwrites(c: Chunk, positions: seq<Vec3>, newBlocks: seq<Block>, i: nat)
    requires Valid(c) && i < |positions| && EditsCovered(c, positions, newBlocks)
  {
    InChunk(c, positions[i]) &&
    ContentsAfter(c, positions, newBlocks, WorldToLocalPosition(c.minCorner, positions[i]), i)
      != newBlocks[i].blockType
  }

  /** The first `n` iterations of the loop in `UpdateBlocks`, returning the
      chunk and whether any cell changed. */
  function UpdateBlocksUpTo(c: Chunk, positions: seq<Vec3>, newBlocks: seq<Block>, n: nat): (r: (Chunk, bool))
    requires Valid(c) && n <= |positions| && EditsCovered(c, positions, newBlocks)
    ensures Valid(r.0) && r.0.minCorner == c.minCorner && r.0.size == c.size
    ensures forall q :: q in c.cells ==> r.0.cells[q] == ContentsAfter(c, positions, newBlocks, q, n)
    ensures r.1 <==> exists i :: 0 <= i < n && Overwrites(c, positions, newBlocks, i)
  {
    if n == 0 then (c, false)
    else
      var (cur, changed) := UpdateBlocksUpTo(c, positions, newBlocks, n - 1);
      var w := positions[n - 1];
      if InChunk(cur, w) then
        var q := WorldToLocalPosition(cur.minCorner, w);
        var newCell := newBlocks[n - 1].blockType;
        if cur.cells[q] != newCell then
          assert Overwrites(c, positions, newBlocks, n - 1);
          (cur.(cells := cur.cells[q := newCell]), true)
        else (cur, changed)
      else (cur, changed)
  }

  /** `UpdateBlocks`: applies the edits in order, each position that falls
      in the chunk taking its block's type (null as air); reports whether
      any cell changed, which is when the original rebuilds the mesh. */
  function UpdateBlocks(c: Chunk, positions: seq<Vec3>, newBlocks: seq<Block>): (r: (Chunk, bool))
    requires Valid(c) && EditsCovered(c, positions, newBlocks)
    ensures Valid(r.0) && r.0.minCorner == c.minCorner && r.0.size == c.size
    ensures forall q :: q in c.cells ==> r.0.cells[q] == ContentsAfter(c, positions, newBlocks, q, |positions|)
    ensures r.1 <==> exists i :: 0 <= i < |positions| && Overwrites(c, positions, newBlocks, i)
  {
    UpdateBlocksUpTo(c, positions, newBlocks, |positions|)
  }

  /** A cell that no edit lands on keeps its contents. */
  lemma {:induction false} UntouchedCellsKept(c: Chunk, positions: seq<Vec3>, newBlocks: seq<Block>, q: Vec3, n: nat)
    requires Valid(c) && q in c.cells && n <= |positions| && EditsCovered(c, positions, newBlocks)
    requires forall i :: 0 <= i < n && InChunk(c, positions[i]) ==>
      WorldToLocalPosition(c.minCorner, positions[i]) != q
    ensures ContentsAfter(c, positions, newBlocks, q, n) == c.cells[q]
  {
    if n > 0 {
      UntouchedCellsKept(c, positions, newBlocks, q, n - 1);
    }
  }

  /** The last edit landing on a cell decides its contents. */
  lemma {:induction false} LastEditWins(c: Chunk, positions: seq<Vec3>, newBlocks: seq<Block>, i: nat)
    requires Valid(c) && i < |positions| && EditsCovered(c, positions, newBlocks)
    requires InChunk(c, positions[i])
    requires forall j :: i < j < |positions| && InChunk(c, positions[j]) ==>
      WorldToLocalPosition(c.minCorner, positions[j]) != WorldToLocalPosition(c.minCorner, positions[i])
    ensures UpdateBlocks(c, positions, newBlocks).0.cells[WorldToLocalPosition(c.minCorner, positions[i])]
      == newBlocks[i].blockType
  {
    LastWriteAfter(c, positions, newBlocks, i, |positions|);
  }

  lemma {:induction false} LastWriteAfter(c: Chunk, positions: seq<Vec3>, newBlocks: seq<Block>, i: nat, n: nat)
    requires Valid(c) && i < n <= |positions| && EditsCovered(c, positions, newBlocks)
    requires InChunk(c, positions[i])
    requires forall j :: i < j < n && InChunk(c, positions[j]) ==>
      WorldToLocalPosition(c.minCorner, positions[j]) != WorldToLocalPosition(c.minCorner, positions[i])
    ensures LastWrite(c, positions, newBlocks, WorldToLocalPosition(c.minCorner, positions[i]), n)
      == Some(newBlocks[i].blockType)
  {
    if n - 1 > i {
      LastWriteAfter(c, positions, newBlocks, i, n - 1);
    }
  }

  /** Edits that write back what every targeted cell already holds change
      nothing and do not trigger a rebuild. */
  lemma NoOpEditsChangeNothing(c: Chunk, positions: seq<Vec3>, newBlocks: seq<Block>)
    requires Valid(c) && EditsCovered(c, positions, newBlocks)
    requires forall i :: 0 <= i < |positions| && InChunk(c, positions[i]) ==>
      newBlocks[i].blockType == c.cells[WorldToLocalPosition(c.minCorner, positions[i])]
    ensures UpdateBlocks(c, positions, newBlocks) == (c, false)
  {
    forall q | q in c.cells
      ensures ContentsAfter(c, positions, newBlocks, q, |positions|) == c.cells[q]
    {
      NoOpContents(c, positions, newBlocks, q, |positions|);
    }
    forall i | 0 <= i < |positions|
      ensures !Overwrites(c, positions, newBlocks, i)
    {
      if InChunk(c, positions[i]) {
        NoOpContents(c, positions, newBlocks, WorldToLocalPosition(c.minCorner, positions[i]), i);
      }
    }
    UnchangedMeansSame(c, positions, newBlocks);
  }

  lemma {:induction false} NoOpContents(c: Chunk, positions: seq<Vec3>, newBlocks: seq<Block>, q: Vec3, n: nat)
    requires Valid(c) && q in c.cells && n <= |positions| && EditsCovered(c, positions, newBlocks)
    requires forall i :: 0 <= i < |positions| && InChunk(c, positions[i]) ==>
      newBlocks[i].blockType == c.cells[WorldToLocalPosition(c.minCorner, positions[i])]
    ensures ContentsAfter(c, positions, newBlocks, q, n) == c.cells[q]
  {
    if n > 0 {
      NoOpContents(c, positions, newBlocks, q, n - 1);
    }
  }

  /** When no edit overwrites anything, the chunk comes back unchanged. */
  lemma UnchangedMeansSame(c: Chunk, positions: seq<Vec3>, newBlocks: seq<Block>)
    requires Valid(c) && EditsCovered(c, positions, newBlocks)
    ensures !UpdateBlocks(c, positions, newBlocks).1 ==> UpdateBlocks(c, positions, newBlocks).0 == c
  {
    var r := UpdateBlocks(c, positions, newBlocks);
    if !r.1 {
      forall q | q in c.cells
        ensures r.0.cells[q] == c.cells[q]
      {
        NoOverwriteKeeps(c, positions, newBlocks, q, |positions|);
      }
      assert r.0.cells == c.cells;
    }
  }

  lemma {:induction false} NoOverwriteKeeps(c: Chunk, positions: seq<Vec3>, newBlocks: seq<Block>, q: Vec3, n: nat)
    requires Valid(c) && q in c.cells && n <= |positions| && EditsCovered(c, positions, newBlocks)
    requires forall i :: 0 <= i < n ==> !Overwrites(c, positions, newBlocks, i)
    ensures ContentsAfter(c, positions, newBlocks, q, n) == c.cells[q]
  {
    if n > 0 {
      NoOverwriteKeeps(c, positions, newBlocks, q, n - 1);
      var w := positions[n - 1];
      if InChunk(c, w) && WorldToLocalPosition(c.minCorner, w) == q {
        assert !Overwrites(c, positions, newBlocks, n - 1);
      }
    }
  }

  // ------------------------------------------------------------ meshing

  /** The two passes of `BuildMesh`. */
  datatype Pass = OpaquePass | WaterPass

  /** The cells a pass draws: the opaque pass takes external cells whose type
      is not transparent, the water pass external cells of the "Water" type. */
  function Selected(c: Chunk, pass: Pass, p: Vec3): (r: bool)
    requires Valid(c) && InRangeLocal(c.size, p)
    ensures r <==> (c.cells[p].Some? && Exposed(c, p)
      && (pass == OpaquePass ==> !c.cells[p].value.isTransparent)
      && (pass == WaterPass ==> c.cells[p].value.name == "Water"))
  {
    IsExternal(c, p) &&
    match pass
    case OpaquePass => !c.cells[p].value.isTransparent
    case WaterPass => c.cells[p].value.name == "Water"
  }

  /** A cell of a transparent type is never drawn by the opaque pass, so a
      transparent "Water" type is drawn by the water pass alone. */
  lemma PassesDisjointForTransparentWater(c: Chunk, p: Vec3)
    requires Valid(c) && InRangeLocal(c.size, p)
    requires Selected(c, WaterPass, p) && c.cells[p].value.isTransparent
    ensures !Selected(c, OpaquePass, p)
  {
  }

  /** Only non-empty, exposed cells are ever drawn: a buried cell adds nothing
      to either mesh. */
  lemma SelectedCellsAreExposed(c: Chunk, pass: Pass, p: Vec3)
    requires Valid(c) && InRangeLocal(c.size, p) && Selected(c, pass, p)
    ensures c.cells[p].Some? && Exposed(c, p)
  {
  }

  function KRow(i: int, j: int, n: int): seq<Vec3>
    decreases n
  {
    if n <= 0 then [] else KRow(i, j, n - 1) + [Vec3(i, j, n - 1)]
  }

  function JRows(i: int, size: Vec3, n: int): seq<Vec3>
    decreases n
  {
    if n <= 0 then [] else JRows(i, size, n - 1) + KRow(i, n - 1, size.z)
  }

  function IRows(size: Vec3, n: int): seq<Vec3>
    decreases n
  {
    if n <= 0 then [] else IRows(size, n - 1) + JRows(n - 1, size, size.y)
  }

  /** The `i`, `j`, `k` loop nest of the mesh passes. */
  function CellOrder(size: Vec3): seq<Vec3> {
    IRows(size, size.x)
  }

  lemma {:induction false} KRowMembers(i: int, j: int, n: int)
    ensures forall p :: p in KRow(i, j, n) <==> p.x == i && p.y == j && 0 <= p.z < n
  {
    if n > 0 {
      KRowMembers(i, j, n - 1);
    }
  }

  lemma {:induction false} JRowsMembers(i: int, size: Vec3, n: int)
    ensures forall p :: p in JRows(i, size, n) <==> p.x == i && 0 <= p.y < n && 0 <= p.z < size.z
  {
    if n > 0 {
      JRowsMembers(i, size, n - 1);
      KRowMembers(i, n - 1, size.z);
    }
  }

  lemma {:induction false} IRowsMembers(size: Vec3, n: int)
    ensures forall p :: p in IRows(size, n) <==> 0 <= p.x < n && 0 <= p.y < size.y && 0 <= p.z < size.z
  {
    if n > 0 {
      IRowsMembers(size, n - 1);
      JRowsMembers(n - 1, size, size.y);
    }
  }

  /** The loop nest visits exactly the cells of the grid. */
  lemma CellOrderCoversGrid(size: Vec3)
    ensures forall p :: p in CellOrder(size) <==> InRangeLocal(size, p)
  {
    IRowsMembers(size, size.x);
  }

  /** A cell's mesh and the local position it is translated to. */
  datatype PlacedMesh = PlacedMesh(position: Vec3, mesh: FaceMesh)

  /** The faces `GenerateFaces` builds for the cell at `p`. */
  function CellMesh(c: Chunk, resident: map<Vec3, Chunk>, chunkSize: Vec3, g: Generator, p: Vec3): Result<FaceMesh, MeshError>
    requires Valid(c) && PositiveSize(chunkSize) && InRangeLocal(c.size, p) && c.cells[p].Some?
    requires VisibilityReadable(c, resident, chunkSize, p)
  {
    GenerateFaces(Block(c.cells[p]), GetVisibility(c, resident, chunkSize, g, p))
  }

  ghost predicate PassReadable(c: Chunk, resident: map<Vec3, Chunk>, chunkSize: Vec3, order: seq<Vec3>)
    requires Valid(c) && PositiveSize(chunkSize)
  {
    forall k :: 0 <= k < |order| ==>
      InRangeLocal(c.size, order[k]) && VisibilityReadable(c, resident, chunkSize, order[k])
  }

  /** What a pass does at one cell: nothing when the cell is not selected,
      otherwise the outcome of generating its faces. */
  function CellStep(c: Chunk, resident: map<Vec3, Chunk>, chunkSize: Vec3, g: Generator, pass: Pass, p: Vec3)
    : Option<Result<FaceMesh, MeshError>>
    requires Valid(c) && PositiveSize(chunkSize) && InRangeLocal(c.size, p)
    requires VisibilityReadable(c, resident, chunkSize, p)
  {
    if Selected(c, pass, p) then Some(CellMesh(c, resident, chunkSize, g, p)) else None
  }

  /** Gathers the meshes of the drawn cells in visiting order; the first
      failed face generation aborts the whole pass. */
  function Collect(order: seq<Vec3>, steps: seq<Option<Result<FaceMesh, MeshError>>>): (r: Result<seq<PlacedMesh>, MeshError>)
    requires |steps| == |order|
    ensures r.Success? ==> |r.value| <= |order|
  {
    if order == [] then Success([])
    else
      var rest := Collect(order[1..], steps[1..]);
      match steps[0]
      case None => rest
      case Some(Failure(e)) => Failure(e)
      case Some(Success(m)) =>
        if rest.Failure? then rest else Success([PlacedMesh(order[0], m)] + rest.value)
  }

  /** Collecting fails exactly when some step failed. */
  lemma {:induction false} CollectFails(order: seq<Vec3>, steps: seq<Option<Result<FaceMesh, MeshError>>>)
    requires |steps| == |order|
    ensures Collect(order, steps).Failure? <==>
      exists k :: 0 <= k < |steps| && steps[k].Some? && steps[k].value.Failure?
  {
    if order != [] {
      CollectFails(order[1..], steps[1..]);
      if exists k :: 0 <= k < |steps| && steps[k].Some? && steps[k].value.Failure? {
        var k :| 0 <= k < |steps| && steps[k].Some? && steps[k].value.Failure?;
        if k > 0 {
          assert steps[1..][k - 1] == steps[k];
        }
      }
    }
  }

  /** Every mesh a successful collection holds comes from a drawing step at
      that mesh's cell. */
  lemma {:induction false} CollectSound(order: seq<Vec3>, steps: seq<Option<Result<FaceMesh, MeshError>>>, n: nat)
    requires |steps| == |order| && Collect(order, steps).Success?
    requires n < |Collect(order, steps).value|
    ensures exists k :: 0 <= k < |order| &&
                        order[k] == Collect(order, steps).value[n].position &&
                        steps[k] == Some(Success(Collect(order, steps).value[n].mesh))
  {
    var ms := Collect(order, steps).value;
    var rest := Collect(order[1..], steps[1..]);
    if steps[0].Some? && n == 0 {
      assert order[0] == ms[0].position && steps[0] == Some(Success(ms[0].mesh));
    } else {
      var n' := if steps[0].Some? then n - 1 else n;
      assert ms[n] == rest.value[n'];
      CollectSound(order[1..], steps[1..], n');
      var k :| 0 <= k < |order[1..]| && order[1..][k] == rest.value[n'].position
        && steps[1..][k] == Some(Success(rest.value[n'].mesh));
      assert order[k + 1] == ms[n].position && steps[k + 1] == Some(Success(ms[n].mesh));
    }
  }

  /** Every drawing step leaves a mesh at its cell in a successful
      collection. */
  lemma {:induction false} CollectComplete(order: seq<Vec3>, steps: seq<Option<Result<FaceMesh, MeshError>>>, k: nat)
    requires |steps| == |order| && Collect(order, steps).Success?
    requires k < |order| && steps[k].Some?
    ensures exists n :: 0 <= n < |Collect(order, steps).value| && Collect(order, steps).value[n].position == order[k]
  {
    var ms := Collect(order, steps).value;
    var rest := Collect(order[1..], steps[1..]);
    if k == 0 {
      assert ms[0].position == order[0];
    } else {
      assert steps[1..][k - 1] == steps[k];
      CollectComplete(order[1..], steps[1..], k - 1);
      var n :| 0 <= n < |rest.value| && rest.value[n].position == order[1..][k - 1];
      if steps[0].Some? {
        assert ms[n + 1].position == order[k];
      } else {
        assert ms[n].position == order[k];
      }
    }
  }

  /** One pass of `BuildOpaqueMesh` or `BuildWaterMesh` over `order`. */
  function BuildPass(c: Chunk, resident: map<Vec3, Chunk>, chunkSize: Vec3, g: Generator, pass: Pass, order: seq<Vec3>)
    : (r: Result<seq<PlacedMesh>, MeshError>)
    requires Valid(c) && PositiveSize(chunkSize) && PassReadable(c, resident, chunkSize, order)
    ensures r.Success? ==> |r.value| <= |order|
  {
    Collect(order, seq(|order|, k requires 0 <= k < |order| => CellStep(c, resident, chunkSize, g, pass, order[k])))
  }

  /** A pass fails exactly when some selected cell's faces cannot be built. */
  lemma BuildPassFails(c: Chunk, resident: map<Vec3, Chunk>, chunkSize: Vec3, g: Generator, pass: Pass, order: seq<Vec3>)
    requires Valid(c) && PositiveSize(chunkSize) && PassReadable(c, resident, chunkSize, order)
    ensures BuildPass(c, resident, chunkSize, g, pass, order).Failure? <==>
      exists k :: 0 <= k < |order| && Selected(c, pass, order[k]) && CellMesh(c, resident, chunkSize, g, order[k]).Failure?
  {
    var steps := seq(|order|, k requires 0 <= k < |order| => CellStep(c, resident, chunkSize, g, pass, order[k]));
    assert BuildPass(c, resident, chunkSize, g, pass, order) == Collect(order, steps);
    CollectFails(order, steps);
    forall k | 0 <= k < |order|
      ensures steps[k].Some? && steps[k].value.Failure? <==>
        Selected(c, pass, order[k]) && CellMesh(c, resident, chunkSize, g, order[k]).Failure?
    {
    }
  }

  /** Every mesh of a successful pass belongs to a selected cell of `order`
      and is the mesh `GenerateFaces` builds for that cell. */
  lemma BuildPassSound(c: Chunk, resident: map<Vec3, Chunk>, chunkSize: Vec3, g: Generator, pass: Pass, order: seq<Vec3>, n: nat)
    requires Valid(c) && PositiveSize(chunkSize) && PassReadable(c, resident, chunkSize, order)
    requires BuildPass(c, resident, chunkSize, g, pass, order).Success?
    requires n < |BuildPass(c, resident, chunkSize, g, pass, order).value|
    ensures var m := BuildPass(c, resident, chunkSize, g, pass, order).value[n];
            exists k :: 0 <= k < |order| && order[k] == m.position && Selected(c, pass, order[k]) &&
                        CellMesh(c, resident, chunkSize, g, order[k]) == Success(m.mesh)
  {
    var steps := seq(|order|, k requires 0 <= k < |order| => CellStep(c, resident, chunkSize, g, pass, order[k]));
    CollectSound(order, steps, n);
  }

  /** Every selected cell of `order` is drawn by a successful pass. */
  lemma BuildPassComplete(c: Chunk, resident: map<Vec3, Chunk>, chunkSize: Vec3, g: Generator, pass: Pass, order: seq<Vec3>, k: nat)
    requires Valid(c) && PositiveSize(chunkSize) && PassReadable(c, resident, chunkSize, order)
    requires BuildPass(c, resident, chunkSize, g, pass, order).Success?
    requires k < |order| && Selected(c, pass, order[k])
    ensures var ms := BuildPass(c, resident, chunkSize, g, pass, order).value;
            exists n :: 0 <= n < |ms| && ms[n].position == order[k]
  {
    var steps := seq(|order|, k requires 0 <= k < |order| => CellStep(c, resident, chunkSize, g, pass, order[k]));
    CollectComplete(order, steps, k);
  }

  /** Every cell of the chunk can have its faces looked up safely. */
  ghost predicate ChunkReadable(c: Chunk, resident: map<Vec3, Chunk>, chunkSize: Vec3)
    requires PositiveSize(chunkSize)
  {
    forall p :: InRangeLocal(c.size, p) ==> VisibilityReadable(c, resident, chunkSize, p)
  }

  /** `BuildOpaqueMesh` and then `BuildWaterMesh` over the whole grid; a
      failure in the opaque pass means the water pass never runs. */
  function BuildMesh(c: Chunk, resident: map<Vec3, Chunk>, chunkSize: Vec3, g: Generator)
    : (r: Result<(seq<PlacedMesh>, seq<PlacedMesh>), MeshError>)
    requires Valid(c) && PositiveSize(chunkSize) && ChunkReadable(c, resident, chunkSize)
    ensures r.Success? <==>
      forall p :: InRangeLocal(c.size, p) && (Selected(c, OpaquePass, p) || Selected(c, WaterPass, p)) ==>
        CellMesh(c, resident, chunkSize, g, p).Success?
  {
    CellOrderCoversGrid(c.size);
    var order := CellOrder(c.size);
    BuildPassFails(c, resident, chunkSize, g, OpaquePass, order);
    BuildPassFails(c, resident, chunkSize, g, WaterPass, order);
    match BuildPass(c, resident, chunkSize, g, OpaquePass, order)
    case Failure(e) => Failure(e)
    case Success(solid) =>
      match BuildPass(c, resident, chunkSize, g, WaterPass, order)
      case Failure(e) => Failure(e)
      case Success(water) => Success((solid, water))
  }
}
