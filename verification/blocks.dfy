/** Block types, blocks and the per-voxel face assembly of `Block.cs`.

    The block-type registry (`Resources.LoadAll<BlockType>`) is a sequence of
    records in load order. Two registry entries are the same block type
    exactly when their records are equal, which stands in for the reference
    equality of Unity assets. */
module Blocks {
  import opened Options
  import opened Vectors

  /** A cell of the texture atlas, addressed by column and row. */
  datatype AtlasCell = AtlasCell(x: int, y: int)

  /** `name` is the asset name, `displayName` the name shown to the player;
      `atlasPositions` holds either one cell for all faces or one per face. */
  datatype BlockType = BlockType(
    name: string,
    displayName: string,
    isTransparent: bool,
    atlasPositions: seq<AtlasCell>)

  /** A voxel cell: `None` is air, which the original stores as a null block. */
  type Cell = Option<BlockType>

  /** A block whose type reference may be null when its name was not found. */
  datatype Block = Block(blockType: Option<BlockType>)

  /** Air, or a block type that can be seen through. */
  predicate Open(c: Cell) {
    c.None? || c.value.isTransparent
  }

  /** `FACE_DIRECTIONS`: up, down, right, left, forward, back. */
  const FaceDirections: seq<Vec3> := [
    Vec3(0, 1, 0), Vec3(0, -1, 0),
    Vec3(1, 0, 0), Vec3(-1, 0, 0),
    Vec3(0, 0, 1), Vec3(0, 0, -1)
  ]

  /** The six directions are exactly the unit offsets, each listed once. */
  lemma FaceDirectionsAreTheUnitOffsets()
    ensures forall i :: 0 <= i < 6 ==> FaceAdjacent(Origin, FaceDirections[i])
    ensures forall i, j :: 0 <= i < j < 6 ==> FaceDirections[i] != FaceDirections[j]
    ensures forall d :: FaceAdjacent(Origin, d) ==> d in FaceDirections
  {
  }

  // ---------------------------------------------------------------- registry

  /** The index of the first registry entry that satisfies `matches`. */
  function FindFirst(types: seq<BlockType>, matches: BlockType -> bool): (r: Option<nat>)
    ensures r.Some? ==> r.value < |types| && matches(types[r.value])
    ensures r.Some? ==> forall j :: 0 <= j < r.value ==> !matches(types[j])
    ensures r.None? ==> forall j :: 0 <= j < |types| ==> !matches(types[j])
  {
    if |types| == 0 then None
    else if matches(types[0]) then Some(0)
    else match FindFirst(types[1..], matches)
      case None => None
      case Some(i) => Some(i + 1)
  }

  /** The `Block(string)` constructor: the first registered type whose display
      name is `typeName`; the type stays null when there is none. */
  function NewBlock(types: seq<BlockType>, typeName: string): (b: Block)
    ensures b.blockType.Some? <==> exists i :: 0 <= i < |types| && types[i].displayName == typeName
    ensures b.blockType.Some? ==>
      exists i :: 0 <= i < |types| && types[i] == b.blockType.value
        && types[i].displayName == typeName
        && forall j :: 0 <= j < i ==> types[j].displayName != typeName
  {
    match FindFirst(types, (t: BlockType) => t.displayName == typeName)
    case None => Block(None)
    case Some(i) => Block(Some(types[i]))
  }

  /** `BlockType.GetBlockType(name)` (defined in `BlockType.cs`, which is not
      modelled): the
      first registered type whose asset name is `name`, or null. */
  function LookupName(types: seq<BlockType>, name: string): (r: Cell)
    ensures r.Some? <==> exists i :: 0 <= i < |types| && types[i].name == name
    ensures r.Some? ==> r.value in types && r.value.name == name
  {
    match FindFirst(types, (t: BlockType) => t.name == name)
    case None => None
    case Some(i) => Some(types[i])
  }

  /** `Block.IsTransparent`: dereferences the type, so it must not be null. */
  function IsTransparent(b: Block): bool
    requires b.blockType.Some?
  {
    b.blockType.value.isTransparent
  }

  // ------------------------------------------------------------ face meshes

  /** Corner `corner` (0..3) of the unit quad turned to face `facing`. The
      float position of the corner is not modelled. */
  datatype Vertex = Vertex(facing: Vec3, corner: nat)

  /** The triangle list of one quad: two triangles sharing the diagonal 0-2. */
  const QuadTriangles: seq<int> := [0, 1, 2, 0, 2, 3]

  /** The lists `GenerateBlockFace` hands back through its out-parameters. */
  datatype Quad = Quad(vertices: seq<Vertex>, normals: seq<Vec3>, triangles: seq<int>)

  /** The combined lists of `GenerateFaces`, with the atlas cell chosen for
      each emitted face in place of the UVs that the atlas reader derives
      from it. */
  datatype FaceMesh = FaceMesh(
    vertices: seq<Vertex>,
    normals: seq<Vec3>,
    faceAtlas: seq<AtlasCell>,
    triangles: seq<int>)

  /** Why the original throws while assembling faces. */
  datatype MeshError = NullBlockType | AtlasIndexOutOfRange(face: nat)

  /** `GenerateBlockFace`: four corners facing `direction`, a constant normal,
      and two triangles over the four corners. */
  function GenerateBlockFace(direction: Vec3): (q: Quad)
    ensures |q.vertices| == 4 && |q.normals| == 4 && |q.triangles| == 6
    ensures forall c :: 0 <= c < 4 ==> q.normals[c] == direction && q.vertices[c] == Vertex(direction, c)
    ensures forall k :: 0 <= k < 6 ==> 0 <= q.triangles[k] < 4
  {
    Quad(
      [Vertex(direction, 0), Vertex(direction, 1), Vertex(direction, 2), Vertex(direction, 3)],
      [direction, direction, direction, direction],
      QuadTriangles)
  }

  /** The atlas entry used for face `face`: entry 0 when the type has a
      single entry, the face's own entry otherwise. */
  function AtlasIndex(count: nat, face: nat): nat {
    if count == 1 then 0 else face
  }

  /** Face `face` of `b` can be textured without an exception. */
  predicate Texturable(b: Block, face: nat) {
    b.blockType.Some? && AtlasIndex(|b.blockType.value.atlasPositions|, face) < |b.blockType.value.atlasPositions|
  }

  /** The visible face indices below `n`, in increasing order. */
  function VisibleUpTo(visible: seq<bool>, n: nat): (faces: seq<nat>)
    requires n <= |visible|
    ensures forall t :: 0 <= t < |faces| ==> faces[t] < n && visible[faces[t]]
    ensures forall s, t :: 0 <= s < t < |faces| ==> faces[s] < faces[t]
    ensures forall i :: 0 <= i < n && visible[i] ==> i in faces
  {
    if n == 0 then [] else VisibleUpTo(visible, n - 1) + (if visible[n - 1] then [n - 1] else [])
  }

  /** `m` is the concatenation, in the order of `faces`, of one quad per
      face: four vertices and four copies of the face's direction, the
      quad's triangles shifted by four per earlier face, and the face's atlas
      cell. */
  ghost predicate AssembledFrom(m: FaceMesh, faces: seq<nat>, atlas: seq<AtlasCell>)
    requires forall t :: 0 <= t < |faces| ==> faces[t] < 6
  {
    && |m.vertices| == 4 * |faces|
    && |m.normals| == 4 * |faces|
    && |m.triangles| == 6 * |faces|
    && |m.faceAtlas| == |faces|
    && (forall k :: 0 <= k < |m.vertices| ==> m.vertices[k] == Vertex(FaceDirections[faces[k / 4]], k % 4))
    && (forall k :: 0 <= k < |m.normals| ==> m.normals[k] == FaceDirections[faces[k / 4]])
    && (forall k :: 0 <= k < |m.triangles| ==> m.triangles[k] == QuadTriangles[k % 6] + 4 * (k / 6))
    && (forall t :: 0 <= t < |faces| ==>
          AtlasIndex(|atlas|, faces[t]) < |atlas| && m.faceAtlas[t] == atlas[AtlasIndex(|atlas|, faces[t])])
  }

  function Shift(ts: seq<int>, offset: int): (r: seq<int>)
    ensures |r| == |ts| && forall k :: 0 <= k < |ts| ==> r[k] == ts[k] + offset
  {
    seq(|ts|, k requires 0 <= k < |ts| => ts[k] + offset)
  }

  /** `m` followed by the quad of face `face`, textured with its atlas cell. */
  function AppendFace(m: FaceMesh, face: nat, atlas: seq<AtlasCell>): FaceMesh
    requires face < 6 && AtlasIndex(|atlas|, face) < |atlas|
  {
    var q := GenerateBlockFace(FaceDirections[face]);
    FaceMesh(
      m.vertices + q.vertices,
      m.normals + q.normals,
      m.faceAtlas + [atlas[AtlasIndex(|atlas|, face)]],
      m.triangles + Shift(q.triangles, 4 * |m.faceAtlas|))
  }

  lemma AppendFacePreservesAssembly(m: FaceMesh, faces: seq<nat>, atlas: seq<AtlasCell>, face: nat)
    requires face < 6 && AtlasIndex(|atlas|, face) < |atlas|
    requires forall t :: 0 <= t < |faces| ==> faces[t] < 6
    requires AssembledFrom(m, faces, atlas)
    ensures AssembledFrom(AppendFace(m, face, atlas), faces + [face], atlas)
  {
    var m', faces' := AppendFace(m, face, atlas), faces + [face];
    var n := |faces|;
    forall k | 0 <= k < |m'.vertices|
      ensures m'.vertices[k] == Vertex(FaceDirections[faces'[k / 4]], k % 4)
    {
      if k >= 4 * n {
        assert k / 4 == n;
      } else {
        assert k / 4 < n;
      }
    }
    forall k | 0 <= k < |m'.normals|
      ensures m'.normals[k] == FaceDirections[faces'[k / 4]]
    {
      if k >= 4 * n {
        assert k / 4 == n;
      } else {
        assert k / 4 < n;
      }
    }
    forall k | 0 <= k < |m'.triangles|
      ensures m'.triangles[k] == QuadTriangles[k % 6] + 4 * (k / 6)
    {
      if k >= 6 * n {
        assert k / 6 == n && k % 6 == k - 6 * n;
      }
    }
  }

  /** Faces `0 .. n-1` of the `GenerateFaces` loop. */
  function FacesUpTo(b: Block, visible: seq<bool>, n: nat): (r: Result<FaceMesh, MeshError>)
    requires n <= 6 <= |visible|
    ensures r.Failure? <==> exists i :: 0 <= i < n && visible[i] && !Texturable(b, i)
    ensures r.Success? && b.blockType.Some? ==>
      AssembledFrom(r.value, VisibleUpTo(visible, n), b.blockType.value.atlasPositions)
    ensures r.Success? && b.blockType.None? ==> r.value == FaceMesh([], [], [], [])
    decreases n
  {
    if n == 0 then Success(FaceMesh([], [], [], []))
    else
      match FacesUpTo(b, visible, n - 1)
      case Failure(e) => Failure(e)
      case Success(m) =>
        if !visible[n - 1] then Success(m)
        else if b.blockType.None? then Failure(NullBlockType)
        else
          var atlas := b.blockType.value.atlasPositions;
          if AtlasIndex(|atlas|, n - 1) >= |atlas| then Failure(AtlasIndexOutOfRange(n - 1))
          else
            AppendFacePreservesAssembly(m, VisibleUpTo(visible, n - 1), atlas, n - 1);
            Success(AppendFace(m, n - 1, atlas))
  }

  /** `Block.GenerateFaces`: the faces whose flag is set, in `FACE_DIRECTIONS`
      order, each contributing four vertices, four normals equal to its
      direction, the triangles `{0,1,2,0,2,3}` shifted by four per earlier
      face, and its atlas cell. It throws exactly when a visible face has a
      null type or an atlas index out of range. */
  function GenerateFaces(b: Block, visible: seq<bool>): (r: Result<FaceMesh, MeshError>)
    requires |visible| >= 6
    ensures r.Failure? <==> exists i :: 0 <= i < 6 && visible[i] && !Texturable(b, i)
    ensures r.Success? && b.blockType.Some? ==>
      AssembledFrom(r.value, VisibleUpTo(visible, 6), b.blockType.value.atlasPositions)
  {
    FacesUpTo(b, visible, 6)
  }

  /** Every triangle index of an assembled mesh names one of its vertices. */
  lemma TriangleIndicesInRange(m: FaceMesh, faces: seq<nat>, atlas: seq<AtlasCell>)
    requires forall t :: 0 <= t < |faces| ==> faces[t] < 6
    requires AssembledFrom(m, faces, atlas)
    ensures forall k :: 0 <= k < |m.triangles| ==> 0 <= m.triangles[k] < |m.vertices|
  {
    forall k | 0 <= k < |m.triangles|
      ensures 0 <= m.triangles[k] < |m.vertices|
    {
      assert k / 6 < |faces|;
      assert 0 <= QuadTriangles[k % 6] <= 3;
    }
  }
}
