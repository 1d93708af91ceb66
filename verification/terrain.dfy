/** Terrain generation of `WorldChunk.GetBlockType(int, int, int)`.

    The Perlin-noise column height is an uninterpreted function of the
    column, and the `Random.value < 0.1` iron-ore roll an uninterpreted
    boolean per cell: the generator is deterministic once both are fixed. */
module Terrain {
  import opened Options
  import opened Vectors
  import opened Blocks

  const WaterLevel: int := 35

  /** The layers a column is made of. */
  datatype Layer = Bedrock | Stone | IronOre | Dirt | Grass | Sand | Water

  /** The asset name each layer is resolved by. */
  function LayerName(l: Layer): string {
    match l
    case Bedrock => "Bedrock"
    case Stone => "Stone"
    case IronOre => "Iron Ore"
    case Dirt => "Dirt"
    case Grass => "Grass"
    case Sand => "Sand"
    case Water => "Water"
  }

  /** The layer of height `y` in a column whose surface is at height `h`;
      `ironRoll` is the outcome of the ore roll. `None` is air. Each layer
      is described by its own band, independently of the order in which
      the original tests them. */
  function Classify(y: int, h: int, ironRoll: bool): (r: Option<Layer>)
    ensures r == Some(Bedrock) <==> y <= 0
    ensures r == Some(Stone) <==> 0 < y < h - 3 && !ironRoll
    ensures r == Some(IronOre) <==> 0 < y < h - 3 && ironRoll
    ensures r == Some(Dirt) <==> 0 < y && h - 3 <= y < h
    ensures r == Some(Grass) <==> 0 < y && y == h && h > WaterLevel
    ensures r == Some(Sand) <==> 0 < y && y == h && h <= WaterLevel
    ensures r == Some(Water) <==> 0 < y && h < y <= WaterLevel
    ensures r == None <==> y > 0 && y > h && y > WaterLevel
  {
    if y <= 0 then Some(Bedrock)
    else if y < h - 3 then (if ironRoll then Some(IronOre) else Some(Stone))
    else if y < h then Some(Dirt)
    else if y == h && y > WaterLevel then Some(Grass)
    else if y == h && y <= WaterLevel then Some(Sand)
    else if y <= WaterLevel then Some(Water)
    else None
  }

  /** The inputs of terrain generation: the column height (the scaled Perlin
      noise), the per-cell ore roll, and the block-type registry. */
  datatype Generator = Generator(
    height: (int, int) -> int,
    ironRoll: (int, int, int) -> bool,
    types: seq<BlockType>)

  /** The layer at world position `w`. */
  function LayerAt(g: Generator, w: Vec3): Option<Layer> {
    Classify(w.y, g.height(w.x, w.z), g.ironRoll(w.x, w.y, w.z))
  }

  /** `GetBlockType(x, y, z)`: the registered type named after the layer at
      `w`, or null for air and for a layer whose asset is missing. */
  function GetBlockType(g: Generator, w: Vec3): (r: Cell)
    ensures LayerAt(g, w).None? ==> r.None?
    ensures LayerAt(g, w).Some? ==>
      r == LookupName(g.types, LayerName(LayerAt(g, w).value))
    ensures r.Some? ==> r.value in g.types
  {
    match LayerAt(g, w)
    case None => None
    case Some(l) => LookupName(g.types, LayerName(l))
  }

  /** Iron ore is generated only strictly inside the stone band, and only
      when the roll succeeds. */
  lemma IronOreOnlyInStoneBand(g: Generator, w: Vec3)
    requires GetBlockType(g, w).Some? && GetBlockType(g, w).value.name == "Iron Ore"
    ensures 0 < w.y < g.height(w.x, w.z) - 3 && g.ironRoll(w.x, w.y, w.z)
  {
    var l := LayerAt(g, w).value;
    assert LayerName(l) == "Iron Ore";
  }

  /** With every layer registered, a cell is air exactly when it lies above
      the world floor, above the column's surface and above the water level. */
  lemma AirExactlyAboveSurfaceAndWater(g: Generator, w: Vec3)
    requires forall l: Layer :: exists i :: 0 <= i < |g.types| && g.types[i].name == LayerName(l)
    ensures GetBlockType(g, w).None? <==> w.y > 0 && w.y > g.height(w.x, w.z) && w.y > WaterLevel
  {
    match LayerAt(g, w)
    case None =>
    case Some(l) =>
      var i :| 0 <= i < |g.types| && g.types[i].name == LayerName(l);
  }
}
