/** The chunk streaming and editing logic of `ChunkManager.cs`: the chunk
    map, the load and unload queues, the per-tick update, block reads and
    batch edits that fan out to neighbouring chunks.

    The parts of a chunk the manager observes but that are not part of this
    model (its loaded and modified flags, its active state, `UpdateChunk`,
    the rendering done by `BuildMesh`) are kept in the manager's entry for
    the chunk: flags, and counters of mesh builds and update calls. */
module ChunkManager {
  import opened Options
  import opened Int32
  import opened Vectors
  import opened Seqs
  import opened Blocks
  import opened Terrain
  import opened ChunkGrid
  import opened WorldChunk

  /** `chunkSize`, `loadDistance` and the terrain generator. */
  datatype Config = Config(chunkSize: Vec3, loadDistance: Vec3, generator: Generator)

  predicate ConfigOk(cfg: Config) {
    PositiveSize(cfg.chunkSize)
  }

  /** A chunk held in `_chunks`: its voxels, whether its game object is
      active, whether its mesh has been built, whether an edit changed it,
      and how often its mesh was built and `UpdateChunk` was called. */
  datatype Entry = Entry(
    chunk: Chunk,
    active: bool,
    loaded: bool,
    modified: bool,
    meshBuilds: nat,
    updateCalls: nat)

  /** The manager's state: `_chunks`, `_chunkLoadQueue`, `_chunkUnloadQueue`,
      `_chunksToUpdate` and `_prevPlayerChunk`. Queues are front-first. */
  datatype Manager = Manager(
    chunks: map<Vec3, Entry>,
    loadQueue: seq<Vec3>,
    unloadQueue: seq<Vec3>,
    toUpdate: set<Vec3>,
    prevPlayerChunk: Vec3)

  /** Every chunk in the map is a grid of the configured size keyed by its
      corner, and a chunk no edit has changed holds exactly what the
      generator produces for it. */
  ghost predicate Inv(s: Manager, cfg: Config) {
    && ConfigOk(cfg)
    && forall k :: k in s.chunks ==>
      && Valid(s.chunks[k].chunk)
      && s.chunks[k].chunk.minCorner == k
      && s.chunks[k].chunk.size == cfg.chunkSize
      && (!s.chunks[k].modified ==> s.chunks[k].chunk == Initialize(cfg.generator, k, cfg.chunkSize))
  }

  /** The chunk map as `GetNearestChunk` exposes it to the chunks. */
  function Resident(s: Manager): map<Vec3, Chunk> {
    map k | k in s.chunks :: s.chunks[k].chunk
  }

  lemma ResidentWellFormed(s: Manager, cfg: Config)
    requires Inv(s, cfg)
    ensures ResidentsWellFormed(Resident(s), cfg.chunkSize)
  {
  }

  /** `InitializeChunk`: a fresh chunk generated at `id`, without a mesh.
      A new game object starts active; the chunk's own three-argument
      `Initialize` is assumed not to change that. */
  function NewEntry(cfg: Config, id: Vec3): (e: Entry)
    requires ConfigOk(cfg)
    ensures Valid(e.chunk) && e.chunk.minCorner == id && e.chunk.size == cfg.chunkSize
    ensures e.active && !e.loaded && !e.modified && e.meshBuilds == 0 && e.updateCalls == 0
    ensures e.chunk == Initialize(cfg.generator, id, cfg.chunkSize)
  {
    Entry(Initialize(cfg.generator, id, cfg.chunkSize), true, false, false, 0, 0)
  }

  // ------------------------------------------------------------- queues

  /** `LoadChunk`: queues `id` for loading unless it is already in the map. */
  function LoadChunk(s: Manager, id: Vec3): (r: Manager)
    ensures r.chunks == s.chunks && r.unloadQueue == s.unloadQueue
    ensures r.toUpdate == s.toUpdate && r.prevPlayerChunk == s.prevPlayerChunk
    ensures |s.loadQueue| <= |r.loadQueue| <= |s.loadQueue| + 1 && r.loadQueue[..|s.loadQueue|] == s.loadQueue
    ensures |r.loadQueue| > |s.loadQueue| <==> id !in s.chunks
    ensures |r.loadQueue| > |s.loadQueue| ==> r.loadQueue[|s.loadQueue|] == id
  {
    if id in s.chunks then s else s.(loadQueue := s.loadQueue + [id])
  }

  /** `UnloadChunk`: queues `id` for unloading only if it is in the map. */
  function UnloadChunk(s: Manager, id: Vec3): (r: Manager)
    ensures r.chunks == s.chunks && r.loadQueue == s.loadQueue
    ensures r.toUpdate == s.toUpdate && r.prevPlayerChunk == s.prevPlayerChunk
    ensures |s.unloadQueue| <= |r.unloadQueue| <= |s.unloadQueue| + 1 && r.unloadQueue[..|s.unloadQueue|] == s.unloadQueue
    ensures |r.unloadQueue| > |s.unloadQueue| <==> id in s.chunks
    ensures |r.unloadQueue| > |s.unloadQueue| ==> r.unloadQueue[|s.unloadQueue|] == id
  {
    if id !in s.chunks then s else s.(unloadQueue := s.unloadQueue + [id])
  }

  /** `LoadNextChunk`: dequeues an id, creates its chunk if the map lacks it,
      activates it and builds its mesh unless it already has one. Dequeuing
      from an empty queue throws, so the queue must be non-empty. */
  function LoadNextChunk(s: Manager, cfg: Config): (r: Manager)
    requires ConfigOk(cfg) && |s.loadQueue| > 0
    ensures r.loadQueue == s.loadQueue[1..] && r.unloadQueue == s.unloadQueue
    ensures r.toUpdate == s.toUpdate && r.prevPlayerChunk == s.prevPlayerChunk
    ensures r.chunks.Keys == s.chunks.Keys + {s.loadQueue[0]}
    ensures forall k :: k in s.chunks && k != s.loadQueue[0] ==> r.chunks[k] == s.chunks[k]
    ensures var id := s.loadQueue[0];
      && r.chunks[id].active && r.chunks[id].loaded
      && (id !in s.chunks ==> !r.chunks[id].modified && r.chunks[id].meshBuilds == 1)
      && (id in s.chunks ==> r.chunks[id].chunk == s.chunks[id].chunk
                             && r.chunks[id].modified == s.chunks[id].modified
                             && r.chunks[id].meshBuilds == s.chunks[id].meshBuilds + (if s.chunks[id].loaded then 0 else 1))
  {
    var id := s.loadQueue[0];
    var e := if id in s.chunks then s.chunks[id] else NewEntry(cfg, id);
    var e' := if e.loaded then e.(active := true) else e.(active := true, loaded := true, meshBuilds := e.meshBuilds + 1);
    s.(chunks := s.chunks[id := e'], loadQueue := s.loadQueue[1..])
  }

  /** A chunk `LoadNextChunk` creates is the generator's chunk for its id, so
      the manager invariant survives the load. */
  lemma LoadNextPreservesInv(s: Manager, cfg: Config)
    requires Inv(s, cfg) && |s.loadQueue| > 0
    ensures Inv(LoadNextChunk(s, cfg), cfg)
    ensures s.loadQueue[0] !in s.chunks ==>
      LoadNextChunk(s, cfg).chunks[s.loadQueue[0]].chunk == Initialize(cfg.generator, s.loadQueue[0], cfg.chunkSize)
  {
  }

  /** `LoadChunksImmediately` keeps the manager invariant. */
  lemma LoadAllPreservesInv(s: Manager, cfg: Config)
    requires Inv(s, cfg)
    ensures Inv(LoadChunksImmediately(s, cfg), cfg)
  {
    LoadSomePreservesInv(s, cfg, |s.loadQueue|);
  }

  /** `UnloadNextChunk`: dequeues an id; a missing key is only reported. The
      chunk is deactivated, and removed from the map unless an edit has
      modified it. The queue must be non-empty. */
  function UnloadNextChunk(s: Manager): (r: Manager)
    requires |s.unloadQueue| > 0
    ensures r.unloadQueue == s.unloadQueue[1..] && r.loadQueue == s.loadQueue
    ensures r.toUpdate == s.toUpdate && r.prevPlayerChunk == s.prevPlayerChunk
    ensures var id := s.unloadQueue[0];
      && (id !in s.chunks ==> r.chunks == s.chunks)
      && (id in s.chunks && s.chunks[id].modified ==> r.chunks == s.chunks[id := s.chunks[id].(active := false)])
      && (id in s.chunks && !s.chunks[id].modified ==> r.chunks == s.chunks - {id})
  {
    var id := s.unloadQueue[0];
    var s' := s.(unloadQueue := s.unloadQueue[1..]);
    if id !in s.chunks then s'
    else if s.chunks[id].modified then s'.(chunks := s.chunks[id := s.chunks[id].(active := false)])
    else s'.(chunks := s.chunks - {id})
  }

  /** Unloading never loses an edit: a chunk leaves the map only when the
      generator would recreate it exactly. */
  lemma UnloadKeepsEdits(s: Manager, cfg: Config, k: Vec3)
    requires Inv(s, cfg) && |s.unloadQueue| > 0 && k in s.chunks
    ensures Inv(UnloadNextChunk(s), cfg)
    ensures k in UnloadNextChunk(s).chunks ==> UnloadNextChunk(s).chunks[k].chunk == s.chunks[k].chunk
    ensures k !in UnloadNextChunk(s).chunks ==> s.chunks[k].chunk == Initialize(cfg.generator, k, cfg.chunkSize)
  {
  }

  /** Loading the first `n` queued ids, one `LoadNextChunk` at a time. */
  function LoadSome(s: Manager, cfg: Config, n: nat): (r: Manager)
    requires ConfigOk(cfg) && n <= |s.loadQueue|
    ensures r.loadQueue == s.loadQueue[n..] && r.unloadQueue == s.unloadQueue
    ensures r.toUpdate == s.toUpdate && r.prevPlayerChunk == s.prevPlayerChunk
    decreases n
  {
    if n == 0 then s
    else
      var r := LoadSome(LoadNextChunk(s, cfg), cfg, n - 1);
      assert s.loadQueue[1..][n - 1..] == s.loadQueue[n..];
      r
  }

  /** Loading the first `n` queued ids adds exactly those ids to the map. */
  lemma {:induction false} LoadSomeKeys(s: Manager, cfg: Config, n: nat, k: Vec3)
    requires ConfigOk(cfg) && n <= |s.loadQueue|
    ensures k in LoadSome(s, cfg, n).chunks <==> k in s.chunks || k in s.loadQueue[..n]
    decreases n
  {
    if n > 0 {
      var s1 := LoadNextChunk(s, cfg);
      assert LoadSome(s, cfg, n) == LoadSome(s1, cfg, n - 1);
      LoadSomeKeys(s1, cfg, n - 1, k);
      PrefixOfTail(s.loadQueue, n);
    }
  }

  /** Each of the first `n` queued ids ends up active and meshed. */
  lemma {:induction false} LoadSomeActivates(s: Manager, cfg: Config, n: nat, i: nat)
    requires ConfigOk(cfg) && i < n <= |s.loadQueue|
    ensures var r := LoadSome(s, cfg, n);
      s.loadQueue[i] in r.chunks && r.chunks[s.loadQueue[i]].active && r.chunks[s.loadQueue[i]].loaded
    decreases n
  {
    var s1 := LoadNextChunk(s, cfg);
    if i > 0 {
      assert s.loadQueue[i] == s1.loadQueue[i - 1];
      LoadSomeActivates(s1, cfg, n - 1, i - 1);
    } else {
      LoadSomeKeeps(s1, cfg, n - 1, s.loadQueue[0]);
    }
  }

  /** Loading never replaces the voxels or the modified flag of a chunk
      already in the map. */
  lemma {:induction false} LoadSomeKeeps(s: Manager, cfg: Config, n: nat, k: Vec3)
    requires ConfigOk(cfg) && n <= |s.loadQueue| && k in s.chunks
    ensures var r := LoadSome(s, cfg, n);
      && k in r.chunks
      && r.chunks[k].chunk == s.chunks[k].chunk
      && r.chunks[k].modified == s.chunks[k].modified
      && (s.chunks[k].active && s.chunks[k].loaded ==> r.chunks[k].active && r.chunks[k].loaded)
    decreases n
  {
    if n > 0 {
      LoadSomeKeeps(LoadNextChunk(s, cfg), cfg, n - 1, k);
    }
  }

  /** A chunk none of the first `n` queued ids names is left as it was. */
  lemma {:induction false} LoadSomeUntouched(s: Manager, cfg: Config, n: nat, k: Vec3)
    requires ConfigOk(cfg) && n <= |s.loadQueue| && k in s.chunks
    requires k !in s.loadQueue[..n]
    ensures k in LoadSome(s, cfg, n).chunks && LoadSome(s, cfg, n).chunks[k] == s.chunks[k]
    decreases n
  {
    if n > 0 {
      var s1 := LoadNextChunk(s, cfg);
      PrefixOfTail(s.loadQueue, n);
      assert LoadSome(s, cfg, n) == LoadSome(s1, cfg, n - 1);
      LoadSomeUntouched(s1, cfg, n - 1, k);
    }
  }

  /** A chunk that loading brings into the map has not been modified. */
  lemma {:induction false} LoadSomeFresh(s: Manager, cfg: Config, n: nat, k: Vec3)
    requires ConfigOk(cfg) && n <= |s.loadQueue| && k !in s.chunks
    requires k in LoadSome(s, cfg, n).chunks
    ensures !LoadSome(s, cfg, n).chunks[k].modified
    decreases n
  {
    var s1 := LoadNextChunk(s, cfg);
    if k in s1.chunks {
      LoadSomeKeeps(s1, cfg, n - 1, k);
    } else {
      LoadSomeFresh(s1, cfg, n - 1, k);
    }
  }

  lemma {:induction false} LoadSomePreservesInv(s: Manager, cfg: Config, n: nat)
    requires Inv(s, cfg) && n <= |s.loadQueue|
    ensures Inv(LoadSome(s, cfg, n), cfg)
    decreases n
  {
    if n > 0 {
      LoadNextPreservesInv(s, cfg);
      LoadSomePreservesInv(LoadNextChunk(s, cfg), cfg, n - 1);
    }
  }

  /** `LoadChunksImmediately`: empties the load queue. */
  function LoadChunksImmediately(s: Manager, cfg: Config): (r: Manager)
    requires ConfigOk(cfg)
    ensures r.loadQueue == [] && r.unloadQueue == s.unloadQueue
    ensures r.toUpdate == s.toUpdate && r.prevPlayerChunk == s.prevPlayerChunk
    ensures forall k :: k in r.chunks <==> k in s.chunks || k in s.loadQueue
    ensures forall k :: k in s.loadQueue ==> r.chunks[k].active && r.chunks[k].loaded
    ensures forall k :: k in s.chunks ==> r.chunks[k].chunk == s.chunks[k].chunk
    ensures forall k :: k in r.chunks && k !in s.chunks ==> !r.chunks[k].modified
  {
    assert s.loadQueue[..|s.loadQueue|] == s.loadQueue;
    forall k
      ensures k in LoadSome(s, cfg, |s.loadQueue|).chunks <==> k in s.chunks || k in s.loadQueue
    {
      LoadSomeKeys(s, cfg, |s.loadQueue|, k);
    }
    forall k | k in s.chunks
      ensures LoadSome(s, cfg, |s.loadQueue|).chunks[k].chunk == s.chunks[k].chunk
    {
      LoadSomeKeeps(s, cfg, |s.loadQueue|, k);
    }
    forall k | k in LoadSome(s, cfg, |s.loadQueue|).chunks && k !in s.chunks
      ensures !LoadSome(s, cfg, |s.loadQueue|).chunks[k].modified
    {
      LoadSomeFresh(s, cfg, |s.loadQueue|, k);
    }
    forall i | 0 <= i < |s.loadQueue|
      ensures var r := LoadSome(s, cfg, |s.loadQueue|);
        r.chunks[s.loadQueue[i]].active && r.chunks[s.loadQueue[i]].loaded
    {
      LoadSomeActivates(s, cfg, |s.loadQueue|, i);
    }
    LoadSome(s, cfg, |s.loadQueue|)
  }

  /** Unloading the first `n` queued ids, one `UnloadNextChunk` at a time. */
  function UnloadSome(s: Manager, n: nat): (r: Manager)
    requires n <= |s.unloadQueue|
    ensures r.unloadQueue == s.unloadQueue[n..] && r.loadQueue == s.loadQueue
    ensures r.toUpdate == s.toUpdate && r.prevPlayerChunk == s.prevPlayerChunk
    decreases n
  {
    if n == 0 then s
    else
      var r := UnloadSome(UnloadNextChunk(s), n - 1);
      assert s.unloadQueue[1..][n - 1..] == s.unloadQueue[n..];
      r
  }

  /** After unloading the first `n` queued ids, a chunk is still in the map
      exactly when it was before and either was modified or was not queued;
      a chunk that stays keeps its voxels and its modified flag, and is
      inactive if it was queued. */
  lemma {:induction false} UnloadSomeEffect(s: Manager, n: nat, k: Vec3)
    requires n <= |s.unloadQueue|
    ensures var r := UnloadSome(s, n);
      && (k in r.chunks <==> k in s.chunks && (s.chunks[k].modified || k !in s.unloadQueue[..n]))
      && (k in r.chunks ==> r.chunks[k].chunk == s.chunks[k].chunk && r.chunks[k].modified == s.chunks[k].modified)
      && (k in r.chunks && k in s.unloadQueue[..n] ==> !r.chunks[k].active)
      && (k in s.chunks && k !in s.unloadQueue[..n] ==> r.chunks[k] == s.chunks[k])
    decreases n
  {
    if n > 0 {
      var s1 := UnloadNextChunk(s);
      UnloadSomeEffect(s1, n - 1, k);
      assert s.unloadQueue[..n] == [s.unloadQueue[0]] + s1.unloadQueue[..n - 1];
    }
  }

  /** `UnloadChunksImmediately`: empties the unload queue; every queued chunk
      that no edit modified leaves the map, and the modified ones stay,
      inactive, with their edits. */
  function UnloadChunksImmediately(s: Manager): (r: Manager)
    ensures r.unloadQueue == [] && r.loadQueue == s.loadQueue
    ensures r.toUpdate == s.toUpdate && r.prevPlayerChunk == s.prevPlayerChunk
    ensures forall k :: k in r.chunks <==> k in s.chunks && (s.chunks[k].modified || k !in s.unloadQueue)
    ensures forall k :: k in r.chunks ==> r.chunks[k].chunk == s.chunks[k].chunk && r.chunks[k].modified == s.chunks[k].modified
    ensures forall k :: k in r.chunks && k in s.unloadQueue ==> !r.chunks[k].active
    ensures forall k :: k in s.chunks && k !in s.unloadQueue ==> r.chunks[k] == s.chunks[k]
  {
    assert s.unloadQueue[..|s.unloadQueue|] == s.unloadQueue;
    forall k
      ensures var r := UnloadSome(s, |s.unloadQueue|);
        && (k in r.chunks <==> k in s.chunks && (s.chunks[k].modified || k !in s.unloadQueue))
        && (k in r.chunks ==> r.chunks[k].chunk == s.chunks[k].chunk && r.chunks[k].modified == s.chunks[k].modified)
        && (k in r.chunks && k in s.unloadQueue ==> !r.chunks[k].active)
        && (k in s.chunks && k !in s.unloadQueue ==> r.chunks[k] == s.chunks[k])
    {
      UnloadSomeEffect(s, |s.unloadQueue|, k);
    }
    UnloadSome(s, |s.unloadQueue|)
  }

  /** Unloading keeps the manager invariant: it only removes entries or
      clears their active flag. */
  lemma UnloadPreservesInv(s: Manager, cfg: Config)
    requires Inv(s, cfg)
    ensures Inv(UnloadChunksImmediately(s), cfg)
  {
  }

  /** `UpdateChunks`: every pending id still in the map gets one
      `UpdateChunk` call, and the pending set is emptied. */
  function UpdateChunks(s: Manager): (r: Manager)
    ensures r.toUpdate == {} && r.loadQueue == s.loadQueue && r.unloadQueue == s.unloadQueue
    ensures r.prevPlayerChunk == s.prevPlayerChunk && r.chunks.Keys == s.chunks.Keys
    ensures forall k :: k in s.chunks ==>
      r.chunks[k] == s.chunks[k].(updateCalls := s.chunks[k].updateCalls + (if k in s.toUpdate then 1 else 0))
  {
    var chunks := map k | k in s.chunks ::
      if k in s.toUpdate then s.chunks[k].(updateCalls := s.chunks[k].updateCalls + 1) else s.chunks[k];
    s.(chunks := chunks, toUpdate := {})
  }

  /** How many chunks one frame loads: the first always, while the queue
      lasts, and then `extraLoads` more. */
  function FrameLoads(s: Manager, extraLoads: nat): (n: nat)
    ensures n <= |s.loadQueue| && n <= 1 + extraLoads
    ensures |s.loadQueue| > 0 ==> n > 0
    ensures n < 1 + extraLoads ==> n == |s.loadQueue|
  {
    if |s.loadQueue| < 1 + extraLoads then |s.loadQueue| else 1 + extraLoads
  }

  /** The load loop of one frame followed by the drain of the unload queue. */
  function LoadThenUnload(s: Manager, cfg: Config, n: nat): Manager
    requires ConfigOk(cfg) && n <= |s.loadQueue|
  {
    var s1 := LoadSome(s, cfg, n);
    if |s1.unloadQueue| > 0 then UnloadChunksImmediately(s1) else s1
  }

  /** After loading the first `n` queued ids and draining the unload queue,
      a chunk is in the map exactly when it was there or was loaded, and it
      was not queued for unloading unless an edit had modified it; a chunk
      that was in the map and stays keeps its voxels and flag. */
  lemma LoadThenUnloadKey(s: Manager, cfg: Config, n: nat, k: Vec3)
    requires ConfigOk(cfg) && n <= |s.loadQueue|
    ensures var r := LoadThenUnload(s, cfg, n);
      && (k in r.chunks <==>
            (k in s.chunks || k in s.loadQueue[..n]) &&
            (k !in s.unloadQueue || (k in s.chunks && s.chunks[k].modified)))
      && (k in s.chunks && k in r.chunks ==>
            r.chunks[k].chunk == s.chunks[k].chunk && r.chunks[k].modified == s.chunks[k].modified)
  {
    var s1 := LoadSome(s, cfg, n);
    LoadSomeKeys(s, cfg, n, k);
    if k in s.chunks {
      LoadSomeKeeps(s, cfg, n, k);
    } else if k in s1.chunks {
      LoadSomeFresh(s, cfg, n, k);
    }
  }

  /** A loaded id that is not also queued for unloading ends the frame
      active and meshed. */
  lemma LoadThenUnloadActivates(s: Manager, cfg: Config, n: nat, i: nat)
    requires ConfigOk(cfg) && i < n <= |s.loadQueue| && s.loadQueue[i] !in s.unloadQueue
    ensures var r := LoadThenUnload(s, cfg, n);
      s.loadQueue[i] in r.chunks && r.chunks[s.loadQueue[i]].active && r.chunks[s.loadQueue[i]].loaded
  {
    LoadSomeActivates(s, cfg, n, i);
  }

  /** `Update`, one frame. The load loop runs while the queue is non-empty and
      less than 20 ms have passed; the clock is replaced by `extraLoads`, the
      number of further loads that fit in the frame after the first, which
      always runs. `updateDue` stands for the update timer having passed
      `CHUNK_UPDATE_INTERVAL`. */
  function Update(s: Manager, cfg: Config, extraLoads: nat, updateDue: bool): (r: Manager)
    requires Inv(s, cfg)
    ensures Inv(r, cfg)
    ensures r.loadQueue == s.loadQueue[FrameLoads(s, extraLoads)..]
    ensures |s.loadQueue| > 0 ==> |r.loadQueue| < |s.loadQueue|
    ensures r.unloadQueue == [] && r.prevPlayerChunk == s.prevPlayerChunk
    ensures updateDue ==> r.toUpdate == {}
    ensures !updateDue ==> r.toUpdate == s.toUpdate
    ensures forall k :: k in r.chunks <==>
      (k in s.chunks || k in s.loadQueue[..FrameLoads(s, extraLoads)]) &&
      (k !in s.unloadQueue || (k in s.chunks && s.chunks[k].modified))
    ensures forall k :: k in s.chunks && k in r.chunks ==>
      r.chunks[k].chunk == s.chunks[k].chunk && r.chunks[k].modified == s.chunks[k].modified
    ensures forall i :: 0 <= i < FrameLoads(s, extraLoads) && s.loadQueue[i] !in s.unloadQueue ==>
      s.loadQueue[i] in r.chunks && r.chunks[s.loadQueue[i]].active && r.chunks[s.loadQueue[i]].loaded
  {
    var n := FrameLoads(s, extraLoads);
    var s2 := LoadThenUnload(s, cfg, n);
    LoadSomePreservesInv(s, cfg, n);
    UnloadPreservesInv(LoadSome(s, cfg, n), cfg);
    forall k
      ensures && (k in s2.chunks <==>
                    (k in s.chunks || k in s.loadQueue[..n]) &&
                    (k !in s.unloadQueue || (k in s.chunks && s.chunks[k].modified)))
              && (k in s.chunks && k in s2.chunks ==>
                    s2.chunks[k].chunk == s.chunks[k].chunk && s2.chunks[k].modified == s.chunks[k].modified)
    {
      LoadThenUnloadKey(s, cfg, n, k);
    }
    forall i | 0 <= i < n && s.loadQueue[i] !in s.unloadQueue
      ensures s.loadQueue[i] in s2.chunks && s2.chunks[s.loadQueue[i]].active && s2.chunks[s.loadQueue[i]].loaded
    {
      LoadThenUnloadActivates(s, cfg, n, i);
    }
    if |s2.toUpdate| > 0 && updateDue then UpdateChunks(s2) else s2
  }

  // -------------------------------------------------------------- reads

  /** A safe position lies inside the chunk stored at its nearest chunk
      position. */
  lemma NearestEntryHolds(s: Manager, cfg: Config, pos: Vec3)
    requires Inv(s, cfg) && IsInt32(pos) && IsSafe(pos)
    requires NearestChunkPosition(pos, cfg.chunkSize) in s.chunks
    ensures var c := s.chunks[NearestChunkPosition(pos, cfg.chunkSize)].chunk;
      Valid(c) && InChunk(c, pos)
  {
    OffsetInChunk(pos, cfg.chunkSize);
  }

  /** `GetNearestChunk`: the chunk in the map whose corner is the nearest
      chunk position of `pos`, if any. */
  function GetNearestChunk(s: Manager, cfg: Config, pos: Vec3): (r: Option<Chunk>)
    requires ConfigOk(cfg) && IsInt32(pos)
    ensures r.Some? <==> NearestChunkPosition(pos, cfg.chunkSize) in s.chunks
    ensures r.Some? ==> r.value == s.chunks[NearestChunkPosition(pos, cfg.chunkSize)].chunk
  {
    var k := NearestChunkPosition(pos, cfg.chunkSize);
    if k in s.chunks then Some(s.chunks[k].chunk) else None
  }

  /** The chunk at the nearest chunk position of `pos`, if it is in the map,
      has a grid and holds `pos`: what reading a block there needs. */
  ghost predicate HoldsPosition(s: Manager, cfg: Config, pos: Vec3)
    requires ConfigOk(cfg) && IsInt32(pos)
  {
    var k := NearestChunkPosition(pos, cfg.chunkSize);
    k in s.chunks ==> Valid(s.chunks[k].chunk) && InChunk(s.chunks[k].chunk, pos)
  }

  /** Under the invariant every safe position can be read. */
  lemma SafePositionHeld(s: Manager, cfg: Config, pos: Vec3)
    requires Inv(s, cfg) && IsInt32(pos) && IsSafe(pos)
    ensures HoldsPosition(s, cfg, pos)
  {
    if NearestChunkPosition(pos, cfg.chunkSize) in s.chunks {
      NearestEntryHolds(s, cfg, pos);
    }
  }

  /** Every chunk in the map is keyed by a chunk corner in the safe range. */
  ghost predicate KeysAtCorners(s: Manager, cfg: Config)
    requires ConfigOk(cfg)
  {
    forall k :: k in s.chunks ==> IsSafe(k) && Aligned(k, cfg.chunkSize)
  }

  /** Every id in the load queue is a chunk corner in the safe range. */
  ghost predicate QueueAtCorners(s: Manager, cfg: Config)
    requires ConfigOk(cfg)
  {
    forall i :: 0 <= i < |s.loadQueue| ==> IsSafe(s.loadQueue[i]) && Aligned(s.loadQueue[i], cfg.chunkSize)
  }

  /** The chunks see the map keyed by corners as well. */
  lemma ResidentAtCorners(s: Manager, cfg: Config)
    requires Inv(s, cfg) && KeysAtCorners(s, cfg)
    ensures ResidentsWellFormed(Resident(s), cfg.chunkSize)
    ensures ResidentsAtCorners(Resident(s), cfg.chunkSize)
  {
  }

  /** With the map keyed by safe corners, `GetNearestChunk` returns the
      chunk of the map that holds a safe position if there is one, and
      nothing if there is none. */
  lemma GetNearestChunkFindsHolder(s: Manager, cfg: Config, pos: Vec3)
    requires Inv(s, cfg) && KeysAtCorners(s, cfg) && IsInt32(pos) && IsSafe(pos)
    ensures forall k :: k in s.chunks && InChunk(s.chunks[k].chunk, pos) ==>
      GetNearestChunk(s, cfg, pos) == Some(s.chunks[k].chunk)
    ensures (forall k :: k in s.chunks ==> !InChunk(s.chunks[k].chunk, pos)) ==>
      GetNearestChunk(s, cfg, pos) == None
  {
    forall k | k in s.chunks && InChunk(s.chunks[k].chunk, pos)
      ensures NearestChunkPosition(pos, cfg.chunkSize) == k
    {
      CornerHoldingIsNearest(pos, cfg.chunkSize, k);
    }
    if NearestChunkPosition(pos, cfg.chunkSize) in s.chunks {
      NearestEntryHolds(s, cfg, pos);
    }
  }

  /** `GetBlockAtPosition`: the contents of the cell at `pos` in the chunk
      at its nearest chunk position, or `None` (the original's null) when
      that chunk is not in the map or the cell is air. */
  function GetBlockAtPosition(s: Manager, cfg: Config, pos: Vec3): (r: Cell)
    requires ConfigOk(cfg) && IsInt32(pos) && HoldsPosition(s, cfg, pos)
    ensures NearestChunkPosition(pos, cfg.chunkSize) !in s.chunks ==> r == None
  {
    match GetNearestChunk(s, cfg, pos)
    case None => None
    case Some(c) => c.cells[WorldToLocalPosition(c.minCorner, pos)]
  }

  /** Until an edit changes it, the world reads back as the generator's
      terrain: any block read from an unmodified chunk is the generated type. */
  lemma UneditedWorldIsTerrain(s: Manager, cfg: Config, pos: Vec3)
    requires Inv(s, cfg) && IsInt32(pos) && IsSafe(pos)
    requires NearestChunkPosition(pos, cfg.chunkSize) in s.chunks
    requires !s.chunks[NearestChunkPosition(pos, cfg.chunkSize)].modified
    ensures HoldsPosition(s, cfg, pos)
    ensures GetBlockAtPosition(s, cfg, pos) == GetBlockType(cfg.generator, pos)
  {
    var k := NearestChunkPosition(pos, cfg.chunkSize);
    SafePositionHeld(s, cfg, pos);
    LocalWorldRoundTrip(k, pos);
  }

  /** A frame keeps the map keyed by safe corners when the load queue holds
      only safe corners, and what is left of the queue still does. */
  lemma UpdateKeepsCorners(s: Manager, cfg: Config, extraLoads: nat, updateDue: bool)
    requires Inv(s, cfg) && KeysAtCorners(s, cfg) && QueueAtCorners(s, cfg)
    ensures KeysAtCorners(Update(s, cfg, extraLoads, updateDue), cfg)
    ensures QueueAtCorners(Update(s, cfg, extraLoads, updateDue), cfg)
  {
    var n := FrameLoads(s, extraLoads);
    var r := Update(s, cfg, extraLoads, updateDue);
    forall k | k in r.chunks
      ensures IsSafe(k) && Aligned(k, cfg.chunkSize)
    {
      if k !in s.chunks {
        var i :| 0 <= i < n && s.loadQueue[..n][i] == k;
        assert s.loadQueue[i] == k;
      }
    }
    forall i | 0 <= i < |r.loadQueue|
      ensures IsSafe(r.loadQueue[i]) && Aligned(r.loadQueue[i], cfg.chunkSize)
    {
      assert r.loadQueue[i] == s.loadQueue[n + i];
    }
  }

  // ---------------------------------------------------------- streaming

  /** `UpdateLoadedChunks` for a player standing at `playerPos`. Nothing
      happens while the player stays in the chunk of the previous call.
      Otherwise the load queue is replaced by the in-range chunk positions
      around the player's chunk, and every chunk in the map outside that
      list is queued for unloading once, in the map's enumeration order. */
  method UpdateLoadedChunks(s: Manager, cfg: Config, playerPos: Vec3) returns (r: Manager)
    requires ConfigOk(cfg) && IsInt32(playerPos)
    ensures NearestChunkPosition(playerPos, cfg.chunkSize) == s.prevPlayerChunk ==> r == s
    ensures var pc := NearestChunkPosition(playerPos, cfg.chunkSize);
      pc != s.prevPlayerChunk ==>
        && r.prevPlayerChunk == pc
        && r.loadQueue == Reverse(Enumeration(pc, cfg.loadDistance, cfg.chunkSize))
        && (forall p :: p in r.loadQueue <==>
              exists dx, dy, dz :: InLoadRange(cfg.loadDistance, cfg.chunkSize, dx, dy, dz)
                && p == Candidate(pc, cfg.chunkSize, dx, dy, dz))
        && r.chunks == s.chunks && r.toUpdate == s.toUpdate
        && |s.unloadQueue| <= |r.unloadQueue| && r.unloadQueue[..|s.unloadQueue|] == s.unloadQueue
        && Distinct(r.unloadQueue[|s.unloadQueue|..])
        && (forall k :: k in r.unloadQueue[|s.unloadQueue|..] <==> k in s.chunks && k !in r.loadQueue)
    ensures s.chunks == map[] ==> r.unloadQueue == s.unloadQueue
    ensures NearestChunkPosition(playerPos, cfg.chunkSize) != s.prevPlayerChunk && IsSafe(playerPos) ==>
      forall i :: 0 <= i < |r.loadQueue| ==> Aligned(r.loadQueue[i], cfg.chunkSize)
  {
    var pc := NearestChunkPosition(playerPos, cfg.chunkSize);
    if pc == s.prevPlayerChunk {
      return s;
    }
    var positions := GetInRangeChunkPositions(pc, cfg.loadDistance, cfg.chunkSize);
    r := s.(prevPlayerChunk := pc, loadQueue := positions);
    var remaining := s.chunks.Keys;
    ghost var queued: seq<Vec3> := [];
    while remaining != {}
      invariant remaining <= s.chunks.Keys
      invariant r.chunks == s.chunks && r.prevPlayerChunk == pc && r.loadQueue == positions && r.toUpdate == s.toUpdate
      invariant r.unloadQueue == s.unloadQueue + queued
      invariant Distinct(queued)
      invariant forall k :: k in queued <==> k in s.chunks && k !in remaining && k !in positions
      invariant s.chunks == map[] ==> queued == []
      decreases |remaining|
    {
      var k :| k in remaining;
      if k !in positions {
        r := UnloadChunk(r, k);
        DistinctAppend(queued, [k]);
        queued := queued + [k];
      }
      remaining := remaining - {k};
    }
    assert r.unloadQueue[|s.unloadQueue|..] == queued;
    assert r.unloadQueue[..|s.unloadQueue|] == s.unloadQueue;
    if IsSafe(playerPos) {
      NearestIsAligned(playerPos, cfg.chunkSize);
      forall i | 0 <= i < |positions|
        ensures Aligned(positions[i], cfg.chunkSize)
      {
        LoadOrderAligned(pc, cfg.loadDistance, cfg.chunkSize, positions[i]);
      }
    }
  }

  /** The manager before its first `UpdateLoadedChunks`: empty map and queues,
      and the previous player chunk set to `int.MaxValue` on every axis. */
  const Fresh: Manager := Manager(map[], [], [], {}, Sentinel)

  /** `Initialize`: one `UpdateLoadedChunks` followed by
      `LoadChunksImmediately`. Unless the player's chunk position happens to
      equal the starting sentinel, every in-range chunk around the player is
      generated, active and meshed, and nothing else is in the map; if it
      does equal the sentinel, nothing is loaded at all. */
  method InitializeManager(cfg: Config, playerPos: Vec3) returns (r: Manager)
    requires ConfigOk(cfg) && IsInt32(playerPos)
    ensures Inv(r, cfg)
    ensures r.loadQueue == [] && r.unloadQueue == [] && r.toUpdate == {}
    ensures var pc := NearestChunkPosition(playerPos, cfg.chunkSize);
      pc != Sentinel ==>
        && r.prevPlayerChunk == pc
        && (forall p :: p in r.chunks <==>
              exists dx, dy, dz :: InLoadRange(cfg.loadDistance, cfg.chunkSize, dx, dy, dz)
                && p == Candidate(pc, cfg.chunkSize, dx, dy, dz))
        && (forall p :: p in r.chunks ==>
              && r.chunks[p].active && r.chunks[p].loaded && !r.chunks[p].modified
              && r.chunks[p].chunk == Initialize(cfg.generator, p, cfg.chunkSize))
    ensures NearestChunkPosition(playerPos, cfg.chunkSize) == Sentinel ==>
      r.chunks == map[] && r.prevPlayerChunk == Sentinel
    ensures IsSafe(playerPos) ==> forall p :: p in r.chunks ==> Aligned(p, cfg.chunkSize)
  {
    var s1 := UpdateLoadedChunks(Fresh, cfg, playerPos);
    r := LoadChunksImmediately(s1, cfg);
    LoadIntoEmptyMap(s1, cfg);
    if s1.prevPlayerChunk == Sentinel {
      assert forall p :: p !in r.chunks;
    }
  }

  /** Loading into an empty map brings in exactly the queued ids, each
      active, meshed, unmodified and as generated. */
  lemma LoadIntoEmptyMap(s: Manager, cfg: Config)
    requires ConfigOk(cfg) && s.chunks == map[]
    ensures var r := LoadChunksImmediately(s, cfg);
      && Inv(r, cfg)
      && (forall p :: p in r.chunks <==> p in s.loadQueue)
      && (forall p :: p in r.chunks ==>
            && r.chunks[p].active && r.chunks[p].loaded && !r.chunks[p].modified
            && r.chunks[p].chunk == Initialize(cfg.generator, p, cfg.chunkSize))
  {
    LoadAllPreservesInv(s, cfg);
  }

  /** With a safe player position, or a chunk size whose x axis does not
      divide 2^30 + 2, initialisation loads the chunks around the player. */
  lemma InitializeLoadsAroundPlayer(cfg: Config, playerPos: Vec3)
    requires ConfigOk(cfg) && IsInt32(playerPos)
    requires IsSafe(playerPos) || SentinelDividend % cfg.chunkSize.x != 0
    ensures NearestChunkPosition(playerPos, cfg.chunkSize) != Sentinel
  {
    FirstUpdateRecomputes(playerPos, cfg.chunkSize);
  }

  // ------------------------------------------------------------ editing

  /** Every position is a `Vector3Int`. */
  predicate AllInt32(positions: seq<Vec3>) {
    forall i :: 0 <= i < |positions| ==> IsInt32(positions[i])
  }

  /** The chunk position of each point, in order. */
  function ChunkPositionsOf(points: seq<Vec3>, chunkSize: Vec3): (r: seq<Vec3>)
    requires AllInt32(points) && PositiveSize(chunkSize)
    ensures |r| == |points|
    ensures forall i :: 0 <= i < |points| ==> r[i] == NearestChunkPosition(points[i], chunkSize)
  {
    if |points| == 0 then []
    else [NearestChunkPosition(points[0], chunkSize)] + ChunkPositionsOf(points[1..], chunkSize)
  }

  /** The chunk positions `ModifyBlocks` looks up for the edited positions. */
  function EditTargets(positions: seq<Vec3>, chunkSize: Vec3): set<Vec3>
    requires AllInt32(positions) && PositiveSize(chunkSize)
  {
    set k | k in ChunkPositionsOf(positions, chunkSize)
  }

  /** The 27 offsets `(dx, dy, dz)` with every component in `{-1, 0, 1}`. */
  function Neighbourhood(): (r: seq<Vec3>)
    ensures |r| == 27
  {
    seq(27, n => Vec3(n / 9 - 1, n / 3 % 3 - 1, n % 3 - 1))
  }

  /** Each offset of the neighbourhood is at most one step on every axis. */
  predicate UnitBox(d: Vec3) {
    -1 <= d.x <= 1 && -1 <= d.y <= 1 && -1 <= d.z <= 1
  }

  lemma NeighbourhoodIsUnitBox(d: Vec3)
    ensures d in Neighbourhood() <==> UnitBox(d)
  {
    if UnitBox(d) {
      var n := (d.x + 1) * 9 + (d.y + 1) * 3 + (d.z + 1);
      assert Neighbourhood()[n] == d;
    }
  }

  /** Every position within one step, diagonals included, of an edited
      position (`pos + dpos` wraps like `int`). */
  function AroundAll(positions: seq<Vec3>): (r: seq<Vec3>)
    requires AllInt32(positions)
    ensures AllInt32(r)
  {
    if |positions| == 0 then []
    else seq(27, j requires 0 <= j < 27 => Add32(positions[0], Neighbourhood()[j])) + AroundAll(positions[1..])
  }

  lemma {:induction false} AroundAllMembers(positions: seq<Vec3>, i: nat, d: Vec3)
    requires AllInt32(positions) && i < |positions| && d in Neighbourhood()
    ensures Add32(positions[i], d) in AroundAll(positions)
  {
    var j :| 0 <= j < 27 && Neighbourhood()[j] == d;
    if i == 0 {
      assert AroundAll(positions)[j] == Add32(positions[0], d);
    } else {
      AroundAllMembers(positions[1..], i - 1, d);
    }
  }

  /** Every surrounding position is an edited position plus an offset of
      the neighbourhood. */
  lemma {:induction false} AroundAllOnly(positions: seq<Vec3>, m: nat)
    requires AllInt32(positions) && m < |AroundAll(positions)|
    ensures exists i, d :: 0 <= i < |positions| && UnitBox(d) && AroundAll(positions)[m] == Add32(positions[i], d)
  {
    if m < 27 {
      var d := Neighbourhood()[m];
      NeighbourhoodIsUnitBox(d);
      assert AroundAll(positions)[m] == Add32(positions[0], d);
    } else {
      assert AroundAll(positions)[m] == AroundAll(positions[1..])[m - 27];
      AroundAllOnly(positions[1..], m - 27);
      var i, d :| 0 <= i < |positions[1..]| && UnitBox(d) && AroundAll(positions[1..])[m - 27] == Add32(positions[1..][i], d);
      assert positions[1..][i] == positions[i + 1];
    }
  }

  /** The chunk positions of every position around an edited one. */
  function Surrounding(positions: seq<Vec3>, chunkSize: Vec3): set<Vec3>
    requires AllInt32(positions) && PositiveSize(chunkSize)
  {
    set k | k in ChunkPositionsOf(AroundAll(positions), chunkSize)
  }

  /** The surrounding chunk positions are exactly the nearest chunk
      positions of the edited positions moved by at most one step on every
      axis, diagonals included. */
  lemma SurroundingChunks(positions: seq<Vec3>, chunkSize: Vec3, k: Vec3)
    requires AllInt32(positions) && PositiveSize(chunkSize)
    ensures k in Surrounding(positions, chunkSize) <==>
      exists i, d :: 0 <= i < |positions| && UnitBox(d) &&
        k == NearestChunkPosition(Add32(positions[i], d), chunkSize)
  {
    if k in Surrounding(positions, chunkSize) {
      SurroundingOnly(positions, chunkSize, k);
    }
    if exists i, d :: 0 <= i < |positions| && UnitBox(d) && k == NearestChunkPosition(Add32(positions[i], d), chunkSize) {
      var i, d :| 0 <= i < |positions| && UnitBox(d) && k == NearestChunkPosition(Add32(positions[i], d), chunkSize);
      AroundEditSurrounds(positions, chunkSize, i, d);
    }
  }

  lemma SurroundingOnly(positions: seq<Vec3>, chunkSize: Vec3, k: Vec3)
    requires AllInt32(positions) && PositiveSize(chunkSize)
    requires k in Surrounding(positions, chunkSize)
    ensures exists i, d ::
      0 <= i < |positions| && UnitBox(d) && k == NearestChunkPosition(Add32(positions[i], d), chunkSize)
  {
    var around := AroundAll(positions);
    var cs := ChunkPositionsOf(around, chunkSize);
    var m :| 0 <= m < |cs| && cs[m] == k;
    AroundAllOnly(positions, m);
    var i, d :| 0 <= i < |positions| && UnitBox(d) && around[m] == Add32(positions[i], d);
    assert k == NearestChunkPosition(around[m], chunkSize);
  }

  /** The chunk of a position one step, at most, from an edited one is a
      surrounding chunk position. */
  lemma AroundEditSurrounds(positions: seq<Vec3>, chunkSize: Vec3, i: nat, d: Vec3)
    requires AllInt32(positions) && PositiveSize(chunkSize) && i < |positions| && UnitBox(d)
    ensures NearestChunkPosition(Add32(positions[i], d), chunkSize) in Surrounding(positions, chunkSize)
  {
    var around := AroundAll(positions);
    var cs := ChunkPositionsOf(around, chunkSize);
    NeighbourhoodIsUnitBox(d);
    AroundAllMembers(positions, i, d);
    var m :| 0 <= m < |around| && around[m] == Add32(positions[i], d);
    assert cs[m] == NearestChunkPosition(Add32(positions[i], d), chunkSize);
  }

  /** The chunks an edit reaches are among the surrounding ones (offset
      `(0, 0, 0)`). */
  lemma TargetsAreSurrounding(positions: seq<Vec3>, chunkSize: Vec3)
    requires AllInt32(positions) && PositiveSize(chunkSize)
    ensures EditTargets(positions, chunkSize) <= Surrounding(positions, chunkSize)
  {
    var cs := ChunkPositionsOf(positions, chunkSize);
    forall k | k in EditTargets(positions, chunkSize)
      ensures k in Surrounding(positions, chunkSize)
    {
      var i :| 0 <= i < |cs| && cs[i] == k;
      TargetSurrounds(positions, chunkSize, i);
    }
  }

  lemma TargetSurrounds(positions: seq<Vec3>, chunkSize: Vec3, i: nat)
    requires AllInt32(positions) && PositiveSize(chunkSize) && i < |positions|
    ensures NearestChunkPosition(positions[i], chunkSize) in Surrounding(positions, chunkSize)
  {
    AddOrigin(positions[i]);
    AroundEditSurrounds(positions, chunkSize, i, Origin);
  }

  lemma AddOrigin(p: Vec3)
    requires IsInt32(p)
    ensures Add32(p, Origin) == p
  {
    WrapOfInRange(p.x);
    WrapOfInRange(p.y);
    WrapOfInRange(p.z);
  }

  /** Each chunk of `chunks` among `targets` has a grid and a block for every
      position that falls in it (a missing block makes the original throw). */
  ghost predicate CoveredIn(chunks: map<Vec3, Entry>, targets: set<Vec3>, positions: seq<Vec3>, newBlocks: seq<Block>) {
    forall k :: k in chunks && k in targets ==>
      Valid(chunks[k].chunk) && EditsCovered(chunks[k].chunk, positions, newBlocks)
  }

  /** The precondition of `ModifyBlocks`: every chunk the edit reaches can take it. */
  ghost predicate ModifyCovered(s: Manager, cfg: Config, positions: seq<Vec3>, newBlocks: seq<Block>)
    requires ConfigOk(cfg) && AllInt32(positions)
  {
    CoveredIn(s.chunks, EditTargets(positions, cfg.chunkSize), positions, newBlocks)
  }

  /** The chunk's `ModifyBlocks`: `UpdateBlocks`, whose rebuild is a mesh
      build (so the chunk is loaded afterwards), and the modified flag
      raised when a cell changed. The chunk keeps its corner and size; it
      builds its mesh at most once, and becomes modified and loaded when it
      does. */
  function EditEntry(e: Entry, positions: seq<Vec3>, newBlocks: seq<Block>): (r: Entry)
    requires Valid(e.chunk) && EditsCovered(e.chunk, positions, newBlocks)
    ensures Valid(r.chunk) && r.chunk.minCorner == e.chunk.minCorner && r.chunk.size == e.chunk.size
    ensures e.meshBuilds <= r.meshBuilds <= e.meshBuilds + 1
    ensures r.modified == (e.modified || r.meshBuilds > e.meshBuilds)
    ensures r.loaded == (e.loaded || r.meshBuilds > e.meshBuilds)
    ensures r.active == e.active && r.updateCalls == e.updateCalls
  {
    var (c, changed) := UpdateBlocks(e.chunk, positions, newBlocks);
    e.(chunk := c, modified := e.modified || changed, loaded := e.loaded || changed,
       meshBuilds := e.meshBuilds + if changed then 1 else 0)
  }

  /** What the chunk's `ModifyBlocks` leaves in it: every cell holds what
      the edits leave there, and the mesh is rebuilt exactly when some edit
      overwrote a cell. */
  lemma EditEntryEffect(e: Entry, positions: seq<Vec3>, newBlocks: seq<Block>)
    requires Valid(e.chunk) && EditsCovered(e.chunk, positions, newBlocks)
    ensures forall q :: q in e.chunk.cells ==>
      EditEntry(e, positions, newBlocks).chunk.cells[q] == ContentsAfter(e.chunk, positions, newBlocks, q, |positions|)
    ensures EditEntry(e, positions, newBlocks).meshBuilds > e.meshBuilds <==>
      exists i :: 0 <= i < |positions| && Overwrites(e.chunk, positions, newBlocks, i)
  {
  }

  /** The chunks among `targets` in which some edit overwrote a cell. */
  function Changed(chunks: map<Vec3, Entry>, targets: set<Vec3>, positions: seq<Vec3>, newBlocks: seq<Block>): set<Vec3>
    requires CoveredIn(chunks, targets, positions, newBlocks)
  {
    set k | k in chunks && k in targets && UpdateBlocks(chunks[k].chunk, positions, newBlocks).1
  }

  /** The map after the edit: targets apply it, and chunks in `rebuild`
      build their mesh once more, which leaves them loaded. */
  function EditChunks(chunks: map<Vec3, Entry>, targets: set<Vec3>, rebuild: set<Vec3>,
                      positions: seq<Vec3>, newBlocks: seq<Block>): map<Vec3, Entry>
    requires CoveredIn(chunks, targets, positions, newBlocks)
  {
    map k | k in chunks ::
      var e := if k in targets then EditEntry(chunks[k], positions, newBlocks) else chunks[k];
      if k in rebuild then e.(loaded := true, meshBuilds := e.meshBuilds + 1) else e
  }

  /** `ModifyBlocks`: every chunk in the map that holds one of the positions
      applies the whole edit list; a chunk that changed is scheduled for
      `UpdateChunk`; and if any changed, every chunk in the map within one
      block of an edited position rebuilds its mesh. Returns whether any
      chunk changed. */
  function ModifyBlocks(s: Manager, cfg: Config, positions: seq<Vec3>, newBlocks: seq<Block>): (r: (Manager, bool))
    requires ConfigOk(cfg) && AllInt32(positions) && ModifyCovered(s, cfg, positions, newBlocks)
    ensures r.0.chunks.Keys == s.chunks.Keys
    ensures r.0.loadQueue == s.loadQueue && r.0.unloadQueue == s.unloadQueue
    ensures r.0.prevPlayerChunk == s.prevPlayerChunk
  {
    var targets := EditTargets(positions, cfg.chunkSize);
    var changed := Changed(s.chunks, targets, positions, newBlocks);
    var rebuild := if changed != {} then targets + Surrounding(positions, cfg.chunkSize) else {};
    (s.(chunks := EditChunks(s.chunks, targets, rebuild, positions, newBlocks),
        toUpdate := s.toUpdate + changed),
     changed != {})
  }

  /** What `ModifyBlocks` does to the entry at `k`: a target applies the edit
      list and raises its modified flag exactly when a cell changed; any other
      chunk keeps its voxels and flag. */
  lemma ModifiedEntry(s: Manager, cfg: Config, positions: seq<Vec3>, newBlocks: seq<Block>, k: Vec3)
    requires ConfigOk(cfg) && AllInt32(positions) && ModifyCovered(s, cfg, positions, newBlocks)
    requires k in s.chunks
    ensures var e := s.chunks[k];
      var e' := ModifyBlocks(s, cfg, positions, newBlocks).0.chunks[k];
      && e'.active == e.active && e'.updateCalls == e.updateCalls
      && e'.loaded == (e.loaded || e'.meshBuilds > e.meshBuilds)
      && (k in EditTargets(positions, cfg.chunkSize) ==>
            e'.chunk == UpdateBlocks(e.chunk, positions, newBlocks).0 &&
            e'.modified == (e.modified || UpdateBlocks(e.chunk, positions, newBlocks).1))
      && (k !in EditTargets(positions, cfg.chunkSize) ==> e'.chunk == e.chunk && e'.modified == e.modified)
  {
  }

  /** `ModifyBlocks` reports a change exactly when some edit overwrote a cell
      of a chunk it reached. */
  lemma ModifyReportsChange(s: Manager, cfg: Config, positions: seq<Vec3>, newBlocks: seq<Block>)
    requires ConfigOk(cfg) && AllInt32(positions) && ModifyCovered(s, cfg, positions, newBlocks)
    ensures ModifyBlocks(s, cfg, positions, newBlocks).1 <==>
      exists k, i :: k in s.chunks && k in EditTargets(positions, cfg.chunkSize) &&
        0 <= i < |positions| && Overwrites(s.chunks[k].chunk, positions, newBlocks, i)
  {
    var targets := EditTargets(positions, cfg.chunkSize);
    var changed := Changed(s.chunks, targets, positions, newBlocks);
    if changed != {} {
      var k :| k in changed;
      var i :| 0 <= i < |positions| && Overwrites(s.chunks[k].chunk, positions, newBlocks, i);
    }
  }

  /** The chunks scheduled for `UpdateChunk` afterwards are those already
      scheduled and those in which an edit overwrote a cell. */
  lemma ModifySchedulesChangedChunks(s: Manager, cfg: Config, positions: seq<Vec3>, newBlocks: seq<Block>, k: Vec3)
    requires ConfigOk(cfg) && AllInt32(positions) && ModifyCovered(s, cfg, positions, newBlocks)
    ensures k in ModifyBlocks(s, cfg, positions, newBlocks).0.toUpdate <==>
      k in s.toUpdate ||
      (k in s.chunks && k in EditTargets(positions, cfg.chunkSize) &&
       exists i :: 0 <= i < |positions| && Overwrites(s.chunks[k].chunk, positions, newBlocks, i))
  {
  }

  /** An edit that changes no cell leaves the manager exactly as it was: no
      chunk is marked modified, rebuilt or scheduled. */
  lemma ModifyWithoutChangeIsIdentity(s: Manager, cfg: Config, positions: seq<Vec3>, newBlocks: seq<Block>)
    requires ConfigOk(cfg) && AllInt32(positions) && ModifyCovered(s, cfg, positions, newBlocks)
    ensures !ModifyBlocks(s, cfg, positions, newBlocks).1 ==> ModifyBlocks(s, cfg, positions, newBlocks).0 == s
  {
    var r := ModifyBlocks(s, cfg, positions, newBlocks);
    var targets := EditTargets(positions, cfg.chunkSize);
    if !r.1 {
      forall k | k in s.chunks
        ensures r.0.chunks[k] == s.chunks[k]
      {
        if k in targets {
          UnchangedMeansSame(s.chunks[k].chunk, positions, newBlocks);
          assert k !in Changed(s.chunks, targets, positions, newBlocks);
        }
      }
      assert r.0.chunks == s.chunks;
    }
  }

  /** Writing back what every reached cell already holds changes nothing. */
  lemma NoOpModifyChangesNothing(s: Manager, cfg: Config, positions: seq<Vec3>, newBlocks: seq<Block>)
    requires ConfigOk(cfg) && AllInt32(positions) && ModifyCovered(s, cfg, positions, newBlocks)
    requires forall k, i :: (k in s.chunks && k in EditTargets(positions, cfg.chunkSize) &&
      0 <= i < |positions| && InChunk(s.chunks[k].chunk, positions[i])) ==>
        var c := s.chunks[k].chunk;
        newBlocks[i].blockType == c.cells[WorldToLocalPosition(c.minCorner, positions[i])]
    ensures ModifyBlocks(s, cfg, positions, newBlocks) == (s, false)
  {
    var targets := EditTargets(positions, cfg.chunkSize);
    forall k | k in s.chunks && k in targets
      ensures !UpdateBlocks(s.chunks[k].chunk, positions, newBlocks).1
    {
      NoOpEditsChangeNothing(s.chunks[k].chunk, positions, newBlocks);
    }
    ModifyReportsChange(s, cfg, positions, newBlocks);
    ModifyWithoutChangeIsIdentity(s, cfg, positions, newBlocks);
  }

  /** A chunk the edit does not reach keeps its voxels and flag; one that is
      neither reached nor around an edited position is not touched at all. */
  lemma ModifyKeepsOtherChunks(s: Manager, cfg: Config, positions: seq<Vec3>, newBlocks: seq<Block>, k: Vec3)
    requires ConfigOk(cfg) && AllInt32(positions) && ModifyCovered(s, cfg, positions, newBlocks)
    requires k in s.chunks && k !in EditTargets(positions, cfg.chunkSize)
    ensures ModifyBlocks(s, cfg, positions, newBlocks).0.chunks[k].chunk == s.chunks[k].chunk
    ensures ModifyBlocks(s, cfg, positions, newBlocks).0.chunks[k].modified == s.chunks[k].modified
    ensures k !in Surrounding(positions, cfg.chunkSize) ==>
      ModifyBlocks(s, cfg, positions, newBlocks).0.chunks[k] == s.chunks[k]
  {
  }

  /** `ModifyBlocks` keeps the manager invariant: a chunk keeps its corner
      and size, and one left unchanged keeps its flag and voxels. */
  lemma ModifyPreservesInv(s: Manager, cfg: Config, positions: seq<Vec3>, newBlocks: seq<Block>)
    requires Inv(s, cfg) && AllInt32(positions) && ModifyCovered(s, cfg, positions, newBlocks)
    ensures Inv(ModifyBlocks(s, cfg, positions, newBlocks).0, cfg)
  {
    var r := ModifyBlocks(s, cfg, positions, newBlocks).0;
    forall k | k in r.chunks
      ensures && Valid(r.chunks[k].chunk)
              && r.chunks[k].chunk.minCorner == k
              && r.chunks[k].chunk.size == cfg.chunkSize
              && (!r.chunks[k].modified ==> r.chunks[k].chunk == Initialize(cfg.generator, k, cfg.chunkSize))
    {
      ModifiedEntry(s, cfg, positions, newBlocks, k);
      if k in EditTargets(positions, cfg.chunkSize) {
        UnchangedMeansSame(s.chunks[k].chunk, positions, newBlocks);
      }
    }
  }

  /** In the chunk that holds edited position `i`, the cell of that position
      ends up holding its new block unless a later edit targets the same
      position. */
  lemma ModifyWritesCell(s: Manager, cfg: Config, positions: seq<Vec3>, newBlocks: seq<Block>, i: nat)
    requires ConfigOk(cfg) && AllInt32(positions) && ModifyCovered(s, cfg, positions, newBlocks)
    requires i < |positions| && NearestChunkPosition(positions[i], cfg.chunkSize) in s.chunks
    requires InChunk(s.chunks[NearestChunkPosition(positions[i], cfg.chunkSize)].chunk, positions[i])
    requires forall j :: i < j < |positions| ==> positions[j] != positions[i]
    ensures var k := NearestChunkPosition(positions[i], cfg.chunkSize);
      var c := s.chunks[k].chunk;
      var c' := ModifyBlocks(s, cfg, positions, newBlocks).0.chunks[k].chunk;
      c'.minCorner == c.minCorner &&
      c'.cells[WorldToLocalPosition(c.minCorner, positions[i])] == newBlocks[i].blockType
  {
    var k := NearestChunkPosition(positions[i], cfg.chunkSize);
    var c := s.chunks[k].chunk;
    assert ChunkPositionsOf(positions, cfg.chunkSize)[i] == k;
    ModifiedEntry(s, cfg, positions, newBlocks, k);
    forall j | i < j < |positions| && InChunk(c, positions[j])
      ensures WorldToLocalPosition(c.minCorner, positions[j]) != WorldToLocalPosition(c.minCorner, positions[i])
    {
      SubAddRoundTrip(positions[j], c.minCorner);
      SubAddRoundTrip(positions[i], c.minCorner);
    }
    LastEditWins(c, positions, newBlocks, i);
  }

  /** The last edit of a safe position whose chunk is in the map is what
      `GetBlockAtPosition` reads there afterwards. */
  lemma ModifyReadsBack(s: Manager, cfg: Config, positions: seq<Vec3>, newBlocks: seq<Block>, i: nat)
    requires Inv(s, cfg) && AllInt32(positions) && ModifyCovered(s, cfg, positions, newBlocks)
    requires i < |positions| && IsSafe(positions[i])
    requires NearestChunkPosition(positions[i], cfg.chunkSize) in s.chunks
    requires forall j :: i < j < |positions| ==> positions[j] != positions[i]
    ensures Inv(ModifyBlocks(s, cfg, positions, newBlocks).0, cfg)
    ensures HoldsPosition(ModifyBlocks(s, cfg, positions, newBlocks).0, cfg, positions[i])
    ensures GetBlockAtPosition(ModifyBlocks(s, cfg, positions, newBlocks).0, cfg, positions[i]) == newBlocks[i].blockType
  {
    ModifyPreservesInv(s, cfg, positions, newBlocks);
    SafePositionHeld(ModifyBlocks(s, cfg, positions, newBlocks).0, cfg, positions[i]);
    NearestEntryHolds(s, cfg, positions[i]);
    ModifyWritesCell(s, cfg, positions, newBlocks, i);
  }

  /** How often `ModifyBlocks` builds each chunk's mesh. When some chunk
      changed, every chunk of the map among the reached and the surrounding
      chunk positions builds once (the fan-out); a reached chunk in which an
      edit overwrote a cell has already built once more inside its own
      `UpdateBlocks`. No other chunk builds. */
  lemma ModifyRebuildsNeighbours(s: Manager, cfg: Config, positions: seq<Vec3>, newBlocks: seq<Block>, k: Vec3)
    requires ConfigOk(cfg) && AllInt32(positions) && ModifyCovered(s, cfg, positions, newBlocks)
    requires k in s.chunks
    ensures var r := ModifyBlocks(s, cfg, positions, newBlocks);
      var targets := EditTargets(positions, cfg.chunkSize);
      r.0.chunks[k].meshBuilds == s.chunks[k].meshBuilds
        + (if r.1 && k in targets + Surrounding(positions, cfg.chunkSize) then 1 else 0)
        + (if k in targets && UpdateBlocks(s.chunks[k].chunk, positions, newBlocks).1 then 1 else 0)
  {
    var targets := EditTargets(positions, cfg.chunkSize);
    var changed := Changed(s.chunks, targets, positions, newBlocks);
    var rebuild := if changed != {} then targets + Surrounding(positions, cfg.chunkSize) else {};
    EditChunksBuilds(s.chunks, targets, rebuild, positions, newBlocks, k);
  }

  /** A chunk builds once more for being in `rebuild`, and once more when
      it is a target whose edit changed a cell. */
  lemma EditChunksBuilds(chunks: map<Vec3, Entry>, targets: set<Vec3>, rebuild: set<Vec3>,
                         positions: seq<Vec3>, newBlocks: seq<Block>, k: Vec3)
    requires CoveredIn(chunks, targets, positions, newBlocks)
    requires k in chunks
    ensures EditChunks(chunks, targets, rebuild, positions, newBlocks)[k].meshBuilds == chunks[k].meshBuilds
      + (if k in rebuild then 1 else 0)
      + (if k in targets && UpdateBlocks(chunks[k].chunk, positions, newBlocks).1 then 1 else 0)
  {
  }

  /** With the map keyed by safe corners, a chunk of the map that holds a
      safe position within one step of an edited one, diagonals included,
      is a surrounding chunk position, so it builds its mesh again whenever
      the edit changed anything. */
  lemma NearbyHolderRebuilds(s: Manager, cfg: Config, positions: seq<Vec3>, newBlocks: seq<Block>,
                             i: nat, d: Vec3, k: Vec3)
    requires Inv(s, cfg) && KeysAtCorners(s, cfg) && AllInt32(positions) && ModifyCovered(s, cfg, positions, newBlocks)
    requires i < |positions| && UnitBox(d) && IsSafe(Add32(positions[i], d))
    requires k in s.chunks && InChunk(s.chunks[k].chunk, Add32(positions[i], d))
    ensures k in Surrounding(positions, cfg.chunkSize)
    ensures ModifyBlocks(s, cfg, positions, newBlocks).1 ==>
      ModifyBlocks(s, cfg, positions, newBlocks).0.chunks[k].meshBuilds > s.chunks[k].meshBuilds
  {
    var w := Add32(positions[i], d);
    CornerHoldingIsNearest(w, cfg.chunkSize, k);
    AroundEditSurrounds(positions, cfg.chunkSize, i, d);
    ModifyRebuildsNeighbours(s, cfg, positions, newBlocks, k);
  }

  /** A single edit reaches only the chunk at its position's nearest chunk position. */
  lemma SingleEditTarget(position: Vec3, chunkSize: Vec3)
    requires IsInt32(position) && PositiveSize(chunkSize)
    ensures AllInt32([position])
    ensures EditTargets([position], chunkSize) == {NearestChunkPosition(position, chunkSize)}
  {
    assert AllInt32([position]);
    assert ChunkPositionsOf([position], chunkSize) == [NearestChunkPosition(position, chunkSize)];
  }

  /** The chunk a single edit reaches, if it is in the map, has a grid. */
  ghost predicate TargetHasGrid(s: Manager, cfg: Config, position: Vec3)
    requires ConfigOk(cfg) && IsInt32(position)
  {
    var k := NearestChunkPosition(position, cfg.chunkSize);
    k in s.chunks ==> Valid(s.chunks[k].chunk)
  }

  lemma SingleEditCovered(s: Manager, cfg: Config, position: Vec3, newBlock: Block)
    requires ConfigOk(cfg) && IsInt32(position) && TargetHasGrid(s, cfg, position)
    ensures AllInt32([position]) && ModifyCovered(s, cfg, [position], [newBlock])
  {
    assert AllInt32([position]);
    forall k | k in s.chunks && k in EditTargets([position], cfg.chunkSize)
      ensures Valid(s.chunks[k].chunk) && EditsCovered(s.chunks[k].chunk, [position], [newBlock])
    {
    }
  }

  /** `ModifyBlock`: `ModifyBlocks` with a single edit. */
  function ModifyBlock(s: Manager, cfg: Config, position: Vec3, newBlock: Block): (r: (Manager, bool))
    requires ConfigOk(cfg) && IsInt32(position) && TargetHasGrid(s, cfg, position)
    ensures r.0.chunks.Keys == s.chunks.Keys
    ensures NearestChunkPosition(position, cfg.chunkSize) !in s.chunks ==> r == (s, false)
  {
    SingleEditCovered(s, cfg, position, newBlock);
    ModifyReportsChange(s, cfg, [position], [newBlock]);
    ModifyWithoutChangeIsIdentity(s, cfg, [position], [newBlock]);
    ModifyBlocks(s, cfg, [position], [newBlock])
  }

  /** A single edit at a safe position in a chunk of the map reports a
      change exactly when the block there differs from the new one, and the
      new block reads back afterwards. */
  lemma ModifyBlockReadsBack(s: Manager, cfg: Config, position: Vec3, newBlock: Block)
    requires Inv(s, cfg) && IsInt32(position) && IsSafe(position)
    requires NearestChunkPosition(position, cfg.chunkSize) in s.chunks
    ensures TargetHasGrid(s, cfg, position) && HoldsPosition(s, cfg, position)
    ensures Inv(ModifyBlock(s, cfg, position, newBlock).0, cfg)
    ensures HoldsPosition(ModifyBlock(s, cfg, position, newBlock).0, cfg, position)
    ensures GetBlockAtPosition(ModifyBlock(s, cfg, position, newBlock).0, cfg, position) == newBlock.blockType
    ensures ModifyBlock(s, cfg, position, newBlock).1 <==> GetBlockAtPosition(s, cfg, position) != newBlock.blockType
  {
    NearestEntryHolds(s, cfg, position);
    SafePositionHeld(s, cfg, position);
    SingleEditCovered(s, cfg, position, newBlock);
    ModifyReadsBack(s, cfg, [position], [newBlock], 0);
    ModifyReportsChange(s, cfg, [position], [newBlock]);
    var k := NearestChunkPosition(position, cfg.chunkSize);
    var c := s.chunks[k].chunk;
    SingleEditTarget(position, cfg.chunkSize);
    assert Overwrites(c, [position], [newBlock], 0) <==>
      c.cells[WorldToLocalPosition(c.minCorner, position)] != newBlock.blockType;
  }
}
