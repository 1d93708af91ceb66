/** Chunk-space arithmetic of `ChunkManager.cs`: the corner of the chunk
    holding a position, and the chunk corners within load range. */
module ChunkGrid {
  import opened Int32
  import opened Vectors
  import opened Seqs

  /** `int.MaxValue / 2`, added before dividing so that the dividend stays
      non-negative over the usable range. */
  const Offset: int := MaxValue / 2

  /** The `_prevPlayerChunk` value installed by `Initialize`. */
  const Sentinel: Vec3 := Vec3(MaxValue, MaxValue, MaxValue)

  predicate PositiveSize(s: Vec3) {
    s.x > 0 && s.y > 0 && s.z > 0
  }

  /** The coordinates for which adding `Offset` does not wrap around. */
  predicate SafeCoordinate(v: int) {
    -Offset <= v <= MaxValue - Offset
  }

  predicate IsSafe(p: Vec3) {
    SafeCoordinate(p.x) && SafeCoordinate(p.y) && SafeCoordinate(p.z)
  }

  /** `c` is the corner, along one axis, of the chunk holding `v`: chunk
      corners are congruent to `-Offset` modulo the chunk size (not multiples
      of it), and the chunk spans `[c, c + size)`. */
  predicate IsCornerOf(c: int, v: int, size: int)
    requires size > 0
  {
    c <= v < c + size && (c + Offset) % size == 0
  }

  /** One axis of `GetNearestChunkPosition`, with every `int` operation
      wrapping around as in C#. */
  function NearestAxis(v: int, size: int): (c: int)
    requires Int32.InRange(v) && size > 0
    ensures Int32.InRange(c)
  {
    var shifted := Wrap(v + Offset);
    var q := Wrap(Div(shifted, size) * size);
    Wrap(q - Offset)
  }

  /** Over the safe range the offset trick computes the corner of the chunk
      holding `v`, and that corner is itself safe. */
  lemma NearestAxisIsCorner(v: int, size: int)
    requires Int32.InRange(v) && size > 0 && SafeCoordinate(v)
    ensures IsCornerOf(NearestAxis(v, size), v, size)
    ensures SafeCoordinate(NearestAxis(v, size))
  {
    var shifted := v + Offset;
    WrapOfInRange(shifted);
    var q := Div(shifted, size) * size;
    DivTimesInRange(shifted, size);
    WrapOfInRange(q);
    ProductNonNegative(Div(shifted, size), size);
    WrapOfInRange(q - Offset);
    MultipleMod(Div(shifted, size), size);
  }

  /** Along an axis, the chunk holding `v` has exactly one corner. */
  lemma CornerUnique(c1: int, c2: int, v: int, size: int)
    requires size > 0
    requires IsCornerOf(c1, v, size) && IsCornerOf(c2, v, size)
    ensures c1 == c2
  {
    var k1, k2 := (c1 + Offset) / size, (c2 + Offset) / size;
    assert c1 + Offset == k1 * size;
    assert c2 + Offset == k2 * size;
    assert c1 - c2 == (k1 - k2) * size;
    if k1 - k2 >= 1 {
      ProductNonNegative(k1 - k2 - 1, size);
    } else if k2 - k1 >= 1 {
      ProductNonNegative(k2 - k1 - 1, size);
    }
  }

  /** `GetNearestChunkPosition`. */
  function NearestChunkPosition(p: Vec3, size: Vec3): (c: Vec3)
    requires IsInt32(p) && PositiveSize(size)
    ensures IsInt32(c)
  {
    Vec3(NearestAxis(p.x, size.x), NearestAxis(p.y, size.y), NearestAxis(p.z, size.z))
  }

  /** The chunk of a safe position `p` spans `[c, c + size)` on every axis. */
  predicate ChunkHolds(c: Vec3, size: Vec3, p: Vec3) {
    && c.x <= p.x < c.x + size.x
    && c.y <= p.y < c.y + size.y
    && c.z <= p.z < c.z + size.z
  }

  /** Over the safe range, `GetNearestChunkPosition` returns the corner of the
      chunk that holds `p` (congruent to `-Offset` on every axis), and it is
      idempotent. */
  lemma NearestChunkPositionHolds(p: Vec3, size: Vec3)
    requires IsInt32(p) && PositiveSize(size) && IsSafe(p)
    ensures ChunkHolds(NearestChunkPosition(p, size), size, p)
    ensures IsSafe(NearestChunkPosition(p, size))
    ensures NearestChunkPosition(NearestChunkPosition(p, size), size) == NearestChunkPosition(p, size)
  {
    var c := NearestChunkPosition(p, size);
    NearestAxisIsCorner(p.x, size.x);
    NearestAxisIsCorner(p.y, size.y);
    NearestAxisIsCorner(p.z, size.z);
    NearestAxisIsCorner(c.x, size.x);
    NearestAxisIsCorner(c.y, size.y);
    NearestAxisIsCorner(c.z, size.z);
    CornerUnique(NearestAxis(c.x, size.x), c.x, c.x, size.x);
    CornerUnique(NearestAxis(c.y, size.y), c.y, c.y, size.y);
    CornerUnique(NearestAxis(c.z, size.z), c.z, c.z, size.z);
  }

  /** Along one axis, a safe coordinate's offset from its chunk corner,
      computed with wrap-around, lies in `[0, size)`. */
  lemma AxisOffsetInChunk(v: int, size: int)
    requires Int32.InRange(v) && size > 0 && SafeCoordinate(v)
    ensures 0 <= Wrap(v - NearestAxis(v, size)) < size
  {
    NearestAxisIsCorner(v, size);
    WrapOfInRange(v - NearestAxis(v, size));
  }

  /** A safe position's offset from its chunk corner, as `Vector3Int`
      subtraction computes it, lies inside the chunk. */
  lemma OffsetInChunk(p: Vec3, size: Vec3)
    requires IsInt32(p) && PositiveSize(size) && IsSafe(p)
    ensures var d := Sub32(p, NearestChunkPosition(p, size));
      0 <= d.x < size.x && 0 <= d.y < size.y && 0 <= d.z < size.z
  {
    AxisOffsetInChunk(p.x, size.x);
    AxisOffsetInChunk(p.y, size.y);
    AxisOffsetInChunk(p.z, size.z);
  }

  /** Any aligned corner whose chunk holds a safe `p` is the one
      `GetNearestChunkPosition` returns. */
  lemma NearestChunkPositionUnique(p: Vec3, size: Vec3, c: Vec3)
    requires IsInt32(p) && PositiveSize(size) && IsSafe(p)
    requires IsCornerOf(c.x, p.x, size.x) && IsCornerOf(c.y, p.y, size.y) && IsCornerOf(c.z, p.z, size.z)
    ensures NearestChunkPosition(p, size) == c
  {
    NearestAxisIsCorner(p.x, size.x);
    NearestAxisIsCorner(p.y, size.y);
    NearestAxisIsCorner(p.z, size.z);
    CornerUnique(NearestAxis(p.x, size.x), c.x, p.x, size.x);
    CornerUnique(NearestAxis(p.y, size.y), c.y, p.y, size.y);
    CornerUnique(NearestAxis(p.z, size.z), c.z, p.z, size.z);
  }

  /** `c` is a chunk corner: each coordinate is congruent to `-Offset`
      modulo the chunk size along its axis. */
  predicate Aligned(c: Vec3, size: Vec3)
    requires PositiveSize(size)
  {
    (c.x + Offset) % size.x == 0 && (c.y + Offset) % size.y == 0 && (c.z + Offset) % size.z == 0
  }

  /** The nearest chunk position of a safe position is a chunk corner. */
  lemma NearestIsAligned(p: Vec3, size: Vec3)
    requires IsInt32(p) && PositiveSize(size) && IsSafe(p)
    ensures Aligned(NearestChunkPosition(p, size), size)
  {
    NearestAxisIsCorner(p.x, size.x);
    NearestAxisIsCorner(p.y, size.y);
    NearestAxisIsCorner(p.z, size.z);
  }

  /** The converse of `OffsetInChunk`: a safe chunk corner from which a
      safe `p` lies, by wrapped subtraction, inside the chunk is `p`'s
      nearest chunk position. */
  lemma CornerHoldingIsNearest(p: Vec3, size: Vec3, c: Vec3)
    requires IsInt32(p) && PositiveSize(size) && IsSafe(p)
    requires IsSafe(c) && Aligned(c, size)
    requires var d := Sub32(p, c); 0 <= d.x < size.x && 0 <= d.y < size.y && 0 <= d.z < size.z
    ensures NearestChunkPosition(p, size) == c
  {
    WrapOfInRange(p.x - c.x);
    WrapOfInRange(p.y - c.y);
    WrapOfInRange(p.z - c.z);
    NearestChunkPositionUnique(p, size, c);
  }

  lemma AxisStepAligned(c: int, d: int, size: int)
    requires size > 0 && (c + Offset) % size == 0
    ensures (c + d * size + Offset) % size == 0
  {
    var m := (c + Offset) / size;
    assert c + Offset == m * size;
    assert c + d * size + Offset == (m + d) * size;
    MultipleMod(m + d, size);
  }

  /** `2^30 + 2`: the only dividend whose chunk corner wraps to `int.MaxValue`. */
  const SentinelDividend: int := 0x4000_0002

  /** An axis can only reach `int.MaxValue` through wrap-around, from the
      dividend `-(2^30 + 2)`, so the chunk size must divide `2^30 + 2`. */
  lemma NearestAxisMaxOnlyForDivisors(v: int, size: int)
    requires Int32.InRange(v) && size > 0
    requires NearestAxis(v, size) == MaxValue
    ensures SentinelDividend % size == 0
  {
    var shifted := Wrap(v + Offset);
    var d := Div(shifted, size);
    var q := d * size;
    DivTimesInRange(shifted, size);
    WrapOfInRange(q);
    var k := (MaxValue - (q - Offset)) / Modulus;
    assert MaxValue - (q - Offset) == k * Modulus;
    assert k == 1;
    assert q == -SentinelDividend;
    assert SentinelDividend == (-d) * size;
    MultipleMod(-d, size);
  }

  /** The first `UpdateLoadedChunks` after `Initialize` recomputes the load
      set whenever the player is in the safe range or one chunk-size axis
      does not divide `2^30 + 2` (as with the default size 16). */
  lemma FirstUpdateRecomputes(p: Vec3, size: Vec3)
    requires IsInt32(p) && PositiveSize(size)
    requires IsSafe(p) || SentinelDividend % size.x != 0
      || SentinelDividend % size.y != 0 || SentinelDividend % size.z != 0
    ensures NearestChunkPosition(p, size) != Sentinel
  {
    if NearestChunkPosition(p, size) == Sentinel {
      if IsSafe(p) {
        NearestChunkPositionHolds(p, size);
      } else {
        NearestAxisMaxOnlyForDivisors(p.x, size.x);
        NearestAxisMaxOnlyForDivisors(p.y, size.y);
        NearestAxisMaxOnlyForDivisors(p.z, size.z);
      }
    }
  }

  /** With chunk size 2 and the player at `int.MaxValue` on every axis, the
      corner wraps around to the sentinel and the first update is skipped. */
  lemma SentinelReachableWithSizeTwo()
    ensures NearestChunkPosition(Sentinel, Vec3(2, 2, 2)) == Sentinel
  {
  }

  // ------------------------------------------------------ chunks in range

  function Square(n: int): int {
    n * n
  }

  /** The candidate `center + (dx·sx, dy·sy, dz·sz)`. */
  function Candidate(center: Vec3, size: Vec3, dx: int, dy: int, dz: int): Vec3 {
    Add(center, Vec3(dx * size.x, dy * size.y, dz * size.z))
  }

  /** The candidate's squared distance from the centre is within the squared
      x-radius (the y and z radii only bound the loops). */
  predicate InLoadSphere(radius: Vec3, size: Vec3, dx: int, dy: int, dz: int) {
    Square(dx * size.x) + Square(dy * size.y) + Square(dz * size.z) <= Square(radius.x * size.x)
  }

  /** The offsets `GetInRangeChunkPositions` accepts. */
  predicate InLoadRange(radius: Vec3, size: Vec3, dx: int, dy: int, dz: int) {
    && -radius.x <= dx <= radius.x
    && -radius.y <= dy <= radius.y
    && -radius.z <= dz <= radius.z
    && InLoadSphere(radius, size, dx, dy, dz)
  }

  /** Accepted candidates with `dz' < dz`, in loop order. */
  function ZRun(center: Vec3, radius: Vec3, size: Vec3, dx: int, dy: int, dz: int): seq<Vec3>
    decreases dz + radius.z
  {
    if dz <= -radius.z then []
    else
      ZRun(center, radius, size, dx, dy, dz - 1)
        + (if InLoadSphere(radius, size, dx, dy, dz - 1) then [Candidate(center, size, dx, dy, dz - 1)] else [])
  }

  /** Accepted candidates with `dy' < dy`, in loop order. */
  function YRun(center: Vec3, radius: Vec3, size: Vec3, dx: int, dy: int): seq<Vec3>
    decreases dy + radius.y
  {
    if dy <= -radius.y then []
    else YRun(center, radius, size, dx, dy - 1) + ZRun(center, radius, size, dx, dy - 1, radius.z + 1)
  }

  /** Accepted candidates with `dx' < dx`, in loop order. */
  function XRun(center: Vec3, radius: Vec3, size: Vec3, dx: int): seq<Vec3>
    decreases dx + radius.x
  {
    if dx <= -radius.x then []
    else XRun(center, radius, size, dx - 1) + YRun(center, radius, size, dx - 1, radius.y + 1)
  }

  /** Every accepted candidate, in the order the three nested loops visit
      them: `dx` outermost, `dz` innermost, each ascending. */
  function Enumeration(center: Vec3, radius: Vec3, size: Vec3): seq<Vec3> {
    XRun(center, radius, size, radius.x + 1)
  }

  lemma {:induction false} ZRunMembers(center: Vec3, radius: Vec3, size: Vec3, dx: int, dy: int, dz: int)
    ensures forall p :: p in ZRun(center, radius, size, dx, dy, dz) <==>
      exists e :: -radius.z <= e < dz && InLoadSphere(radius, size, dx, dy, e) && p == Candidate(center, size, dx, dy, e)
    decreases dz + radius.z
  {
    if dz > -radius.z {
      ZRunMembers(center, radius, size, dx, dy, dz - 1);
    }
  }

  lemma {:induction false} YRunMembers(center: Vec3, radius: Vec3, size: Vec3, dx: int, dy: int)
    ensures forall p :: p in YRun(center, radius, size, dx, dy) <==>
      exists f, e :: -radius.y <= f < dy && -radius.z <= e <= radius.z
        && InLoadSphere(radius, size, dx, f, e) && p == Candidate(center, size, dx, f, e)
    decreases dy + radius.y
  {
    if dy > -radius.y {
      YRunMembers(center, radius, size, dx, dy - 1);
      ZRunMembers(center, radius, size, dx, dy - 1, radius.z + 1);
    }
  }

  lemma {:induction false} XRunMembers(center: Vec3, radius: Vec3, size: Vec3, dx: int)
    ensures forall p :: p in XRun(center, radius, size, dx) <==>
      exists d, f, e :: -radius.x <= d < dx && -radius.y <= f <= radius.y && -radius.z <= e <= radius.z
        && InLoadSphere(radius, size, d, f, e) && p == Candidate(center, size, d, f, e)
    decreases dx + radius.x
  {
    if dx > -radius.x {
      XRunMembers(center, radius, size, dx - 1);
      YRunMembers(center, radius, size, dx - 1, radius.y + 1);
    }
  }

  lemma MulCancel(a: int, b: int, size: int)
    requires size > 0 && a * size == b * size
    ensures a == b
  {
    assert (a - b) * size == 0;
    if a - b >= 1 {
      ProductNonNegative(a - b - 1, size);
    } else if b - a >= 1 {
      ProductNonNegative(b - a - 1, size);
    }
  }

  /** Distinct offsets give distinct candidates when every size is positive. */
  lemma CandidateInjective(center: Vec3, size: Vec3, d1: int, f1: int, e1: int, d2: int, f2: int, e2: int)
    requires PositiveSize(size)
    requires Candidate(center, size, d1, f1, e1) == Candidate(center, size, d2, f2, e2)
    ensures d1 == d2 && f1 == f2 && e1 == e2
  {
    MulCancel(d1, d2, size.x);
    MulCancel(f1, f2, size.y);
    MulCancel(e1, e2, size.z);
  }

  lemma {:induction false} ZRunDistinct(center: Vec3, radius: Vec3, size: Vec3, dx: int, dy: int, dz: int)
    requires PositiveSize(size)
    ensures Distinct(ZRun(center, radius, size, dx, dy, dz))
    decreases dz + radius.z
  {
    if dz > -radius.z {
      ZRunDistinct(center, radius, size, dx, dy, dz - 1);
      ZRunMembers(center, radius, size, dx, dy, dz - 1);
      var tail := if InLoadSphere(radius, size, dx, dy, dz - 1) then [Candidate(center, size, dx, dy, dz - 1)] else [];
      forall p | p in ZRun(center, radius, size, dx, dy, dz - 1)
        ensures p !in tail
      {
        var e :| -radius.z <= e < dz - 1 && InLoadSphere(radius, size, dx, dy, e) && p == Candidate(center, size, dx, dy, e);
        if p in tail {
          CandidateInjective(center, size, dx, dy, e, dx, dy, dz - 1);
        }
      }
      DistinctAppend(ZRun(center, radius, size, dx, dy, dz - 1), tail);
    }
  }

  lemma {:induction false} YRunDistinct(center: Vec3, radius: Vec3, size: Vec3, dx: int, dy: int)
    requires PositiveSize(size)
    ensures Distinct(YRun(center, radius, size, dx, dy))
    decreases dy + radius.y
  {
    if dy > -radius.y {
      var front, row := YRun(center, radius, size, dx, dy - 1), ZRun(center, radius, size, dx, dy - 1, radius.z + 1);
      YRunDistinct(center, radius, size, dx, dy - 1);
      ZRunDistinct(center, radius, size, dx, dy - 1, radius.z + 1);
      YRunMembers(center, radius, size, dx, dy - 1);
      ZRunMembers(center, radius, size, dx, dy - 1, radius.z + 1);
      forall p | p in front
        ensures p !in row
      {
        var f, e :| -radius.y <= f < dy - 1 && -radius.z <= e <= radius.z
          && InLoadSphere(radius, size, dx, f, e) && p == Candidate(center, size, dx, f, e);
        if p in row {
          var e' :| -radius.z <= e' < radius.z + 1 && InLoadSphere(radius, size, dx, dy - 1, e')
            && p == Candidate(center, size, dx, dy - 1, e');
          CandidateInjective(center, size, dx, f, e, dx, dy - 1, e');
        }
      }
      DistinctAppend(front, row);
    }
  }

  lemma {:induction false} XRunDistinct(center: Vec3, radius: Vec3, size: Vec3, dx: int)
    requires PositiveSize(size)
    ensures Distinct(XRun(center, radius, size, dx))
    decreases dx + radius.x
  {
    if dx > -radius.x {
      var front, slab := XRun(center, radius, size, dx - 1), YRun(center, radius, size, dx - 1, radius.y + 1);
      XRunDistinct(center, radius, size, dx - 1);
      YRunDistinct(center, radius, size, dx - 1, radius.y + 1);
      XRunMembers(center, radius, size, dx - 1);
      YRunMembers(center, radius, size, dx - 1, radius.y + 1);
      forall p | p in front
        ensures p !in slab
      {
        var d, f, e :| -radius.x <= d < dx - 1 && -radius.y <= f <= radius.y && -radius.z <= e <= radius.z
          && InLoadSphere(radius, size, d, f, e) && p == Candidate(center, size, d, f, e);
        if p in slab {
          var f', e' :| -radius.y <= f' < radius.y + 1 && -radius.z <= e' <= radius.z
            && InLoadSphere(radius, size, dx - 1, f', e') && p == Candidate(center, size, dx - 1, f', e');
          CandidateInjective(center, size, d, f, e, dx - 1, f', e');
        }
      }
      DistinctAppend(front, slab);
    }
  }

  /** The loop order lists exactly the accepted candidates; each once when
      the sizes are positive; and the centre whenever no radius is negative. */
  lemma EnumerationFacts(center: Vec3, radius: Vec3, size: Vec3)
    ensures forall p :: p in Enumeration(center, radius, size) <==>
      exists dx, dy, dz :: InLoadRange(radius, size, dx, dy, dz) && p == Candidate(center, size, dx, dy, dz)
    ensures PositiveSize(size) ==> Distinct(Enumeration(center, radius, size))
    ensures radius.x >= 0 && radius.y >= 0 && radius.z >= 0 ==> center in Enumeration(center, radius, size)
  {
    XRunMembers(center, radius, size, radius.x + 1);
    if PositiveSize(size) {
      XRunDistinct(center, radius, size, radius.x + 1);
    }
    if radius.x >= 0 && radius.y >= 0 && radius.z >= 0 {
      assert Candidate(center, size, 0, 0, 0) == center;
      assert Square(radius.x * size.x) >= 0;
      assert InLoadRange(radius, size, 0, 0, 0);
    }
  }

  /** The accepted candidates the loops have passed before reaching
      `(dx, dy, dz)`, in loop order. */
  function Visited(center: Vec3, radius: Vec3, size: Vec3, dx: int, dy: int, dz: int): seq<Vec3> {
    XRun(center, radius, size, dx) + YRun(center, radius, size, dx, dy) + ZRun(center, radius, size, dx, dy, dz)
  }

  lemma InnerStep(center: Vec3, radius: Vec3, size: Vec3, dx: int, dy: int, dz: int)
    requires -radius.z <= dz
    ensures Reverse(Visited(center, radius, size, dx, dy, dz + 1)) ==
      (if InLoadSphere(radius, size, dx, dy, dz) then [Candidate(center, size, dx, dy, dz)] else [])
        + Reverse(Visited(center, radius, size, dx, dy, dz))
  {
    var before := Visited(center, radius, size, dx, dy, dz);
    if InLoadSphere(radius, size, dx, dy, dz) {
      var p := Candidate(center, size, dx, dy, dz);
      assert Visited(center, radius, size, dx, dy, dz + 1) == before + [p];
      ReverseSnoc(before, p);
    } else {
      assert Visited(center, radius, size, dx, dy, dz + 1) == before;
    }
  }

  lemma InnerDone(center: Vec3, radius: Vec3, size: Vec3, dx: int, dy: int, dz: int)
    requires -radius.y <= dy
    requires -radius.z <= dz && (dz <= radius.z + 1 || dz == -radius.z) && dz > radius.z
    ensures Visited(center, radius, size, dx, dy, dz) == Visited(center, radius, size, dx, dy + 1, -radius.z)
  {
    assert ZRun(center, radius, size, dx, dy, dz) == ZRun(center, radius, size, dx, dy, radius.z + 1);
    assert ZRun(center, radius, size, dx, dy + 1, -radius.z) == [];
  }

  lemma MiddleDone(center: Vec3, radius: Vec3, size: Vec3, dx: int, dy: int)
    requires -radius.x <= dx
    requires -radius.y <= dy && (dy <= radius.y + 1 || dy == -radius.y) && dy > radius.y
    ensures Visited(center, radius, size, dx, dy, -radius.z) == Visited(center, radius, size, dx + 1, -radius.y, -radius.z)
  {
    assert YRun(center, radius, size, dx, dy) == YRun(center, radius, size, dx, radius.y + 1);
    assert YRun(center, radius, size, dx + 1, -radius.y) == [];
    assert ZRun(center, radius, size, dx, dy, -radius.z) == [];
    assert ZRun(center, radius, size, dx + 1, -radius.y, -radius.z) == [];
  }

  lemma OuterDone(center: Vec3, radius: Vec3, size: Vec3, dx: int)
    requires -radius.x <= dx && (dx <= radius.x + 1 || dx == -radius.x) && dx > radius.x
    ensures Visited(center, radius, size, dx, -radius.y, -radius.z) == Enumeration(center, radius, size)
  {
    assert XRun(center, radius, size, dx) == XRun(center, radius, size, radius.x + 1);
    assert YRun(center, radius, size, dx, -radius.y) == [];
    assert ZRun(center, radius, size, dx, -radius.y, -radius.z) == [];
  }

  /** The insertion of an accepted candidate: the scan for the first entry
      farther away than the candidate sets the index to 0 whether or not it
      finds one, so the candidate always goes to the front. */
  method InsertByDistance(positions: seq<Vec3>, distancesSqrd: seq<int>, p: Vec3, distSqrd: int)
    returns (ps: seq<Vec3>, ds: seq<int>)
    requires |distancesSqrd| == |positions|
    ensures ps == [p] + positions && ds == [distSqrd] + distancesSqrd
  {
    var index := 0;
    var i := 0;
    while i < |distancesSqrd|
      invariant index == 0
    {
      if distSqrd < distancesSqrd[i] {
        index := 0;
        break;
      }
      i := i + 1;
    }
    ps := positions[..index] + [p] + positions[index..];
    ds := distancesSqrd[..index] + [distSqrd] + distancesSqrd[index..];
  }

  /** The reversed loop order lists exactly the accepted candidates; each
      once when the sizes are positive; and the centre whenever no radius is
      negative. */
  lemma LoadOrderFacts(center: Vec3, radius: Vec3, size: Vec3)
    ensures forall p :: p in Reverse(Enumeration(center, radius, size)) <==>
      exists dx, dy, dz :: InLoadRange(radius, size, dx, dy, dz) && p == Candidate(center, size, dx, dy, dz)
    ensures PositiveSize(size) ==> Distinct(Reverse(Enumeration(center, radius, size)))
    ensures radius.x >= 0 && radius.y >= 0 && radius.z >= 0 ==> center in Reverse(Enumeration(center, radius, size))
  {
    EnumerationFacts(center, radius, size);
    ReverseMembers(Enumeration(center, radius, size));
    if PositiveSize(size) {
      ReverseDistinct(Enumeration(center, radius, size));
    }
  }

  /** Stepping a whole number of chunk widths from a corner lands on a corner. */
  lemma CandidateAligned(center: Vec3, size: Vec3, dx: int, dy: int, dz: int)
    requires PositiveSize(size) && Aligned(center, size)
    ensures Aligned(Candidate(center, size, dx, dy, dz), size)
  {
    AxisStepAligned(center.x, dx, size.x);
    AxisStepAligned(center.y, dy, size.y);
    AxisStepAligned(center.z, dz, size.z);
  }

  /** Around a chunk corner, every position the load list holds is a chunk
      corner too. */
  lemma LoadOrderAligned(center: Vec3, radius: Vec3, size: Vec3, p: Vec3)
    requires PositiveSize(size) && Aligned(center, size)
    requires p in Reverse(Enumeration(center, radius, size))
    ensures Aligned(p, size)
  {
    LoadOrderFacts(center, radius, size);
    var dx, dy, dz :| InLoadRange(radius, size, dx, dy, dz) && p == Candidate(center, size, dx, dy, dz);
    CandidateAligned(center, size, dx, dy, dz);
  }

  /** `GetInRangeChunkPositions`. The intended sorted insertion always picks
      index 0, so every accepted candidate goes to the front and the list
      comes out in reverse loop order. */
  method GetInRangeChunkPositions(center: Vec3, radius: Vec3, size: Vec3) returns (positions: seq<Vec3>)
    ensures positions == Reverse(Enumeration(center, radius, size))
    ensures forall p :: p in positions <==>
      exists dx, dy, dz :: InLoadRange(radius, size, dx, dy, dz) && p == Candidate(center, size, dx, dy, dz)
    ensures PositiveSize(size) ==> Distinct(positions)
    ensures radius.x >= 0 && radius.y >= 0 && radius.z >= 0 ==> center in positions
  {
    positions := [];
    var distancesSqrd: seq<int> := [];
    var maxDistSqrd := Square(radius.x * size.x);
    var dx := -radius.x;
    while dx <= radius.x
      invariant -radius.x <= dx && (dx <= radius.x + 1 || dx == -radius.x)
      invariant positions == Reverse(Visited(center, radius, size, dx, -radius.y, -radius.z))
      invariant |distancesSqrd| == |positions|
    {
      var dy := -radius.y;
      while dy <= radius.y
        invariant -radius.y <= dy && (dy <= radius.y + 1 || dy == -radius.y)
        invariant positions == Reverse(Visited(center, radius, size, dx, dy, -radius.z))
        invariant |distancesSqrd| == |positions|
      {
        var dz := -radius.z;
        while dz <= radius.z
          invariant -radius.z <= dz && (dz <= radius.z + 1 || dz == -radius.z)
          invariant positions == Reverse(Visited(center, radius, size, dx, dy, dz))
          invariant |distancesSqrd| == |positions|
        {
          var offset := Vec3(dx * size.x, dy * size.y, dz * size.z);
          var distSqrd := Square(offset.x) + Square(offset.y) + Square(offset.z);
          InnerStep(center, radius, size, dx, dy, dz);
          if distSqrd <= maxDistSqrd {
            positions, distancesSqrd := InsertByDistance(positions, distancesSqrd, Add(center, offset), distSqrd);
          }
          dz := dz + 1;
        }
        InnerDone(center, radius, size, dx, dy, dz);
        dy := dy + 1;
      }
      MiddleDone(center, radius, size, dx, dy);
      dx := dx + 1;
    }
    OuterDone(center, radius, size, dx);
    LoadOrderFacts(center, radius, size);
  }

  /** The list is not ordered nearest-first: along a single axis of radius 1
      the centre comes second, after a chunk one chunk-width away. */
  lemma LoadOrderIsNotNearestFirst()
    ensures Reverse(Enumeration(Origin, Vec3(1, 0, 0), Vec3(16, 16, 16)))
      == [Vec3(16, 0, 0), Origin, Vec3(-16, 0, 0)]
  {
    var r, s := Vec3(1, 0, 0), Vec3(16, 16, 16);
    assert YRun(Origin, r, s, -1, 1) == [Vec3(-16, 0, 0)];
    assert YRun(Origin, r, s, 0, 1) == [Origin];
    assert YRun(Origin, r, s, 1, 1) == [Vec3(16, 0, 0)];
    assert XRun(Origin, r, s, 2) == [Vec3(-16, 0, 0), Origin, Vec3(16, 0, 0)];
  }
}
