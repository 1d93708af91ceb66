/** Integer 3-vectors (Unity's `Vector3Int`) and the 32-bit arithmetic the
    original code applies to them. */
module Vectors {
  import opened Int32

  datatype Vec3 = Vec3(x: int, y: int, z: int)

  const Origin: Vec3 := Vec3(0, 0, 0)

  function Add(a: Vec3, b: Vec3): Vec3 {
    Vec3(a.x + b.x, a.y + b.y, a.z + b.z)
  }

  /** `a + b` on `Vector3Int`: each component wraps around like `int`. */
  function Add32(a: Vec3, b: Vec3): (r: Vec3)
    ensures IsInt32(r)
  {
    Vec3(Wrap(a.x + b.x), Wrap(a.y + b.y), Wrap(a.z + b.z))
  }

  /** `a - b` on `Vector3Int`: each component wraps around like `int`. */
  function Sub32(a: Vec3, b: Vec3): (r: Vec3)
    ensures IsInt32(r)
  {
    Vec3(Wrap(a.x - b.x), Wrap(a.y - b.y), Wrap(a.z - b.z))
  }

  /** Subtracting and then adding back the same vector, both with
      wrap-around, returns the original `Vector3Int`. */
  lemma SubAddRoundTrip(p: Vec3, m: Vec3)
    requires IsInt32(p)
    ensures Add32(Sub32(p, m), m) == p
  {
    WrapRoundTrip(p.x, m.x);
    WrapRoundTrip(p.y, m.y);
    WrapRoundTrip(p.z, m.z);
  }

  /** Adding and then subtracting the same vector, both with wrap-around,
      returns the original `Vector3Int`. */
  lemma AddSubRoundTrip(p: Vec3, m: Vec3)
    requires IsInt32(p)
    ensures Sub32(Add32(p, m), m) == p
  {
    WrapRoundTrip(p.x, m.x);
    WrapRoundTrip(p.y, m.y);
    WrapRoundTrip(p.z, m.z);
  }

  /** Every component is a value of C#'s `int`. */
  predicate IsInt32(v: Vec3) {
    Int32.InRange(v.x) && Int32.InRange(v.y) && Int32.InRange(v.z)
  }

  function Abs(n: int): nat {
    if n < 0 then -n else n
  }

  /** `a` and `b` share a face: they differ by one in exactly one component. */
  predicate FaceAdjacent(a: Vec3, b: Vec3) {
    Abs(a.x - b.x) + Abs(a.y - b.y) + Abs(a.z - b.z) == 1
  }
}
