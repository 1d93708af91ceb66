/** Unchecked 32-bit signed integer arithmetic, as C# evaluates `int`
    expressions outside a `checked` context. */
module Int32 {

  const MinValue: int := -0x8000_0000
  const MaxValue: int := 0x7fff_ffff
  const Modulus: int := 0x1_0000_0000

  predicate InRange(v: int) {
    MinValue <= v <= MaxValue
  }

  /** The two's-complement value that an unchecked `int` operation leaves
      behind: the unique 32-bit value congruent to `v`. */
  function Wrap(v: int): (r: int)
    ensures InRange(r)
    ensures (r - v) % Modulus == 0
  {
    (v - MinValue) % Modulus + MinValue
  }

  /** Two 32-bit values that are congruent modulo 2^32 are equal. */
  lemma CongruentInRangeEqual(a: int, b: int)
    requires InRange(a) && InRange(b)
    requires (a - b) % Modulus == 0
    ensures a == b
  {
    var k := (a - b) / Modulus;
    assert a - b == Modulus * k;
  }

  lemma WrapOfInRange(v: int)
    requires InRange(v)
    ensures Wrap(v) == v
  {
    var r := Wrap(v);
    var k := (r - v) / Modulus;
    assert r - v == Modulus * k;
    CongruentInRangeEqual(r, v);
  }

  /** Wrapping an intermediate result does not change the final wrapped value. */
  lemma WrapAddLeft(a: int, b: int)
    ensures Wrap(Wrap(a) + b) == Wrap(a + b)
  {
    var x, y := Wrap(Wrap(a) + b), Wrap(a + b);
    var k1 := (x - (Wrap(a) + b)) / Modulus;
    var k2 := (Wrap(a) - a) / Modulus;
    var k3 := (y - (a + b)) / Modulus;
    assert x - (Wrap(a) + b) == Modulus * k1;
    assert Wrap(a) - a == Modulus * k2;
    assert y - (a + b) == Modulus * k3;
    assert x - y == Modulus * (k1 + k2 - k3);
    CongruentInRangeEqual(x, y);
  }

  /** Unchecked subtraction and addition of the same 32-bit value undo each
      other, in either order. */
  lemma WrapRoundTrip(a: int, c: int)
    requires InRange(a)
    ensures Wrap(Wrap(a - c) + c) == a
    ensures Wrap(Wrap(a + c) - c) == a
  {
    WrapAddLeft(a - c, c);
    WrapAddLeft(a + c, -c);
    WrapOfInRange(a);
  }

  /** C#'s `/` on `int`: the quotient is truncated toward zero, whereas
      Dafny's `/` is Euclidean. Only positive divisors occur in the model. */
  function Div(a: int, b: int): (q: int)
    requires b > 0
    ensures a >= 0 ==> q >= 0 && 0 <= a - q * b < b
    ensures a < 0 ==> q <= 0 && -b < a - q * b <= 0
  {
    if a >= 0 then
      EuclideanDivision(a, b);
      a / b
    else
      EuclideanDivision(-a, b);
      assert -((-a) / b) * b == -(((-a) / b) * b);
      -((-a) / b)
  }

  lemma EuclideanDivision(a: int, b: int)
    requires a >= 0 && b > 0
    ensures a / b >= 0 && 0 <= a - (a / b) * b < b
  {
    var q := a / b;
    var r := a % b;
    assert a == q * b + r;
    if q < 0 {
      NonPositiveProduct(q + 1, b);
    }
  }

  /** A truncated quotient times its divisor never exceeds the dividend in
      magnitude, so `Div(a, b) * b` cannot overflow. */
  lemma DivTimesInRange(a: int, b: int)
    requires InRange(a) && b > 0
    ensures InRange(Div(a, b) * b)
  {
    var q := Div(a, b);
    if a >= 0 {
      ProductNonNegative(q, b);
    } else {
      NonPositiveProduct(q, b);
    }
  }

  lemma ProductNonNegative(x: int, b: int)
    requires x >= 0 && b >= 0
    ensures x * b >= 0
  {
  }

  lemma NonPositiveProduct(q: int, b: int)
    requires q <= 0 && b >= 0
    ensures q * b <= 0
  {
    ProductNonNegative(-q, b);
    assert q * b == -((-q) * b);
  }

  /** A multiple of `b` leaves no remainder. */
  lemma MultipleMod(q: int, b: int)
    requires b > 0
    ensures (q * b) % b == 0
  {
    var m := q * b;
    var d := m / b;
    var r := m % b;
    assert m == d * b + r;
    assert (q - d) * b == r by {
      assert (q - d) * b == q * b - d * b;
    }
    if q - d >= 1 {
      ProductNonNegative(q - d - 1, b);
    } else if q - d <= -1 {
      ProductNonNegative(d - q - 1, b);
    }
  }
}
