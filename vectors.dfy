/** Two-component real vectors (the engine's `arr`), the absolute
    tolerance test `is_close`, and the maths library the engine calls.

    Doubles are modelled as reals; `sqrt`, `cos` and `sin` belong to the C
    maths library, which is not part of this model, so they are fields of a
    `Libm` record and only the laws a proof needs are assumed of them. */
module Vectors {

  /** A point or a direction: `std::array<double, 2>`. */
  datatype Vec = Vec(x: real, y: real)

  /** Strictly positive reals: radii and refractive indices, which the
      binding layer validates before they reach the engine. */
  type PosReal = r: real | r > 0.0 witness 1.0

  function Add(a: Vec, b: Vec): Vec { Vec(a.x + b.x, a.y + b.y) }

  function Sub(a: Vec, b: Vec): Vec { Vec(a.x - b.x, a.y - b.y) }

  function Scale(k: real, a: Vec): Vec { Vec(k * a.x, k * a.y) }

  function Dot(a: Vec, b: Vec): real { a.x * b.x + a.y * b.y }

  function NormSq(a: Vec): real { Dot(a, a) }

  /** The vector `D = (n[1], -n[0])` that the engine pairs with a normal
      `n`: the tangent of the surface. */
  function Tangent(n: Vec): Vec { Vec(n.y, -n.x) }

  function Abs(a: real): real { if a < 0.0 then -a else a }

  /** `atol` default of `is_close`. */
  const Atol: real := 0.00000001

  /** `is_close(a, b)`: absolute difference strictly below 1e-8. */
  predicate IsClose(a: real, b: real) { Abs(a - b) < Atol }

  lemma SquareNonNegative(a: real)
    ensures a * a >= 0.0
  {
    if a < 0.0 { assert a * a == (-a) * (-a); }
  }

  lemma SquarePositive(a: real)
    requires a != 0.0
    ensures a * a > 0.0
  {
    if a < 0.0 { assert a * a == (-a) * (-a); }
  }

  lemma {:induction false} SumOfSquaresPositive(x: real, y: real)
    requires x != 0.0 || y != 0.0
    ensures x * x + y * y > 0.0
  {
    SquareNonNegative(x);
    SquareNonNegative(y);
    if x != 0.0 { SquarePositive(x); } else { SquarePositive(y); }
  }

  /** Only the zero vector has zero length. */
  lemma {:induction false} NormSqPositive(a: Vec)
    requires a.x != 0.0 || a.y != 0.0
    ensures NormSq(a) > 0.0
  {
    SumOfSquaresPositive(a.x, a.y);
    calc {
      NormSq(a);
      a.x * a.x + a.y * a.y;
    > 0.0;
    }
  }

  /** Dividing both components by the length gives a unit vector. */
  lemma {:induction false} DividedByLength(ex: real, ey: real, mag: real)
    requires mag != 0.0
    requires mag * mag == ex * ex + ey * ey
    ensures (ex / mag) * (ex / mag) + (ey / mag) * (ey / mag) == 1.0
  {
    var dx, dy := ex / mag, ey / mag;
    assert dx * mag == ex && dy * mag == ey;
    calc {
      (dx * dx + dy * dy) * (mag * mag);
      (dx * mag) * (dx * mag) + (dy * mag) * (dy * mag);
      ex * ex + ey * ey;
      mag * mag;
    }
    assert (dx * dx + dy * dy - 1.0) * (mag * mag) == 0.0;
    assert mag * mag != 0.0;
  }

  /** The C maths functions the engine calls. */
  datatype Libm = Libm(sqrt: real -> real, cos: real -> real, sin: real -> real)

  function Sqrt(m: Libm, x: real): real { m.sqrt(x) }

  function Cos(m: Libm, theta: real): real { m.cos(theta) }

  function Sin(m: Libm, theta: real): real { m.sin(theta) }

  /** `sqrt` returns the non-negative square root of a non-negative input. */
  ghost predicate SqrtLaw(m: Libm) {
    forall a :: 0.0 <= a ==> 0.0 <= Sqrt(m, a) && Sqrt(m, a) * Sqrt(m, a) == a
  }

  /** `cos` and `sin` lie on the unit circle. */
  ghost predicate TrigLaw(m: Libm) {
    forall th :: Cos(m, th) * Cos(m, th) + Sin(m, th) * Sin(m, th) == 1.0
  }

  /** `hypot(a, b)`, the length of `(a, b)`. */
  function Hypot(m: Libm, a: Vec): real { Sqrt(m, NormSq(a)) }
}
