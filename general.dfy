/** Helper geometry of the engine: rotation of the axes and the cheap
    re-normalisation of a direction that the trace loop runs before every
    bounce. */
module General {
  import opened Vectors

  /** The coordinates of `r` in axes turned by the angle whose cosine is `c`
      and whose sine is `s`. */
  function RotateCS(r: Vec, c: real, s: real): Vec {
    Vec(c * r.x + s * r.y, -s * r.x + c * r.y)
  }

  /** `rotate(r, theta)`: rotates the axes (not the point) by `theta`. */
  function Rotate(m: Libm, r: Vec, theta: real): Vec {
    RotateCS(r, Cos(m, theta), Sin(m, theta))
  }

  /** A rotation keeps the squared length of a vector. */
  lemma {:induction false} RotatePreservesLength(r: Vec, c: real, s: real)
    requires c * c + s * s == 1.0
    ensures NormSq(RotateCS(r, c, s)) == NormSq(r)
  {
    var q := RotateCS(r, c, s);
    calc {
      NormSq(q);
      (c * r.x + s * r.y) * (c * r.x + s * r.y) + (-s * r.x + c * r.y) * (-s * r.x + c * r.y);
      (c * c + s * s) * (r.x * r.x) + (c * c + s * s) * (r.y * r.y);
      r.x * r.x + r.y * r.y;
    }
  }

  /** Rotating by theta and then by -theta (same cosine, negated sine)
      gives back the original vector. */
  lemma {:induction false} RotateThenUnrotate(r: Vec, c: real, s: real)
    requires c * c + s * s == 1.0
    ensures RotateCS(RotateCS(r, c, s), c, -s) == r
  {
    var q := RotateCS(r, c, s);
    var p := RotateCS(q, c, -s);
    assert p.x == (c * c + s * s) * r.x;
    assert p.y == (c * c + s * s) * r.y;
  }

  /** With the library's `cos` and `sin` on the unit circle, `Rotate` keeps
      lengths. */
  lemma RotateKeepsLength(m: Libm, r: Vec, theta: real)
    requires TrigLaw(m)
    ensures NormSq(Rotate(m, r, theta)) == NormSq(r)
  {
    RotatePreservesLength(r, Cos(m, theta), Sin(m, theta));
  }

  /** The factor `1 - (|v|^2 - 1) / 2`: first-order Taylor expansion of
      `1 / sqrt(|v|^2)` about 1. */
  function RenormFactor(v: Vec): real {
    1.0 - (NormSq(v) - 1.0) / 2.0
  }

  /** `renorm_unit_vec(v)`: both components scaled by the same factor.
      The engine updates `v` in place; here the new value is returned. */
  function Renormed(v: Vec): Vec {
    var x := NormSq(v) - 1.0;
    var fact := 1.0 - x / 2.0;
    Vec(v.x * fact, v.y * fact)
  }

  /** A unit vector is left exactly as it is. */
  lemma RenormFixesUnit(v: Vec)
    requires NormSq(v) == 1.0
    ensures Renormed(v) == v
  {
  }

  /** Below squared length 3 the factor is positive, so the direction and the
      sign of each component are kept. */
  lemma {:induction false} RenormKeepsDirection(v: Vec)
    requires NormSq(v) < 3.0
    ensures RenormFactor(v) > 0.0
    ensures (Renormed(v).x < 0.0 <==> v.x < 0.0) && (Renormed(v).x > 0.0 <==> v.x > 0.0)
    ensures (Renormed(v).y < 0.0 <==> v.y < 0.0) && (Renormed(v).y > 0.0 <==> v.y > 0.0)
  {
    var k := RenormFactor(v);
    assert k > 0.0;
    assert Renormed(v).x == k * v.x;
    assert Renormed(v).y == k * v.y;
  }

  /** The normalisation error shrinks from `e` to at most `e^2`: a drift of
      squared length by `e` (|e| <= 1) is corrected to second order. */
  lemma {:induction false} RenormSquaresError(v: Vec)
    requires -1.0 <= NormSq(v) - 1.0 <= 1.0
    ensures Abs(NormSq(Renormed(v)) - 1.0) <= (NormSq(v) - 1.0) * (NormSq(v) - 1.0)
  {
    var e := NormSq(v) - 1.0;
    var k := 1.0 - e / 2.0;
    var w := Renormed(v);
    assert NormSq(w) == k * k * NormSq(v) by {
      assert w.x == k * v.x && w.y == k * v.y;
    }
    assert k * k * (1.0 + e) - 1.0 == e * e * (e - 3.0) / 4.0;
    assert NormSq(w) - 1.0 == e * e * (e - 3.0) / 4.0;
    var a := e * e;
    var b := e - 3.0;
    assert 0.0 <= a;
    assert a * b <= 0.0 by { assert b < 0.0; }
    var c := -e - 1.0;
    assert a * c <= 0.0 by { assert c <= 0.0; }
    assert b == -c - 4.0;
    assert a * b == -(a * c) - 4.0 * a;
    assert NormSq(w) - 1.0 == a * b / 4.0;
  }
}
