/** The interactions in vector form shared by the surfaces: the point a
    ray reaches after time t, mirror reflection about a normal, and
    refraction by Snell's law with total internal reflection. */
module Interactions {
  import opened Vectors
  import opened Rays

  /** `compute_new_pos(ry, t)`: the point `pos.back() + t v`. */
  function ComputeNewPos(st: RayState, t: real): (p: Vec)
    requires st.pos != []
    ensures Sub(p, Last(st)) == Scale(t, st.v)
  {
    Vec(Last(st).x + t * st.v.x, Last(st).y + t * st.v.y)
  }

  /** `v - 2 (v.n) n`, as `reflect_ray` writes it into `v`. */
  function Reflected(v: Vec, n: Vec): Vec {
    var vn := Dot(v, n);
    Vec(v.x - 2.0 * vn * n.x, v.y - 2.0 * vn * n.y)
  }

  /** The combination `a D + b n` of the tangent `D = (n[1], -n[0])` and the
      normal. */
  function Combine(a: real, b: real, n: Vec): Vec {
    Vec(a * n.y + b * n.x, -a * n.x + b * n.y)
  }

  /** Coordinates of `a D + b n` along `n` and `D`, and its length, when
      `n` is a unit vector. */
  lemma {:induction false} CombineCoordinates(a: real, b: real, n: Vec)
    requires NormSq(n) == 1.0
    ensures Dot(Combine(a, b, n), n) == b
    ensures Dot(Combine(a, b, n), Tangent(n)) == a
    ensures NormSq(Combine(a, b, n)) == a * a + b * b
  {
    var w := Combine(a, b, n);
    calc {
      Dot(w, n);
      (a * n.y + b * n.x) * n.x + (-a * n.x + b * n.y) * n.y;
      b * (n.x * n.x + n.y * n.y);
    }
    calc {
      Dot(w, Tangent(n));
      (a * n.y + b * n.x) * n.y + (-a * n.x + b * n.y) * (-n.x);
      a * (n.x * n.x + n.y * n.y);
    }
    calc {
      NormSq(w);
      (a * n.y + b * n.x) * (a * n.y + b * n.x) + (-a * n.x + b * n.y) * (-a * n.x + b * n.y);
      (a * a + b * b) * (n.x * n.x + n.y * n.y);
    }
  }

  /** A reflection about a unit normal is `-(v.n) n + (v.D) D`: it negates
      the normal component and keeps the tangential one. */
  lemma {:induction false} ReflectedDecomposes(v: Vec, n: Vec)
    requires NormSq(n) == 1.0
    ensures Reflected(v, n) == Combine(Dot(v, Tangent(n)), -Dot(v, n), n)
  {
    var vn, vd := Dot(v, n), Dot(v, Tangent(n));
    var w := Combine(vd, -vn, n);
    assert n.x * n.x == 1.0 - n.y * n.y;
    assert n.y * n.y == 1.0 - n.x * n.x;
    calc {
      w.x;
      vd * n.y - vn * n.x;
      (v.x * n.y - v.y * n.x) * n.y - (v.x * n.x + v.y * n.y) * n.x;
      v.x * (n.y * n.y) - v.x * (n.x * n.x) - 2.0 * v.y * n.x * n.y;
      v.x * (1.0 - n.x * n.x) - v.x * (n.x * n.x) - 2.0 * v.y * n.x * n.y;
      v.x - 2.0 * vn * n.x;
    }
    calc {
      w.y;
      -vd * n.x - vn * n.y;
      -(v.x * n.y - v.y * n.x) * n.x - (v.x * n.x + v.y * n.y) * n.y;
      v.y * (n.x * n.x) - v.y * (n.y * n.y) - 2.0 * v.x * n.x * n.y;
      v.y * (1.0 - n.y * n.y) - v.y * (n.y * n.y) - 2.0 * v.x * n.x * n.y;
      v.y - 2.0 * vn * n.y;
    }
  }

  /** With a unit normal the reflection negates `v.n`, keeps `v.D`, keeps
      the length of `v`, and reflecting twice gives `v` back. */
  lemma {:induction false} ReflectionLaws(v: Vec, n: Vec)
    requires NormSq(n) == 1.0
    ensures Dot(Reflected(v, n), n) == -Dot(v, n)
    ensures Dot(Reflected(v, n), Tangent(n)) == Dot(v, Tangent(n))
    ensures NormSq(Reflected(v, n)) == NormSq(v)
    ensures Reflected(Reflected(v, n), n) == v
  {
    var vn, vd := Dot(v, n), Dot(v, Tangent(n));
    ReflectedDecomposes(v, n);
    CombineCoordinates(vd, -vn, n);
    CombineCoordinates(vd, vn, n);
    ReflectedDecomposes(Reflected(v, n), n);
    // v itself is vd D + vn n.
    assert v == Combine(vd, vn, n) by {
      ReflectedDecomposes(Combine(vd, vn, n), n);
      var u := Combine(vd, vn, n);
      assert Dot(u, n) == vn && Dot(u, Tangent(n)) == vd;
      // Two vectors with the same coordinates along n and D coincide.
      var ex, ey := u.x - v.x, u.y - v.y;
      assert ex * n.x + ey * n.y == 0.0;
      assert ex * n.y - ey * n.x == 0.0;
      assert ex == ex * (n.x * n.x + n.y * n.y);
      assert ex * (n.x * n.x + n.y * n.y) == (ex * n.x + ey * n.y) * n.x + (ex * n.y - ey * n.x) * n.y;
      assert ey == ey * (n.x * n.x + n.y * n.y);
      assert ey * (n.x * n.x + n.y * n.y) == (ex * n.x + ey * n.y) * n.y - (ex * n.y - ey * n.x) * n.x;
    }
    calc {
      NormSq(v);
      NormSq(Combine(vd, vn, n));
      vd * vd + vn * vn;
      vd * vd + (-vn) * (-vn);
      NormSq(Reflected(v, n));
    }
  }

  /** The refractive indices on the incident (`ni`) and far (`nf`) side. */
  datatype IndexPair = IndexPair(ni: PosReal, nf: PosReal)

  /** Leaving through the side the normal points to swaps `n1` and `n2`. */
  function Indices(v: Vec, n: Vec, n1: PosReal, n2: PosReal): IndexPair {
    if Dot(v, n) > 0.0 then IndexPair(n2, n1) else IndexPair(n1, n2)
  }

  /** `gamma = (n[0] v[1] - n[1] v[0]) ni / nf`, the tangential component of
      the refracted direction up to sign. */
  function RefractGamma(v: Vec, n: Vec, n1: PosReal, n2: PosReal): real {
    var ix := Indices(v, n, n1, n2);
    GammaOf(v, n, ix.ni, ix.nf)
  }

  function GammaOf(v: Vec, n: Vec, ni: PosReal, nf: PosReal): real {
    (n.x * v.y - n.y * v.x) * ni / nf
  }

  /** `1 - gamma^2 < 0`. */
  predicate NegativeDisc(gamma: real) {
    1.0 - gamma * gamma < 0.0
  }

  /** No refracted direction exists. */
  predicate TotallyReflects(v: Vec, n: Vec, n1: PosReal, n2: PosReal) {
    NegativeDisc(RefractGamma(v, n, n1, n2))
  }

  /** `-gamma D + s n` written out, as the refracted direction is first
      stored. */
  function Unflipped(n: Vec, gamma: real, s: real): Vec {
    Vec(-n.y * gamma + n.x * s, n.x * gamma + n.y * s)
  }

  /** The guard of the second write: the sign of `v.n` or of `v.D` differs
      between the incoming `v` and the candidate `w`. */
  predicate SignChanged(v: Vec, w: Vec, n: Vec) {
    (Dot(v, n) < 0.0) != (Dot(w, n) < 0.0) || (Dot(v, Tangent(n)) < 0.0) != (Dot(w, Tangent(n)) < 0.0)
  }

  /** The new `v` that `refract_ray` (and `Refract_Sph::hit`) writes: the
      reflection `v - 2 (v.n) n` under total internal reflection; otherwise
      `-gamma D + s n` with `s = sqrt(1 - gamma^2)`, whose normal term is
      flipped when a sign would otherwise change. */
  function Refracted(m: Libm, v: Vec, n: Vec, n1: PosReal, n2: PosReal): Vec {
    RefractedBy(m, v, n, RefractGamma(v, n, n1, n2))
  }

  /** The new direction once `gamma` is known. */
  function RefractedBy(m: Libm, v: Vec, n: Vec, gamma: real): Vec {
    if NegativeDisc(gamma) then Reflected(v, n)
    else Transmitted(v, n, gamma, Sqrt(m, 1.0 - gamma * gamma))
  }

  /** `w - 2 s n`: the second write, which flips the normal term. */
  function Flipped(w: Vec, n: Vec, s: real): Vec {
    Vec(w.x - 2.0 * (n.x * s), w.y - 2.0 * (n.y * s))
  }

  /** The refracted direction `-gamma D + s n`, whose normal term is flipped
      when a sign would otherwise change. */
  function Transmitted(v: Vec, n: Vec, gamma: real, s: real): Vec {
    var w := Unflipped(n, gamma, s);
    if SignChanged(v, w, n) then Flipped(w, n, s) else w
  }

  /** Total internal reflection gives exactly the mirror reflection. */
  lemma TotalInternalReflectionIsReflection(m: Libm, v: Vec, n: Vec, n1: PosReal, n2: PosReal)
    requires TotallyReflects(v, n, n1, n2)
    ensures Refracted(m, v, n, n1, n2) == Reflected(v, n)
  {
  }

  /** Outside total internal reflection `1 - gamma^2` is a valid `sqrt`
      argument. */
  lemma DiscNonNegative(gamma: real)
    requires !NegativeDisc(gamma)
    ensures 1.0 - gamma * gamma >= 0.0
  {
  }

  lemma DiscNotNegative(gamma: real)
    requires 1.0 - gamma * gamma >= 0.0
    ensures !NegativeDisc(gamma)
  {
  }

  lemma SqrtOf(m: Libm, x: real)
    requires SqrtLaw(m)
    requires x >= 0.0
    ensures Sqrt(m, x) >= 0.0 && Sqrt(m, x) * Sqrt(m, x) == x
  {
  }

  lemma NegatedQuotient(x: real, a: real, b: real)
    requires b > 0.0
    ensures (-x) * a / b == -(x * a / b)
  {
  }

  lemma QuotientKeepsSign(x: real, a: real, b: real)
    requires a > 0.0 && b > 0.0
    ensures (x * a / b < 0.0) == (x < 0.0)
  {
    if x < 0.0 { assert x * a < 0.0; }
    if x > 0.0 { assert x * a > 0.0; }
    if x == 0.0 { assert x * a == 0.0; }
  }

  /** `gamma` is `-(v.D) ni / nf`. */
  lemma GammaIsScaledTangent(v: Vec, n: Vec, ni: PosReal, nf: PosReal)
    ensures GammaOf(v, n, ni, nf) == -(Dot(v, Tangent(n)) * ni / nf)
  {
    var vd := Dot(v, Tangent(n));
    assert n.x * v.y - n.y * v.x == -vd;
    NegatedQuotient(vd, ni, nf);
  }

  /** Outside total internal reflection the new direction is the
      transmitted one, with `s = sqrt(1 - gamma^2)`. */
  lemma RefractedByTransmits(m: Libm, v: Vec, n: Vec, gamma: real)
    requires !NegativeDisc(gamma)
    ensures RefractedBy(m, v, n, gamma) == Transmitted(v, n, gamma, Sqrt(m, 1.0 - gamma * gamma))
  {
  }

  /** The first write is `-gamma D + s n`, the second `-gamma D - s n`. */
  lemma {:induction false} UnflippedAndFlipped(n: Vec, gamma: real, s: real)
    ensures Unflipped(n, gamma, s) == Combine(-gamma, s, n)
    ensures Flipped(Unflipped(n, gamma, s), n, s) == Combine(-gamma, -s, n)
  {
    var w := Unflipped(n, gamma, s);
    assert w.x - 2.0 * (n.x * s) == -gamma * n.y + (-s) * n.x;
    assert w.y - 2.0 * (n.y * s) == gamma * n.x + (-s) * n.y;
  }

  /** For a unit normal, a non-negative `s` and a `gamma` whose sign is
      opposite to that of `v.D`, only the sign of `v.n` can differ, so the
      transmitted direction is `-gamma D + s n` on the side `v` heads to. */
  lemma {:induction false} TransmittedDecomposes(v: Vec, n: Vec, gamma: real, s: real)
    requires NormSq(n) == 1.0
    requires s >= 0.0
    requires (gamma > 0.0) == (Dot(v, Tangent(n)) < 0.0)
    ensures Transmitted(v, n, gamma, s) == Combine(-gamma, if Dot(v, n) < 0.0 then -s else s, n)
  {
    var w := Unflipped(n, gamma, s);
    UnflippedAndFlipped(n, gamma, s);
    CombineCoordinates(-gamma, s, n);
    assert Dot(w, n) == s && Dot(w, Tangent(n)) == -gamma;
    assert SignChanged(v, w, n) == (Dot(v, n) < 0.0);
  }

  /** With a unit normal, a true square root and a `gamma` of sign opposite
      to `v.D`, the new direction outside total internal reflection is
      `-gamma D + s n`, with `s = sqrt(1 - gamma^2)` taken on the side `v`
      heads to. */
  lemma {:induction false} RefractedByDecomposes(m: Libm, v: Vec, n: Vec, gamma: real)
    requires SqrtLaw(m)
    requires NormSq(n) == 1.0
    requires !NegativeDisc(gamma)
    requires (gamma > 0.0) == (Dot(v, Tangent(n)) < 0.0)
    ensures var s := Sqrt(m, 1.0 - gamma * gamma);
            RefractedBy(m, v, n, gamma) == Combine(-gamma, if Dot(v, n) < 0.0 then -s else s, n)
  {
    var s := Sqrt(m, 1.0 - gamma * gamma);
    assert s >= 0.0 by {
      DiscNonNegative(gamma);
      SqrtOf(m, 1.0 - gamma * gamma);
    }
    TransmittedDecomposes(v, n, gamma, s);
    RefractedByTransmits(m, v, n, gamma);
  }

  /** `gamma` has the sign opposite to that of `v.D`. */
  lemma {:induction false} GammaOpposesTangent(v: Vec, n: Vec, n1: PosReal, n2: PosReal)
    ensures (RefractGamma(v, n, n1, n2) > 0.0) == (Dot(v, Tangent(n)) < 0.0)
  {
    var ix := Indices(v, n, n1, n2);
    GammaIsScaledTangent(v, n, ix.ni, ix.nf);
    QuotientKeepsSign(Dot(v, Tangent(n)), ix.ni, ix.nf);
  }

  /** Outside total internal reflection, with a unit normal and a true
      square root, the refracted direction is `-gamma D + s n` with
      `s = sqrt(1 - gamma^2)` taken on the side `v` was travelling to. */
  lemma {:induction false} RefractedDecomposes(m: Libm, v: Vec, n: Vec, n1: PosReal, n2: PosReal)
    requires SqrtLaw(m)
    requires NormSq(n) == 1.0
    requires !TotallyReflects(v, n, n1, n2)
    ensures var gamma := RefractGamma(v, n, n1, n2);
            var s := Sqrt(m, 1.0 - gamma * gamma);
            Refracted(m, v, n, n1, n2) == Combine(-gamma, if Dot(v, n) < 0.0 then -s else s, n)
  {
    GammaOpposesTangent(v, n, n1, n2);
    RefractedByDecomposes(m, v, n, RefractGamma(v, n, n1, n2));
  }

  /** `nf (x / nf) == x`. */
  lemma CancelQuotient(x: real, nf: real)
    requires nf > 0.0
    ensures nf * (x / nf) == x
  {
  }

  /** For a unit normal both writes leave the tangential component
      `-gamma`, whichever is kept. */
  lemma {:induction false} TransmittedTangent(v: Vec, n: Vec, gamma: real, s: real)
    requires NormSq(n) == 1.0
    ensures Dot(Transmitted(v, n, gamma, s), Tangent(n)) == -gamma
  {
    UnflippedAndFlipped(n, gamma, s);
    CombineCoordinates(-gamma, s, n);
    CombineCoordinates(-gamma, -s, n);
  }

  /** Outside total internal reflection, for a unit normal, the tangential
      component of the new direction is `-gamma`. */
  lemma {:induction false} RefractedTangent(m: Libm, v: Vec, n: Vec, n1: PosReal, n2: PosReal)
    requires NormSq(n) == 1.0
    requires !TotallyReflects(v, n, n1, n2)
    ensures Dot(Refracted(m, v, n, n1, n2), Tangent(n)) == -RefractGamma(v, n, n1, n2)
  {
    var g := RefractGamma(v, n, n1, n2);
    RefractedByTransmits(m, v, n, g);
    TransmittedTangent(v, n, g, Sqrt(m, 1.0 - g * g));
  }

  /** Snell's relation `ni sin(theta_i) == nf sin(theta_f)`, with the sines
      given as the tangential components `a` and `b` of unit directions. */
  predicate Snell(ix: IndexPair, a: real, b: real) {
    ix.ni * a == ix.nf * b
  }

  /** `ni vd == nf t` when `t == vd ni / nf`. */
  lemma SnellArithmetic(vd: real, ix: IndexPair, t: real)
    requires t == vd * ix.ni / ix.nf
    ensures Snell(ix, vd, t)
  {
    CancelQuotient(vd * ix.ni, ix.nf);
  }

  /** Snell's law outside total internal reflection, for a unit normal:
      `ni (v.D) == nf (v'.D)`. */
  lemma {:induction false} SnellLaw(m: Libm, v: Vec, n: Vec, n1: PosReal, n2: PosReal)
    requires NormSq(n) == 1.0
    requires !TotallyReflects(v, n, n1, n2)
    ensures Snell(Indices(v, n, n1, n2), Dot(v, Tangent(n)), Dot(Refracted(m, v, n, n1, n2), Tangent(n)))
  {
    var ix := Indices(v, n, n1, n2);
    RefractedTangent(m, v, n, n1, n2);
    GammaIsScaledTangent(v, n, ix.ni, ix.nf);
    SnellArithmetic(Dot(v, Tangent(n)), ix, Dot(Refracted(m, v, n, n1, n2), Tangent(n)));
  }

  lemma ZeroSquare(s: real)
    ensures s == 0.0 ==> s * s == 0.0
  {
  }

  /** A non-negative root of a positive number is positive. */
  lemma RootPositive(s: real, x: real)
    requires s >= 0.0 && s * s == x && x > 0.0
    ensures s > 0.0
  {
    ZeroSquare(s);
  }

  /** `(-g)^2 + b^2 == 1` when `b^2 == 1 - g^2`. */
  lemma UnitFromParts(g: real, b: real)
    requires b * b == 1.0 - g * g
    ensures (-g) * (-g) + b * b == 1.0
  {
    assert (-g) * (-g) == g * g;
  }

  /** `s = sqrt(1 - gamma^2)` is a true root outside total internal
      reflection. */
  lemma RootOfDisc(m: Libm, gamma: real)
    requires SqrtLaw(m)
    requires !NegativeDisc(gamma)
    ensures Sqrt(m, 1.0 - gamma * gamma) >= 0.0
    ensures Sqrt(m, 1.0 - gamma * gamma) * Sqrt(m, 1.0 - gamma * gamma) == 1.0 - gamma * gamma
  {
    DiscNonNegative(gamma);
    SqrtOf(m, 1.0 - gamma * gamma);
  }

  lemma SignedSquare(s: real, negate: bool)
    ensures (if negate then -s else s) * (if negate then -s else s) == s * s
  {
    if negate {
      assert (-s) * (-s) == s * s;
    }
  }

  /** `-gamma D + b n`, with `b` either `s` or `-s`, is a unit vector with
      normal component `b` when `s^2 == 1 - gamma^2`. */
  lemma {:induction false} CombineUnit(gamma: real, s: real, negate: bool, n: Vec)
    requires NormSq(n) == 1.0
    requires s * s == 1.0 - gamma * gamma
    ensures var b := if negate then -s else s;
            NormSq(Combine(-gamma, b, n)) == 1.0 && Dot(Combine(-gamma, b, n), n) == b
  {
    var b := if negate then -s else s;
    SignedSquare(s, negate);
    CombineCoordinates(-gamma, b, n);
    UnitFromParts(gamma, b);
  }

  /** The sign facts about `b = +-s`, `s = sqrt(1 - gamma^2)`, chosen by the
      sign of `v.n`. */
  lemma SideOfRoot(s: real, gamma: real, vn: real, b: real)
    requires s >= 0.0 && s * s == 1.0 - gamma * gamma
    requires b == if vn < 0.0 then -s else s
    ensures vn > 0.0 ==> b >= 0.0
    ensures vn < 0.0 ==> b <= 0.0
    ensures gamma * gamma < 1.0 && vn != 0.0 ==> (b > 0.0 <==> vn > 0.0)
  {
    if gamma * gamma < 1.0 {
      RootPositive(s, 1.0 - gamma * gamma);
    }
  }

  /** With a unit normal, a true square root and `gamma` of sign opposite
      to `v.D`, the transmitted direction is a unit vector whose normal
      component is `+s` or `-s`, on the side `v` heads to. */
  lemma {:induction false} RefractedByOnUnitCircle(m: Libm, v: Vec, n: Vec, gamma: real)
    requires SqrtLaw(m)
    requires NormSq(n) == 1.0
    requires !NegativeDisc(gamma)
    requires (gamma > 0.0) == (Dot(v, Tangent(n)) < 0.0)
    ensures NormSq(RefractedBy(m, v, n, gamma)) == 1.0
    ensures Dot(v, n) > 0.0 ==> Dot(RefractedBy(m, v, n, gamma), n) >= 0.0
    ensures Dot(v, n) < 0.0 ==> Dot(RefractedBy(m, v, n, gamma), n) <= 0.0
    ensures gamma * gamma < 1.0 && Dot(v, n) != 0.0 ==>
              (Dot(RefractedBy(m, v, n, gamma), n) > 0.0 <==> Dot(v, n) > 0.0)
  {
    var s := Sqrt(m, 1.0 - gamma * gamma);
    var b := if Dot(v, n) < 0.0 then -s else s;
    RootOfDisc(m, gamma);
    RefractedByDecomposes(m, v, n, gamma);
    CombineUnit(gamma, s, Dot(v, n) < 0.0, n);
    SideOfRoot(s, gamma, Dot(v, n), b);
  }

  /** Outside total internal reflection, for a unit normal, the new
      direction is a unit vector and leaves on the side `v` was heading
      to: `v'.n` has the sign of `v.n`, strictly when `gamma^2 < 1`. */
  lemma {:induction false} RefractionCrossesSurface(m: Libm, v: Vec, n: Vec, n1: PosReal, n2: PosReal)
    requires SqrtLaw(m)
    requires NormSq(n) == 1.0
    requires !TotallyReflects(v, n, n1, n2)
    ensures NormSq(Refracted(m, v, n, n1, n2)) == 1.0
    ensures Dot(v, n) > 0.0 ==> Dot(Refracted(m, v, n, n1, n2), n) >= 0.0
    ensures Dot(v, n) < 0.0 ==> Dot(Refracted(m, v, n, n1, n2), n) <= 0.0
    ensures RefractGamma(v, n, n1, n2) * RefractGamma(v, n, n1, n2) < 1.0 && Dot(v, n) != 0.0 ==>
              (Dot(Refracted(m, v, n, n1, n2), n) > 0.0 <==> Dot(v, n) > 0.0)
  {
    GammaOpposesTangent(v, n, n1, n2);
    RefractedByOnUnitCircle(m, v, n, RefractGamma(v, n, n1, n2));
  }

  /** `reflect_ray(ry, n_vec)`: overwrites `v` and nothing else. */
  method ReflectRay(ry: Ray, n: Vec)
    modifies ry
    ensures ry.v == Reflected(old(ry.v), n)
    ensures ry.pos == old(ry.pos) && ry.continueTracing == old(ry.continueTracing)
  {
    var v := ry.v;
    var vDotN := Dot(v, n);
    ry.v := Vec(v.x - 2.0 * vDotN * n.x, v.y - 2.0 * vDotN * n.y);
  }

  /** `refract_ray(ry, n_vec, n1, n2)`: overwrites `v`, once, or twice when
      the normal term has to be flipped. */
  method RefractRay(m: Libm, ry: Ray, n: Vec, n1: PosReal, n2: PosReal)
    modifies ry
    ensures ry.v == Refracted(m, old(ry.v), n, n1, n2)
    ensures ry.pos == old(ry.pos) && ry.continueTracing == old(ry.continueTracing)
  {
    var v := ry.v;
    var ni, nf := n1, n2;
    if Dot(v, n) > 0.0 {
      ni, nf := n2, n1;
    }
    assert IndexPair(ni, nf) == Indices(v, n, n1, n2);
    var gamma := GammaOf(v, n, ni, nf);
    var disc := 1.0 - gamma * gamma;
    if disc < 0.0 {
      ry.v := Reflected(v, n);
      assert NegativeDisc(gamma);
      TotalInternalReflectionIsReflection(m, v, n, n1, n2);
      return;
    }
    DiscNotNegative(gamma);
    RefractedByTransmits(m, v, n, gamma);
    disc := Sqrt(m, disc);
    var w := Unflipped(n, gamma, disc);
    ry.v := w;
    if SignChanged(v, w, n) {
      ry.v := Flipped(w, n, disc);
    }
  }
}
