/** A circular-arc surface: the cached cosine, sine and rotated end point
    set by the constructor, the angular range test `in_range`, and `solve`,
    which intersects a ray with the circle and keeps the nearest admissible
    root. */
module Spheres {
  import opened Vectors
  import opened General

  /** The arc of radius `r` about `centre`. `cosStart` and `sinStart` are
      the cosine and sine of the start angle; `endP` is the cached end point
      in axes turned so that the start point lies on the positive x axis. */
  datatype Arc = Arc(centre: Vec, r: PosReal, cosStart: real, sinStart: real, endP: Vec)

  /** The constructor as written: the end point is taken in absolute
      coordinates, centre included, before it is turned by the start angle.
      It agrees with the centred constructor below in every field but the
      cached end point, which is off by the turned centre. */
  function NewArc(m: Libm, centre: Vec, r: PosReal, start: real, end: real): (a: Arc)
    ensures a.centre == centre && a.r == r
    ensures a.cosStart == Cos(m, start) && a.sinStart == Sin(m, start)
    ensures a.endP == Rotate(m, Add(centre, Scale(r, Vec(Cos(m, end), Sin(m, end)))), start)
    ensures a == NewArcCentred(m, centre, r, start, end).(
                   endP := Add(NewArcCentred(m, centre, r, start, end).endP, Rotate(m, centre, start)))
  {
    var endAbs := Vec(centre.x + r * Cos(m, end), centre.y + r * Sin(m, end));
    Arc(centre, r, Cos(m, start), Sin(m, start), Rotate(m, endAbs, start))
  }

  /** The constructor as the cached field is described (an end point
      relative to the centre, turned by the start angle), which is what
      `in_range` compares it with: the arc's own end point is in range. */
  function NewArcCentred(m: Libm, centre: Vec, r: PosReal, start: real, end: real): (a: Arc)
    ensures a.centre == centre && a.r == r
    ensures a.cosStart == Cos(m, start) && a.sinStart == Sin(m, start)
    ensures a.endP == Rotate(m, Scale(r, Vec(Cos(m, end), Sin(m, end))), start)
    ensures InRange(a, CirclePoint(centre, r, Cos(m, end), Sin(m, end)))
  {
    var a := Arc(centre, r, Cos(m, start), Sin(m, start),
                 Rotate(m, Vec(r * Cos(m, end), r * Sin(m, end)), start));
    assert Sub(CirclePoint(centre, r, Cos(m, end), Sin(m, end)), centre)
           == Vec(r * Cos(m, end), r * Sin(m, end));
    a
  }

  /** The point of the circle at the angle whose cosine and sine are given. */
  function CirclePoint(centre: Vec, r: real, c: real, s: real): Vec {
    Vec(centre.x + r * c, centre.y + r * s)
  }

  /** `in_range(p)`: `p` relative to the centre, in the turned axes, lies
      between the start (the positive x axis) and the cached end point.
      When the end point is on or above the turned x axis, `p` must be too
      and lie left of it; otherwise `p` passes when it is on or above the
      axis, or left of the end point. */
  predicate InRange(a: Arc, p: Vec) {
    var pRot := RotateCS(Sub(p, a.centre), a.cosStart, a.sinStart);
    if a.endP.y >= 0.0 then pRot.y >= 0.0 && a.endP.x <= pRot.x
    else pRot.y >= 0.0 || pRot.x <= a.endP.x
  }

  /** With a centred end point and `cos`/`sin` on the unit circle, the
      arc's start point is in range. */
  lemma {:induction false} CentredStartPointInRange(m: Libm, centre: Vec, r: PosReal, start: real, end: real)
    requires TrigLaw(m)
    ensures InRange(NewArcCentred(m, centre, r, start, end),
                    CirclePoint(centre, r, Cos(m, start), Sin(m, start)))
  {
    var cs, ss, ce, se := Cos(m, start), Sin(m, start), Cos(m, end), Sin(m, end);
    assert cs * cs + ss * ss == 1.0 && ce * ce + se * se == 1.0;
    assert NewArcCentred(m, centre, r, start, end) == Arc(centre, r, cs, ss, RotateCS(Vec(r * ce, r * se), cs, ss));
    StartPointInRange(centre, r, cs, ss, ce, se);
  }

  /** `CentredStartPointInRange` with the cosines and sines given. */
  lemma {:induction false} StartPointInRange(centre: Vec, r: PosReal, cs: real, ss: real, ce: real, se: real)
    requires cs * cs + ss * ss == 1.0 && ce * ce + se * se == 1.0
    ensures InRange(Arc(centre, r, cs, ss, RotateCS(Vec(r * ce, r * se), cs, ss)), CirclePoint(centre, r, cs, ss))
  {
    var endP := RotateCS(Vec(r * ce, r * se), cs, ss);
    var p := CirclePoint(centre, r, cs, ss);
    assert RotateCS(Sub(p, centre), cs, ss) == Vec(r, 0.0) by {
      assert Sub(p, centre) == Vec(r * cs, r * ss);
      TurnedStartPoint(r, cs, ss);
    }
    assert endP.x <= r by {
      assert endP.x == r * (cs * ce + ss * se);
      CosOfDifferenceAtMostOne(r, cs, ss, ce, se);
    }
  }

  /** A point at angle `start` on a circle of radius `r`, turned back by
      `start`, lands on the positive x axis. */
  lemma {:induction false} TurnedStartPoint(r: real, c: real, s: real)
    requires c * c + s * s == 1.0
    ensures RotateCS(Vec(r * c, r * s), c, s) == Vec(r, 0.0)
  {
    assert c * (r * c) + s * (r * s) == r * (c * c + s * s);
    assert -s * (r * c) + c * (r * s) == 0.0;
  }

  /** `r cos(end - start) <= r` for a positive `r`, from the cosines and
      sines of both angles on the unit circle. */
  lemma {:induction false} CosOfDifferenceAtMostOne(r: real, cs: real, ss: real, ce: real, se: real)
    requires r > 0.0
    requires cs * cs + ss * ss == 1.0 && ce * ce + se * se == 1.0
    ensures r * (cs * ce + ss * se) <= r
  {
    SquareNonNegative(cs - ce);
    SquareNonNegative(ss - se);
    assert (cs - ce) * (cs - ce) + (ss - se) * (ss - se)
           == (cs * cs + ss * ss) + (ce * ce + se * se) - 2.0 * (cs * ce + ss * se);
    assert cs * ce + ss * se <= 1.0;
  }

  /** With a centred end point, shifting the arc and the point together
      does not change the range test. */
  lemma CentredRangeIsTranslationInvariant(m: Libm, centre: Vec, r: PosReal, start: real, end: real,
                                           p: Vec, d: Vec)
    ensures InRange(NewArcCentred(m, Add(centre, d), r, start, end), Add(p, d))
            == InRange(NewArcCentred(m, centre, r, start, end), p)
  {
    assert Sub(Add(p, d), Add(centre, d)) == Sub(p, centre);
  }

  /** The constructor as written loses the arc's own end point: a quarter
      arc about (5, 0) from angle 0 to the angle whose cosine is 0 and sine
      is 1 rejects its end point (5, 1). */
  lemma AsWrittenArcRejectsItsEndPoint(m: Libm, quarter: real)
    requires Cos(m, 0.0) == 1.0 && Sin(m, 0.0) == 0.0
    requires Cos(m, quarter) == 0.0 && Sin(m, quarter) == 1.0
    ensures !InRange(NewArc(m, Vec(5.0, 0.0), 1.0, 0.0, quarter),
                     CirclePoint(Vec(5.0, 0.0), 1.0, Cos(m, quarter), Sin(m, quarter)))
    ensures InRange(NewArcCentred(m, Vec(5.0, 0.0), 1.0, 0.0, quarter),
                    CirclePoint(Vec(5.0, 0.0), 1.0, Cos(m, quarter), Sin(m, quarter)))
  {
    var a := NewArc(m, Vec(5.0, 0.0), 1.0, 0.0, quarter);
    assert a.endP == Vec(5.0, 1.0);
  }

  /** `dx v[0] + dy v[1]` with `(dx, dy)` the start relative to the centre. */
  function Gamma(a: Arc, r: Vec, v: Vec): real {
    Dot(Sub(r, a.centre), v)
  }

  /** The discriminant `gamma^2 + R^2 - dx^2 - dy^2` of the quadratic in t. */
  function Disc(a: Arc, r: Vec, v: Vec): real {
    var q := Sub(r, a.centre);
    Gamma(a, r, v) * Gamma(a, r, v) + a.r * a.r - q.x * q.x - q.y * q.y
  }

  /** The two roots `-gamma + sqrt(disc)` and `-gamma - sqrt(disc)`, in that
      order. */
  function Candidates(m: Libm, a: Arc, r: Vec, v: Vec): seq<real> {
    var s := Sqrt(m, Disc(a, r, v));
    [-Gamma(a, r, v) + s, -Gamma(a, r, v) - s]
  }

  /** A root is admissible when it lies in the future, is not the ray's own
      start (within 1e-8), and the point it reaches is on the arc. */
  predicate Accepted(a: Arc, r: Vec, v: Vec, t: real) {
    t > 0.0 && !IsClose(t, 0.0) && InRange(a, Add(r, Scale(t, v)))
  }

  /** The pass over the roots: `(found_sol, best_t)` after the roots `ts`.
      A root replaces the best so far only when it is strictly smaller. */
  function BestRoot(a: Arc, r: Vec, v: Vec, ts: seq<real>): (bool, real) {
    if ts == [] then (false, 0.0)
    else
      var (found, best) := BestRoot(a, r, v, ts[..|ts| - 1]);
      var t := ts[|ts| - 1];
      if t > 0.0 && (!found || t < best) && !IsClose(t, 0.0) && InRange(a, Add(r, Scale(t, v)))
      then (true, t)
      else (found, best)
  }

  /** The pass finds a root exactly when some root is admissible, and then
      returns an admissible root no larger than any other. */
  lemma {:induction false} BestRootIsSmallestAdmissible(a: Arc, r: Vec, v: Vec, ts: seq<real>)
    ensures var (found, best) := BestRoot(a, r, v, ts);
            && (found <==> exists j :: 0 <= j < |ts| && Accepted(a, r, v, ts[j]))
            && (found ==> best in ts && Accepted(a, r, v, best))
            && (found ==> forall j :: 0 <= j < |ts| && Accepted(a, r, v, ts[j]) ==> best <= ts[j])
  {
    if ts != [] {
      var init := ts[..|ts| - 1];
      var t := ts[|ts| - 1];
      BestRootIsSmallestAdmissible(a, r, v, init);
      assert forall j :: 0 <= j < |ts| - 1 ==> init[j] == ts[j];
      var (found, best) := BestRoot(a, r, v, init);
      if Accepted(a, r, v, t) && (!found || t < best) {
        assert BestRoot(a, r, v, ts) == (true, t);
      } else {
        assert BestRoot(a, r, v, ts) == (found, best);
        if found {
          assert best in init;
        }
      }
    }
  }

  /** `solve(r, v)`: -1 when the ray's line misses the circle, otherwise the
      smallest admissible root, or -1 when neither root is admissible. */
  function SolveArc(m: Libm, a: Arc, r: Vec, v: Vec): real {
    if Disc(a, r, v) < 0.0 then -1.0
    else
      var (found, best) := BestRoot(a, r, v, Candidates(m, a, r, v));
      if found then best else -1.0
  }

  /** What `solve` promises: -1 exactly when no root is admissible (no root
      at all when the discriminant is negative); otherwise an admissible
      root no larger than the other admissible one. */
  lemma SolveArcIsNearestAdmissibleRoot(m: Libm, a: Arc, r: Vec, v: Vec)
    ensures var t := SolveArc(m, a, r, v);
            && (t == -1.0 <==>
                  Disc(a, r, v) < 0.0 ||
                  forall j :: 0 <= j < 2 ==> !Accepted(a, r, v, Candidates(m, a, r, v)[j]))
            && (t != -1.0 ==>
                  && Disc(a, r, v) >= 0.0
                  && t in Candidates(m, a, r, v)
                  && Accepted(a, r, v, t)
                  && forall j :: 0 <= j < 2 && Accepted(a, r, v, Candidates(m, a, r, v)[j]) ==>
                                 t <= Candidates(m, a, r, v)[j])
  {
    BestRootIsSmallestAdmissible(a, r, v, Candidates(m, a, r, v));
  }

  /** One more root for the pass: it becomes the best exactly under the
      loop's test. */
  lemma BestRootStep(a: Arc, r: Vec, v: Vec, ts: seq<real>, t: real)
    ensures BestRoot(a, r, v, ts + [t]) ==
            var (found, best) := BestRoot(a, r, v, ts);
            if t > 0.0 && (!found || t < best) && !IsClose(t, 0.0) && InRange(a, Add(r, Scale(t, v)))
            then (true, t) else (found, best)
  {
    assert (ts + [t])[..|ts|] == ts;
  }

  /** `solve` as the loop it is: the two roots in an array, visited in
      order, updating `found_sol` and `best_t`. */
  method Solve(m: Libm, a: Arc, r: Vec, v: Vec) returns (t: real)
    ensures t == SolveArc(m, a, r, v)
  {
    var gamma := Gamma(a, r, v);
    var disc := Disc(a, r, v);
    if disc < 0.0 {
      return -1.0;
    }
    var tVals := new real[2];
    tVals[0] := -gamma + Sqrt(m, disc);
    tVals[1] := -gamma - Sqrt(m, disc);
    ghost var cands := Candidates(m, a, r, v);
    assert tVals[..] == cands;
    var foundSol := false;
    var bestT := 0.0;
    for j := 0 to 2
      invariant tVals[..] == cands
      invariant (foundSol, bestT) == BestRoot(a, r, v, cands[..j])
    {
      var tj := tVals[j];
      BestRootStep(a, r, v, cands[..j], tj);
      assert cands[..j + 1] == cands[..j] + [tj];
      if tj > 0.0 && (!foundSol || tj < bestT) && !IsClose(tj, 0.0) {
        var pos := Add(r, Scale(tj, v));
        if InRange(a, pos) {
          foundSol := true;
          bestT := tj;
        }
      }
    }
    assert cands[..2] == cands;
    if foundSol {
      return bestT;
    }
    return -1.0;
  }

  /** With a unit direction and a true square root, both roots reach the
      circle: `|r + t v - centre|^2 == R^2`. */
  lemma {:induction false} CandidatesOnCircle(m: Libm, a: Arc, r: Vec, v: Vec, j: nat)
    requires SqrtLaw(m)
    requires NormSq(v) == 1.0
    requires Disc(a, r, v) >= 0.0
    requires j < 2
    ensures NormSq(Sub(Add(r, Scale(Candidates(m, a, r, v)[j], v)), a.centre)) == a.r * a.r
  {
    var q := Sub(r, a.centre);
    var g := Gamma(a, r, v);
    var s := Sqrt(m, Disc(a, r, v));
    var t := Candidates(m, a, r, v)[j];
    assert t == -g + s || t == -g - s by {
      assert Candidates(m, a, r, v) == [-g + s, -g - s];
    }
    assert s * s == g * g + a.r * a.r - NormSq(q) by {
      SquaredRootOfDisc(m, a, r, v);
    }
    assert NormSq(Add(q, Scale(t, v))) == a.r * a.r by {
      PointOnCircle(q, v, t, g, s, a.r);
    }
    assert Sub(Add(r, Scale(t, v)), a.centre) == Add(q, Scale(t, v));
  }

  /** The square of `sqrt(disc)`, with the discriminant written out. */
  lemma SquaredRootOfDisc(m: Libm, a: Arc, r: Vec, v: Vec)
    requires SqrtLaw(m)
    requires Disc(a, r, v) >= 0.0
    ensures var s := Sqrt(m, Disc(a, r, v));
            s * s == Gamma(a, r, v) * Gamma(a, r, v) + a.r * a.r - NormSq(Sub(r, a.centre))
  {
  }

  /** `CandidatesOnCircle` for the point relative to the centre. */
  lemma {:induction false} PointOnCircle(q: Vec, v: Vec, t: real, g: real, s: real, rad: real)
    requires NormSq(v) == 1.0 && g == Dot(q, v)
    requires s * s == g * g + rad * rad - NormSq(q)
    requires t == -g + s || t == -g - s
    ensures NormSq(Add(q, Scale(t, v))) == rad * rad
  {
    RootOnCircle(q.x, q.y, v.x, v.y, t, g, s, rad);
    assert Add(q, Scale(t, v)) == Vec(q.x + t * v.x, q.y + t * v.y);
  }

  /** The algebra of `CandidatesOnCircle` over plain reals. */
  lemma {:induction false} RootOnCircle(qx: real, qy: real, vx: real, vy: real, t: real, g: real, s: real, rad: real)
    requires vx * vx + vy * vy == 1.0 && g == qx * vx + qy * vy
    requires s * s == g * g + rad * rad - qx * qx - qy * qy
    requires t == -g + s || t == -g - s
    ensures (qx + t * vx) * (qx + t * vx) + (qy + t * vy) * (qy + t * vy) == rad * rad
  {
    RootSquare(t, g, s);
    Expand(qx, qy, vx, vy, t, g);
  }

  /** `(t + g)^2 == s^2` for either root `t = -g +/- s`. */
  lemma {:induction false} RootSquare(t: real, g: real, s: real)
    requires t == -g + s || t == -g - s
    ensures (t + g) * (t + g) == s * s
  {
    if t == -g - s {
      assert t + g == -s;
    }
  }

  /** `|q + t v|^2 == |q|^2 + (t + g)^2 - g^2` for a unit `v` and
      `g = q . v`. */
  lemma {:induction false} Expand(qx: real, qy: real, vx: real, vy: real, t: real, g: real)
    requires vx * vx + vy * vy == 1.0 && g == qx * vx + qy * vy
    ensures (qx + t * vx) * (qx + t * vx) + (qy + t * vy) * (qy + t * vy)
            == qx * qx + qy * qy + (t + g) * (t + g) - g * g
  {
    calc {
      (qx + t * vx) * (qx + t * vx) + (qy + t * vy) * (qy + t * vy);
      qx * qx + qy * qy + 2.0 * t * (qx * vx + qy * vy) + t * t * (vx * vx + vy * vy);
      qx * qx + qy * qy + 2.0 * t * g + t * t;
      qx * qx + qy * qy + (t + g) * (t + g) - g * g;
    }
  }
}
