/** What each simple surface does to a ray it has been chosen to hit: the
    plane mirror, the screen of both generations, and the refracting arc.
    Each appends exactly one point, the crossing, and then updates the
    direction or the stop flag. */
module Surfaces {
  import opened Vectors
  import opened Rays
  import opened Planes
  import opened Spheres
  import opened Interactions

  /** The crossing time a plane reports to its `hit`: the first half of
      `solve(pos.back(), v)`. */
  function PlaneTime(p: Plane, st: RayState): real
    requires st.pos != []
  {
    Planes.Solve(p, Last(st), st.v).0
  }

  /** `Mirror_Plane::hit`: the crossing is computed with the incoming
      direction, appended, and then the direction is reflected about the
      plane's normal. */
  function MirrorHit(p: Plane, st: RayState): RayState
    requires st.pos != []
  {
    var t := PlaneTime(p, st);
    RayState(st.pos + [ComputeNewPos(st, t)], Reflected(st.v, p.normal), st.continueTracing)
  }

  /** `Screen_Plane::hit` of the tracing generation: the crossing is
      appended and the ray is told to stop; the direction is kept. */
  function ScreenHit(p: Plane, st: RayState): RayState
    requires st.pos != []
  {
    var t := PlaneTime(p, st);
    RayState(st.pos + [ComputeNewPos(st, t)], st.v, false)
  }

  /** `Screen_Plane::hit` of the older generation: the crossing is appended
      and nothing else changes; there is no stop signal. */
  function ScreenHitOld(p: Plane, st: RayState): RayState
    requires st.pos != []
  {
    var t := PlaneTime(p, st);
    RayState(st.pos + [ComputeNewPos(st, t)], st.v, st.continueTracing)
  }

  /** The radial normal `(newPos - centre) / R` at a point of the arc. */
  function RadialNormal(a: Arc, p: Vec): Vec {
    Vec((p.x - a.centre.x) / a.r, (p.y - a.centre.y) / a.r)
  }

  /** The crossing time an arc reports to its `hit`: `solve(pos.back(), v)`. */
  function ArcTime(m: Libm, a: Arc, st: RayState): real
    requires st.pos != []
  {
    SolveArc(m, a, Last(st), st.v)
  }

  /** `Refract_Sph::hit`: the crossing is appended, then the direction is
      refracted (or totally reflected) about the radial normal there. */
  function RefractSphHit(m: Libm, a: Arc, n1: PosReal, n2: PosReal, st: RayState): RayState
    requires st.pos != []
  {
    var p := ComputeNewPos(st, ArcTime(m, a, st));
    RayState(st.pos + [p], Refracted(m, st.v, RadialNormal(a, p), n1, n2), st.continueTracing)
  }

  /** A mirror hit keeps every earlier point, appends one point which (when
      the ray is not parallel to the mirror) lies on the mirror's line, keeps
      the stop flag, and reflects the direction: with a unit normal, the
      normal component is negated and the length is kept. */
  lemma {:induction false} MirrorHitReflects(p: Plane, st: RayState)
    requires st.pos != []
    ensures var r := MirrorHit(p, st);
            && |r.pos| == |st.pos| + 1
            && r.pos[..|st.pos|] == st.pos
            && r.pos[|st.pos|] == Add(Last(st), Scale(PlaneTime(p, st), st.v))
            && r.continueTracing == st.continueTracing
            && (!IsClose(Denominator(p, st.v), 0.0) ==>
                  r.pos[|st.pos|] == SegmentPoint(p, Planes.Solve(p, Last(st), st.v).1))
            && (NormSq(p.normal) == 1.0 ==>
                  Dot(r.v, p.normal) == -Dot(st.v, p.normal) && NormSq(r.v) == NormSq(st.v))
  {
    var r := MirrorHit(p, st);
    var np := ComputeNewPos(st, PlaneTime(p, st));
    assert r.pos[..|st.pos|] == st.pos;
    assert np == Add(Last(st), Scale(PlaneTime(p, st), st.v));
    if !IsClose(Denominator(p, st.v), 0.0) {
      var (t, tp) := Planes.Solve(p, Last(st), st.v);
      SolveIsTheCrossing(p, Last(st), st.v, t, tp);
    }
    if NormSq(p.normal) == 1.0 {
      ReflectionLaws(st.v, p.normal);
    }
  }

  /** A screen hit of either generation keeps every earlier point, appends
      the crossing, and keeps the direction; the newer one clears the stop
      flag, the older one leaves it alone. */
  lemma ScreenHitStops(p: Plane, st: RayState)
    requires st.pos != []
    ensures var r := ScreenHit(p, st);
            && r.pos == st.pos + [Add(Last(st), Scale(PlaneTime(p, st), st.v))]
            && r.v == st.v
            && !r.continueTracing
    ensures var r := ScreenHitOld(p, st);
            && r.pos == st.pos + [Add(Last(st), Scale(PlaneTime(p, st), st.v))]
            && r.v == st.v
            && r.continueTracing == st.continueTracing
  {
  }

  /** The radial normal at a point of the circle is a unit vector. */
  lemma {:induction false} RadialNormalIsUnit(a: Arc, p: Vec)
    requires NormSq(Sub(p, a.centre)) == a.r * a.r
    ensures NormSq(RadialNormal(a, p)) == 1.0
  {
    var q := Sub(p, a.centre);
    DividedByLength(q.x, q.y, a.r);
  }

  /** A refracting arc hit keeps every earlier point and the stop flag, and
      appends the point reached at the arc's time. When that time is a
      genuine hit (not -1), the direction is a unit vector and `sqrt` is a
      true square root, the point lies on the circle, the normal there is a
      unit vector, and the new direction is the refraction about it: either
      the reflection (total internal reflection), or a unit vector obeying
      Snell's law that keeps the sign of its normal component. */
  lemma {:induction false} RefractSphHitRefracts(m: Libm, a: Arc, n1: PosReal, n2: PosReal, st: RayState)
    requires st.pos != []
    ensures var r := RefractSphHit(m, a, n1, n2, st);
            && r.pos[..|st.pos|] == st.pos
            && r.pos == st.pos + [Add(Last(st), Scale(ArcTime(m, a, st), st.v))]
            && r.continueTracing == st.continueTracing
    ensures SqrtLaw(m) && NormSq(st.v) == 1.0 && ArcTime(m, a, st) != -1.0 ==>
              var p := Add(Last(st), Scale(ArcTime(m, a, st), st.v));
              var n := RadialNormal(a, p);
              var r := RefractSphHit(m, a, n1, n2, st);
              && NormSq(Sub(p, a.centre)) == a.r * a.r
              && NormSq(n) == 1.0
              && (TotallyReflects(st.v, n, n1, n2) ==> r.v == Reflected(st.v, n))
              && (!TotallyReflects(st.v, n, n1, n2) ==>
                    && NormSq(r.v) == 1.0
                    && Snell(Indices(st.v, n, n1, n2), Dot(st.v, Tangent(n)), Dot(r.v, Tangent(n)))
                    && (Dot(st.v, n) > 0.0 ==> Dot(r.v, n) >= 0.0)
                    && (Dot(st.v, n) < 0.0 ==> Dot(r.v, n) <= 0.0))
  {
    var t := ArcTime(m, a, st);
    var p := ComputeNewPos(st, t);
    assert p == Add(Last(st), Scale(t, st.v));
    var r := RefractSphHit(m, a, n1, n2, st);
    assert r.pos[..|st.pos|] == st.pos;
    if SqrtLaw(m) && NormSq(st.v) == 1.0 && t != -1.0 {
      var cands := Candidates(m, a, Last(st), st.v);
      SolveArcIsNearestAdmissibleRoot(m, a, Last(st), st.v);
      var j: nat :| j < 2 && cands[j] == t;
      CandidatesOnCircle(m, a, Last(st), st.v, j);
      var n := RadialNormal(a, p);
      RadialNormalIsUnit(a, p);
      if TotallyReflects(st.v, n, n1, n2) {
        TotalInternalReflectionIsReflection(m, st.v, n, n1, n2);
      } else {
        RefractionCrossesSurface(m, st.v, n, n1, n2);
        SnellLaw(m, st.v, n, n1, n2);
      }
    }
  }

  /** A 0.6/0.8 ray whose last point is the origin meets the mirror along
      x = 3 (normal along x) at (3, 4), after time 5, and leaves with its x
      component reversed. */
  lemma MirrorScenario(p: Plane, st: RayState)
    requires p == Plane(Vec(3.0, -10.0), Vec(3.0, 10.0), Vec(0.0, 1.0), Vec(1.0, 0.0))
    requires st.pos != [] && Last(st) == Vec(0.0, 0.0) && st.v == Vec(0.6, 0.8)
    ensures MirrorHit(p, st) == RayState(st.pos + [Vec(3.0, 4.0)], Vec(-0.6, 0.8), st.continueTracing)
  {
    assert PlaneTime(p, st) == 5.0 by {
      assert Denominator(p, st.v) == -12.0;
    }
    assert ComputeNewPos(st, 5.0) == Vec(3.0, 4.0);
    assert Reflected(st.v, p.normal) == Vec(-0.6, 0.8);
  }

  /** `Mirror_Plane::hit` on a ray object. */
  method MirrorHitRay(p: Plane, ry: Ray)
    requires ry.Valid()
    modifies ry
    ensures ry.Valid()
    ensures ry.State() == MirrorHit(p, old(ry.State()))
  {
    var t := Planes.Solve(p, ry.pos[|ry.pos| - 1], ry.v).0;
    var newPos := ComputeNewPos(ry.State(), t);
    ry.pos := ry.pos + [newPos];
    ReflectRay(ry, p.normal);
  }

  /** `Screen_Plane::hit` of the tracing generation on a ray object. */
  method ScreenHitRay(p: Plane, ry: Ray)
    requires ry.Valid()
    modifies ry
    ensures ry.Valid()
    ensures ry.State() == ScreenHit(p, old(ry.State()))
  {
    var r := ry.pos[|ry.pos| - 1];
    var v := ry.v;
    var t := Planes.Solve(p, r, v).0;
    var newPos := Vec(r.x + v.x * t, r.y + v.y * t);
    assert newPos == ComputeNewPos(ry.State(), t);
    ry.pos := ry.pos + [newPos];
    ry.continueTracing := false;
  }

  /** `Screen_Plane::hit` of the older generation on a ray object. */
  method ScreenHitOldRay(p: Plane, ry: Ray)
    requires ry.Valid()
    modifies ry
    ensures ry.Valid()
    ensures ry.State() == ScreenHitOld(p, old(ry.State()))
  {
    var r := ry.pos[|ry.pos| - 1];
    var v := ry.v;
    var t := Planes.Solve(p, r, v).0;
    var newPos := Vec(r.x + v.x * t, r.y + v.y * t);
    assert newPos == ComputeNewPos(ry.State(), t);
    ry.pos := ry.pos + [newPos];
  }

  /** `Refract_Sph::hit` on a ray object. The direction update is the same
      computation as `refract_ray`, with the radial normal. */
  method RefractSphHitRay(m: Libm, a: Arc, n1: PosReal, n2: PosReal, ry: Ray)
    requires ry.Valid()
    modifies ry
    ensures ry.Valid()
    ensures ry.State() == RefractSphHit(m, a, n1, n2, old(ry.State()))
  {
    var r := ry.pos[|ry.pos| - 1];
    var v := ry.v;
    var t := Spheres.Solve(m, a, r, v);
    var newPos := Vec(r.x + v.x * t, r.y + v.y * t);
    assert newPos == ComputeNewPos(ry.State(), t);
    ry.pos := ry.pos + [newPos];
    var nVec := Vec((newPos.x - a.centre.x) / a.r, (newPos.y - a.centre.y) / a.r);
    RefractRay(m, ry, nVec, n1, n2);
  }
}
