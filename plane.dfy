/** A planar (line-segment) surface: its constructor, the 2x2 linear solve
    for where a ray meets the segment's supporting line, and the hit test
    with its self-intersection guard. */
module Planes {
  import opened Vectors

  /** `start` and `end` bound the segment; `dir` is the unit vector from
      `start` to `end`; `normal` is the surface normal `n_vec` used by the
      mirror, whose computation is not part of this model. */
  datatype Plane = Plane(start: Vec, end: Vec, dir: Vec, normal: Vec)

  /** The constructor: stores the end points and divides `end - start` by
      its length (the engine's `hypot`), which must not be zero. */
  function NewPlane(m: Libm, start: Vec, end: Vec, normal: Vec): (p: Plane)
    requires Hypot(m, Sub(end, start)) != 0.0
    ensures p.start == start && p.end == end && p.normal == normal
    ensures Scale(Hypot(m, Sub(end, start)), p.dir) == Sub(end, start)
  {
    var mag := Hypot(m, Sub(end, start));
    Plane(start, end, Vec((end.x - start.x) / mag, (end.y - start.y) / mag), normal)
  }

  /** A segment of non-zero length gets a unit direction. */
  lemma {:induction false} NewPlaneUnitDirection(m: Libm, start: Vec, end: Vec, normal: Vec)
    requires SqrtLaw(m)
    requires start != end
    ensures Hypot(m, Sub(end, start)) != 0.0
    ensures NormSq(NewPlane(m, start, end, normal).dir) == 1.0
  {
    var e := Sub(end, start);
    var mag := Hypot(m, e);
    NormSqPositive(e);
    assert mag * mag == NormSq(e);
    assert mag != 0.0;
    DividedByLength(e.x, e.y, mag);
  }

  /** The point at fraction `tp` of the way from `start` to `end`. */
  function SegmentPoint(p: Plane, tp: real): Vec {
    Add(p.start, Scale(tp, Sub(p.end, p.start)))
  }

  /** The denominator of Cramer's rule; near zero means the ray runs
      parallel to the segment. */
  function Denominator(p: Plane, v: Vec): real {
    v.x * (p.start.y - p.end.y) + v.y * (p.end.x - p.start.x)
  }

  /** `solve(r, v)`: the time `t` along the ray and the fraction `tp` along
      the segment where the two lines cross, or `(-1, 0)` when they are
      parallel to within 1e-8. */
  function Solve(p: Plane, r: Vec, v: Vec): (res: (real, real))
    ensures IsClose(Denominator(p, v), 0.0) ==> res == (-1.0, 0.0)
  {
    var bottom := Denominator(p, v);
    if IsClose(bottom, 0.0) then (-1.0, 0.0)
    else
      var t := r.x * (p.end.y - p.start.y) - p.start.x * p.end.y + p.end.x * p.start.y
               + r.y * (p.start.x - p.end.x);
      var tp := v.y * (p.start.x - r.x) - v.x * (p.start.y - r.y);
      (t / bottom, tp / -bottom)
  }

  /** Cramer's rule for `t v - tp d == -q`, whose determinant `b` is not
      zero: `(T / b, P / b)` solves it. */
  lemma {:induction false} CramerSolves(vx: real, vy: real, dx: real, dy: real, qx: real, qy: real,
                                        t: real, tp: real)
    requires vy * dx - vx * dy != 0.0
    requires t * (vy * dx - vx * dy) == qx * dy - qy * dx
    requires tp * (vy * dx - vx * dy) == vy * qx - vx * qy
    ensures qx + t * vx == tp * dx && qy + t * vy == tp * dy
  {
    var b := vy * dx - vx * dy;
    assert (qx + t * vx - tp * dx) * b == qx * b + (t * b) * vx - (tp * b) * dx;
    assert (qy + t * vy - tp * dy) * b == qy * b + (t * b) * vy - (tp * b) * dy;
  }

  /** The system `t v - tp d == -q` with non-zero determinant has one
      solution. */
  lemma {:induction false} CramerUnique(vx: real, vy: real, dx: real, dy: real, qx: real, qy: real,
                                        t0: real, tp0: real, t: real, tp: real)
    requires vy * dx - vx * dy != 0.0
    requires qx + t0 * vx == tp0 * dx && qy + t0 * vy == tp0 * dy
    requires qx + t * vx == tp * dx && qy + t * vy == tp * dy
    ensures t == t0 && tp == tp0
  {
    var b := vy * dx - vx * dy;
    var a, c := t - t0, tp - tp0;
    assert a * vx == c * dx && a * vy == c * dy;
    assert a * b == 0.0 by {
      assert a * b == (a * vy) * dx - (a * vx) * dy;
    }
    assert c * b == 0.0 by {
      assert c * b == (c * dx) * vy - (c * dy) * vx;
    }
  }

  /** For non-parallel lines, `(t, tp)` is what `solve` returns exactly when
      the ray point at time `t` is the segment-line point at fraction `tp`:
      Cramer's rule solves the system, and its solution is the only one. */
  lemma {:induction false} SolveIsTheCrossing(p: Plane, r: Vec, v: Vec, t: real, tp: real)
    requires !IsClose(Denominator(p, v), 0.0)
    ensures (t, tp) == Solve(p, r, v) <==> Add(r, Scale(t, v)) == SegmentPoint(p, tp)
  {
    var b := Denominator(p, v);
    var dx, dy := p.end.x - p.start.x, p.end.y - p.start.y;
    var qx, qy := r.x - p.start.x, r.y - p.start.y;
    assert b == v.y * dx - v.x * dy;
    assert b != 0.0;
    var (t0, tp0) := Solve(p, r, v);
    assert t0 * b == qx * dy - qy * dx;
    assert tp0 * b == v.y * qx - v.x * qy by {
      assert tp0 * -b == v.y * (p.start.x - r.x) - v.x * (p.start.y - r.y);
    }
    CramerSolves(v.x, v.y, dx, dy, qx, qy, t0, tp0);
    if Add(r, Scale(t, v)) == SegmentPoint(p, tp) {
      CramerUnique(v.x, v.y, dx, dy, qx, qy, t0, tp0, t, tp);
    }
  }

  /** `test_hit`: -1 when the crossing lies outside the segment (`tp`
      outside `[0, 1]`) or at the ray's own start (`t` within 1e-8 of 0);
      otherwise `solve`'s `t`, negative values included. */
  function TestHit(p: Plane, r: Vec, v: Vec): real {
    var (t, tp) := Solve(p, r, v);
    if tp < 0.0 || tp > 1.0 || IsClose(t, 0.0) then -1.0 else t
  }

  /** Any time other than -1 that `test_hit` reports is a genuine crossing:
      the lines are not parallel, `t` is not within 1e-8 of 0, and the ray
      point at `t` lies on the segment. Conversely every such crossing is
      reported. Parallel lines report -1. */
  lemma {:induction false} TestHitIsSegmentCrossing(p: Plane, r: Vec, v: Vec, t: real)
    requires t != -1.0
    ensures TestHit(p, r, v) == t <==>
              && !IsClose(Denominator(p, v), 0.0)
              && !IsClose(t, 0.0)
              && exists tp :: 0.0 <= tp <= 1.0 && Add(r, Scale(t, v)) == SegmentPoint(p, tp)
  {
    var (t0, tp0) := Solve(p, r, v);
    if TestHit(p, r, v) == t {
      assert !IsClose(Denominator(p, v), 0.0);
      SolveIsTheCrossing(p, r, v, t0, tp0);
      assert 0.0 <= tp0 <= 1.0 && Add(r, Scale(t, v)) == SegmentPoint(p, tp0);
    }
    if && !IsClose(Denominator(p, v), 0.0)
       && !IsClose(t, 0.0)
       && exists tp :: 0.0 <= tp <= 1.0 && Add(r, Scale(t, v)) == SegmentPoint(p, tp)
    {
      var tp :| 0.0 <= tp <= 1.0 && Add(r, Scale(t, v)) == SegmentPoint(p, tp);
      SolveIsTheCrossing(p, r, v, t, tp);
    }
  }

  /** Lines parallel to within 1e-8 are never hit. */
  lemma ParallelIsMiss(p: Plane, r: Vec, v: Vec)
    requires IsClose(Denominator(p, v), 0.0)
    ensures TestHit(p, r, v) == -1.0
  {
  }
}
