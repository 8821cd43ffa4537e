/** What the trace loop of the tracing generation promises: a selected hit
    lies in the future, a stopped ray gets one more iteration at most, the
    path lengths under and without `fill_up`, and the concrete outcomes of an
    escape and of a screen. Also the "no hit" sentinel of the simple
    surfaces, read as a finite time as the selector would read it. */
module TraceLaws {
  import opened Vectors
  import opened Rays
  import opened General
  import opened Planes
  import opened Interactions
  import opened Selection
  import opened Surfaces
  import opened Scene
  import opened Tracer

  /** Any finite time the selector compares, for any component, simple or
      composite, is strictly positive: a hit always lies ahead of the ray. */
  lemma {:induction false} HitTimeIsFuture(m: Libm, c: Component, st: RayState)
    requires st.pos != []
    ensures HitTime(m, c, st).Finite? ==> HitTime(m, c, st).t > 0.0
    decreases c
  {
    match c {
      case Composite(cs) =>
        var ts := HitTimes(m, cs, st);
        var (k, t) := SelectHit(ts);
        if t.Finite? {
          HitTimeIsFuture(m, cs[k], st);
        }
      case _ =>
    }
  }

  /** A composite's time is infinity exactly when no child can be hit, and
      otherwise the time of its first nearest child. */
  lemma CompositeTimeIsNearestChild(m: Libm, cs: seq<Component>, st: RayState)
    requires st.pos != []
    ensures var t := HitTime(m, Composite(cs), st);
            && (t == Infinity <==> forall j :: 0 <= j < |cs| ==> HitTime(m, cs[j], st) == Infinity)
            && (t != Infinity ==>
                  exists k :: 0 <= k < |cs| && t == HitTime(m, cs[k], st) &&
                    forall j :: 0 <= j < |cs| ==> !Less(HitTime(m, cs[j], st), t))
  {
    var ts := HitTimes(m, cs, st);
    SelectHitIsNearest(ts);
    var (k, t) := SelectHit(ts);
    assert HitTime(m, Composite(cs), st) == t;
    if t != Infinity {
      assert t == HitTime(m, cs[k], st);
    }
  }

  /** A simple surface's hit appends exactly one point; only the screen
      clears the stop flag. */
  lemma SimpleHitAppendsOne(m: Libm, c: Component, st: RayState)
    requires st.pos != [] && !c.Composite?
    ensures |Hit(m, c, st).pos| == |st.pos| + 1
    ensures Hit(m, c, st).continueTracing == (st.continueTracing && !c.ScreenPlane?)
  {
  }

  /** Once stopped, a ray gets one iteration at most: without `fill_up` the
      outcome no longer depends on how many iterations remain, and with
      `fill_up` only the padding grows with them. */
  lemma StoppedRayTakesOneStep(m: Libm, cs: seq<Component>, st: RayState, i: int, n: int)
    requires st.pos != [] && !st.continueTracing && i < n
    ensures TraceFrom(m, cs, st, i, n, false) == TraceFrom(m, cs, st, i, i + 1, false)
    ensures |TraceFrom(m, cs, st, i, n, true).pos| == |TraceFrom(m, cs, st, i, i + 1, true).pos| + (n - i - 1)
  {
    var st1 := st.(v := Renormed(st.v));
    var sel := SelectHit(HitTimes(m, cs, st1));
    var st2 := if sel.1 != Infinity then Hit(m, cs[sel.0], st1) else st1;
    assert !st2.continueTracing;
  }

  /** The end of a trace appends `count` points under `fill_up` (none when
      `count` is not positive), otherwise one point while still tracing and
      none once stopped; the end point is `pos.back() + v`, or `pos.back()`
      once stopped, and nothing but the path changes. */
  lemma FinishAppendsEndPoint(st: RayState, count: int, fillUp: bool)
    requires st.pos != []
    ensures var r := Finish(st, count, fillUp);
            var end := if st.continueTracing then Add(Last(st), st.v) else Last(st);
            && r.v == st.v && r.continueTracing == st.continueTracing
            && r.pos == st.pos + (if fillUp then Copies(end, count)
                                  else if st.continueTracing then [end] else [])
            && |r.pos| == |st.pos| + (if fillUp then (if count > 0 then count else 0)
                                      else if st.continueTracing then 1 else 0)
  {
  }

  /** The path lengths a trace from iteration `i` of `n` can produce over
      simple surfaces: with `fill_up`, `n - i` new points, or one more when a
      screen stops the ray, a ray still tracing gaining the extra point
      exactly when it is stopped; without `fill_up`, at most `n - i`. */
  ghost predicate LengthWithin(st: RayState, r: RayState, i: int, n: int, fillUp: bool) {
    && (fillUp && st.continueTracing ==>
          |r.pos| == |st.pos| + (n - i) + (if r.continueTracing then 0 else 1))
    && (fillUp ==> |st.pos| + (n - i) <= |r.pos| <= |st.pos| + (n - i) + 1)
    && (!fillUp ==> |r.pos| <= |st.pos| + (n - i))
  }

  /** One pass of the loop over simple surfaces appends at most one point;
      it appends exactly one when the loop goes on, or when it is the pass
      that stops the ray, and otherwise leaves the stop flag alone. */
  lemma SimpleStep(m: Libm, cs: seq<Component>, st: RayState)
    requires st.pos != [] && Simple(cs)
    ensures var (st2, stop) := Step(m, cs, st);
            && |st.pos| <= |st2.pos| <= |st.pos| + 1
            && (!stop ==> |st2.pos| == |st.pos| + 1 && st2.continueTracing)
            && (|st2.pos| == |st.pos| ==> st2.continueTracing == st.continueTracing)
            && (st.continueTracing && !st2.continueTracing ==> |st2.pos| == |st.pos| + 1)
            && (stop && |st2.pos| == |st.pos| + 1 ==> !st2.continueTracing)
  {
    var st1 := st.(v := Renormed(st.v));
    var sel := SelectHit(HitTimes(m, cs, st1));
    if sel.1 != Infinity {
      SimpleHitAppendsOne(m, cs[sel.0], st1);
    }
  }

  /** Path lengths over simple surfaces, from iteration `i` of `n`. */
  lemma {:induction false} SimpleTraceLength(m: Libm, cs: seq<Component>, st: RayState, i: int, n: int, fillUp: bool)
    requires st.pos != [] && Simple(cs) && i <= n
    ensures LengthWithin(st, TraceFrom(m, cs, st, i, n, fillUp), i, n, fillUp)
    decreases n - i
  {
    var r := TraceFrom(m, cs, st, i, n, fillUp);
    if i < n {
      var st2, stop := Step(m, cs, st).0, Step(m, cs, st).1;
      assert r == if stop then Finish(st2, n - i, fillUp) else TraceFrom(m, cs, st2, i + 1, n, fillUp) by {
        TraceFromStep(m, cs, st, i, n, fillUp);
      }
      assert st2.pos != [] && |st.pos| <= |st2.pos| <= |st.pos| + 1
             && (!stop ==> |st2.pos| == |st.pos| + 1 && st2.continueTracing)
             && (|st2.pos| == |st.pos| ==> st2.continueTracing == st.continueTracing)
             && (stop && |st2.pos| == |st.pos| + 1 ==> !st2.continueTracing) by {
        SimpleStep(m, cs, st);
      }
      if stop {
        StopWithin(st, st2, i, n, fillUp);
      } else {
        SimpleTraceLength(m, cs, st2, i + 1, n, fillUp);
        ContinueWithin(st, st2, TraceFrom(m, cs, st2, i + 1, n, fillUp), i, n, fillUp);
      }
    } else {
      assert r == st;
    }
  }

  /** The lengths when the pass at iteration `i` ends the loop. */
  lemma StopWithin(st: RayState, st2: RayState, i: int, n: int, fillUp: bool)
    requires st.pos != [] && st2.pos != [] && i < n
    requires |st.pos| <= |st2.pos| <= |st.pos| + 1
    requires |st2.pos| == |st.pos| ==> st2.continueTracing == st.continueTracing
    requires |st2.pos| == |st.pos| + 1 ==> !st2.continueTracing
    ensures LengthWithin(st, Finish(st2, n - i, fillUp), i, n, fillUp)
  {
    FinishAppendsEndPoint(st2, n - i, fillUp);
  }

  /** The lengths when the pass at iteration `i` appends one point and the
      loop goes on. */
  lemma ContinueWithin(st: RayState, st2: RayState, r: RayState, i: int, n: int, fillUp: bool)
    requires i < n && |st2.pos| == |st.pos| + 1 && st2.continueTracing
    requires LengthWithin(st2, r, i + 1, n, fillUp)
    ensures LengthWithin(st, r, i, n, fillUp)
  {
  }

  /** A ray with a unit direction that no component can hit escapes: the
      end point `pos.back() + v` is appended `n` times under `fill_up`, and
      once without it. */
  lemma EscapeAppendsEndPoint(m: Libm, cs: seq<Component>, st: RayState, n: int, fillUp: bool)
    requires st.pos != [] && st.continueTracing && NormSq(st.v) == 1.0 && 0 < n
    requires forall j :: 0 <= j < |cs| ==> HitTime(m, cs[j], st) == Infinity
    ensures var end := Add(Last(st), st.v);
            TraceFrom(m, cs, st, 0, n, fillUp).pos ==
              st.pos + (if fillUp then Copies(end, n) else [end])
  {
    RenormFixesUnit(st.v);
    assert st.(v := Renormed(st.v)) == st;
    FirstMinimumUnique(HitTimes(m, cs, st), 0, Infinity);
    TraceFromStep(m, cs, st, 0, n, fillUp);
    assert Step(m, cs, st) == (st, true);
  }

  /** A ray still tracing, with a unit direction, whose only component is
      a screen it meets ahead: the crossing is the last point reached, and
      under `fill_up` it is repeated `n` more times, so a one-point ray ends
      with `n + 2` points. */
  lemma ScreenStopsTrace(m: Libm, p: Plane, st: RayState, n: int, fillUp: bool)
    requires st.pos != [] && st.continueTracing && NormSq(st.v) == 1.0 && 0 < n
    requires TestHit(p, Last(st), st.v) > 0.0
    ensures var q := Add(Last(st), Scale(PlaneTime(p, st), st.v));
            TraceFrom(m, [ScreenPlane(p)], st, 0, n, fillUp).pos ==
              st.pos + [q] + (if fillUp then Copies(q, n) else [])
  {
    RenormFixesUnit(st.v);
    assert st.(v := Renormed(st.v)) == st;
    var t := TestHit(p, Last(st), st.v);
    var hs := HitTimes(m, [ScreenPlane(p)], st);
    assert hs == [Finite(t)];
    FirstMinimumUnique(hs, 0, Finite(t));
    var st2 := Hit(m, ScreenPlane(p), st);
    var q := Add(Last(st), Scale(PlaneTime(p, st), st.v));
    assert st2 == RayState(st.pos + [q], st.v, false);
    FinishAppendsEndPoint(st2, n, fillUp);
  }

  /** The time a simple surface reports, as the selector would see it if
      it were passed on unchanged: a finite double, -1 for a miss included.
      A non-positive time read this way beats every genuine (positive or
      infinite) time in the selector's strict comparison. */
  function AsWrittenLeafTime(m: Libm, c: Component, st: RayState): (t: Time)
    requires st.pos != [] && !c.Composite?
    ensures t.Finite? && t.t == LeafTime(m, c, st)
    ensures t.t <= 0.0 ==> forall u: Time :: (u.Infinity? || u.t > 0.0) ==> Less(t, u)
  {
    Finite(LeafTime(m, c, st))
  }

  /** A missed surface listed before one that is hit at a positive time:
      read as written, the -1 of the miss is the strictly smallest time, so
      the missed surface is selected and hit; with the corrected reading the
      surface actually ahead is selected. */
  lemma SentinelSelectedAsWritten(m: Libm, c0: Component, c1: Component, st: RayState)
    requires st.pos != [] && !c0.Composite? && !c1.Composite?
    requires LeafTime(m, c0, st) == -1.0 && LeafTime(m, c1, st) > 0.0
    ensures SelectHit([AsWrittenLeafTime(m, c0, st), AsWrittenLeafTime(m, c1, st)]) == (0, Finite(-1.0))
    ensures SelectHit(HitTimes(m, [c0, c1], st)) == (1, Finite(LeafTime(m, c1, st)))
  {
    var ts := [AsWrittenLeafTime(m, c0, st), AsWrittenLeafTime(m, c1, st)];
    assert ts[..1] == [ts[0]];
    assert [ts[0]][..0] == [];
    var hs := HitTimes(m, [c0, c1], st);
    assert hs == [Infinity, Finite(LeafTime(m, c1, st))];
    assert hs[..1] == [Infinity];
    assert [Infinity][..0] == [];
  }

  /** The scene of the `fill_up` example: a mirror along y = 1 from x = -1
      to x = 1, a flat surface along x = 1 from y = 1 to y = -1, and a ray
      leaving (-0.25, 0) towards negative x. */
  const LowMirror: Component := MirrorPlane(Plane(Vec(-1.0, 1.0), Vec(1.0, 1.0), Vec(1.0, 0.0), Vec(0.0, -1.0)))
  const RightWall: Component := ScreenPlane(Plane(Vec(1.0, 1.0), Vec(1.0, -1.0), Vec(0.0, -1.0), Vec(-1.0, 0.0)))
  const LeftRay: RayState := RayState([Vec(-0.25, 0.0)], Vec(-1.0, 0.0), true)

  /** A crossing behind the ray: the ray runs parallel to the mirror (-1)
      and meets the line of the wall 1.25 units behind its start. Read as
      written, that -1.25 is the strictly smallest time and the wall behind
      the ray is selected; with the corrected reading nothing is hit and the
      ray escapes to (-1.25, 0), padded by `fill_up` to `n + 1` points (seven
      for the six iterations of the example). */
  lemma BehindCrossingSelectedAsWritten(m: Libm, n: int)
    requires 0 < n
    ensures LeafTime(m, RightWall, LeftRay) == -1.25
    ensures SelectHit([AsWrittenLeafTime(m, LowMirror, LeftRay), AsWrittenLeafTime(m, RightWall, LeftRay)])
            == (1, Finite(-1.25))
    ensures TraceFrom(m, [LowMirror, RightWall], LeftRay, 0, n, true).pos
            == [Vec(-0.25, 0.0)] + Copies(Vec(-1.25, 0.0), n)
  {
    LeftRayTimes(m);
    var ts := [Finite(-1.0), Finite(-1.25)];
    assert ts[..1] == [ts[0]];
    assert [ts[0]][..0] == [];
    assert SelectHit(ts) == (1, Finite(-1.25));
    LeftRayEscapes(m, n);
  }

  /** The two surface times of the example ray. */
  lemma LeftRayTimes(m: Libm)
    ensures LeafTime(m, LowMirror, LeftRay) == -1.0
    ensures LeafTime(m, RightWall, LeftRay) == -1.25
  {
    assert Denominator(LowMirror.plane, Vec(-1.0, 0.0)) == 0.0;
    assert Solve(RightWall.plane, Vec(-0.25, 0.0), Vec(-1.0, 0.0)) == (-1.25, 0.5);
  }

  /** Neither surface is ahead of the example ray, so it escapes. */
  lemma LeftRayEscapes(m: Libm, n: int)
    requires 0 < n
    ensures TraceFrom(m, [LowMirror, RightWall], LeftRay, 0, n, true).pos
            == [Vec(-0.25, 0.0)] + Copies(Vec(-1.25, 0.0), n)
  {
    LeftRayMissesBoth(m);
    EscapeAppendsEndPoint(m, [LowMirror, RightWall], LeftRay, n, true);
    assert Add(Last(LeftRay), LeftRay.v) == Vec(-1.25, 0.0);
  }

  /** Neither surface reports a time ahead of the example ray. */
  lemma LeftRayMissesBoth(m: Libm)
    ensures forall j :: 0 <= j < 2 ==> HitTime(m, [LowMirror, RightWall][j], LeftRay) == Infinity
  {
    LeftRayTimes(m);
    assert HitTime(m, LowMirror, LeftRay) == Infinity;
    assert HitTime(m, RightWall, LeftRay) == Infinity;
  }
}
