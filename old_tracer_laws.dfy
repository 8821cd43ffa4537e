/** What the older trace loop promises, and how the two generations
    relate: once the older times are read through `Positive`, the composite
    times and the selected components coincide, and over mirrors with unit
    normals a ray with a unit direction follows the same path in both. */
module OldTraceLaws {
  import opened Vectors
  import opened Rays
  import opened General
  import opened Planes
  import opened Interactions
  import opened Selection
  import opened Surfaces
  import opened Scene
  import opened Tracer
  import opened OldTracer

  /** Read through `Positive` (non-positive times, the -1 sentinel among
      them, become infinity), the older hit time of any component, simple or
      composite, is the newer one. */
  lemma {:induction false} TimesAgree(m: Libm, c: Component, st: RayState)
    requires st.pos != []
    ensures HitTime(m, c, st) == Positive(OldTime(m, c, st))
    decreases c, 1
  {
    match c {
      case Composite(cs) =>
        ListTimesAgree(m, cs, st);
        SelectorsAgree(OldTimes(m, cs, st));
      case _ =>
    }
  }

  /** The same, component by component, for a list. */
  lemma {:induction false} ListTimesAgree(m: Libm, cs: seq<Component>, st: RayState)
    requires st.pos != []
    ensures HitTimes(m, cs, st) == PositiveTimes(OldTimes(m, cs, st))
    decreases cs, 0
  {
    forall j | 0 <= j < |cs|
      ensures HitTimes(m, cs, st)[j] == PositiveTimes(OldTimes(m, cs, st))[j]
    {
      TimesAgree(m, cs[j], st);
    }
  }

  /** Both generations pick the same next component: the newer selector
      reports infinity exactly when the older one finds nothing, and
      otherwise the older one's index and time. */
  lemma SameComponentSelected(m: Libm, cs: seq<Component>, st: RayState)
    requires st.pos != []
    ensures var ts := OldTimes(m, cs, st);
            var (k, found) := FirstSmallestPositive(ts);
            SelectHit(HitTimes(m, cs, st)) == if found then (k, Finite(ts[k])) else (0, Infinity)
  {
    ListTimesAgree(m, cs, st);
    SelectorsAgree(OldTimes(m, cs, st));
  }

  /** The older composite time is -1 exactly when no child reports a
      positive time; otherwise it is a positive child time, no larger than
      any other positive child time. */
  lemma OldCompositeTime(m: Libm, cs: seq<Component>, st: RayState)
    requires st.pos != []
    ensures var t := OldTime(m, Composite(cs), st);
            && (t == -1.0 <==> forall j :: 0 <= j < |cs| ==> OldTime(m, cs[j], st) <= 0.0)
            && (t != -1.0 ==>
                  && t > 0.0
                  && (exists k :: 0 <= k < |cs| && t == OldTime(m, cs[k], st))
                  && forall j :: 0 <= j < |cs| && OldTime(m, cs[j], st) > 0.0 ==> t <= OldTime(m, cs[j], st))
  {
    var ts := OldTimes(m, cs, st);
    var (k, found) := FirstSmallestPositive(ts);
    assert OldTime(m, Composite(cs), st) == if found then ts[k] else -1.0;
    if found {
      assert IsFirstSmallestPositive(ts, k, true);
      assert ts[k] == OldTime(m, cs[k], st) && ts[k] > 0.0;
      forall j | 0 <= j < |cs| && OldTime(m, cs[j], st) > 0.0
        ensures ts[k] <= OldTime(m, cs[j], st)
      {
        assert ts[j] == OldTime(m, cs[j], st);
      }
    } else {
      assert IsFirstSmallestPositive(ts, k, false);
      assert forall j :: 0 <= j < |cs| ==> OldTime(m, cs[j], st) <= 0.0 by {
        forall j | 0 <= j < |cs| ensures OldTime(m, cs[j], st) <= 0.0 {
          assert ts[j] == OldTime(m, cs[j], st);
        }
      }
    }
  }

  /** A simple surface's older hit appends exactly one point. */
  lemma OldSimpleHitAppendsOne(m: Libm, c: Component, st: RayState)
    requires st.pos != [] && !c.Composite?
    ensures |OldHit(m, c, st).pos| == |st.pos| + 1
  {
  }

  /** An older hit keeps the points already on the path and appends at
      least one. */
  lemma {:induction false} OldHitKeepsPath(m: Libm, c: Component, st: RayState)
    requires st.pos != []
    ensures st.pos < OldHit(m, c, st).pos
    decreases c, 1
  {
    match c {
      case Composite(cs) => OldTraceKeepsPath(m, cs, st, 0, 1, true);
      case _ =>
    }
  }

  /** The older trace keeps the points already on the path, and appends at
      least one whenever an iteration is left. */
  lemma {:induction false} OldTraceKeepsPath(m: Libm, cs: seq<Component>, st: RayState, i: int, n: int, fillUp: bool)
    requires st.pos != []
    ensures st.pos <= OldTraceFrom(m, cs, st, i, n, fillUp).pos
    ensures i < n ==> st.pos < OldTraceFrom(m, cs, st, i, n, fillUp).pos
    decreases cs, 1, n - i
  {
    if i < n {
      OldTraceFromStep(m, cs, st, i, n, fillUp);
      var (k, found) := FirstSmallestPositive(OldTimes(m, cs, st));
      if found {
        var st2 := OldHit(m, cs[k], st);
        OldHitKeepsPath(m, cs[k], st);
        OldTraceKeepsPath(m, cs, st2, i + 1, n, fillUp);
      }
    }
  }

  /** One pass of the older loop over simple surfaces appends exactly one
      point when it goes on. */
  lemma OldSimpleStep(m: Libm, cs: seq<Component>, st: RayState)
    requires st.pos != [] && Simple(cs)
    ensures var (st2, stop) := OldStep(m, cs, st);
            !stop ==> |st2.pos| == |st.pos| + 1
  {
    var (k, found) := FirstSmallestPositive(OldTimes(m, cs, st));
    if found {
      OldSimpleHitAppendsOne(m, cs[k], st);
    }
  }

  /** Older path lengths over simple surfaces, from iteration `i` of `n`:
      with `fill_up` exactly `n - i` new points, whether or not the ray
      escapes early; without it, between one and `n - i`. */
  lemma {:induction false} OldSimpleTraceLength(m: Libm, cs: seq<Component>, st: RayState, i: int, n: int, fillUp: bool)
    requires st.pos != [] && Simple(cs) && i <= n
    ensures fillUp ==> |OldTraceFrom(m, cs, st, i, n, fillUp).pos| == |st.pos| + (n - i)
    ensures !fillUp && i < n ==>
              |st.pos| < |OldTraceFrom(m, cs, st, i, n, fillUp).pos| <= |st.pos| + (n - i)
    decreases n - i
  {
    if i < n {
      OldTraceFromStep(m, cs, st, i, n, fillUp);
      OldSimpleStep(m, cs, st);
      var (st2, stop) := OldStep(m, cs, st);
      var r := OldTraceFrom(m, cs, st, i, n, fillUp);
      if stop {
        assert r == OldFinish(st, n - i, fillUp);
      } else if i + 1 == n {
        assert r == st2;
      } else {
        assert r == OldTraceFrom(m, cs, st2, i + 1, n, fillUp);
        OldSimpleTraceLength(m, cs, st2, i + 1, n, fillUp);
      }
    }
  }

  /** A ray no component reports a positive time for escapes: `pos.back()
      + v` is appended `n` times under `fill_up` and once without it, with
      the direction as it is (the older loop does not renormalise). */
  lemma OldEscape(m: Libm, cs: seq<Component>, st: RayState, n: int, fillUp: bool)
    requires st.pos != [] && 0 < n
    requires forall j :: 0 <= j < |cs| ==> OldTime(m, cs[j], st) <= 0.0
    ensures var end := Add(Last(st), st.v);
            OldTraceFrom(m, cs, st, 0, n, fillUp) ==
              st.(pos := st.pos + if fillUp then Copies(end, n) else [end])
  {
    var ts := OldTimes(m, cs, st);
    assert !FirstSmallestPositive(ts).1 by {
      if FirstSmallestPositive(ts).1 {
        NonPositiveNeverSelected(ts, FirstSmallestPositive(ts).0);
      }
    }
  }

  /** A scene of plane mirrors with unit normals. */
  ghost predicate UnitMirrors(cs: seq<Component>) {
    forall j :: 0 <= j < |cs| ==> cs[j].MirrorPlane? && NormSq(cs[j].plane.normal) == 1.0
  }

  /** One pass over mirrors with unit normals, for a ray still tracing
      with a unit direction, is the same in both generations, and a ray that
      goes on is still tracing with a unit direction: renormalising a unit
      direction changes nothing, both selectors pick the same mirror, and
      reflection about a unit normal keeps the direction a unit vector. */
  lemma MirrorStepAgrees(m: Libm, cs: seq<Component>, st: RayState)
    requires st.pos != [] && UnitMirrors(cs)
    requires st.continueTracing && NormSq(st.v) == 1.0
    ensures Step(m, cs, st) == OldStep(m, cs, st)
    ensures var (st2, stop) := OldStep(m, cs, st);
            !stop ==> st2.continueTracing && NormSq(st2.v) == 1.0
  {
    RenormFixesUnit(st.v);
    assert st.(v := Renormed(st.v)) == st;
    SameComponentSelected(m, cs, st);
    var (k, found) := FirstSmallestPositive(OldTimes(m, cs, st));
    if found {
      MirrorHitReflects(cs[k].plane, st);
    }
  }

  /** While the ray is still tracing, both generations end a trace the same
      way. */
  lemma FinishesAgree(st: RayState, count: int, fillUp: bool)
    requires st.pos != [] && st.continueTracing
    ensures Finish(st, count, fillUp) == OldFinish(st, count, fillUp)
  {
  }

  /** Over plane mirrors with unit normals, a ray still tracing with a unit
      direction follows the same path in both generations, and ends with
      the same direction and flag. */
  lemma {:induction false} MirrorScenesAgree(m: Libm, cs: seq<Component>, st: RayState, i: int, n: int, fillUp: bool)
    requires st.pos != [] && UnitMirrors(cs)
    requires st.continueTracing && NormSq(st.v) == 1.0
    ensures TraceFrom(m, cs, st, i, n, fillUp) == OldTraceFrom(m, cs, st, i, n, fillUp)
    decreases n - i
  {
    if i < n {
      TraceFromStep(m, cs, st, i, n, fillUp);
      OldTraceFromStep(m, cs, st, i, n, fillUp);
      MirrorStepAgrees(m, cs, st);
      var (st2, stop) := OldStep(m, cs, st);
      if stop {
        FinishesAgree(st2, n - i, fillUp);
      } else {
        MirrorScenesAgree(m, cs, st2, i + 1, n, fillUp);
      }
    }
  }
}
