/** The trace loop of the tracing generation: `next_component`, which keeps
    the strictly smallest hit time with infinity meaning "no hit", and
    `trace_ray`, which renormalises the direction, hits the selected
    component, and stops (padding the path) when nothing is hit or a screen
    has cleared the stop flag. A composite component's hit is itself a
    one-step trace over its children.

    The simple surfaces report -1 for "no hit" and may report negative
    times; the selector here sees those as infinity (see `HitTime` and
    `AsWrittenLeafTime`). */
module Tracer {
  import opened Vectors
  import opened Rays
  import opened General
  import opened Planes
  import opened Spheres
  import opened Interactions
  import opened Selection
  import opened Surfaces
  import opened Scene

  /** The time the selector compares for `c`: a simple surface's positive
      hit time (infinity for -1 and every other non-positive time); for a
      composite, the strictly smallest of its children's times. */
  function HitTime(m: Libm, c: Component, st: RayState): Time
    requires st.pos != []
    decreases c, 1
  {
    match c
    case Composite(cs) => SelectHit(HitTimes(m, cs, st)).1
    case _ => Positive(LeafTime(m, c, st))
  }

  /** The hit times of the components, in order. */
  function HitTimes(m: Libm, cs: seq<Component>, st: RayState): (ts: seq<Time>)
    requires st.pos != []
    ensures |ts| == |cs|
    ensures forall j :: 0 <= j < |cs| ==> ts[j] == HitTime(m, cs[j], st)
    decreases cs, 0
  {
    if cs == [] then [] else HitTimes(m, cs[..|cs| - 1], st) + [HitTime(m, cs[|cs| - 1], st)]
  }

  /** `c->hit(ry)`, with the default `n = 1`: a simple surface appends its
      crossing and updates the direction or the flag; a composite traces
      one step, padded, through its children. Every hit appends at least one
      point, keeps the earlier ones, and never sets the stop flag again. */
  function Hit(m: Libm, c: Component, st: RayState): (r: RayState)
    requires st.pos != []
    ensures st.pos < r.pos
    ensures !st.continueTracing ==> !r.continueTracing
    decreases c, 1
  {
    match c
    case MirrorPlane(p) => MirrorHit(p, st)
    case ScreenPlane(p) => ScreenHit(p, st)
    case RefractSph(a, n1, n2) => RefractSphHit(m, a, n1, n2, st)
    case Composite(cs) => TraceFrom(m, cs, st, 0, 1, true)
  }

  /** The end of a trace with `count` iterations left: the end point is
      `pos.back() + v` while the ray is still tracing and `pos.back()` once
      it has been stopped; it is appended `count` times under `fill_up`,
      otherwise once if still tracing and not at all if stopped. */
  function Finish(st: RayState, count: int, fillUp: bool): RayState
    requires st.pos != []
  {
    var r := Last(st);
    var end := Vec(r.x + (if st.continueTracing then st.v.x else 0.0),
                   r.y + (if st.continueTracing then st.v.y else 0.0));
    var pad := if fillUp then Copies(end, count) else if st.continueTracing then [end] else [];
    st.(pos := st.pos + pad)
  }

  /** One pass of `trace_ray`'s loop body up to its exit test: the
      direction is renormalised and the first nearest component, if any, is
      hit; the flag says whether the loop ends here, because nothing was hit
      or the ray has been stopped. */
  function Step(m: Libm, cs: seq<Component>, st: RayState): (r: (RayState, bool))
    requires st.pos != []
    ensures st.pos <= r.0.pos
    ensures !r.1 ==> st.pos < r.0.pos
    ensures !st.continueTracing ==> !r.0.continueTracing
    decreases cs, 0
  {
    var st1 := st.(v := Renormed(st.v));
    var sel := SelectHit(HitTimes(m, cs, st1));
    var found := sel.1 != Infinity;
    var st2 := if found then Hit(m, cs[sel.0], st1) else st1;
    (st2, !found || !st2.continueTracing)
  }

  /** The state after iterations `i` to `n - 1` of `trace_ray(c, ry, n,
      fill_up)`, starting from `st`. */
  function TraceFrom(m: Libm, cs: seq<Component>, st: RayState, i: int, n: int, fillUp: bool): (r: RayState)
    requires st.pos != []
    ensures st.pos <= r.pos
    ensures fillUp && i < n ==> st.pos < r.pos
    ensures !st.continueTracing ==> !r.continueTracing
    decreases cs, 1, n - i
  {
    if i >= n then st
    else
      var (st2, stop) := Step(m, cs, st);
      if stop then Finish(st2, n - i, fillUp)
      else TraceFrom(m, cs, st2, i + 1, n, fillUp)
  }

  /** One iteration of the trace, unfolded. */
  lemma TraceFromStep(m: Libm, cs: seq<Component>, st: RayState, i: int, n: int, fillUp: bool)
    requires st.pos != [] && i < n
    ensures var (st2, stop) := Step(m, cs, st);
            TraceFrom(m, cs, st, i, n, fillUp) ==
              if stop then Finish(st2, n - i, fillUp) else TraceFrom(m, cs, st2, i + 1, n, fillUp)
  {
  }

  /** One iteration of the trace, given the outcome of its pass. */
  lemma TraceFromStepTo(m: Libm, cs: seq<Component>, st: RayState, st2: RayState, stop: bool, i: int, n: int, fillUp: bool)
    requires st.pos != [] && i < n && Step(m, cs, st) == (st2, stop)
    ensures stop ==> TraceFrom(m, cs, st, i, n, fillUp) == Finish(st2, n - i, fillUp)
    ensures !stop ==> TraceFrom(m, cs, st, i, n, fillUp) == TraceFrom(m, cs, st2, i + 1, n, fillUp)
  {
    TraceFromStep(m, cs, st, i, n, fillUp);
  }

  /** `next_component(c, ry)`: one pass over the components updating
      `best_t` and `best_ind` on a strictly smaller time. */
  method NextComponent(m: Libm, cs: seq<Component>, ry: Ray) returns (k: nat, t: Time)
    requires ry.Valid()
    ensures (k, t) == SelectHit(HitTimes(m, cs, ry.State()))
    ensures IsFirstMinimum(HitTimes(m, cs, ry.State()), k, t)
    decreases cs, 0
  {
    ghost var ts := HitTimes(m, cs, ry.State());
    var bestT := Infinity;
    var bestInd := 0;
    for ind := 0 to |cs|
      invariant (bestInd, bestT) == SelectHit(ts[..ind])
    {
      var currentT := TestHitOf(m, cs[ind], ry);
      assert ts[..ind + 1][..ind] == ts[..ind];
      if Less(currentT, bestT) {
        bestT := currentT;
        bestInd := ind;
      }
    }
    assert ts[..|cs|] == ts;
    return bestInd, bestT;
  }

  /** `c->test_hit(ry)`: a simple surface's solve, or for a composite the
      best time of its children. A simple surface's time is read through
      `Positive`, so a miss and a crossing behind the ray are both infinity. */
  method TestHitOf(m: Libm, c: Component, ry: Ray) returns (t: Time)
    requires ry.Valid()
    ensures t == HitTime(m, c, ry.State())
    decreases c, 1
  {
    var r := ry.pos[|ry.pos| - 1];
    match c {
      case MirrorPlane(p) =>
        t := Positive(TestHit(p, r, ry.v));
      case ScreenPlane(p) =>
        t := Positive(TestHit(p, r, ry.v));
      case RefractSph(a, _, _) =>
        var s := Spheres.Solve(m, a, r, ry.v);
        t := Positive(s);
      case Composite(cs) =>
        var _, best := NextComponent(m, cs, ry);
        t := best;
    }
  }

  /** `c->hit(ry)` on a ray object. */
  method HitComponent(m: Libm, c: Component, ry: Ray)
    requires ry.Valid()
    modifies ry
    ensures ry.Valid()
    ensures ry.State() == Hit(m, c, old(ry.State()))
    decreases c, 1
  {
    match c {
      case MirrorPlane(p) => MirrorHitRay(p, ry);
      case ScreenPlane(p) => ScreenHitRay(p, ry);
      case RefractSph(a, n1, n2) => RefractSphHitRay(m, a, n1, n2, ry);
      case Composite(cs) => TraceRay(m, cs, ry, 1, true);
    }
  }

  /** The end of `trace_ray` on a ray object: the end point pushed
      `count` times under `fill_up`, else once if still tracing. */
  method FinishRay(ry: Ray, count: int, fillUp: bool)
    requires ry.Valid()
    modifies ry
    ensures ry.Valid()
    ensures ry.State() == Finish(old(ry.State()), count, fillUp)
  {
    var r := ry.pos[|ry.pos| - 1];
    var end := Vec(r.x + (if ry.continueTracing then ry.v.x else 0.0),
                   r.y + (if ry.continueTracing then ry.v.y else 0.0));
    if fillUp {
      var j := 0;
      while j < count
        invariant if count > 0 then 0 <= j <= count else j == 0
        invariant ry.Valid()
        invariant ry.State() == old(ry.State()).(pos := old(ry.pos) + Copies(end, j))
      {
        ry.pos := ry.pos + [end];
        j := j + 1;
      }
    } else if ry.continueTracing {
      ry.pos := ry.pos + [end];
    }
  }

  /** One pass of `trace_ray`'s loop body, up to its exit test, on a ray
      object. */
  method TraceStep(m: Libm, cs: seq<Component>, ry: Ray) returns (stop: bool)
    requires ry.Valid()
    modifies ry
    ensures ry.Valid()
    ensures (ry.State(), stop) == Step(m, cs, old(ry.State()))
    decreases cs, 0
  {
    ry.v := Renormed(ry.v);
    var nextInd, t := NextComponent(m, cs, ry);
    var found := t != Infinity;
    if found {
      HitComponent(m, cs[nextInd], ry);
    }
    stop := !found || !ry.continueTracing;
  }

  /** `trace_ray(c, ry, n, fill_up)`. */
  method TraceRay(m: Libm, cs: seq<Component>, ry: Ray, n: int, fillUp: bool)
    requires ry.Valid()
    modifies ry
    ensures ry.Valid()
    ensures ry.State() == TraceFrom(m, cs, old(ry.State()), 0, n, fillUp)
    decreases cs, 1
  {
    ghost var goal := TraceFrom(m, cs, ry.State(), 0, n, fillUp);
    var i := 0;
    while i < n
      invariant ry.Valid()
      invariant TraceFrom(m, cs, ry.State(), i, n, fillUp) == goal
      decreases n - i
    {
      ghost var st := ry.State();
      var stop := TraceStep(m, cs, ry);
      TraceFromStepTo(m, cs, st, ry.State(), stop, i, n, fillUp);
      if stop {
        FinishRay(ry, n - i, fillUp);
        return;
      }
      i := i + 1;
    }
    assert ry.State() == TraceFrom(m, cs, ry.State(), i, n, fillUp);
  }

  /** Ray `after` is ray `before` traced by `trace_ray(c, ry, n, fill_up)`. */
  ghost predicate Traced(m: Libm, cs: seq<Component>, before: RayState, after: RayState, n: int, fillUp: bool) {
    before.pos != [] && after == TraceFrom(m, cs, before, 0, n, fillUp)
  }

  /** `trace(c, rays, n, fill_up)`: each ray traced in list order. */
  method Trace(m: Libm, cs: seq<Component>, rays: seq<Ray>, n: int, fillUp: bool)
    requires forall j :: 0 <= j < |rays| ==> rays[j].Valid()
    requires forall j, k :: 0 <= j < |rays| && 0 <= k < |rays| && j != k ==> rays[j] != rays[k]
    modifies set j | 0 <= j < |rays| :: rays[j]
    ensures forall j :: 0 <= j < |rays| ==> rays[j].Valid()
    ensures forall j :: 0 <= j < |rays| ==> Traced(m, cs, old(rays[j].State()), rays[j].State(), n, fillUp)
  {
    for j := 0 to |rays|
      invariant forall k :: 0 <= k < |rays| ==> rays[k].Valid()
      invariant forall k :: 0 <= k < j ==> Traced(m, cs, old(rays[k].State()), rays[k].State(), n, fillUp)
      invariant forall k :: j <= k < |rays| ==> rays[k].State() == old(rays[k].State())
    {
      TraceRay(m, cs, rays[j], n, fillUp);
    }
  }
}
