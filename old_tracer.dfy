/** The trace loop of the older generation: every iteration refills one
    hit time per component, the positive-filter selector picks the first of
    the smallest positive times, and the loop runs on until nothing is hit;
    there is no stop flag and no renormalisation. The older composite
    reports the time of the child that selector picks, -1 when none. */
module OldTracer {
  import opened Vectors
  import opened Rays
  import opened Planes
  import opened Spheres
  import opened Selection
  import opened Surfaces
  import opened Scene
  import opened Tracer

  /** `c->test_hit(ry)` in the older generation: a simple surface's time,
      or for a composite the time of the child the selector picks, -1 when
      no child time is positive. */
  function OldTime(m: Libm, c: Component, st: RayState): real
    requires st.pos != []
    decreases c, 1
  {
    match c
    case Composite(cs) =>
      var ts := OldTimes(m, cs, st);
      var sel := FirstSmallestPositive(ts);
      if sel.1 then ts[sel.0] else -1.0
    case _ => LeafTime(m, c, st)
  }

  /** The hit times of the components, in order. */
  function OldTimes(m: Libm, cs: seq<Component>, st: RayState): (ts: seq<real>)
    requires st.pos != []
    ensures |ts| == |cs|
    ensures forall j :: 0 <= j < |cs| ==> ts[j] == OldTime(m, cs[j], st)
    decreases cs, 0
  {
    if cs == [] then [] else OldTimes(m, cs[..|cs| - 1], st) + [OldTime(m, cs[|cs| - 1], st)]
  }

  /** `c->hit(ry)` in the older generation, with the default `n = 1`: the
      screen only records its crossing; a composite traces one step, padded,
      through its children. */
  function OldHit(m: Libm, c: Component, st: RayState): (r: RayState)
    requires st.pos != []
    ensures |st.pos| < |r.pos|
    decreases c, 1
  {
    match c
    case MirrorPlane(p) => MirrorHit(p, st)
    case ScreenPlane(p) => ScreenHitOld(p, st)
    case RefractSph(a, n1, n2) => RefractSphHit(m, a, n1, n2, st)
    case Composite(cs) => OldTraceFrom(m, cs, st, 0, 1, true)
  }

  /** The end of an older trace with `count` iterations left: `pos.back() +
      v` appended `count` times under `fill_up`, once otherwise. */
  function OldFinish(st: RayState, count: int, fillUp: bool): RayState
    requires st.pos != []
  {
    var r := Last(st);
    var end := Vec(r.x + st.v.x, r.y + st.v.y);
    st.(pos := st.pos + if fillUp then Copies(end, count) else [end])
  }

  /** One pass of the older loop body up to its exit test: the first of
      the smallest positive times selects the component to hit; the flag
      says whether the loop ends here because no time is positive. */
  function OldStep(m: Libm, cs: seq<Component>, st: RayState): (r: (RayState, bool))
    requires st.pos != []
    ensures r.1 ==> r.0 == st
    ensures !r.1 ==> |st.pos| < |r.0.pos|
    decreases cs, 0
  {
    var (k, found) := FirstSmallestPositive(OldTimes(m, cs, st));
    if found then (OldHit(m, cs[k], st), false) else (st, true)
  }

  /** The state after iterations `i` to `n - 1` of the older `trace_ray(c,
      ry, n, fill_up)`, starting from `st`. */
  function OldTraceFrom(m: Libm, cs: seq<Component>, st: RayState, i: int, n: int, fillUp: bool): (r: RayState)
    requires st.pos != []
    ensures |st.pos| <= |r.pos|
    ensures i < n ==> |st.pos| < |r.pos|
    decreases cs, 1, n - i
  {
    if i >= n then st
    else
      var (st2, stop) := OldStep(m, cs, st);
      if stop then OldFinish(st, n - i, fillUp)
      else OldTraceFrom(m, cs, st2, i + 1, n, fillUp)
  }

  /** One iteration of the older trace, unfolded. */
  lemma OldTraceFromStep(m: Libm, cs: seq<Component>, st: RayState, i: int, n: int, fillUp: bool)
    requires st.pos != [] && i < n
    ensures var (st2, stop) := OldStep(m, cs, st);
            OldTraceFrom(m, cs, st, i, n, fillUp) ==
              if stop then OldFinish(st2, n - i, fillUp) else OldTraceFrom(m, cs, st2, i + 1, n, fillUp)
  {
  }

  /** The older `Complex_Component::test_hit`: the children's times pushed
      in order, then the positive-filter selector. */
  method OldTestHitOf(m: Libm, c: Component, ry: Ray) returns (t: real)
    requires ry.Valid()
    ensures t == OldTime(m, c, ry.State())
    decreases c, 1
  {
    match c {
      case Composite(cs) =>
        ghost var want := OldTimes(m, cs, ry.State());
        var ts: seq<real> := [];
        for j := 0 to |cs|
          invariant ts == want[..j]
        {
          var tj := OldTestHitOf(m, cs[j], ry);
          ts := ts + [tj];
        }
        assert want[..|cs|] == want;
        var ind, found := NextPositive(ts);
        t := if found then ts[ind] else -1.0;
      case MirrorPlane(p) =>
        t := TestHit(p, ry.pos[|ry.pos| - 1], ry.v);
      case ScreenPlane(p) =>
        t := TestHit(p, ry.pos[|ry.pos| - 1], ry.v);
      case RefractSph(a, _, _) =>
        t := Spheres.Solve(m, a, ry.pos[|ry.pos| - 1], ry.v);
    }
  }

  /** `c->hit(ry)` of the older generation on a ray object. */
  method OldHitComponent(m: Libm, c: Component, ry: Ray)
    requires ry.Valid()
    modifies ry
    ensures ry.Valid()
    ensures ry.State() == OldHit(m, c, old(ry.State()))
    decreases c, 1
  {
    match c {
      case MirrorPlane(p) => MirrorHitRay(p, ry);
      case ScreenPlane(p) => ScreenHitOldRay(p, ry);
      case RefractSph(a, n1, n2) => RefractSphHitRay(m, a, n1, n2, ry);
      case Composite(cs) => OldTraceRay(m, cs, ry, 1, true);
    }
  }

  /** One refill of the hit-time vector: `t[cInd] = c[cInd]->test_hit(ry)`
      for every component, in order. */
  method FillTimes(m: Libm, cs: seq<Component>, ry: Ray, t: array<real>)
    requires ry.Valid() && t.Length == |cs|
    modifies t
    ensures t[..] == OldTimes(m, cs, ry.State())
    decreases cs, 0
  {
    ghost var want := OldTimes(m, cs, ry.State());
    for cInd := 0 to |cs|
      invariant t[..cInd] == want[..cInd]
    {
      t[cInd] := OldTestHitOf(m, cs[cInd], ry);
    }
    assert t[..] == t[..|cs|];
  }

  /** The end of the older `trace_ray` on a ray object: `pos.back() + v`
      pushed `count` times under `fill_up`, once otherwise. */
  method OldFinishRay(ry: Ray, count: int, fillUp: bool)
    requires ry.Valid()
    modifies ry
    ensures ry.Valid()
    ensures ry.State() == OldFinish(old(ry.State()), count, fillUp)
  {
    var r := ry.pos[|ry.pos| - 1];
    var end := Vec(r.x + ry.v.x, r.y + ry.v.y);
    if fillUp {
      var j := 0;
      while j < count
        invariant if count > 0 then 0 <= j <= count else j == 0
        invariant ry.Valid()
        invariant ry.State() == old(ry.State()).(pos := old(ry.pos) + Copies(end, j))
      {
        ry.pos := ry.pos + [end];
        j := j + 1;
      }
    } else {
      ry.pos := ry.pos + [end];
    }
  }

  /** One pass of the older loop body, up to its exit test, on a ray
      object: `t` is refilled, the selector runs, and the chosen component,
      if any, is hit. */
  method OldTraceStep(m: Libm, cs: seq<Component>, ry: Ray, t: array<real>) returns (stop: bool)
    requires ry.Valid() && t.Length == |cs|
    modifies ry, t
    ensures ry.Valid()
    ensures (ry.State(), stop) == OldStep(m, cs, old(ry.State()))
    decreases cs, 0
  {
    FillTimes(m, cs, ry, t);
    var nextInd, found := NextPositive(t[..]);
    if found {
      OldHitComponent(m, cs[nextInd], ry);
    }
    stop := !found;
  }

  /** The older `trace_ray(c, ry, n, fill_up)`: the vector `t` of hit times
      is sized once and refilled, component by component, every
      iteration. */
  method OldTraceRay(m: Libm, cs: seq<Component>, ry: Ray, n: int, fillUp: bool)
    requires ry.Valid()
    modifies ry
    ensures ry.Valid()
    ensures ry.State() == OldTraceFrom(m, cs, old(ry.State()), 0, n, fillUp)
    ensures OldTraced(m, cs, old(ry.State()), ry.State(), n, fillUp)
    decreases cs, 1
  {
    var t := new real[|cs|];
    ghost var goal := OldTraceFrom(m, cs, ry.State(), 0, n, fillUp);
    var i := 0;
    while i < n
      invariant ry.Valid()
      invariant OldTraceFrom(m, cs, ry.State(), i, n, fillUp) == goal
      decreases n - i
    {
      OldTraceFromStep(m, cs, ry.State(), i, n, fillUp);
      var stop := OldTraceStep(m, cs, ry, t);
      if stop {
        OldFinishRay(ry, n - i, fillUp);
        return;
      }
      i := i + 1;
    }
  }

  /** The older `trace(c, rays, n, fill_up)`: each ray traced in list
      order. */
  method OldTrace(m: Libm, cs: seq<Component>, rays: seq<Ray>, n: int, fillUp: bool)
    requires forall j :: 0 <= j < |rays| ==> rays[j].Valid()
    requires forall j, k :: 0 <= j < |rays| && 0 <= k < |rays| && j != k ==> rays[j] != rays[k]
    modifies set j | 0 <= j < |rays| :: rays[j]
    ensures forall j :: 0 <= j < |rays| ==> rays[j].Valid()
    ensures forall j :: 0 <= j < |rays| ==> OldTraced(m, cs, old(rays[j].State()), rays[j].State(), n, fillUp)
  {
    for j := 0 to |rays|
      invariant forall k :: 0 <= k < |rays| ==> rays[k].Valid()
      invariant forall k :: 0 <= k < j ==> OldTraced(m, cs, old(rays[k].State()), rays[k].State(), n, fillUp)
      invariant forall k :: j <= k < |rays| ==> rays[k].State() == old(rays[k].State())
    {
      OldTraceRay(m, cs, rays[j], n, fillUp);
    }
  }

  /** Ray `after` is ray `before` traced by the older `trace_ray`. */
  ghost predicate OldTraced(m: Libm, cs: seq<Component>, before: RayState, after: RayState, n: int, fillUp: bool) {
    before.pos != [] && after == OldTraceFrom(m, cs, before, 0, n, fillUp)
  }
}
