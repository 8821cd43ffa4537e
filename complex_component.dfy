/** `Complex_Component`: a component made of an ordered list of children,
    copied deeply and assigned by copy-and-swap. Its hit time is the best of
    its children's, and a hit traces the ray through the children. The
    children are values here, so a clone of a child is the child itself. */
module Composites {
  import opened Vectors
  import opened Rays
  import opened Selection
  import opened Scene
  import opened Tracer
  import opened TraceLaws
  import opened OldTracer
  import opened OldTraceLaws

  class ComplexComponent {
    var comps: seq<Component>

    /** `Complex_Component() = default`: no children. */
    constructor ()
      ensures comps == []
    {
      comps := [];
    }

    /** The copy constructor: one clone per child of `c`, pushed in order;
        `c` is left as it is. */
    constructor Copy(c: ComplexComponent)
      ensures comps == c.comps
    {
      var cs: seq<Component> := [];
      for j := 0 to |c.comps|
        invariant cs == c.comps[..j]
      {
        cs := cs + [c.comps[j]];
      }
      comps := cs;
    }

    /** `add(c)`: a child appended at the end. */
    method Add(c: Component)
      modifies this
      ensures comps == old(comps) + [c]
    {
      comps := comps + [c];
    }

    /** `swap(c1, c2)`: the two child lists are exchanged. */
    static method Swap(c1: ComplexComponent, c2: ComplexComponent)
      modifies c1, c2
      ensures c1.comps == old(c2.comps) && c2.comps == old(c1.comps)
    {
      var tmp := c1.comps;
      c1.comps := c2.comps;
      c2.comps := tmp;
    }

    /** `operator=(c)`: copy-and-swap. The argument is copied, the copy is
        swapped into this component, and the argument keeps its children,
        also when it is this component itself. */
    method Assign(c: ComplexComponent)
      modifies this
      ensures comps == old(c.comps)
      ensures c.comps == old(c.comps)
    {
      var copy := new ComplexComponent.Copy(c);
      Swap(this, copy);
    }

    /** `test_hit(ry)`: the strictly smallest of the children's hit times,
        the first on ties; infinity when no child can be hit, in particular
        when there are no children. */
    method TestHit(m: Libm, ry: Ray) returns (t: Time)
      requires ry.Valid()
      ensures t == HitTime(m, Composite(comps), ry.State())
      ensures t == Infinity <==> forall j :: 0 <= j < |comps| ==> HitTime(m, comps[j], ry.State()) == Infinity
      ensures t != Infinity ==>
                exists k :: 0 <= k < |comps| && t == HitTime(m, comps[k], ry.State()) &&
                  forall j :: 0 <= j < |comps| ==> !Less(HitTime(m, comps[j], ry.State()), t)
    {
      var _, best := NextComponent(m, comps, ry);
      t := best;
      CompositeTimeIsNearestChild(m, comps, ry.State());
    }

    /** `hit(ry, n)`: `trace_ray` over the children, `n` iterations, padded. */
    method Hit(m: Libm, ry: Ray, n: int)
      requires ry.Valid()
      modifies ry
      ensures ry.Valid()
      ensures ry.State() == TraceFrom(m, comps, old(ry.State()), 0, n, true)
    {
      TraceRay(m, comps, ry, n, true);
    }

    /** The older `test_hit(ry)`: the time of the child the positive-filter
        selector picks, -1 when no child time is positive. */
    method OldTestHit(m: Libm, ry: Ray) returns (t: real)
      requires ry.Valid()
      ensures t == OldTime(m, Composite(comps), ry.State())
      ensures t == -1.0 <==> forall j :: 0 <= j < |comps| ==> OldTime(m, comps[j], ry.State()) <= 0.0
      ensures t != -1.0 ==>
                && t > 0.0
                && (exists k :: 0 <= k < |comps| && t == OldTime(m, comps[k], ry.State()))
                && forall j :: 0 <= j < |comps| && OldTime(m, comps[j], ry.State()) > 0.0 ==>
                     t <= OldTime(m, comps[j], ry.State())
    {
      t := OldTestHitOf(m, Composite(comps), ry);
      OldCompositeTime(m, comps, ry.State());
    }

    /** The older `hit(ry, n)`: the older `trace_ray` over the children. */
    method OldHit(m: Libm, ry: Ray, n: int)
      requires ry.Valid()
      modifies ry
      ensures ry.Valid()
      ensures ry.State() == OldTraceFrom(m, comps, old(ry.State()), 0, n, true)
    {
      OldTraceRay(m, comps, ry, n, true);
    }
  }
}
