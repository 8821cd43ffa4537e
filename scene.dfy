/** The components a scene is built from, shared by both generations of
    the trace loop, and the padding the loop appends when it stops early. */
module Scene {
  import opened Vectors
  import opened Rays
  import opened Planes
  import opened Spheres

  /** A component of the scene. The simple surfaces carry their geometry
      (and, for the refracting arc, the indices inside and outside); a
      composite component holds its children in order. */
  datatype Component =
    | MirrorPlane(plane: Plane)
    | ScreenPlane(plane: Plane)
    | RefractSph(arc: Arc, n1: PosReal, n2: PosReal)
    | Composite(comps: seq<Component>)

  /** A scene of simple surfaces only: each hit appends exactly one point. */
  predicate Simple(cs: seq<Component>) {
    forall j :: 0 <= j < |cs| ==> !cs[j].Composite?
  }

  /** `test_hit` of a simple surface: the plane's or the arc's hit time for
      the ray's last point and direction, -1 for a miss. */
  function LeafTime(m: Libm, c: Component, st: RayState): real
    requires st.pos != []
    requires !c.Composite?
  {
    match c
    case MirrorPlane(p) => TestHit(p, Last(st), st.v)
    case ScreenPlane(p) => TestHit(p, Last(st), st.v)
    case RefractSph(a, _, _) => SolveArc(m, a, Last(st), st.v)
  }

  /** `k` copies of the point `p` (none when `k` is not positive), as the
      padding loop `for j in [0, k)` pushes them. */
  function Copies(p: Vec, k: int): (s: seq<Vec>)
    ensures |s| == if k > 0 then k else 0
    ensures forall j :: 0 <= j < |s| ==> s[j] == p
  {
    if k <= 0 then [] else Copies(p, k - 1) + [p]
  }
}
