/** The one helper every component shares: recovering the time at which a
    ray reaches a known point. */
module Components {
  import opened Vectors
  import opened Rays
  import opened Interactions

  /** The coordinate `compute_t` divides along: y when `|v[1]| > 0.5`,
      otherwise x. */
  function Axis(v: Vec): (i: nat)
    ensures i == 1 <==> Abs(v.y) > 0.5
    ensures i <= 1
  {
    if Abs(v.y) > 0.5 then 1 else 0
  }

  function Coord(p: Vec, i: nat): real {
    if i == 0 then p.x else p.y
  }

  /** `compute_t(r, v, pos)`: `(pos[i] - r[i]) / v[i]` along the chosen
      axis; the divisor must not be zero. The time found places the ray,
      along that axis, exactly at `pos`. */
  function ComputeT(r: Vec, v: Vec, pos: Vec): (res: real)
    requires Coord(v, Axis(v)) != 0.0
    ensures Coord(pos, Axis(v)) == Coord(r, Axis(v)) + res * Coord(v, Axis(v))
  {
    var i := Axis(v);
    (Coord(pos, i) - Coord(r, i)) / Coord(v, i)
  }

  /** The time is recovered exactly from any point of the ray. */
  lemma ComputeTRecoversTime(r: Vec, v: Vec, t: real)
    requires Coord(v, Axis(v)) != 0.0
    ensures ComputeT(r, v, Add(r, Scale(t, v))) == t
  {
    var i := Axis(v);
    assert Coord(Add(r, Scale(t, v)), i) - Coord(r, i) == t * Coord(v, i);
  }

  /** For a unit direction the divisor is never zero: `|v[1]| <= 0.5`
      forces `v[0]^2 >= 3/4`. */
  lemma {:induction false} UnitDirectionHasDivisor(v: Vec)
    requires NormSq(v) == 1.0
    ensures Coord(v, Axis(v)) != 0.0
  {
    if Abs(v.y) <= 0.5 {
      assert v.y * v.y <= 0.25 by {
        if v.y < 0.0 {
          assert v.y * v.y == (-v.y) * (-v.y);
        }
        assert Abs(v.y) * Abs(v.y) == v.y * v.y;
        assert Abs(v.y) * Abs(v.y) <= 0.5 * Abs(v.y);
      }
      assert v.x * v.x >= 0.75;
    }
  }

  /** `compute_t` undoes `compute_new_pos`: the time of the point the ray
      reaches after time `t` is `t` again. */
  lemma ComputeTInvertsNewPos(st: RayState, t: real)
    requires st.pos != [] && Coord(st.v, Axis(st.v)) != 0.0
    ensures ComputeT(Last(st), st.v, ComputeNewPos(st, t)) == t
  {
    assert ComputeNewPos(st, t) == Add(Last(st), Scale(t, st.v));
    ComputeTRecoversTime(Last(st), st.v, t);
  }
}
