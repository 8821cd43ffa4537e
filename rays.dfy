/** A ray: the points it has visited, its current direction, and the flag
    a screen clears to stop the trace. */
module Rays {
  import opened Vectors

  /** The contents of a `Ray` at one moment. */
  datatype RayState = RayState(pos: seq<Vec>, v: Vec, continueTracing: bool)

  /** The last visited point, `pos.back()`; the engine never reads it from
      an empty path. */
  function Last(st: RayState): Vec
    requires st.pos != []
  {
    st.pos[|st.pos| - 1]
  }

  /** `pos.resize(1)`: keeps the first point, or value-initialises one when
      the path is empty. */
  function FirstOnly(pos: seq<Vec>): (r: seq<Vec>)
    ensures |r| == 1
    ensures pos != [] ==> r == [pos[0]]
  {
    if pos == [] then [Vec(0.0, 0.0)] else pos[..1]
  }

  /** The state after `reset(new_v)`. */
  function ResetState(st: RayState, newV: Vec): RayState {
    RayState(FirstOnly(st.pos), newV, st.continueTracing)
  }

  /** The state after `reset(new_v, new_start)`. */
  function ResetToState(st: RayState, newV: Vec, newStart: Vec): RayState {
    RayState([newStart], newV, st.continueTracing)
  }

  /** `reset(new_v)` keeps exactly the original start point, takes the new
      direction, leaves the stop flag alone, and doing it twice is doing it
      once. */
  lemma ResetKeepsStartAndFlag(st: RayState, newV: Vec)
    requires st.pos != []
    ensures ResetState(st, newV).pos == [st.pos[0]]
    ensures ResetState(st, newV).v == newV
    ensures ResetState(st, newV).continueTracing == st.continueTracing
    ensures ResetState(ResetState(st, newV), newV) == ResetState(st, newV)
  {
  }

  /** `reset(new_v, new_start)` leaves a one-point path at the new start
      heading along the new direction, leaves the stop flag alone, and is
      idempotent. */
  lemma ResetToIsIdempotent(st: RayState, newV: Vec, newStart: Vec)
    ensures ResetToState(st, newV, newStart).pos == [newStart]
    ensures ResetToState(st, newV, newStart).v == newV
    ensures ResetToState(st, newV, newStart).continueTracing == st.continueTracing
    ensures ResetToState(ResetToState(st, newV, newStart), newV, newStart)
            == ResetToState(st, newV, newStart)
  {
  }

  /** Neither reset turns a cleared stop flag back on. */
  lemma ResetNeverRearms(st: RayState, newV: Vec, newStart: Vec)
    requires !st.continueTracing
    ensures !ResetState(st, newV).continueTracing
    ensures !ResetToState(st, newV, newStart).continueTracing
  {
  }

  class Ray {
    var pos: seq<Vec>
    var v: Vec
    var continueTracing: bool

    /** A ray always has visited at least one point. */
    predicate Valid()
      reads this
    {
      |pos| >= 1
    }

    function State(): (st: RayState)
      reads this
      ensures st.pos == pos && st.v == v && st.continueTracing == continueTracing
    {
      RayState(pos, v, continueTracing)
    }

    /** `Ray(init, v)`: a one-point path, ready to be traced. */
    constructor(init: Vec, v0: Vec)
      ensures Valid()
      ensures pos == [init] && v == v0 && continueTracing
    {
      continueTracing := true;
      pos := [init];
      v := v0;
    }

    /** `reset(new_v)`. */
    method Reset(newV: Vec)
      modifies this
      ensures State() == ResetState(old(State()), newV)
      ensures Valid()
    {
      v := newV;
      pos := FirstOnly(pos);
    }

    /** `reset(new_v, new_start)`. */
    method ResetTo(newV: Vec, newStart: Vec)
      modifies this
      ensures State() == ResetToState(old(State()), newV, newStart)
      ensures Valid()
    {
      v := newV;
      pos := FirstOnly(pos);
      pos := pos[0 := newStart];
    }
  }
}
