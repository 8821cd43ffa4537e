/** The two "which component is hit next" selectors of the engine.

    The newer one (`next_component(c, ry)` of the tracing generation) keeps
    the strictly smallest hit time, starting from infinity; infinity means
    "nothing is hit". The older one (`next_component(t)` of the `cpp/`
    generation) looks only at strictly positive times and reports whether it
    found one. */
module Selection {

  /** A hit time as a double: finite, or `infinity`. */
  datatype Time = Finite(t: real) | Infinity

  /** The comparison `a < b` on doubles, with `infinity` above every finite
      value and not below itself. */
  predicate Less(a: Time, b: Time) {
    a.Finite? && (b.Infinity? || a.t < b.t)
  }

  /** `(k, t)` is the first strictly smallest entry of `ts`, or `(0, Infinity)`
      when every entry is infinite (in particular when `ts` is empty). */
  ghost predicate IsFirstMinimum(ts: seq<Time>, k: nat, t: Time) {
    if t == Infinity then
      k == 0 && forall j :: 0 <= j < |ts| ==> ts[j] == Infinity
    else
      && k < |ts|
      && ts[k] == t
      && (forall j :: 0 <= j < k ==> Less(t, ts[j]))
      && (forall j :: k < j < |ts| ==> !Less(ts[j], t))
  }

  /** The newer selector over the hit times in component order: one pass
      left to right that replaces the best so far only on a strictly smaller
      time, so ties keep the earlier index. */
  function SelectHit(ts: seq<Time>): (res: (nat, Time))
    ensures IsFirstMinimum(ts, res.0, res.1)
  {
    if ts == [] then (0, Infinity)
    else
      var best := SelectHit(ts[..|ts| - 1]);
      if Less(ts[|ts| - 1], best.1) then (|ts| - 1, ts[|ts| - 1]) else best
  }

  /** The selector's time is infinity exactly when every entry is, and
      otherwise an entry that no entry is strictly below. */
  lemma SelectHitIsNearest(ts: seq<Time>)
    ensures var (k, t) := SelectHit(ts);
            && (t == Infinity <==> forall j :: 0 <= j < |ts| ==> ts[j] == Infinity)
            && (t != Infinity ==> k < |ts| && ts[k] == t && forall j :: 0 <= j < |ts| ==> !Less(ts[j], t))
  {
    var (k, t) := SelectHit(ts);
    if t != Infinity {
      forall j | 0 <= j < |ts| ensures !Less(ts[j], t) {
        if j < k {
          assert Less(t, ts[j]);
        }
      }
    }
  }

  /** Exactly one pair meets `IsFirstMinimum`: the selector's specification
      fixes its result. */
  lemma {:induction false} FirstMinimumUnique(ts: seq<Time>, k: nat, t: Time)
    requires IsFirstMinimum(ts, k, t)
    ensures (k, t) == SelectHit(ts)
  {
  }

  /** `(k, found)` is what the older selector must return: `found` exactly
      when some entry is positive, and then `k` indexes the first of the
      smallest positive entries; otherwise `k` is 0. */
  ghost predicate IsFirstSmallestPositive(ts: seq<real>, k: nat, found: bool) {
    if !found then
      k == 0 && forall j :: 0 <= j < |ts| ==> ts[j] <= 0.0
    else
      && k < |ts|
      && ts[k] > 0.0
      && (forall j :: 0 <= j < k && ts[j] > 0.0 ==> ts[k] < ts[j])
      && (forall j :: k < j < |ts| && ts[j] > 0.0 ==> ts[k] <= ts[j])
  }

  /** The older selector, one step per entry as its loop runs: the first
      positive entry is taken, later ones only when positive and strictly
      smaller than the best so far. */
  function FirstSmallestPositive(ts: seq<real>): (res: (nat, bool))
    ensures IsFirstSmallestPositive(ts, res.0, res.1)
  {
    if ts == [] then (0, false)
    else
      var (k, found) := FirstSmallestPositive(ts[..|ts| - 1]);
      var t := ts[|ts| - 1];
      if !found && t > 0.0 then (|ts| - 1, true)
      else if found && t > 0.0 && t < ts[k] then (|ts| - 1, true)
      else (k, found)
  }

  /** `next_component(t)`: a loop updating `found`, `best_t` and `best_ind`. */
  method NextPositive(ts: seq<real>) returns (k: nat, found: bool)
    ensures IsFirstSmallestPositive(ts, k, found)
    ensures (k, found) == FirstSmallestPositive(ts)
  {
    found := false;
    var bestT := 0.0;
    var bestInd := 0;
    var i := 0;
    while i < |ts|
      invariant 0 <= i <= |ts|
      invariant (bestInd, found) == FirstSmallestPositive(ts[..i])
      invariant found ==> bestInd < i && bestT == ts[bestInd]
    {
      assert ts[..i + 1][..i] == ts[..i];
      if !found && ts[i] > 0.0 {
        bestT := ts[i];
        bestInd := i;
        found := true;
      } else if ts[i] > 0.0 && ts[i] < bestT {
        bestT := ts[i];
        bestInd := i;
      }
      i := i + 1;
    }
    assert ts[..i] == ts;
    if found {
      k := bestInd;
    } else {
      k := 0;
    }
  }

  /** Non-positive entries, such as the -1 "no hit" sentinel, are never
      selected, and a positive entry always is found. */
  lemma NonPositiveNeverSelected(ts: seq<real>, j: nat)
    requires j < |ts| && ts[j] <= 0.0
    ensures FirstSmallestPositive(ts).0 != j || !FirstSmallestPositive(ts).1
  {
  }

  /** The time the newer selector compares for a raw hit time: a strictly
      positive time, or infinity for everything else. A non-positive time
      therefore beats no time at all, and a positive one beats a miss. */
  function Positive(t: real): (r: Time)
    ensures r.Finite? <==> t > 0.0
    ensures r.Finite? ==> r.t == t
    ensures t <= 0.0 ==> forall u: Time :: !Less(r, u)
    ensures t > 0.0 ==> Less(r, Infinity)
  {
    if t > 0.0 then Finite(t) else Infinity
  }

  function PositiveTimes(ts: seq<real>): (r: seq<Time>)
    ensures |r| == |ts|
    ensures forall j :: 0 <= j < |ts| ==> r[j] == Positive(ts[j])
  {
    if ts == [] then [] else PositiveTimes(ts[..|ts| - 1]) + [Positive(ts[|ts| - 1])]
  }

  /** The two generations agree once non-positive times are read as
      infinity: the strict-minimum selector over those times picks the same
      index as the positive-filter selector, and reports infinity exactly
      when the latter finds nothing. */
  lemma {:induction false} SelectorsAgree(ts: seq<real>)
    ensures var (k, found) := FirstSmallestPositive(ts);
            SelectHit(PositiveTimes(ts)) == if found then (k, Finite(ts[k])) else (0, Infinity)
  {
    var (k, found) := FirstSmallestPositive(ts);
    var ps := PositiveTimes(ts);
    if found {
      assert IsFirstMinimum(ps, k, Finite(ts[k])) by {
        forall j | 0 <= j < k ensures Less(Finite(ts[k]), ps[j]) {
        }
        forall j | k < j < |ps| ensures !Less(ps[j], Finite(ts[k])) {
        }
      }
      FirstMinimumUnique(ps, k, Finite(ts[k]));
    } else {
      FirstMinimumUnique(ps, 0, Infinity);
    }
  }
}
