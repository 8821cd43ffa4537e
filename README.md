# A verified model of the geometrical-ray-tracing engine

geometrical-ray-tracing traces 2-D rays through optical components. These are plane
mirrors, screens, refracting circular arcs, and composite components built from
other components. A ray keeps the list of points it has visited (`pos`), its
current direction (`v`), and a `continue_tracing` flag that a screen clears.
`trace_ray` repeats a fixed cycle up to `n` times:
- pick the component the ray meets first;
- let that component `hit` the ray, which appends the crossing point and changes the direction or the flag;
- stop when nothing is hit or the ray has been stopped;
- when it stops, append an end point, `n - i` times under `fill_up`.

This project models that engine in Dafny, over real numbers. Two generations of the
loop are modelled side by side:

- **The tracing generation** (`Tracer`, `TraceLaws`). It uses the loop of
  `tracing/cpp/optics/trace_func.cpp`, the selector that keeps the strictly smallest
  time (infinity meaning "no hit"), renormalises the direction, and has the stop flag.
  The model passes every simple surface's time through `Selection.Positive` before
  the selector compares it. Both the -1 miss of `Plane.cpp` and `Spherical.cpp` and a
  negative crossing time (`cpp/optics/Plane.cpp:23` returns one unchanged) therefore
  become infinity. This is the corrected reading; the code as written compares the raw
  times, and "## Findings" shows what that does.
- **The older generation** (`OldTracer`, `OldTraceLaws`). It uses the loop of
  `cpp/trace_func.cpp`: the vector of times is refilled each iteration and the
  first-smallest-positive selector of `cpp/general.cpp` runs, with no stop flag and
  no renormalisation. The older composite of `Complex_Component.cpp` belongs here too.

Modules follow the engine's files:
- `Vectors`: points, `is_close`, and the mathematical library as a parameter.
- `Rays`: the `Ray` class and its resets.
- `General`: `rotate` and `renorm_unit_vec`.
- `Planes`: `Plane` construction, `solve` and `test_hit`.
- `Spheres`: `Spherical` construction, `in_range` and `solve`.
- `Interactions`: `compute_new_pos`, `reflect_ray` and `refract_ray`.
- `Selection`: both selectors.
- `Surfaces`: the `hit` of each simple surface.
- `Scene`: components as values.
- `Components`: `compute_t`.
- `Composites`: the `Complex_Component` class.

How the code is modelled:
- Code that changes state is a method on a `Ray` object or a `ComplexComponent` object.
- Each such method is proved equal to a function of the old state.
- The properties are lemmas about those functions.

Doubles are reals. `sqrt`, `cos` and `sin` are fields of a `Libm` value, and are
therefore arbitrary functions. A lemma that needs one of them to behave as the
real one says so with `SqrtLaw(m)` (the non-negative square root) or `TrigLaw(m)`
(`cos² + sin² = 1`).

## Model

| member | source | states |
|---|---|---|
| Rays.FirstOnly | cpp/optics/Ray.cpp:28 | `pos.resize(1)` leaves exactly one point, the original first point whenever there was one |
| Rays.ResetKeepsStartAndFlag | cpp/optics/Ray.cpp:25-29 | `reset(new_v)` keeps exactly the first point, takes `new_v`, leaves `continue_tracing` alone, and doing it twice equals doing it once |
| Rays.ResetToIsIdempotent | cpp/optics/Ray.cpp:31-37 | `reset(new_v, new_start)` leaves `pos == [new_start]`, takes `new_v`, keeps the flag, and is idempotent |
| Rays.ResetNeverRearms | cpp/optics/Ray.cpp:25-37 | neither reset sets a cleared `continue_tracing` back to true |
| Rays.ResetState | cpp/optics/Ray.cpp:25-29 | the state after `reset(new_v)`; its properties are `Rays.ResetKeepsStartAndFlag` |
| Rays.ResetToState | cpp/optics/Ray.cpp:31-37 | the state after `reset(new_v, new_start)`; its properties are `Rays.ResetToIsIdempotent` |
| Rays.Ray.constructor | cpp/optics/Ray.cpp:3-8 | a new ray has `pos == [init]`, the given `v`, and `continue_tracing` true |
| Rays.Ray.Reset | cpp/optics/Ray.cpp:25-29 | the ray's new state is `ResetState` of its old state, so the reset lemmas apply to it |
| Rays.Ray.ResetTo | cpp/optics/Ray.cpp:31-37 | the ray's new state is `ResetToState` of its old state |
| Vectors.IsClose | Component.h:33-36 | `is_close` with the absolute tolerance 1e-8; the hit tests' use of it is stated by `Planes.TestHitIsSegmentCrossing` and `Spheres.BestRootIsSmallestAdmissible` |
| General.RotateCS | tracing/cpp/optics/general.cpp:25-31 | `rotate` with the cosine and sine given; `General.RotatePreservesLength` and `General.RotateThenUnrotate` state its properties |
| General.Rotate | tracing/cpp/optics/general.cpp:25-31 | `rotate(r, theta)`; `General.RotateKeepsLength` states its property |
| General.Renormed | tracing/cpp/optics/general.cpp:33-46 | `renorm_unit_vec`; `General.RenormFixesUnit`, `General.RenormKeepsDirection` and `General.RenormSquaresError` state its properties |
| General.RotatePreservesLength | tracing/cpp/optics/general.cpp:25-31 | given `c² + s² = 1`, `rotate` keeps the squared length |
| General.RotateThenUnrotate | tracing/cpp/optics/general.cpp:25-31 | rotating by `(c, s)` and then by `(c, -s)` gives back the original vector |
| General.RotateKeepsLength | tracing/cpp/optics/general.cpp:25-31 | under `TrigLaw`, `rotate(r, theta)` keeps the squared length of `r` |
| General.RenormFixesUnit | tracing/cpp/optics/general.cpp:33-46 | `renorm_unit_vec` leaves a unit vector unchanged |
| General.RenormKeepsDirection | tracing/cpp/optics/general.cpp:37-45 | when `abs(v)² < 3`, the common factor `1 - (abs(v)² - 1)/2` is positive, so both components keep their signs |
| General.RenormSquaresError | tracing/cpp/optics/general.cpp:37-45 | the distance of `abs(v)²` from 1 after renormalising is at most the square of the distance before it (the Taylor step converges) |
| Planes.NewPlane | cpp/optics/Plane.cpp:3-12 | the constructor stores `start` and `end`, and `D` times the length of `end - start` is `end - start` |
| Planes.NewPlaneUnitDirection | cpp/optics/Plane.cpp:9-11 | under `SqrtLaw`, when `start != end` the length is nonzero and `D` is a unit vector |
| Planes.SolveIsTheCrossing | cpp/optics/Plane.cpp:41-49 | off the parallel case, `(t, tp)` is what `solve` returns if and only if `r + t v = start + tp (end - start)` |
| Planes.TestHit | cpp/optics/Plane.cpp:14-24 | `test_hit`; characterised by `Planes.TestHitIsSegmentCrossing` and `Planes.ParallelIsMiss` |
| Planes.TestHitIsSegmentCrossing | cpp/optics/Plane.cpp:14-24 | for `t != -1`, `test_hit` returns `t` if and only if the lines are not parallel, `t` is not within 1e-8 of 0, and `r + t v` lies on the segment (`0 <= tp <= 1`); negative times included |
| Planes.ParallelIsMiss | cpp/optics/Plane.cpp:34-39 | a ray parallel to the plane is reported as the miss `-1` |
| Spheres.NewArc | cpp/optics/Spherical.cpp:3-11 | the constructor as written caches `cos(start)` and `sin(start)`, and agrees with the corrected constructor in every field except `end_p`, which is off by the rotated centre |
| Spheres.NewArcCentred | cpp/optics/Spherical.cpp:3-11 | the corrected constructor, with `end_p` built from the centre-relative end point: the arc's own end point passes `in_range` |
| Spheres.AsWrittenArcRejectsItsEndPoint | cpp/optics/Spherical.cpp:9-10 | for a quarter arc centred at (5, 0), `in_range` rejects the arc's own end point as written, and accepts it under the corrected constructor |
| Spheres.InRange | cpp/optics/Spherical.cpp:18-42 | `in_range`; `Spheres.NewArcCentred` and `Spheres.CentredStartPointInRange` show both ends of a corrected arc pass it |
| Spheres.CentredStartPointInRange | cpp/optics/Spherical.cpp:18-42 | with the corrected `end_p` and under `TrigLaw`, the arc's start point is in range |
| Spheres.CentredRangeIsTranslationInvariant | cpp/optics/Spherical.cpp:21-26 | with the corrected `end_p`, moving the centre and the point by the same offset does not change `in_range` |
| Spheres.BestRootIsSmallestAdmissible | cpp/optics/Spherical.cpp:61-79 | the loop over the roots finds a root if and only if some root is accepted (`t > 0`, not within 1e-8 of 0, `in_range`); the one found is accepted and no larger than any accepted root |
| Spheres.SolveArc | cpp/optics/Spherical.cpp:44-85 | the arc's `solve`; characterised by `Spheres.SolveArcIsNearestAdmissibleRoot` |
| Spheres.SolveArcIsNearestAdmissibleRoot | cpp/optics/Spherical.cpp:44-85 | `solve` is -1 exactly when the discriminant is negative or neither root is accepted; otherwise it is the smallest accepted root |
| Spheres.Solve | cpp/optics/Spherical.cpp:44-85 | the imperative `solve` (two-root loop updating `found_sol` and `best_t`) returns the value characterised above |
| Spheres.CandidatesOnCircle | cpp/optics/Spherical.cpp:46-59 | under `SqrtLaw`, with a unit `v` and a non-negative discriminant, each root `t = -gamma ± sqrt(disc)` puts `r + t v` on the circle |
| Interactions.ComputeNewPos | tracing/cpp/optics/trace_func.cpp:100-112 | `compute_new_pos` is the point the ray reaches after time `t`; `Components.ComputeTInvertsNewPos` shows `compute_t` recovers `t` from it |
| Interactions.Reflected | tracing/cpp/optics/trace_func.cpp:114-123 | the reflected direction; `Interactions.ReflectionLaws` and `Interactions.ReflectedDecomposes` state its properties |
| Interactions.Refracted | tracing/cpp/optics/trace_func.cpp:125-179 | the refracted direction; `Interactions.SnellLaw`, `Interactions.RefractionCrossesSurface` and `Interactions.TotalInternalReflectionIsReflection` state its properties |
| Interactions.ReflectionLaws | tracing/cpp/optics/trace_func.cpp:114-123 | with a unit normal, reflection negates `v·n`, keeps `v·D`, keeps the length, and undoes itself |
| Interactions.ReflectedDecomposes | tracing/cpp/optics/trace_func.cpp:114-123 | with a unit normal, `v - 2 (v·n) n` is the vector with tangential part `v·D` and normal part `-(v·n)` |
| Interactions.GammaIsScaledTangent | tracing/cpp/optics/trace_func.cpp:143 | `gamma` is `-(v·D) ni/nf` |
| Interactions.GammaOpposesTangent | tracing/cpp/optics/trace_func.cpp:130-143 | `gamma > 0` exactly when `v·D < 0` |
| Interactions.TotalInternalReflectionIsReflection | tracing/cpp/optics/trace_func.cpp:143-153 | when `1 - gamma² < 0`, the refracted direction is exactly the reflected one |
| Interactions.RefractedDecomposes | tracing/cpp/optics/trace_func.cpp:156-178 | without total reflection and with a unit normal, the result has tangential part `-gamma` and normal part `±sqrt(1 - gamma²)`, signed like `v·n` |
| Interactions.RefractedTangent | tracing/cpp/optics/trace_func.cpp:164-178 | without total reflection, `v'·D = -gamma` |
| Interactions.SnellLaw | tracing/cpp/optics/trace_func.cpp:156-178 | without total reflection, `v'·D = (ni/nf)(v·D)` with `(ni, nf) = (n2, n1)` when `v·n > 0` and `(n1, n2)` otherwise |
| Interactions.RefractionCrossesSurface | tracing/cpp/optics/trace_func.cpp:156-178 | without total reflection and under `SqrtLaw`: `v'` is a unit vector, and `v'·n` has the sign of `v·n` (strictly when `gamma² < 1` and `v·n != 0`), so the ray crosses the surface |
| Interactions.ReflectRay | tracing/cpp/optics/trace_func.cpp:114-123 | `reflect_ray` overwrites `ry.v` with the reflection and changes nothing else |
| Interactions.RefractRay | tracing/cpp/optics/trace_func.cpp:125-179 | `refract_ray` overwrites `ry.v` with the refracted direction and changes nothing else |
| Selection.SelectHit | tracing/cpp/optics/trace_func.cpp:25-43 | the selector returns the first index with the strictly smallest time, `(0, infinity)` for an empty list or all-infinite times |
| Selection.SelectHitIsNearest | tracing/cpp/optics/trace_func.cpp:25-43 | the selector's time is infinity exactly when every time is; otherwise it is the time at the returned index, and no time is strictly smaller |
| Selection.FirstMinimumUnique | tracing/cpp/optics/trace_func.cpp:25-43 | any index and time that are the first minimum are what the selector returns |
| Selection.FirstSmallestPositive | cpp/general.cpp:5-30 | the positive-filter selector returns `(0, false)` when no time is positive; otherwise a positive time no larger than any positive time, the first such on ties |
| Selection.NextPositive | cpp/general.cpp:5-30 | the imperative selector, updating `found`, `best_t` and `best_ind`, returns the result above |
| Selection.NonPositiveNeverSelected | cpp/general.cpp:13-19 | a non-positive time, such as the -1 sentinel, is never selected |
| Selection.Positive | tracing/cpp/optics/trace_func.cpp:33-35 | the corrected reading of a raw time: finite exactly when positive, keeping its value; a non-positive time then beats no time in the strict comparison, and a positive one beats a miss |
| Selection.SelectorsAgree | cpp/general.cpp:5-30 | on times read through `Positive`, the strict-minimum selector picks what the positive-filter selector picks, and reports infinity exactly when it finds nothing |
| Surfaces.MirrorHit | tracing/cpp/optics/Mirror_Plane.cpp:29-43 | the state after a mirror hit; `Surfaces.MirrorHitReflects` states its properties |
| Surfaces.ScreenHit | cpp/optics/Screen_Plane.cpp:30-47 | the state after a screen hit; `Surfaces.ScreenHitStops` states its properties |
| Surfaces.ScreenHitOld | cpp/Screen_Plane.cpp:8-24 | the state after an older screen hit; `Surfaces.ScreenHitStops` states its properties |
| Surfaces.RefractSphHit | cpp/optics/Refract_Sph.cpp:8-82 | the state after a refracting arc hit; `Surfaces.RefractSphHitRefracts` states its properties |
| Surfaces.MirrorHitReflects | tracing/cpp/optics/Mirror_Plane.cpp:29-43 | a mirror hit appends one point `pos.back() + t v`, computed with the incoming `v` (on the mirror's line when not parallel), keeps the earlier points and the flag, and with a unit normal negates `v·n` and keeps the length of `v` |
| Surfaces.MirrorScenario | tracing/cpp/optics/Mirror_Plane.cpp:29-43 | a ray from (0, 0) along (0.6, 0.8) on the mirror x = 3 appends (3, 4) and leaves with direction (-0.6, 0.8) |
| Surfaces.ScreenHitStops | cpp/optics/Screen_Plane.cpp:30-47 | a screen hit appends the crossing, keeps `v` and clears the flag; the older screen (cpp/Screen_Plane.cpp:8-24) appends the crossing and keeps `v` and the flag |
| Surfaces.RadialNormalIsUnit | cpp/optics/Refract_Sph.cpp:27 | `(newPos - centre)/R` is a unit vector when `newPos` lies on the circle |
| Surfaces.RefractSphHitRefracts | cpp/optics/Refract_Sph.cpp:8-82 | the arc's hit appends exactly `r + t v` with `t = solve(r, v)` and keeps the flag. For a real hit, a unit `v` and under `SqrtLaw`: the point is on the circle, the normal is a unit vector, total reflection gives the reflected direction, and otherwise a unit direction obeying Snell's law whose normal component keeps the sign of `v·n` |
| Surfaces.MirrorHitRay | tracing/cpp/optics/Mirror_Plane.cpp:29-43 | on a ray object, `Mirror_Plane::hit` produces the state above |
| Surfaces.ScreenHitRay | cpp/optics/Screen_Plane.cpp:30-47 | on a ray object, `Screen_Plane::hit` produces the state above |
| Surfaces.ScreenHitOldRay | cpp/Screen_Plane.cpp:8-24 | on a ray object, the older `Screen_Plane::hit` produces the state above |
| Surfaces.RefractSphHitRay | cpp/optics/Refract_Sph.cpp:8-82 | on a ray object, `Refract_Sph::hit` produces the state above |
| Scene.LeafTime | tracing/cpp/optics/trace_func.cpp:33 | a simple surface's raw `test_hit`; `Planes.TestHitIsSegmentCrossing` and `Spheres.SolveArcIsNearestAdmissibleRoot` state what it is |
| Scene.Copies | tracing/cpp/optics/trace_func.cpp:78-84 | the padding loop pushes `max(k, 0)` copies of the end point, and nothing else |
| Components.ComputeT | cpp/optics/Component.cpp:3-11 | the time found places the ray exactly at `pos` along the axis `compute_t` divides on (y when `abs(v[1]) > 0.5`, x otherwise) |
| Components.ComputeTInvertsNewPos | cpp/optics/Component.cpp:3-11 | `compute_t` undoes `compute_new_pos`: the time of the point reached after time `t` is `t` |
| Components.ComputeTRecoversTime | cpp/optics/Component.cpp:3-11 | if `pos = r + t v` and the chosen component of `v` is nonzero, `compute_t` returns `t` |
| Components.UnitDirectionHasDivisor | cpp/optics/Component.cpp:5-10 | for a unit `v` the chosen divisor is never zero |
| Tracer.HitTime | tracing/cpp/optics/trace_func.cpp:33-35 | the time the selector compares; `TraceLaws.HitTimeIsFuture` and `TraceLaws.CompositeTimeIsNearestChild` state its properties |
| Tracer.Finish | tracing/cpp/optics/trace_func.cpp:70-89 | the exit branch; `TraceLaws.FinishAppendsEndPoint` states what it appends |
| Tracer.Hit | tracing/cpp/optics/trace_func.cpp:65-68 | every component's `hit`, composites included, keeps the earlier points, appends at least one, and never sets a cleared flag again |
| Tracer.Step | tracing/cpp/optics/trace_func.cpp:53-73 | one pass of the loop body keeps the earlier points, appends at least one when the loop goes on, and never re-arms the flag |
| Tracer.TraceFrom | tracing/cpp/optics/trace_func.cpp:46-91 | the loop keeps the earlier points, appends at least one under `fill_up` when an iteration remains, and never sets `continue_tracing` back to true |
| Tracer.NextComponent | tracing/cpp/optics/trace_func.cpp:25-43 | the imperative `next_component` returns the first index of the strictly smallest hit time, or `(0, infinity)`; simple surfaces' times are read through `Positive` |
| Tracer.TestHitOf | tracing/cpp/optics/trace_func.cpp:33 | `c[ind]->test_hit(ry)` on a ray object is the component's hit time, a simple surface's time read through `Positive` |
| Tracer.HitComponent | tracing/cpp/optics/trace_func.cpp:67 | `c[next_ind]->hit(ry)` on a ray object produces `Hit` of the old state |
| Tracer.FinishRay | tracing/cpp/optics/trace_func.cpp:70-89 | the exit branch pushes `pos.back() + v` (or `pos.back()` once stopped) `n - i` times under `fill_up`, otherwise once if still tracing |
| Tracer.TraceStep | tracing/cpp/optics/trace_func.cpp:53-73 | renormalise, select, hit once when the time is finite, and report whether to stop, as `Step` says |
| Tracer.TraceRay | tracing/cpp/optics/trace_func.cpp:46-91 | `trace_ray` leaves the ray in the state `TraceFrom` describes |
| Tracer.Trace | tracing/cpp/optics/trace_func.cpp:93-98 | every ray in the list is traced by `trace_ray`, with the same components, `n` and `fill_up` |
| TraceLaws.HitTimeIsFuture | tracing/cpp/optics/trace_func.cpp:62-68 | a finite hit time, of a simple or composite component, is positive, so the selected hit is ahead of the ray |
| TraceLaws.CompositeTimeIsNearestChild | cpp/optics/Complex_Component.cpp:28-35 | a composite's time is infinity exactly when every child's is; otherwise it is some child's time and no child's time is strictly smaller |
| TraceLaws.SimpleHitAppendsOne | tracing/cpp/optics/trace_func.cpp:65-68 | a simple surface's hit appends exactly one point and keeps the flag, unless it is a screen, which clears it |
| TraceLaws.StoppedRayTakesOneStep | tracing/cpp/optics/trace_func.cpp:51-89 | a ray whose flag is already false stops after its first iteration: without `fill_up` the result is that of one iteration, and with it only the padding grows |
| TraceLaws.FinishAppendsEndPoint | tracing/cpp/optics/trace_func.cpp:70-89 | the end point is `pos.back() + v` while tracing and `pos.back()` once stopped, appended `n - i` times under `fill_up`, otherwise once only if still tracing |
| TraceLaws.SimpleStep | tracing/cpp/optics/trace_func.cpp:53-73 | over simple surfaces one pass appends at most one point, exactly one when the loop goes on, and one whenever it stops the ray |
| TraceLaws.SimpleTraceLength | tracing/cpp/optics/trace_func.cpp:46-91 | over simple surfaces, under `fill_up` the path grows by `n - i` points, plus one exactly when a screen stopped a tracing ray (the crossing and then `n - i` copies); without `fill_up` by at most `n - i` |
| TraceLaws.EscapeAppendsEndPoint | tracing/cpp/optics/trace_func.cpp:70-89 | a unit-direction ray that hits nothing gets `pos.back() + v` appended `n` times under `fill_up` and once otherwise, so a one-point ray ends with `n + 1` points |
| TraceLaws.ScreenStopsTrace | tracing/cpp/optics/trace_func.cpp:73-87 | a ray meeting a screen gets the crossing and then, under `fill_up`, `n` more copies of it (a one-point ray ends with `n + 2` points), and without `fill_up` nothing more |
| TraceLaws.AsWrittenLeafTime | cpp/optics/Plane.cpp:20-23 | as written, a simple surface's time reaches the selector as a finite time, and a non-positive one (the -1 miss, or a crossing behind the ray) beats every positive or infinite time |
| TraceLaws.SentinelSelectedAsWritten | tracing/cpp/optics/trace_func.cpp:35 | as written, a missed surface (-1) listed before a surface hit at a positive time is selected; with `HitTime` the hit surface is selected |
| TraceLaws.BehindCrossingSelectedAsWritten | testing/test_PyTrace.py:28-61 | for the `fill_up` example (a mirror on y = 1, a surface on x = 1, a ray from (-0.25, 0) heading along -x), the surface behind the ray has time -1.25; as written it is selected, while the corrected trace escapes to (-1.25, 0) and pads it `n` times |
| OldTracer.OldTime | Complex_Component.cpp:3-16 | a component's older `test_hit`; `OldTraceLaws.TimesAgree` and `OldTraceLaws.OldCompositeTime` state its properties |
| OldTracer.OldFinish | cpp/trace_func.cpp:28-43 | the older exit branch; `OldTraceLaws.OldEscape` and `OldTraceLaws.FinishesAgree` state what it appends |
| OldTracer.OldTimes | cpp/trace_func.cpp:16-17 | one hit time per component, in component order |
| OldTracer.OldHit | cpp/trace_func.cpp:24-27 | every older `hit`, composites included, appends at least one point |
| OldTracer.OldStep | cpp/trace_func.cpp:15-27 | one pass of the older body either hits the selected component, appending points, or leaves the state unchanged and stops |
| OldTracer.OldTraceFrom | cpp/trace_func.cpp:4-45 | the older loop never shortens the path and appends at least one point when an iteration remains |
| OldTracer.OldTestHitOf | Complex_Component.cpp:3-16 | the older `test_hit` on a ray object, with a composite pushing its children's times in order, is the component's older time |
| OldTracer.OldHitComponent | cpp/trace_func.cpp:24-27 | `c[next_ind]->hit(ry)` of the older generation produces `OldHit` of the old state |
| OldTracer.FillTimes | cpp/trace_func.cpp:16-17 | the refill loop leaves `t` holding each component's time, in order |
| OldTracer.OldFinishRay | cpp/trace_func.cpp:28-43 | the older exit branch pushes `pos.back() + v` `n - i` times under `fill_up`, once otherwise |
| OldTracer.OldTraceStep | cpp/trace_func.cpp:15-27 | refill, select, and hit once when a positive time exists, as `OldStep` says |
| OldTracer.OldTraceRay | cpp/trace_func.cpp:4-45 | the older `trace_ray` leaves the ray in the state `OldTraceFrom` describes |
| OldTracer.OldTrace | cpp/trace_func.cpp:47-53 | every ray in the list is traced by the older `trace_ray`, with the same arguments |
| OldTraceLaws.TimesAgree | Complex_Component.cpp:3-16 | read through `Positive`, a component's older time (with the -1 of a composite) is its newer time |
| OldTraceLaws.ListTimesAgree | cpp/trace_func.cpp:16-17 | the same, component by component, for a list |
| OldTraceLaws.SameComponentSelected | cpp/trace_func.cpp:22 | both generations select the same component, and the newer one reports infinity exactly when the older finds none |
| OldTraceLaws.OldCompositeTime | Complex_Component.cpp:3-16 | the older composite time is -1 exactly when no child time is positive; otherwise it is a positive child time no larger than any positive child time |
| OldTraceLaws.OldSimpleHitAppendsOne | cpp/trace_func.cpp:24-27 | a simple surface's older hit appends exactly one point |
| OldTraceLaws.OldHitKeepsPath | cpp/trace_func.cpp:24-27 | an older hit keeps the earlier points and appends at least one |
| OldTraceLaws.OldTraceKeepsPath | cpp/trace_func.cpp:11-44 | the older loop keeps the earlier points, appending at least one when an iteration remains |
| OldTraceLaws.OldSimpleStep | cpp/trace_func.cpp:15-27 | over simple surfaces, an older pass that goes on appends exactly one point |
| OldTraceLaws.OldSimpleTraceLength | cpp/trace_func.cpp:11-44 | over simple surfaces, exactly `n - i` new points under `fill_up`, and between one and `n - i` without it |
| OldTraceLaws.OldEscape | cpp/trace_func.cpp:28-43 | a ray no component reports a positive time for gets `pos.back() + v` appended `n` times under `fill_up` and once otherwise, with `v` not renormalised |
| OldTraceLaws.MirrorStepAgrees | cpp/trace_func.cpp:13-27 | over mirrors with unit normals, one pass of both generations agrees for a tracing unit-direction ray, and keeps it tracing with a unit direction |
| OldTraceLaws.FinishesAgree | cpp/trace_func.cpp:28-43 | while the ray is tracing, both generations end a trace with the same points |
| OldTraceLaws.MirrorScenesAgree | cpp/trace_func.cpp:4-45 | over mirrors with unit normals, a tracing unit-direction ray follows the same path in both generations |
| Composites.ComplexComponent.constructor | cpp/optics/Complex_Component.h:15 | a default composite has no children |
| Composites.ComplexComponent.Copy | cpp/optics/Complex_Component.cpp:3-14 | the copy has the same children in the same order |
| Composites.ComplexComponent.Add | cpp/optics/Complex_Component.h:42-46 | `add(c)` appends `c` after the existing children |
| Composites.ComplexComponent.Swap | cpp/optics/Complex_Component.cpp:23-26 | `swap` exchanges the two child lists |
| Composites.ComplexComponent.Assign | cpp/optics/Complex_Component.cpp:16-21 | after copy-and-swap the target holds the argument's children and the argument is unchanged, also for self-assignment |
| Composites.ComplexComponent.TestHit | cpp/optics/Complex_Component.cpp:28-35 | `test_hit` is the strictly smallest child time (first on ties), infinity exactly when no child can be hit, in particular with no children; simple children's times are read through `Positive` |
| Composites.ComplexComponent.Hit | cpp/optics/Complex_Component.cpp:37-40 | `hit(ry, n)` is `trace_ray` over the children with `n` and `fill_up` |
| Composites.ComplexComponent.OldTestHit | Complex_Component.cpp:3-16 | the older `test_hit` is -1 exactly when no child time is positive; otherwise the positive child time the selector picks, no larger than any positive child time |
| Composites.ComplexComponent.OldHit | Complex_Component.cpp:18-21 | the older `hit(ry, n)` is the older `trace_ray` over the children with `n` and `fill_up` |

## Left out

- Floating point: doubles are reals, so rounding, overflow, NaN, infinities produced by arithmetic, and negative zero are not modelled. `std::signbit(x)` is modelled as `x < 0`, which differs only at -0.0.
- `sqrt`, `cos`, `sin` and `hypot`: these are abstract functions of a `Libm` value. `hypot(a, b)` is `sqrt(a² + b²)`. Properties that need the real functions assume `SqrtLaw` or `TrigLaw`.
- Tracer.Trace: requires the rays to be distinct objects. The engine accepts a vector of pointers that may repeat a ray, which would then be traced twice; aliasing is not modelled.
- OldTracer.OldTrace: requires distinct rays, for the same reason.
- Components.ComputeT: requires the chosen component of `v` to be nonzero. The engine would divide by zero; `Components.UnitDirectionHasDivisor` shows that this cannot happen for a unit `v`.
- `Plane::n_vec`: its definition is not part of this model. It is the plane's `normal` field, and the properties that need it to be a unit vector say so.
- Spheres.NewArc: the radius and the refractive indices are positive reals (`PosReal`). Validation lives in the Python layer, which is not part of this model.
- The older composite hit: `Complex_Component.cpp:18-21` calls `trace_ray` on a `Ray*` with the default `fill_up = true` of `cpp/optics/general.h:27`. It is paired with the loop of `cpp/trace_func.cpp`.
- The root `trace_func.cpp` (declared with `fill_up = true` at `general.h:23`) is not part of this model. A miss there returns early under `fill_up` (`trace_func.cpp:21-30`). With `fill_up = false`, its `next_ind >= 0` test on an unsigned index is always true, so a miss indexes out of range (`trace_func.cpp:32-34`).
- Tracer.TestHitOf: reads each simple surface's time through `Positive`, which the code of `tracing/cpp/optics/trace_func.cpp:33-35` does not do. As written, both the -1 miss and a negative crossing time from `cpp/optics/Plane.cpp:23` can win the strict comparison; `TraceLaws.SentinelSelectedAsWritten` and `TraceLaws.BehindCrossingSelectedAsWritten` show this. The same holds for `Tracer.NextComponent`, `Tracer.HitTime` and `Composites.ComplexComponent.TestHit`.
- Both generations share the leaf surfaces and the refraction formula. `Refract_Sph::hit` and `refract_ray` compute the same vector, so it is modelled once (`Interactions.Refracted`). The older generation's plane mirror and arc are assumed to be the same as the newer ones. Its files for them are not part of this model.
- `reserve` and `clone`: allocation and ownership are not modelled. Children are values, so a clone of a child is the child itself. A deep copy is therefore equal to the original, and the model cannot show that the two share no objects.
- `Refract_Sph::hit(ry, n)` and the simple surfaces ignore `n`, and so does the model.
- The trigonometric interaction rules are not part of this model: `cpp/optics/Mirror_Plane.cpp`, `cpp/optics/Refract_Plane.cpp`, `cpp/optics/Mirror_Sph.cpp`, the root `Spherical.cpp`, `Mirror_Sph.cpp` and `Refract_Sph.cpp`. They use floating-point angles through `atan2`, `asin` and `acos`, and the vector forms above supersede them. `Prism.cpp` is not part of this model either: it is a constructor that assembles such planes.
- `cpp/Ray.cpp` is not part of this model: its constructor leaves `continue_tracing` uninitialised.
- Printing, `save_rays`, `save_components`, the timing benchmark and the Python bindings, tests and plotting are input and output, not engine logic.

## Findings

| source | as written | input that shows it | evidently intended | confidence | as-written member | corrected member |
|---|---|---|---|---|---|---|
| cpp/optics/Plane.cpp:20-23 | Simple surfaces report a miss as `-1` and a crossing behind the ray as a negative time, but the selector of `tracing/cpp/optics/trace_func.cpp:35` keeps the strictly smallest time and treats only infinity as a miss | A missed surface (`-1`) listed before a surface hit at `t = 2`: index 0 is selected with time -1, and the missed surface is hit | A miss, or any non-positive time, is never selected | not executed | TraceLaws.SentinelSelectedAsWritten | TraceLaws.HitTimeIsFuture |
| cpp/optics/Plane.cpp:23 | A crossing behind the ray is returned as its negative time, which the strict comparison prefers to every genuine hit | The `fill_up` example of `testing/test_PyTrace.py:28-61`: a ray from (-0.25, 0) heading along -x meets the line x = 1 at t = -1.25 with `tp = 0.5`; that surface is selected although the expected path escapes to (-1.25, 0) | Only positive times are selected, so the ray escapes | not executed | TraceLaws.BehindCrossingSelectedAsWritten | TraceLaws.HitTimeIsFuture |
| cpp/optics/Spherical.cpp:9-10 | `end_p` is the rotated absolute end point `centre + R (cos end, sin end)`, while `in_range` compares it with a centre-relative point | A quarter arc of radius 1 centred at (5, 0), from 0 to a quarter turn: its own end point (5, 1) is rejected | `end_p` is built from `R (cos end, sin end)`, so both ends of the arc are in range | not executed | Spheres.AsWrittenArcRejectsItsEndPoint | Spheres.NewArcCentred |
