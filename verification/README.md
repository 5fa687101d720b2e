# Weierstrass extremum engine, modelled in Dafny

This project models the analysis engine of the `WeierstrassTheorem` class in
`func.py`. The class illustrates the extreme value theorem: a function that is
continuous on a closed interval [a, b] attains a global minimum and a global
maximum there. The engine works in four steps:

1. The continuity gate (`check_continuity`) samples the function and rejects it
   when a sample is not finite or when one jump between consecutive samples
   exceeds 100 times the mean jump.
2. The critical-point finder (`find_extremum_points`) collects the real roots
   of f′ that the symbolic solver reports strictly inside (a, b). When there are
   none, it scans f′ at 1000 grid points. There it records exact zeros and
   bisects every strict sign change 20 times. Inflection points are the real
   roots of f″ inside (a, b), with no numeric fallback. Both lists are returned
   sorted.
3. The extremum selector (`find_extrema_on_interval`) picks the global minimum
   and maximum among the candidates `[a, b] ++ critical points`. As with
   Python's `min`/`max`, the first candidate wins a tie. Each critical point is
   classified by the sign of f″. A critical point is flagged as a global minimum
   (or maximum) when its value is within 1e-10 of the selected one.
4. The analysis fails with `NotContinuous` when the gate rejects the function.

Abstractions:

- Floats are exact reals. f, f′ and f″ are uninterpreted `real -> real`
  functions.
- The symbolic solver is an input of type
  `Option<seq<Option<real>>>`:
  - `None` means that solving raised.
  - `None` for a single root means that the root is not known to be real, or
    that its conversion to a number raised.
- The continuity gate gets a `Sampling`. Either evaluation raised, or it
  yielded the sample values together with a flag that says whether any sample
  was NaN or infinite.
- `numpy.linspace` is `Grid.Linspace`, computed exactly. Its last point is `b`
  itself.
- The fallback reads f′ at each grid point as `fp(xs[i])`. Evaluating f′ over
  the whole array equals evaluating it point by point.

Modules: `Wrappers` (Option/Result), `Sorting` (the `sorted` built-in),
`Continuity` (the gate), `Grid` (sample points), `Roots` (symbolic filter,
bisection, fallback scan, `find_extremum_points`), `Extrema` (selection,
classification, `find_extrema_on_interval`).

Two behaviours of the code are worth stating plainly:

- The docstring of `find_extremum_points` (func.py:66) says it finds points
  inside the interval. This holds on the symbolic path, which keeps roots in
  the open interval (a, b). The fallback scan, however, records a grid point
  whose f′ is exactly zero, and grid point 0 is `a`. So the fallback can
  report `a`, and its points lie in [a, b). `Roots.FindExtremumPoints` states
  this.
- A constant f fails the continuity gate. Evaluating a constant expression
  over an array gives a scalar, `np.diff` of a scalar raises (func.py:55),
  and the handler returns `False` (func.py:60-62), so the analysis raises.
  In this model that case is a `Sampling` of `EvaluationRaised`. The
  array-shape behaviour is the numeric library's and is not derived here.

## Model

| member | source | states |
|---|---|---|
| Continuity.CheckContinuity | func.py:38-62 | The gate passes iff evaluation did not raise, no sample is non-finite, there are at least two samples, and every consecutive jump is at most 100 times the mean jump. Fewer than two samples fail, because the maximum of an empty difference array raises. |
| Continuity.EvenJumpsPass | func.py:55-59 | Samples whose jumps all lie between some m and 100·m pass the gate. |
| Continuity.StepIsCaught | func.py:55-57 | Samples of a step function (flat, then flat again at a different level) fail the gate once there are more than 100 jumps. |
| Continuity.BoundedJumpsPass | func.py:55-59 | If one bound c covers every jump and c times the number of jumps is at most 100 times their sum, the samples pass the gate, because 100 times the mean jump is then at least c. |
| Continuity.Span | func.py:55-56 | The jumps add up to at least the distance from the first sample to any sample k plus the distance from k to the last sample. |
| Continuity.MaxJumpDecides | func.py:56-57 | Comparing only the largest jump with 100 times the mean gives the same verdict as checking every jump against that limit. |
| Continuity.MaxOf | func.py:56 | The maximum jump is one of the jumps and is at least every jump. |
| Grid.Linspace | func.py:88 | Point i of the grid is `GridPoint(a, b, n, i)`. The grid has n points, starts at a and ends at b, and every point before the last is a + i·(b − a)/(n − 1): the points are evenly spaced. When a < b it is strictly increasing and stays inside [a, b]. |
| Roots.KeepInterior | func.py:76-83 | A value is kept iff it is a converted real solution strictly inside (a, b), and it is kept exactly as many times as the solver reports it. Skipped solutions add nothing, and the output is no longer than the solver's list. |
| Roots.InteriorRoots | func.py:73-85 | A failing solver yields no roots. Otherwise exactly the real solutions in (a, b) are kept, each as many times as the solver reports it. |
| Roots.Bisect | func.py:95-103 | From a bracket with f′(lo)·f′(hi) < 0, twenty steps keep f′(left)·f′(right) ≤ 0 and keep the bracket inside [lo, hi] with its orientation. The final width is (hi − lo)/2^20. The returned midpoint lies strictly between lo and hi. |
| Roots.ProductSign | func.py:95-99 | The product tests the source applies to derivative values are sign tests: u·v ≤ 0 iff u and v are not strictly on the same side of zero, and u·v < 0 iff they are strictly on opposite sides. |
| Roots.EventsBelow | func.py:92-95 | The event indices below n are exactly the samples with f′ = 0 or a strict sign change to the next sample, in ascending order. |
| Roots.ScanSample | func.py:93-103 | One scan step reports a point iff sample i has f′ = 0 or a strict sign change to sample i + 1. The point is the sample itself for a zero. For a sign change it is strictly between the two samples and is the midpoint of a final bisection bracket: f′ does not keep one strict sign on it, it lies inside the two samples with their orientation, and it is 2^20 times narrower. |
| Roots.ScanForRoots | func.py:91-103 | The scan records one point per event index over samples 0..n−2, in order. A zero sample records the sample itself. A sign change records the midpoint of a final bisection bracket of the two samples, as `Roots.ScanSample` states. |
| Roots.FindExtremumPoints | func.py:64-119 | Both lists are ascending. Inflection points are exactly the real f″ roots in (a, b), with no fallback. If the symbolic path found a critical point, the critical list is exactly the symbolic roots. Otherwise the list is the scan's points rearranged, one recorded point per event. When a < b those points lie in [a, b), and a itself is reported when f′(a) = 0. |
| Roots.ArrangedScanPoints | func.py:88-103 | An arrangement of the scan's points has one point per event, and each of its points is the point the scan records for one of its events. |
| Roots.FallbackArrangement | func.py:86-119 | The sorted fallback points are an arrangement of the scan, one point per event. When a < b they lie in [a, b), and a is among them when f′(a) = 0. |
| Roots.ScanPointInGrid | func.py:88-94 | Over the fallback grid of [a, b] with a < b, a sample before the last, or a point strictly between two consecutive samples, lies in [a, b): the last sample b is never recorded. |
| Sorting.Sort | func.py:119 | The result is ascending and is a permutation of the input. |
| Sorting.SortKeepsSorted | func.py:119 | Sorting an ascending list leaves it unchanged. |
| Extrema.MinIndex | func.py:139 | The chosen index holds a value ≤ every value, and every earlier index holds a strictly greater value: first occurrence wins. |
| Extrema.MaxIndex | func.py:140 | The chosen index holds a value ≥ every value, and every earlier index holds a strictly smaller value. |
| Extrema.FirstMinUnique | func.py:139 | The first-occurrence minimum index is unique. |
| Extrema.FirstMaxUnique | func.py:140 | The first-occurrence maximum index is unique. |
| Extrema.KindOf | func.py:147-152 | Local minimum iff f″ > 0, local maximum iff f″ < 0, inflection or saddle iff f″ = 0. |
| Extrema.Describe | func.py:143-160 | A critical record carries x and f(x) and the second-derivative kind. It is flagged global min (max) iff abs(f(x) − min value) < 1e-10 (likewise against the max value). |
| Extrema.Assemble | func.py:131-172 | The result keeps one record per critical point in the same order and the inflection list unchanged. Continuity and theorem-applies are true. The endpoints are (a, f(a)) and (b, f(b)). The global min and max are the first least and greatest candidates of [a, b] ++ critical points. |
| Extrema.GlobalBounds | func.py:136-140 | The chosen min and max are candidates carrying their own values. Every candidate's value lies between them. |
| Extrema.GlobalFlags | func.py:158-159 | A point flagged global min has a value in [min, min + 1e-10), and a point flagged global max has one in (max − 1e-10, max]. A critical point at the chosen min (max) x is always flagged. |
| Extrema.FindExtremaOnInterval | func.py:121-172 | The analysis fails (NotContinuous) iff the continuity gate fails. On success the result satisfies the `Assemble` properties. The sampling is f's values on the gate's grid of 10000 points whenever evaluation did not raise. Its critical x's are ascending and are exactly the symbolic interior roots when there are any. Otherwise they are the scan's points rearranged, one per event, inside [a, b) when a < b. Its inflection points are ascending and are exactly the interior real roots of f″. |
| Extrema.SquareSamplesPass | test_weierstrass.py:16-19 | The values of x² on the gate's 10000-point grid of [−1, 1] are samples of x² that `SamplesOf` admits, and they pass the continuity gate. Every jump is at most 2·(2/9999), and the jumps add up to at least 1. |
| Extrema.SquareRoots | test_weierstrass.py:6-13 | For x² on [−1, 1], the solver root 0 of f′ gives the critical list [0]. |
| Extrema.SquareOnUnitInterval | test_weierstrass.py:6-13 | For x² on [−1, 1] with the critical list [0]: the min is (0, 0), the max is (−1, 1) because the first endpoint wins the tie, and the one critical point is a local min flagged global min. |
| Extrema.CubicRoots | func.py:73-85 | For f′ = 3x² − 12x + 9 on [0, 4], the solver roots 1 and 3 give the critical list [1, 3]. |
| Extrema.CubicOnZeroFour | func.py:12-13 | For the default x³ − 6x² + 9x + 2 on [0, 4]: the endpoints win the ties, so the min is (0, 2) and the max is (4, 6). Point 1 is a local max flagged global max, and point 3 is a local min flagged global min. |

## Left out

- Parsing with `sympify`, symbolic differentiation, `solve` and `lambdify`
  (func.py:22-36, 74, 107) are calls into the computer-algebra library. The
  derivatives are uninterpreted functions and the solver's answer is an input.
- IEEE floating point: rounding, NaN and infinities. Reals are exact, and
  non-finite samples are one boolean flag of `Sampling`.
- The array shape of vectorised evaluation. For a constant derivative
  (linear f), the source's vectorised f′ is a scalar, and indexing it in the
  fallback scan raises an uncaught error. The model reads f′ point by point and
  does not reproduce that failure.
- `str(self.f_sym)` normalisation of the formula text: the formula is carried
  through as given.
- `print` in the continuity handler (func.py:60-62): a console side effect.
  Only the `False` result is modelled.
- `visualize`, `print_detailed_report`, `main` and the interactive input
  (func.py:174-398): presentation and I/O.
- Idempotence of repeated analyses: the selection and classification are pure
  functions (`Extrema.Assemble`). The top-level operation is a method, and
  Dafny states nothing across two method calls.
- Roots.ScanForRoots: says where each bisected point lies (the midpoint of a
  final bracket with the facts of `Roots.Bisect`), not which bracket the
  twenty halvings select, so not the point's exact value.
- Roots.KeepInterior: the order of the kept roots is not stated, only how
  many times each value is kept. Both lists are sorted afterwards (func.py:119),
  so only that multiset reaches the result.
- Extrema.FindExtremaOnInterval: the sampling of a non-finite run is tied to
  f only by its length. NaN and infinity are not reals here.
- func.go and func_tests.go: an unrelated geometry package with no connection
  to this engine.
