/**
 `WeierstrassTheorem.find_extrema_on_interval`: the continuity gate, the
 global minimum and maximum among the endpoints and critical points, and
 the second-derivative classification of each critical point.
 */
module Extrema {
  import opened Wrappers
  import opened Sorting
  import opened Continuity
  import opened Roots
  import Grid

  /** Absolute tolerance for marking a critical point as a global extremum. */
  const Tolerance: real := 0.0000000001

  datatype Point = Point(x: real, y: real)

  datatype Kind = LocalMin | LocalMax | InflectionOrSaddle

  datatype CriticalInfo = CriticalInfo(x: real, y: real, kind: Kind, isGlobalMin: bool, isGlobalMax: bool)

  datatype Analysis = Analysis(
    a: real,
    b: real,
    formula: string,
    isContinuous: bool,
    globalMin: Point,
    globalMax: Point,
    endpointA: Point,
    endpointB: Point,
    criticalPoints: seq<CriticalInfo>,
    inflectionPoints: seq<real>,
    theoremApplies: bool)

  /** The error raised when the continuity gate rejects the function. */
  datatype AnalysisError = NotContinuous

  /** `k` is the first index holding the least value, as `min` over a list picks it. */
  ghost predicate IsFirstMin(vals: seq<real>, k: nat)
  {
    && k < |vals|
    && (forall j :: 0 <= j < |vals| ==> vals[k] <= vals[j])
    && (forall j :: 0 <= j < k ==> vals[j] > vals[k])
  }

  /** `k` is the first index holding the greatest value, as `max` over a list picks it. */
  ghost predicate IsFirstMax(vals: seq<real>, k: nat)
  {
    && k < |vals|
    && (forall j :: 0 <= j < |vals| ==> vals[j] <= vals[k])
    && (forall j :: 0 <= j < k ==> vals[j] < vals[k])
  }

  /**
   Python's `min` over the first `n` values: keep the current best and
   replace it only by a strictly smaller value.
   */
  function MinIndex(vals: seq<real>, n: nat): (k: nat)
    requires 0 < n <= |vals|
    ensures IsFirstMin(vals[..n], k)
  {
    if n == 1 then 0
    else
      var best := MinIndex(vals, n - 1);
      assert vals[..n - 1] == vals[..n][..n - 1];
      if vals[n - 1] < vals[best] then n - 1 else best
  }

  /** Python's `max` over the first `n` values, replacing only on a strictly larger value. */
  function MaxIndex(vals: seq<real>, n: nat): (k: nat)
    requires 0 < n <= |vals|
    ensures IsFirstMax(vals[..n], k)
  {
    if n == 1 then 0
    else
      var best := MaxIndex(vals, n - 1);
      assert vals[..n - 1] == vals[..n][..n - 1];
      if vals[n - 1] > vals[best] then n - 1 else best
  }

  /** The first-occurrence minimum is unique: at most one index satisfies `IsFirstMin`. */
  lemma FirstMinUnique(vals: seq<real>, k1: nat, k2: nat)
    requires IsFirstMin(vals, k1) && IsFirstMin(vals, k2)
    ensures k1 == k2
  {
    assert vals[k1] <= vals[k2] && vals[k2] <= vals[k1];
  }

  /** The first-occurrence maximum is unique as well. */
  lemma FirstMaxUnique(vals: seq<real>, k1: nat, k2: nat)
    requires IsFirstMax(vals, k1) && IsFirstMax(vals, k2)
    ensures k1 == k2
  {
    assert vals[k1] <= vals[k2] && vals[k2] <= vals[k1];
  }

  /** Second-derivative test on the value `d` of f'' at a critical point. */
  function KindOf(d: real): (k: Kind)
    ensures k == LocalMin <==> d > 0.0
    ensures k == LocalMax <==> d < 0.0
    ensures k == InflectionOrSaddle <==> d == 0.0
  {
    if d > 0.0 then LocalMin
    else if d < 0.0 then LocalMax
    else InflectionOrSaddle
  }

  /** The candidates in evaluation order: both endpoints, then the critical points. */
  function Candidates(a: real, b: real, critical: seq<real>): seq<real>
  {
    [a, b] + critical
  }

  function ValuesAt(f: real -> real, xs: seq<real>): (vs: seq<real>)
    ensures |vs| == |xs|
    ensures forall i :: 0 <= i < |xs| ==> vs[i] == f(xs[i])
  {
    seq(|xs|, i requires 0 <= i < |xs| => f(xs[i]))
  }

  function XsOf(infos: seq<CriticalInfo>): (xs: seq<real>)
    ensures |xs| == |infos|
    ensures forall i :: 0 <= i < |infos| ==> xs[i] == infos[i].x
  {
    seq(|infos|, i requires 0 <= i < |infos| => infos[i].x)
  }

  /** `p` is the first candidate of least value, paired with that value. */
  ghost predicate IsGlobalMinOf(f: real -> real, cands: seq<real>, p: Point)
  {
    exists k: nat :: IsFirstMin(ValuesAt(f, cands), k) && p == Point(cands[k], f(cands[k]))
  }

  /** `p` is the first candidate of greatest value, paired with that value. */
  ghost predicate IsGlobalMaxOf(f: real -> real, cands: seq<real>, p: Point)
  {
    exists k: nat :: IsFirstMax(ValuesAt(f, cands), k) && p == Point(cands[k], f(cands[k]))
  }

  /** The record of one critical point, judged against the selected global values. */
  ghost predicate Describes(info: CriticalInfo, f: real -> real, fpp: real -> real, minY: real, maxY: real)
  {
    && info.y == f(info.x)
    && (info.kind == LocalMin <==> fpp(info.x) > 0.0)
    && (info.kind == LocalMax <==> fpp(info.x) < 0.0)
    && (info.kind == InflectionOrSaddle <==> fpp(info.x) == 0.0)
    && (info.isGlobalMin <==> Abs(info.y - minY) < Tolerance)
    && (info.isGlobalMax <==> Abs(info.y - maxY) < Tolerance)
  }

  /** What a successful analysis of f on [a, b] promises. */
  ghost predicate IsAnalysisOf(an: Analysis, f: real -> real, fpp: real -> real, a: real, b: real)
  {
    && an.a == a && an.b == b
    && an.isContinuous && an.theoremApplies
    && an.endpointA == Point(a, f(a))
    && an.endpointB == Point(b, f(b))
    && IsGlobalMinOf(f, Candidates(a, b, XsOf(an.criticalPoints)), an.globalMin)
    && IsGlobalMaxOf(f, Candidates(a, b, XsOf(an.criticalPoints)), an.globalMax)
    && forall i :: 0 <= i < |an.criticalPoints| ==>
         Describes(an.criticalPoints[i], f, fpp, an.globalMin.y, an.globalMax.y)
  }

  function Describe(f: real -> real, fpp: real -> real, x: real, minY: real, maxY: real): (info: CriticalInfo)
    ensures info.x == x
    ensures Describes(info, f, fpp, minY, maxY)
  {
    var y := f(x);
    CriticalInfo(x, y, KindOf(fpp(x)), Abs(y - minY) < Tolerance, Abs(y - maxY) < Tolerance)
  }

  /**
   Builds the result record from the critical and inflection points once the
   continuity gate has passed.
   */
  function Assemble(f: real -> real, fpp: real -> real, a: real, b: real, formula: string,
                    critical: seq<real>, inflection: seq<real>): (an: Analysis)
    ensures IsAnalysisOf(an, f, fpp, a, b)
    ensures XsOf(an.criticalPoints) == critical
    ensures an.inflectionPoints == inflection
    ensures an.formula == formula
  {
    var cands := Candidates(a, b, critical);
    var vals := ValuesAt(f, cands);
    assert vals[..|vals|] == vals;
    var kMin := MinIndex(vals, |vals|);
    var kMax := MaxIndex(vals, |vals|);
    var lo := Point(cands[kMin], vals[kMin]);
    var hi := Point(cands[kMax], vals[kMax]);
    var infos := seq(|critical|, i requires 0 <= i < |critical| => Describe(f, fpp, critical[i], lo.y, hi.y));
    assert XsOf(infos) == critical;
    Analysis(a, b, formula, true, lo, hi, Point(a, f(a)), Point(b, f(b)), infos, inflection, true)
  }

  /**
   Every candidate's value lies between the selected global minimum and
   maximum, and both selected points are candidates carrying their own value.
   */
  lemma GlobalBounds(an: Analysis, f: real -> real, fpp: real -> real, a: real, b: real)
    requires IsAnalysisOf(an, f, fpp, a, b)
    ensures var cands := Candidates(a, b, XsOf(an.criticalPoints));
      && an.globalMin.x in cands && an.globalMin.y == f(an.globalMin.x)
      && an.globalMax.x in cands && an.globalMax.y == f(an.globalMax.x)
      && forall c :: c in cands ==> an.globalMin.y <= f(c) <= an.globalMax.y
  {
    var cands := Candidates(a, b, XsOf(an.criticalPoints));
    var vals := ValuesAt(f, cands);
    var kMin: nat :| IsFirstMin(vals, kMin) && an.globalMin == Point(cands[kMin], f(cands[kMin]));
    var kMax: nat :| IsFirstMax(vals, kMax) && an.globalMax == Point(cands[kMax], f(cands[kMax]));
    forall c | c in cands
      ensures an.globalMin.y <= f(c) <= an.globalMax.y
    {
      var j :| 0 <= j < |cands| && cands[j] == c;
      assert vals[j] == f(c);
    }
  }

  /**
   A critical point flagged as global minimum has a value within the
   tolerance above the global minimum, and the critical point the selection
   landed on is always flagged; likewise for the maximum.
   */
  lemma GlobalFlags(an: Analysis, f: real -> real, fpp: real -> real, a: real, b: real)
    requires IsAnalysisOf(an, f, fpp, a, b)
    ensures forall i :: 0 <= i < |an.criticalPoints| && an.criticalPoints[i].isGlobalMin ==>
      an.globalMin.y <= an.criticalPoints[i].y < an.globalMin.y + Tolerance
    ensures forall i :: 0 <= i < |an.criticalPoints| && an.criticalPoints[i].isGlobalMax ==>
      an.globalMax.y - Tolerance < an.criticalPoints[i].y <= an.globalMax.y
    ensures forall i :: 0 <= i < |an.criticalPoints| && an.criticalPoints[i].x == an.globalMin.x ==>
      an.criticalPoints[i].isGlobalMin
    ensures forall i :: 0 <= i < |an.criticalPoints| && an.criticalPoints[i].x == an.globalMax.x ==>
      an.criticalPoints[i].isGlobalMax
  {
    GlobalBounds(an, f, fpp, a, b);
    var cands := Candidates(a, b, XsOf(an.criticalPoints));
    forall i | 0 <= i < |an.criticalPoints|
      ensures an.globalMin.y <= an.criticalPoints[i].y <= an.globalMax.y
    {
      assert cands[i + 2] == an.criticalPoints[i].x;
    }
  }

  /**
   The whole analysis. The continuity verdict comes from `sampling`, the
   outcome of evaluating `f` over the gate's grid; the solver answers for
   f' = 0 and f'' = 0 come from `firstSols` and `secondSols`.
   */
  method FindExtremaOnInterval(f: real -> real, fp: real -> real, fpp: real -> real,
                               a: real, b: real, formula: string, sampling: Sampling,
                               firstSols: Solutions, secondSols: Solutions)
    returns (r: Result<Analysis, AnalysisError>)
    requires SamplesOf(f, a, b, sampling)
    ensures r.Failure? <==> !CheckContinuity(sampling)
    ensures r.Success? ==> IsAnalysisOf(r.value, f, fpp, a, b) && r.value.formula == formula
    ensures r.Success? ==>
      && SortedAsc(XsOf(r.value.criticalPoints))
      && SortedAsc(r.value.inflectionPoints)
      && multiset(r.value.inflectionPoints) == multiset(InteriorRoots(secondSols, a, b))
    ensures r.Success? && |InteriorRoots(firstSols, a, b)| > 0 ==>
      multiset(XsOf(r.value.criticalPoints)) == multiset(InteriorRoots(firstSols, a, b))
    ensures r.Success? && |InteriorRoots(firstSols, a, b)| == 0 ==>
      && ArrangesScan(fp, FallbackGrid(a, b), XsOf(r.value.criticalPoints))
      && (a < b ==> forall x :: x in XsOf(r.value.criticalPoints) ==> a <= x < b)
  {
    if !CheckContinuity(sampling) {
      return Failure(NotContinuous);
    }
    var critical, inflection := FindExtremumPoints(fp, a, b, firstSols, secondSols);
    var an := Assemble(f, fpp, a, b, formula, critical, inflection);
    assert XsOf(an.criticalPoints) == critical && an.inflectionPoints == inflection;
    r := Success(an);
  }

  function Square(x: real): real { x * x }

  function SquareSecond(x: real): real { 2.0 }

  /** The solver's root 0 of f'(x) = 2x gives the critical list [0] on [-1, 1]. */
  lemma SquareRoots(sols: Solutions)
    requires sols == Some([Some(0.0)])
    ensures Sort(InteriorRoots(sols, -1.0, 1.0)) == [0.0]
  {
    var ss := sols.value;
    assert ss[1..] == [];
    assert KeepInterior(ss, -1.0, 1.0) == [0.0] + KeepInterior([], -1.0, 1.0);
    SortKeepsSorted(InteriorRoots(sols, -1.0, 1.0));
  }

  /**
   f(x) = x * x on [-1, 1] with the critical list [0]. The minimum is
   (0, 0); the maximum value 1 is attained at both ends and the first
   candidate, x = -1, is the one reported.
   */
  lemma SquareOnUnitInterval()
    ensures var an := Assemble(Square, SquareSecond, -1.0, 1.0, "x**2", [0.0], []);
      && an.globalMin == Point(0.0, 0.0)
      && an.globalMax == Point(-1.0, 1.0)
      && an.criticalPoints == [CriticalInfo(0.0, 0.0, LocalMin, true, false)]
  {
    var an := Assemble(Square, SquareSecond, -1.0, 1.0, "x**2", [0.0], []);
    var cands := Candidates(-1.0, 1.0, XsOf(an.criticalPoints));
    var vals := ValuesAt(Square, cands);
    assert vals == [1.0, 1.0, 0.0] by {
      assert cands == [-1.0, 1.0, 0.0];
    }
    assert an.globalMin == Point(0.0, 0.0) by {
      var kMin: nat :| IsFirstMin(vals, kMin) && an.globalMin == Point(cands[kMin], Square(cands[kMin]));
      FirstMinUnique(vals, kMin, 2);
    }
    assert an.globalMax == Point(-1.0, 1.0) by {
      var kMax: nat :| IsFirstMax(vals, kMax) && an.globalMax == Point(cands[kMax], Square(cands[kMax]));
      FirstMaxUnique(vals, kMax, 0);
    }
    assert an.criticalPoints[0] == CriticalInfo(0.0, 0.0, LocalMin, true, false);
  }

  /** The gate's grid of [-1, 1], point by point. */
  function SquareGrid(): seq<real>
  {
    seq(ContinuitySamples, i requires 0 <= i < ContinuitySamples => Grid.GridPoint(-1.0, 1.0, ContinuitySamples, i))
  }

  /** x * x at every point of the gate's grid of [-1, 1]. */
  function SquareSamples(): seq<real>
  {
    seq(ContinuitySamples, i requires 0 <= i < ContinuitySamples => Square(Grid.GridPoint(-1.0, 1.0, ContinuitySamples, i)))
  }

  /**
   f(x) = x * x passes the continuity gate on [-1, 1]. These samples are
   what `SamplesOf` admits for f on [-1, 1], so `FindExtremaOnInterval`
   on them succeeds. Every jump is at most twice the grid step, while the
   jumps add up to almost 2 (down from 1 to nearly 0 and back up to 1).
   */
  lemma SquareSamplesPass(ys: seq<real>)
    requires ys == SquareSamples()
    ensures SamplesOf(Square, -1.0, 1.0, Sampled(ys, false))
    ensures CheckContinuity(Sampled(ys, false))
  {
    var xs := SquareGrid();
    var step := 2.0 / 9999.0;
    SquareGridPoints(xs, step);
    assert |ys| == |xs| && forall i :: 0 <= i < |ys| ==> ys[i] == Square(xs[i]);
    SquaresOnGrid(xs, ys, step);
  }

  /**
   Squares of the points -1 + i * step, for a grid of 10000 points of
   [-1, 1], pass the gate: each jump is at most `2 * step`, and the jumps
   add up to at least 1.
   */
  lemma SquaresOnGrid(xs: seq<real>, ys: seq<real>, step: real)
    requires step == 2.0 / 9999.0
    requires |xs| == ContinuitySamples && |ys| == |xs|
    requires forall i :: 0 <= i < |xs| ==> xs[i] == -1.0 + (i as real) * step && -1.0 <= xs[i] <= 1.0
    requires forall i :: 0 <= i < |ys| ==> ys[i] == Square(xs[i])
    ensures CheckContinuity(Sampled(ys, false))
  {
    var c := 2.0 * step;
    forall i | 0 <= i < |ys| - 1
      ensures Jumps(ys)[i] <= c
    {
      SquareGridJump(xs, ys, step, i);
    }
    SquareNearZero(xs[4999], step);
    SquareGridTravel(ys, step);
    BoundedJumpsPass(ys, c);
  }

  lemma SquareGridJump(xs: seq<real>, ys: seq<real>, step: real, i: nat)
    requires step == 2.0 / 9999.0
    requires i + 1 < |xs| && |ys| == |xs|
    requires xs[i] == -1.0 + (i as real) * step && -1.0 <= xs[i]
    requires xs[i + 1] == -1.0 + ((i + 1) as real) * step && xs[i + 1] <= 1.0
    requires ys[i] == Square(xs[i]) && ys[i + 1] == Square(xs[i + 1])
    ensures Jumps(ys)[i] <= 2.0 * step
  {
    assert xs[i + 1] == xs[i] + step;
    SquareJump(xs[i], xs[i + 1], step);
  }

  /** Grid point 4999 of [-1, 1] is -1/9999, whose square is far below 1/2. */
  lemma SquareNearZero(x: real, step: real)
    requires step == 2.0 / 9999.0 && x == -1.0 + (4999 as real) * step
    ensures Square(x) <= 0.5
  {
    assert x == -1.0 / 9999.0;
  }

  /** The samples go from 1 down to below 1/2 at point 4999 and back up to 1. */
  lemma SquareGridTravel(ys: seq<real>, step: real)
    requires step == 2.0 / 9999.0
    requires |ys| == ContinuitySamples
    requires ys[0] == 1.0 && ys[4999] <= 0.5 && ys[|ys| - 1] == 1.0
    ensures 2.0 * step * ((|ys| - 1) as real) <= JumpFactor * Sum(Jumps(ys))
  {
    Span(ys, 4999);
    TravelBound(ys[0], ys[4999], ys[|ys| - 1], Sum(Jumps(ys)));
    assert (|ys| - 1) as real == 9999.0;
    assert 2.0 * step * 9999.0 == 4.0;
  }

  lemma TravelBound(first: real, low: real, last: real, total: real)
    requires first == 1.0 && low <= 0.5 && last == 1.0
    requires total >= Abs(low - first) + Abs(last - low)
    ensures 4.0 <= JumpFactor * total
  {
  }

  /** Point `i` of the gate's grid of [-1, 1] is -1 + i * step, and it lies in [-1, 1]. */
  lemma SquareGridPoints(xs: seq<real>, step: real)
    requires xs == SquareGrid() && step == 2.0 / 9999.0
    ensures |xs| == ContinuitySamples
    ensures forall i :: 0 <= i < |xs| ==> xs[i] == -1.0 + (i as real) * step && -1.0 <= xs[i] <= 1.0
  {
    forall i | 0 <= i < |xs|
      ensures xs[i] == -1.0 + (i as real) * step && -1.0 <= xs[i] <= 1.0
    {
      if i == |xs| - 1 {
        assert xs[i] == 1.0;
      } else {
        Grid.StepBelow(-1.0, i as real, 9999.0, step);
      }
    }
  }

  /** Neighbouring points `x` and `y = x + step` of [-1, 1] have squares at most `2 * step` apart. */
  lemma SquareJump(x: real, y: real, step: real)
    requires step > 0.0 && y == x + step
    requires -1.0 <= x && y <= 1.0
    ensures Abs(Square(y) - Square(x)) <= 2.0 * step
  {
    var w, t := y - x, y + x;
    DifferenceOfSquares(x, y, w, t);
    ProductWithin(w, t);
  }

  lemma ProductWithin(w: real, t: real)
    requires w > 0.0 && -2.0 <= t <= 2.0
    ensures Abs(w * t) <= 2.0 * w
  {
    ScaleWithin(w, t);
  }

  lemma DifferenceOfSquares(x: real, y: real, w: real, t: real)
    requires w == y - x && t == y + x
    ensures Square(y) - Square(x) == w * t
  {
  }

  lemma ScaleWithin(step: real, s: real)
    requires step > 0.0 && -2.0 <= s <= 2.0
    ensures -2.0 * step <= step * s <= 2.0 * step
  {
  }

  function Cubic(x: real): real { x * x * x - 6.0 * x * x + 9.0 * x + 2.0 }

  function CubicSecond(x: real): real { 6.0 * x - 12.0 }

  /**
   f(x) = x^3 - 6x^2 + 9x + 2 on [0, 4]: critical points 1 (local maximum,
   value 6) and 3 (local minimum, value 2). The endpoints tie with them,
   f(0) = 2 and f(4) = 6; being earlier candidates, the endpoints are the
   reported extrema, while both critical points carry a global flag.
   */
  lemma CubicOnZeroFour()
    ensures var an := Assemble(Cubic, CubicSecond, 0.0, 4.0, "x**3 - 6*x**2 + 9*x + 2", [1.0, 3.0], [2.0]);
      && an.globalMin == Point(0.0, 2.0)
      && an.globalMax == Point(4.0, 6.0)
      && an.criticalPoints == [CriticalInfo(1.0, 6.0, LocalMax, false, true),
                               CriticalInfo(3.0, 2.0, LocalMin, true, false)]
  {
    CubicValues();
    var an := Assemble(Cubic, CubicSecond, 0.0, 4.0, "x**3 - 6*x**2 + 9*x + 2", [1.0, 3.0], [2.0]);
    var cands := Candidates(0.0, 4.0, XsOf(an.criticalPoints));
    var vals := ValuesAt(Cubic, cands);
    assert |vals| == 4 && vals[0] == 2.0 && vals[1] == 6.0 && vals[2] == 6.0 && vals[3] == 2.0 by {
      assert cands == [0.0, 4.0, 1.0, 3.0];
    }
    TieSelection(vals);
    assert an.globalMin == Point(0.0, 2.0) by {
      var kMin: nat :| IsFirstMin(vals, kMin) && an.globalMin == Point(cands[kMin], Cubic(cands[kMin]));
      FirstMinUnique(vals, kMin, 0);
    }
    assert an.globalMax == Point(4.0, 6.0) by {
      var kMax: nat :| IsFirstMax(vals, kMax) && an.globalMax == Point(cands[kMax], Cubic(cands[kMax]));
      FirstMaxUnique(vals, kMax, 1);
    }
    assert an.criticalPoints[0] == CriticalInfo(1.0, 6.0, LocalMax, false, true);
    assert an.criticalPoints[1] == CriticalInfo(3.0, 2.0, LocalMin, true, false);
  }

  /** The solver's roots 1 and 3 of f'(x) = 3x^2 - 12x + 9 give the critical list [1, 3] on [0, 4]. */
  lemma CubicRoots(sols: Solutions)
    requires sols == Some([Some(1.0), Some(3.0)])
    ensures Sort(InteriorRoots(sols, 0.0, 4.0)) == [1.0, 3.0]
  {
    KeepCubicRoots(sols.value);
    SortKeepsSorted(InteriorRoots(sols, 0.0, 4.0));
  }

  /** Both solver roots 1 and 3 lie inside (0, 4) and are kept, in order. */
  lemma KeepCubicRoots(sols: seq<Option<real>>)
    requires sols == [Some(1.0), Some(3.0)]
    ensures KeepInterior(sols, 0.0, 4.0) == [1.0, 3.0]
  {
    var tail: seq<Option<real>> := [Some(3.0)];
    assert sols[1..] == tail && tail[1..] == [];
    assert KeepInterior(tail, 0.0, 4.0) == [3.0] + KeepInterior([], 0.0, 4.0);
  }

  lemma CubicValues()
    ensures Cubic(0.0) == 2.0 && Cubic(4.0) == 6.0 && Cubic(1.0) == 6.0 && Cubic(3.0) == 2.0
    ensures CubicSecond(1.0) == -6.0 && CubicSecond(3.0) == 6.0
  {
  }

  /** With values [2, 6, 6, 2], the first candidate is the minimum and the second the maximum. */
  lemma TieSelection(vals: seq<real>)
    requires |vals| == 4
    requires vals[0] == 2.0 && vals[1] == 6.0 && vals[2] == 6.0 && vals[3] == 2.0
    ensures IsFirstMin(vals, 0) && IsFirstMax(vals, 1)
  {
  }
}
