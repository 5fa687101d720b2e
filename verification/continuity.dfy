/**
 The continuity gate of `WeierstrassTheorem.check_continuity`: a jump
 heuristic over the function's values at equally spaced sample points.
 Evaluation itself (the numeric library) is abstracted to a `Sampling`:
 either evaluation raised, or it produced the sample values together with
 a flag telling whether any of them was NaN or infinite.
 */
module Continuity {
  import Grid

  /** Default number of sample points `check_continuity` evaluates f at. */
  const ContinuitySamples: nat := 10000

  /** A sample jump above this multiple of the mean jump reads as a discontinuity. */
  const JumpFactor: real := 100.0

  datatype Sampling =
    | EvaluationRaised
    | Sampled(ys: seq<real>, hasNonFinite: bool)

  /**
   `s` is what evaluating `f` over the gate's grid of [a, b] can give: when
   evaluation did not raise there is one sample per grid point, and when no
   sample is NaN or infinite, sample `i` is `f` at grid point `i`.
   */
  ghost predicate SamplesOf(f: real -> real, a: real, b: real, s: Sampling)
  {
    s.Sampled? ==>
      && |s.ys| == ContinuitySamples
      && (!s.hasNonFinite ==>
            forall i :: 0 <= i < |s.ys| ==> s.ys[i] == f(Grid.GridPoint(a, b, ContinuitySamples, i)))
  }

  function Abs(x: real): (r: real)
    ensures r >= 0.0 && (r == x || r == -x)
  {
    if x < 0.0 then -x else x
  }

  /** The absolute differences between consecutive samples (`abs(diff(ys))`). */
  function Jumps(ys: seq<real>): (d: seq<real>)
    ensures |ys| >= 1 ==> |d| == |ys| - 1
    ensures |ys| <= 1 ==> d == []
    ensures forall i {:trigger d[i]} :: 0 <= i < |d| ==> d[i] == Abs(ys[i + 1] - ys[i])
  {
    if |ys| <= 1 then []
    else seq(|ys| - 1, i requires 0 <= i < |ys| - 1 => Abs(ys[i + 1] - ys[i]))
  }

  /** Sum of the elements; over exact reals the order of summation does not matter. */
  function Sum(s: seq<real>): real
  {
    if |s| == 0 then 0.0 else Sum(s[..|s| - 1]) + s[|s| - 1]
  }

  function Mean(s: seq<real>): real
    requires |s| > 0
  {
    Sum(s) / (|s| as real)
  }

  /** The largest element, as `max` of a non-empty array. */
  function MaxOf(s: seq<real>): (m: real)
    requires |s| > 0
    ensures forall i :: 0 <= i < |s| ==> s[i] <= m
    ensures m in s
  {
    if |s| == 1 then s[0]
    else
      var rest := MaxOf(s[1..]);
      if s[0] >= rest then s[0] else rest
  }

  /** Every consecutive jump is at most `JumpFactor` times the mean jump. */
  ghost predicate JumpsBounded(ys: seq<real>)
    requires |ys| >= 2
  {
    forall i :: 0 <= i < |ys| - 1 ==> Jumps(ys)[i] <= JumpFactor * Mean(Jumps(ys))
  }

  /**
   The gate. Evaluation failing, a non-finite sample, or a maximum jump
   above `JumpFactor` times the mean jump each give `false`. With fewer
   than two samples there are no jumps, taking the maximum of none raises,
   and the source's handler turns that into `false` as well.
   */
  function CheckContinuity(s: Sampling): (ok: bool)
    ensures ok <==> s.Sampled? && !s.hasNonFinite && |s.ys| >= 2 && JumpsBounded(s.ys)
  {
    match s
    case EvaluationRaised => false
    case Sampled(ys, hasNonFinite) =>
      if hasNonFinite then false
      else
        var d := Jumps(ys);
        if |d| == 0 then false
        else
          MaxJumpDecides(ys);
          !(MaxOf(d) > JumpFactor * Mean(d))
  }

  /** Comparing the largest jump with the limit decides whether every jump is within it. */
  lemma MaxJumpDecides(ys: seq<real>)
    requires |ys| >= 2
    ensures var d := Jumps(ys);
      !(MaxOf(d) > JumpFactor * Mean(d)) <==> JumpsBounded(ys)
  {
    var d := Jumps(ys);
    var limit := JumpFactor * Mean(d);
    if MaxOf(d) > limit {
      var k :| 0 <= k < |d| && d[k] == MaxOf(d);
      assert d[k] > limit;
    } else {
      forall i | 0 <= i < |ys| - 1
        ensures d[i] <= limit
      {
        assert d[i] <= MaxOf(d);
      }
    }
  }

  lemma {:induction false} SumLowerBound(s: seq<real>, m: real)
    requires forall i :: 0 <= i < |s| ==> m <= s[i]
    ensures (|s| as real) * m <= Sum(s)
  {
    if |s| > 0 {
      SumLowerBound(s[..|s| - 1], m);
    }
  }

  lemma {:induction false} SumOfSingleSpike(s: seq<real>, k: nat)
    requires k < |s|
    requires forall i :: 0 <= i < |s| && i != k ==> s[i] == 0.0
    ensures Sum(s) == s[k]
  {
    if k == |s| - 1 {
      SumOfZeros(s[..k]);
    } else {
      SumOfSingleSpike(s[..|s| - 1], k);
    }
  }

  lemma {:induction false} SumOfZeros(s: seq<real>)
    requires forall i :: 0 <= i < |s| ==> s[i] == 0.0
    ensures Sum(s) == 0.0
  {
    if |s| > 0 {
      SumOfZeros(s[..|s| - 1]);
    }
  }

  /**
   Samples whose every jump lies between some `m` and `100 * m` pass the
   gate: the mean jump is at least `m`.
   */
  lemma EvenJumpsPass(ys: seq<real>, m: real)
    requires |ys| >= 2
    requires forall i :: 0 <= i < |ys| - 1 ==> m <= Jumps(ys)[i] <= JumpFactor * m
    ensures CheckContinuity(Sampled(ys, false))
  {
    var d := Jumps(ys);
    MeanLowerBound(d, m);
    assert JumpFactor * m <= JumpFactor * Mean(d);
    assert JumpsBounded(ys);
  }

  /**
   Samples pass the gate when some bound `c` covers every jump and `c`
   times the number of jumps is at most 100 times the sum of the jumps:
   then 100 times the mean jump is at least `c`.
   */
  lemma BoundedJumpsPass(ys: seq<real>, c: real)
    requires |ys| >= 2
    requires forall i :: 0 <= i < |ys| - 1 ==> Jumps(ys)[i] <= c
    requires c * ((|ys| - 1) as real) <= JumpFactor * Sum(Jumps(ys))
    ensures CheckContinuity(Sampled(ys, false))
  {
    var d := Jumps(ys);
    var n := |d| as real;
    assert (c / JumpFactor) * n <= Sum(d);
    DivideBound(c / JumpFactor, Sum(d), n);
    assert c <= JumpFactor * Mean(d);
    assert JumpsBounded(ys);
  }

  lemma DivideBound(x: real, y: real, n: real)
    requires n > 0.0 && x * n <= y
    ensures x <= y / n
  {
    assert (x * n) / n == x;
  }

  /**
   The jumps add up to at least the distance travelled from the first
   sample to sample `k` and from there to the last sample.
   */
  lemma {:induction false} Span(ys: seq<real>, k: nat)
    requires k < |ys|
    ensures Sum(Jumps(ys)) >= Abs(ys[k] - ys[0]) + Abs(ys[|ys| - 1] - ys[k])
    decreases |ys|
  {
    if |ys| == 1 {
      assert Jumps(ys) == [];
    } else {
      var p := ys[..|ys| - 1];
      var d := Jumps(ys);
      JumpsPrefix(ys);
      assert Sum(d) == Sum(Jumps(p)) + Abs(ys[|ys| - 1] - ys[|ys| - 2]);
      if k == |ys| - 1 {
        Span(p, |p| - 1);
        assert Sum(Jumps(p)) >= Abs(ys[|ys| - 2] - ys[0]);
      } else {
        Span(p, k);
        assert Sum(Jumps(p)) >= Abs(ys[k] - ys[0]) + Abs(ys[|ys| - 2] - ys[k]);
      }
    }
  }

  /** Dropping the last sample drops the last jump. */
  lemma JumpsPrefix(ys: seq<real>)
    requires |ys| >= 2
    ensures Jumps(ys[..|ys| - 1]) == Jumps(ys)[..|ys| - 2]
  {
    var p := ys[..|ys| - 1];
    assert |Jumps(p)| == |ys| - 2;
    forall i | 0 <= i < |ys| - 2
      ensures Jumps(p)[i] == Jumps(ys)[i]
    {
      assert p[i] == ys[i] && p[i + 1] == ys[i + 1];
    }
  }

  lemma MeanLowerBound(s: seq<real>, m: real)
    requires |s| > 0
    requires forall i :: 0 <= i < |s| ==> m <= s[i]
    ensures m <= Mean(s)
  {
    var n := |s| as real;
    SumLowerBound(s, m);
    assert n * m <= Sum(s);
    assert (n * m) / n == m;
  }

  /**
   Samples of a step function, flat up to sample `k` and flat again from
   sample `k + 1` at a different level, fail the gate once there are more
   than 100 jumps: the step is the whole sum of jumps, so the mean is the
   step divided by the number of jumps.
   */
  lemma StepIsCaught(ys: seq<real>, k: nat)
    requires |ys| > 101
    requires k + 1 < |ys|
    requires forall i :: 0 <= i <= k ==> ys[i] == ys[0]
    requires forall i :: k < i < |ys| ==> ys[i] == ys[|ys| - 1]
    requires ys[0] != ys[|ys| - 1]
    ensures !CheckContinuity(Sampled(ys, false))
  {
    var d := Jumps(ys);
    forall i | 0 <= i < |d| && i != k
      ensures d[i] == 0.0
    {
      assert ys[i + 1] == ys[i];
    }
    assert d[k] == Abs(ys[|ys| - 1] - ys[0]);
    SumOfSingleSpike(d, k);
    SmallShareOfSpike(d[k], |d| as real);
    assert MaxOf(d) >= d[k];
  }

  lemma SmallShareOfSpike(x: real, n: real)
    requires x > 0.0 && n > JumpFactor
    ensures JumpFactor * (x / n) < x
  {
    assert JumpFactor * (x / n) == x * (JumpFactor / n);
    assert JumpFactor / n < 1.0;
  }
}
