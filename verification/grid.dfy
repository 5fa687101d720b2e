/**
 Equally spaced sample points, the exact-real reading of `numpy.linspace`
 with its endpoint included: point `i` is `a + i * step` and the last point
 is set to `b` itself.
 */
module Grid {

  /** Point `i` of the `n`-point grid of [a, b], on its own. */
  function GridPoint(a: real, b: real, n: nat, i: nat): real
    requires i < n
  {
    if n == 1 then a
    else if i == n - 1 then b
    else a + (i as real) * ((b - a) / ((n - 1) as real))
  }

  function Linspace(a: real, b: real, n: nat): (xs: seq<real>)
    ensures |xs| == n
    ensures forall i :: 0 <= i < n ==> xs[i] == GridPoint(a, b, n, i)
    ensures n >= 1 ==> xs[0] == a
    ensures n >= 2 ==> xs[n - 1] == b
    ensures n >= 2 ==> forall i :: 0 <= i < n - 1 ==> xs[i] == a + (i as real) * ((b - a) / ((n - 1) as real))
    ensures a < b ==> forall i, j :: 0 <= i < j < n ==> xs[i] < xs[j]
    ensures a < b ==> forall i :: 0 <= i < n ==> a <= xs[i] <= b
  {
    if n == 0 then []
    else if n == 1 then [a]
    else
      var step := (b - a) / ((n - 1) as real);
      var xs := seq(n, i requires 0 <= i < n => if i == n - 1 then b else a + (i as real) * step);
      LinspaceShape(a, b, n, step, xs);
      xs
  }

  lemma LinspaceShape(a: real, b: real, n: nat, step: real, xs: seq<real>)
    requires n >= 2
    requires step == (b - a) / ((n - 1) as real)
    requires |xs| == n
    requires forall i :: 0 <= i < n ==> xs[i] == if i == n - 1 then b else a + (i as real) * step
    ensures a < b ==> forall i, j :: 0 <= i < j < n ==> xs[i] < xs[j]
    ensures a < b ==> forall i :: 0 <= i < n ==> a <= xs[i] <= b
  {
    if a < b {
      assert step > 0.0;
      assert a + ((n - 1) as real) * step == b;
      IncreasingGrid(a, b, n, step, xs);
    }
  }

  /** Points `a + i * step` with a positive step that reaches `b` at `i = n - 1` increase strictly inside [a, b]. */
  lemma IncreasingGrid(a: real, b: real, n: nat, step: real, xs: seq<real>)
    requires n >= 2 && step > 0.0
    requires a + ((n - 1) as real) * step == b
    requires |xs| == n
    requires forall i :: 0 <= i < n ==> xs[i] == if i == n - 1 then b else a + (i as real) * step
    ensures forall i, j :: 0 <= i < j < n ==> xs[i] < xs[j]
    ensures forall i :: 0 <= i < n ==> a <= xs[i] <= b
  {
    var m := (n - 1) as real;
    forall i | 0 <= i < n - 1
      ensures a <= xs[i] < b
    {
      assert xs[i] == a + (i as real) * step;
      StepBelow(a, i as real, m, step);
    }
    forall i, j | 0 <= i < j < n
      ensures xs[i] < xs[j]
    {
      assert a <= xs[i] < b;
      if j < n - 1 {
        assert xs[i] == a + (i as real) * step;
        assert xs[j] == a + (j as real) * step;
        StepBelow(a, i as real, j as real, step);
      }
    }
  }

  lemma StepBelow(a: real, i: real, j: real, step: real)
    requires 0.0 <= i < j && step > 0.0
    ensures a <= a + i * step < a + j * step
  {
  }
}
