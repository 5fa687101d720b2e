/**
 `WeierstrassTheorem.find_extremum_points`: interior zeros of the first
 derivative (symbolic first, numeric fallback otherwise) and interior zeros
 of the second derivative (symbolic only).

 The symbolic solver is an input: `None` when solving raised, otherwise the
 solutions in the solver's order, each `Some(v)` for a root known to be real
 that converted to the number `v`, and `None` for a root that is not real,
 whose reality is unknown, or whose conversion raised.
 */
module Roots {
  import opened Wrappers
  import opened Sorting
  import Grid

  /** Number of derivative samples the numeric fallback scans. */
  const FallbackSamples: nat := 1000

  /** Fixed number of bisection steps per bracket. */
  const BisectionSteps: nat := 20

  type Solutions = Option<seq<Option<real>>>

  /** `x` is strictly inside the open interval between `p` and `q`, whichever is smaller. */
  predicate StrictlyBetween(p: real, q: real, x: real)
  {
    (p < x < q) || (q < x < p)
  }

  /** `x` is a real solution reported by the solver and lies strictly inside (a, b). */
  ghost predicate IsInteriorRoot(sols: Solutions, a: real, b: real, x: real)
  {
    sols.Some? && Some(x) in sols.value && a < x < b
  }

  /** The real solutions strictly inside (a, b), in the solver's order. */
  function KeepInterior(sols: seq<Option<real>>, a: real, b: real): (r: seq<real>)
    ensures |r| <= |sols|
    ensures forall x :: x in r <==> Some(x) in sols && a < x < b
    ensures forall x {:trigger multiset(r)[x]} :: multiset(r)[x] == if a < x < b then multiset(sols)[Some(x)] else 0
  {
    if |sols| == 0 then []
    else
      var head := if sols[0].Some? && a < sols[0].value < b then [sols[0].value] else [];
      assert sols == [sols[0]] + sols[1..];
      assert multiset(sols) == multiset{sols[0]} + multiset(sols[1..]);
      var r := head + KeepInterior(sols[1..], a, b);
      assert multiset(r) == multiset(head) + multiset(KeepInterior(sols[1..], a, b));
      r
  }

  /** The symbolic path: a failing solver contributes nothing. */
  function InteriorRoots(sols: Solutions, a: real, b: real): (r: seq<real>)
    ensures sols.None? ==> r == []
    ensures sols.Some? ==> |r| <= |sols.value|
    ensures forall x :: x in r <==> IsInteriorRoot(sols, a, b, x)
    ensures sols.Some? ==> forall x {:trigger multiset(r)[x]} :: multiset(r)[x] == if a < x < b then multiset(sols.value)[Some(x)] else 0
  {
    match sols
    case None => []
    case Some(ss) => KeepInterior(ss, a, b)
  }

  function Pow2(k: nat): (p: real)
    ensures p >= 1.0
  {
    if k == 0 then 1.0 else 2.0 * Pow2(k - 1)
  }

  /** `u` and `v` are not both strictly on the same side of zero: the sign form of `u * v <= 0`. */
  predicate Straddles(u: real, v: real)
  {
    (u <= 0.0 && 0.0 <= v) || (0.0 <= u && v <= 0.0)
  }

  /** `u` and `v` lie strictly on opposite sides of zero: the sign form of `u * v < 0`. */
  predicate Opposite(u: real, v: real)
  {
    (u < 0.0 && 0.0 < v) || (0.0 < u && v < 0.0)
  }

  lemma ProductSign(u: real, v: real)
    ensures u * v <= 0.0 <==> Straddles(u, v)
    ensures u * v < 0.0 <==> Opposite(u, v)
  {
    if u > 0.0 && v > 0.0 {
      assert u * v > 0.0;
    } else if u < 0.0 && v < 0.0 {
      assert u * v > 0.0;
    } else if u == 0.0 || v == 0.0 {
      assert u * v == 0.0;
    } else if u < 0.0 {
      assert u * v < 0.0;
    } else {
      assert u * v < 0.0;
    }
  }

  /**
   Bisection of the bracket [lo, hi] of the first derivative `fp`, exactly
   `BisectionSteps` times, returning the midpoint of the final bracket. The
   bracket ends are tracked as fractions `s <= t` of the way from `lo` to
   `hi`, so the method does not depend on which of `lo` and `hi` is smaller.
   */
  method Bisect(fp: real -> real, lo: real, hi: real) returns (x: real, ghost left: real, ghost right: real)
    requires fp(lo) * fp(hi) < 0.0
    ensures fp(left) * fp(right) <= 0.0
    ensures right - left == (hi - lo) / Pow2(BisectionSteps)
    ensures lo < hi ==> lo <= left < right <= hi
    ensures hi < lo ==> hi <= right < left <= lo
    ensures x == (left + right) / 2.0
    ensures StrictlyBetween(lo, hi, x)
  {
    ProductSign(fp(lo), fp(hi));
    var l, r := lo, hi;
    ghost var s, t := 0.0, 1.0;
    var k := 0;
    while k < BisectionSteps
      invariant 0 <= k <= BisectionSteps
      invariant Straddles(fp(l), fp(r))
      invariant 0.0 <= s < t <= 1.0
      invariant t - s == 1.0 / Pow2(k)
      invariant l == At(lo, hi, s) && r == At(lo, hi, t)
    {
      var mid := (l + r) / 2.0;
      MidpointAt(lo, hi, s, t);
      HalveWidth(s, t, k);
      ProductSign(fp(l), fp(mid));
      if fp(l) * fp(mid) <= 0.0 {
        r := mid;
        t := (s + t) / 2.0;
      } else {
        l := mid;
        s := (s + t) / 2.0;
      }
      k := k + 1;
    }
    x := (l + r) / 2.0;
    left, right := l, r;
    ProductSign(fp(l), fp(r));
    FinalBracket(lo, hi, s, t);
  }

  /** Where the bracket given by fractions `s < t` ends up, and where its midpoint lies. */
  lemma FinalBracket(lo: real, hi: real, s: real, t: real)
    requires lo != hi
    requires 0.0 <= s < t <= 1.0
    requires t - s == 1.0 / Pow2(BisectionSteps)
    ensures At(lo, hi, t) - At(lo, hi, s) == (hi - lo) / Pow2(BisectionSteps)
    ensures lo < hi ==> lo <= At(lo, hi, s) < At(lo, hi, t) <= hi
    ensures hi < lo ==> hi <= At(lo, hi, t) < At(lo, hi, s) <= lo
    ensures StrictlyBetween(lo, hi, (At(lo, hi, s) + At(lo, hi, t)) / 2.0)
  {
    MidpointAt(lo, hi, s, t);
    BracketPlacement(lo, hi, s, t);
    BracketPlacement(lo, hi, s, (s + t) / 2.0);
    BracketPlacement(lo, hi, (s + t) / 2.0, t);
    FinalWidth(lo, hi, s, t, Pow2(BisectionSteps));
  }

  /** The point a fraction `s` of the way from `lo` to `hi`. */
  function At(lo: real, hi: real, s: real): real
  {
    lo + (hi - lo) * s
  }

  lemma MidpointAt(lo: real, hi: real, s: real, t: real)
    ensures (At(lo, hi, s) + At(lo, hi, t)) / 2.0 == At(lo, hi, (s + t) / 2.0)
  {
  }

  lemma HalveWidth(s: real, t: real, k: nat)
    requires t - s == 1.0 / Pow2(k)
    ensures (s + t) / 2.0 - s == 1.0 / Pow2(k + 1)
    ensures t - (s + t) / 2.0 == 1.0 / Pow2(k + 1)
  {
    assert Pow2(k + 1) == 2.0 * Pow2(k);
  }

  lemma FinalWidth(lo: real, hi: real, s: real, t: real, p: real)
    requires p > 0.0 && t - s == 1.0 / p
    ensures At(lo, hi, t) - At(lo, hi, s) == (hi - lo) / p
  {
    assert At(lo, hi, t) - At(lo, hi, s) == (hi - lo) * (t - s);
  }

  /** A bracket given by fractions `0 <= s < t <= 1` sits inside [lo, hi], oriented like it. */
  lemma BracketPlacement(lo: real, hi: real, s: real, t: real)
    requires 0.0 <= s < t <= 1.0
    ensures lo < hi ==> lo <= At(lo, hi, s) < At(lo, hi, t) <= hi
    ensures hi < lo ==> hi <= At(lo, hi, t) < At(lo, hi, s) <= lo
  {
    var d := hi - lo;
    if d > 0.0 {
      ScaleOrdered(d, s, t);
    } else if d < 0.0 {
      ScaleOrdered(-d, s, t);
    }
  }

  lemma ScaleOrdered(d: real, s: real, t: real)
    requires d > 0.0 && 0.0 <= s < t <= 1.0
    ensures 0.0 <= d * s < d * t <= d
  {
  }

  /** Sample `i` opens an event: a zero derivative there, or a strict sign change to sample `i + 1`. */
  predicate IsEvent(fp: real -> real, xs: seq<real>, i: nat)
    requires i + 1 < |xs|
  {
    fp(xs[i]) == 0.0 || Opposite(fp(xs[i]), fp(xs[i + 1]))
  }

  /** The point recorded for the event at sample `i`. */
  ghost predicate RecordsEvent(fp: real -> real, xs: seq<real>, i: nat, x: real)
    requires i + 1 < |xs|
  {
    || (fp(xs[i]) == 0.0 && x == xs[i])
    || (&& fp(xs[i]) != 0.0
        && Opposite(fp(xs[i]), fp(xs[i + 1]))
        && StrictlyBetween(xs[i], xs[i + 1], x)
        && BisectedFrom(fp, xs[i], xs[i + 1], x))
  }

  /**
   `x` is the midpoint of a final bisection bracket of [p, q]: a bracket
   where `fp` does not keep one strict sign, inside [p, q] with the same
   orientation, and `BisectionSteps` halvings narrower.
   */
  ghost predicate BisectedFrom(fp: real -> real, p: real, q: real, x: real)
  {
    exists l, r ::
      && Straddles(fp(l), fp(r))
      && r - l == (q - p) / Pow2(BisectionSteps)
      && (p < q ==> p <= l < r <= q)
      && (q < p ==> q <= r < l <= p)
      && x == (l + r) / 2.0
  }

  /** The event indices among the first `n` samples, ascending. */
  function EventsBelow(fp: real -> real, xs: seq<real>, n: nat): (ev: seq<nat>)
    requires n == 0 || n < |xs|
    ensures forall j :: 0 <= j < |ev| ==> ev[j] < n && IsEvent(fp, xs, ev[j])
    ensures forall j, k :: 0 <= j < k < |ev| ==> ev[j] < ev[k]
    ensures forall i: nat :: i < n && IsEvent(fp, xs, i) ==> i in ev
  {
    if n == 0 then []
    else EventsBelow(fp, xs, n - 1) + (if IsEvent(fp, xs, n - 1) then [n - 1] else [])
  }

  /** The indices the scan reacts to: every sample except the last can open an event. */
  function Events(fp: real -> real, xs: seq<real>): seq<nat>
  {
    EventsBelow(fp, xs, if |xs| == 0 then 0 else |xs| - 1)
  }

  /**
   The numeric fallback: walks samples `0 .. |xs| - 2`, records a sample
   whose derivative is exactly zero, and bisects each strict sign change.
   One point is recorded per event, in sample order.
   */
  method ScanForRoots(fp: real -> real, xs: seq<real>) returns (pts: seq<real>)
    ensures |pts| == |Events(fp, xs)|
    ensures forall j :: 0 <= j < |pts| ==> RecordsEvent(fp, xs, Events(fp, xs)[j], pts[j])
  {
    pts := [];
    var i: nat := 0;
    ghost var ev: seq<nat> := [];
    while i + 1 < |xs|
      invariant i == 0 || i < |xs|
      invariant ev == EventsBelow(fp, xs, i)
      invariant ScanAgrees(fp, xs, ev, pts)
    {
      var found, x := ScanSample(fp, xs, i);
      ScanStep(fp, xs, i, ev, pts, found, x);
      if found {
        pts := pts + [x];
        ev := ev + [i];
      }
      i := i + 1;
    }
  }

  /** `pts` holds one recorded point per event index of `ev`, in the same order. */
  ghost predicate ScanAgrees(fp: real -> real, xs: seq<real>, ev: seq<nat>, pts: seq<real>)
  {
    && |pts| == |ev|
    && (forall j :: 0 <= j < |ev| ==> ev[j] + 1 < |xs|)
    && (forall j :: 0 <= j < |pts| ==> RecordsEvent(fp, xs, ev[j], pts[j]))
  }

  lemma ScanStep(fp: real -> real, xs: seq<real>, i: nat, ev: seq<nat>, pts: seq<real>, found: bool, x: real)
    requires i + 1 < |xs|
    requires ev == EventsBelow(fp, xs, i)
    requires ScanAgrees(fp, xs, ev, pts)
    requires found <==> IsEvent(fp, xs, i)
    requires found ==> RecordsEvent(fp, xs, i, x)
    ensures found ==> ev + [i] == EventsBelow(fp, xs, i + 1) && ScanAgrees(fp, xs, ev + [i], pts + [x])
    ensures !found ==> ev == EventsBelow(fp, xs, i + 1)
  {
    if found {
      ExtendRecords(fp, xs, ev, pts, i, x);
    }
  }

  /** One iteration of the scan: the point sample `i` records, if it opens an event. */
  method ScanSample(fp: real -> real, xs: seq<real>, i: nat) returns (found: bool, x: real)
    requires i + 1 < |xs|
    ensures found <==> IsEvent(fp, xs, i)
    ensures found ==> RecordsEvent(fp, xs, i, x)
  {
    ProductSign(fp(xs[i]), fp(xs[i + 1]));
    if fp(xs[i]) == 0.0 {
      found, x := true, xs[i];
    } else if fp(xs[i]) * fp(xs[i + 1]) < 0.0 {
      var mid;
      ghost var l, r;
      mid, l, r := Bisect(fp, xs[i], xs[i + 1]);
      ProductSign(fp(l), fp(r));
      assert Straddles(fp(l), fp(r));
      found, x := true, mid;
    } else {
      found, x := false, 0.0;
    }
  }

  lemma ExtendRecords(fp: real -> real, xs: seq<real>, ev: seq<nat>, pts: seq<real>, i: nat, x: real)
    requires i + 1 < |xs|
    requires |pts| == |ev|
    requires forall j :: 0 <= j < |ev| ==> ev[j] + 1 < |xs|
    requires forall j :: 0 <= j < |pts| ==> RecordsEvent(fp, xs, ev[j], pts[j])
    requires RecordsEvent(fp, xs, i, x)
    ensures forall j :: 0 <= j < |pts| + 1 ==> RecordsEvent(fp, xs, (ev + [i])[j], (pts + [x])[j])
  {
    forall j | 0 <= j < |pts| + 1
      ensures RecordsEvent(fp, xs, (ev + [i])[j], (pts + [x])[j])
    {
      if j < |pts| {
        assert (ev + [i])[j] == ev[j] && (pts + [x])[j] == pts[j];
      } else {
        assert (ev + [i])[j] == i && (pts + [x])[j] == x;
      }
    }
  }

  /** The fallback's sample grid over [a, b]. */
  function FallbackGrid(a: real, b: real): seq<real>
  {
    Grid.Linspace(a, b, FallbackSamples)
  }

  /** `x` is the point the scan records for one of its events over `xs`. */
  ghost predicate FromScan(fp: real -> real, xs: seq<real>, x: real)
  {
    var ev := Events(fp, xs);
    exists j :: 0 <= j < |ev| && ev[j] + 1 < |xs| && RecordsEvent(fp, xs, ev[j], x)
  }

  /** `c` lists the scan's points over `xs`, one recorded per event, in some order. */
  ghost predicate ArrangesScan(fp: real -> real, xs: seq<real>, c: seq<real>)
  {
    exists pts :: ScanAgrees(fp, xs, Events(fp, xs), pts) && multiset(c) == multiset(pts)
  }

  /** Every point of an arrangement of the scan is the point recorded for one of its events. */
  lemma ArrangedScanPoints(fp: real -> real, xs: seq<real>, c: seq<real>)
    requires ArrangesScan(fp, xs, c)
    ensures |c| == |Events(fp, xs)|
    ensures forall x :: x in c ==> FromScan(fp, xs, x)
  {
    var pts :| ScanAgrees(fp, xs, Events(fp, xs), pts) && multiset(c) == multiset(pts);
    assert |c| == |multiset(c)| == |multiset(pts)| == |pts|;
    forall x | x in c
      ensures FromScan(fp, xs, x)
    {
      assert x in multiset(pts);
      var j :| 0 <= j < |pts| && pts[j] == x;
      assert RecordsEvent(fp, xs, Events(fp, xs)[j], x);
    }
  }

  /**
   Critical points and inflection points of `find_extremum_points`.
   `firstSols` and `secondSols` are the solver's answers for f' = 0 and
   f'' = 0. Both returned lists are ascending.
   */
  method FindExtremumPoints(fp: real -> real, a: real, b: real, firstSols: Solutions, secondSols: Solutions)
    returns (critical: seq<real>, inflection: seq<real>)
    ensures SortedAsc(critical) && SortedAsc(inflection)
    // inflection points: symbolic only, never a fallback
    ensures multiset(inflection) == multiset(InteriorRoots(secondSols, a, b))
    // symbolic path taken: exactly its interior real roots
    ensures |InteriorRoots(firstSols, a, b)| > 0 ==>
      multiset(critical) == multiset(InteriorRoots(firstSols, a, b))
    // fallback taken: one point per scan event, each recorded from its bracket
    ensures |InteriorRoots(firstSols, a, b)| == 0 ==>
      && |critical| == |Events(fp, FallbackGrid(a, b))|
      && ArrangesScan(fp, FallbackGrid(a, b), critical)
    ensures |InteriorRoots(firstSols, a, b)| == 0 && a < b ==>
      forall x :: x in critical ==> a <= x < b
    ensures |InteriorRoots(firstSols, a, b)| == 0 && fp(a) == 0.0 ==> a in critical
  {
    var symbolic := InteriorRoots(firstSols, a, b);
    if |symbolic| > 0 {
      critical := Sort(symbolic);
    } else {
      var xs := FallbackGrid(a, b);
      var pts := ScanForRoots(fp, xs);
      critical := Sort(pts);
      FallbackArrangement(fp, a, b, pts, critical);
    }
    inflection := Sort(InteriorRoots(secondSols, a, b));
  }

  /** The fallback's sorted scan points: an arrangement of the scan, inside [a, b), holding `a` when f'(a) = 0. */
  lemma FallbackArrangement(fp: real -> real, a: real, b: real, pts: seq<real>, critical: seq<real>)
    requires |pts| == |Events(fp, FallbackGrid(a, b))|
    requires forall j :: 0 <= j < |pts| ==> RecordsEvent(fp, FallbackGrid(a, b), Events(fp, FallbackGrid(a, b))[j], pts[j])
    requires multiset(critical) == multiset(pts)
    ensures |critical| == |Events(fp, FallbackGrid(a, b))|
    ensures ArrangesScan(fp, FallbackGrid(a, b), critical)
    ensures a < b ==> forall x :: x in critical ==> a <= x < b
    ensures fp(a) == 0.0 ==> a in critical
  {
    var xs := FallbackGrid(a, b);
    var ev := Events(fp, xs);
    assert ScanAgrees(fp, xs, ev, pts);
    assert |critical| == |multiset(critical)| == |multiset(pts)| == |pts|;
    forall x | x in critical
      ensures a < b ==> a <= x < b
    {
      assert x in multiset(pts);
      var j :| 0 <= j < |pts| && pts[j] == x;
      RecordedInGrid(fp, a, b, ev[j], x);
    }
    if fp(a) == 0.0 {
      assert IsEvent(fp, xs, 0);
      var j :| 0 <= j < |ev| && ev[j] == 0;
      assert pts[j] == a;
      assert a in multiset(critical);
    }
  }

  lemma RecordedInGrid(fp: real -> real, a: real, b: real, i: nat, x: real)
    requires i + 1 < |FallbackGrid(a, b)|
    requires RecordsEvent(fp, FallbackGrid(a, b), i, x)
    ensures a < b ==> a <= x < b
  {
    ScanPointInGrid(a, b, i, x);
  }

  /**
   A point the scan can record over the grid of [a, b], a sample `i` before
   the last or a point strictly between samples `i` and `i + 1`, lies in [a, b).
   */
  lemma ScanPointInGrid(a: real, b: real, i: nat, x: real)
    requires i + 1 < FallbackSamples
    requires x == FallbackGrid(a, b)[i] || StrictlyBetween(FallbackGrid(a, b)[i], FallbackGrid(a, b)[i + 1], x)
    ensures a < b ==> a <= x < b
  {
    var xs := FallbackGrid(a, b);
    if a < b {
      assert xs[i] < xs[i + 1] && xs[i] < xs[FallbackSamples - 1] == b;
    }
  }
}
