/**
 Ascending sort of real sequences, standing for Python's built-in `sorted`
 on lists of floats. Equal reals are indistinguishable, so stability does
 not show in the result.
 */
module Sorting {

  predicate SortedAsc(s: seq<real>)
  {
    forall i, j :: 0 <= i < j < |s| ==> s[i] <= s[j]
  }

  /** Inserts `x` into the sorted sequence `s`, before the first element not below it. */
  function Insert(x: real, s: seq<real>): (r: seq<real>)
    requires SortedAsc(s)
    ensures SortedAsc(r)
    ensures multiset(r) == multiset(s) + multiset{x}
    ensures |r| == |s| + 1
  {
    if |s| == 0 then [x]
    else if x <= s[0] then [x] + s
    else
      var tail := Insert(x, s[1..]);
      InsertAfterHead(x, s, tail);
      [s[0]] + tail
  }

  lemma InsertAfterHead(x: real, s: seq<real>, tail: seq<real>)
    requires SortedAsc(s) && |s| > 0 && s[0] < x
    requires SortedAsc(tail)
    requires multiset(tail) == multiset(s[1..]) + multiset{x}
    ensures SortedAsc([s[0]] + tail)
    ensures multiset([s[0]] + tail) == multiset(s) + multiset{x}
  {
    assert s == [s[0]] + s[1..];
    forall y | y in tail
      ensures s[0] <= y
    {
      assert y in multiset(tail);
      if y != x {
        assert y in multiset(s[1..]);
        var k :| 0 <= k < |s[1..]| && s[1..][k] == y;
        assert s[k + 1] == y;
      }
    }
    var r := [s[0]] + tail;
    forall i, j | 0 <= i < j < |r|
      ensures r[i] <= r[j]
    {
      if i > 0 {
        assert r[i] == tail[i - 1] && r[j] == tail[j - 1];
      } else {
        assert r[j] == tail[j - 1] && tail[j - 1] in tail;
      }
    }
  }

  /** The ascending arrangement of `s`. */
  function Sort(s: seq<real>): (r: seq<real>)
    ensures SortedAsc(r)
    ensures multiset(r) == multiset(s)
    ensures |r| == |s|
  {
    if |s| == 0 then []
    else
      assert s == [s[0]] + s[1..];
      Insert(s[0], Sort(s[1..]))
  }

  /** Two sorted arrangements of the same multiset are the same sequence. */
  lemma {:induction false} SortedPermutationUnique(p: seq<real>, q: seq<real>)
    requires SortedAsc(p) && SortedAsc(q)
    requires multiset(p) == multiset(q)
    ensures p == q
  {
    assert |p| == |multiset(p)| == |multiset(q)| == |q|;
    if |p| > 0 {
      SortedHeadsAgree(p, q);
      DropHead(p);
      DropHead(q);
      TailSorted(p);
      TailSorted(q);
      SortedPermutationUnique(p[1..], q[1..]);
      assert p == [p[0]] + p[1..] && q == [q[0]] + q[1..];
    }
  }

  /** Both heads are the least element of the common multiset. */
  lemma SortedHeadsAgree(p: seq<real>, q: seq<real>)
    requires SortedAsc(p) && SortedAsc(q)
    requires multiset(p) == multiset(q)
    requires |p| > 0 && |q| > 0
    ensures p[0] == q[0]
  {
    assert p[0] in multiset(q) && q[0] in multiset(p);
    var i :| 0 <= i < |q| && q[i] == p[0];
    var j :| 0 <= j < |p| && p[j] == q[0];
    assert q[0] <= q[i] && p[0] <= p[j];
  }

  lemma DropHead(s: seq<real>)
    requires |s| > 0
    ensures multiset(s[1..]) == multiset(s) - multiset{s[0]}
  {
    assert s == [s[0]] + s[1..];
    assert multiset(s) == multiset{s[0]} + multiset(s[1..]);
  }

  lemma TailSorted(s: seq<real>)
    requires SortedAsc(s) && |s| > 0
    ensures SortedAsc(s[1..])
  {
  }

  /** Sorting a list that is already ascending returns it unchanged, so sorting twice is sorting once. */
  lemma SortKeepsSorted(s: seq<real>)
    requires SortedAsc(s)
    ensures Sort(s) == s
  {
    SortedPermutationUnique(Sort(s), s);
  }
}
