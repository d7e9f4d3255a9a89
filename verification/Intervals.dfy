/** Finite sets of consecutive integers. */
module Intervals {
  lemma NonEmpty(s: set<int>)
    requires s != {}
    ensures exists x :: x in s
  {
    if forall x :: x !in s {
      assert false;
    }
  }

  ghost function Pick(s: set<int>): (x: int)
    requires s != {}
    ensures x in s
  {
    NonEmpty(s);
    var x :| x in s;
    x
  }

  ghost predicate IsInterval(s: set<int>, lo: int, hi: int) {
    (forall u :: u in s <==> lo <= u < hi) && |s| == hi - lo
  }

  lemma {:induction false} IntervalExists(lo: int, hi: int)
    requires lo <= hi
    ensures exists s: set<int> :: IsInterval(s, lo, hi)
    decreases hi - lo
  {
    if lo == hi {
      assert IsInterval({}, lo, hi);
    } else {
      IntervalExists(lo, hi - 1);
      var s :| IsInterval(s, lo, hi - 1);
      assert IsInterval(s + {hi - 1}, lo, hi);
    }
  }

  ghost function Interval(lo: int, hi: int): (s: set<int>)
    requires lo <= hi
    ensures forall u :: u in s <==> lo <= u < hi
    ensures |s| == hi - lo
  {
    IntervalExists(lo, hi);
    var s :| IsInterval(s, lo, hi);
    s
  }

  lemma IntervalJoin(s: set<int>, lo: int, hi: int)
    requires lo <= hi && forall u :: lo <= u < hi ==> u !in s
    ensures |s + Interval(lo, hi)| == |s| + (hi - lo)
  {
    assert s !! Interval(lo, hi);
  }

  lemma IntervalCut(s: set<int>, lo: int, hi: int)
    requires lo <= hi && forall u :: lo <= u < hi ==> u in s
    ensures |s - Interval(lo, hi)| == |s| - (hi - lo)
  {
    assert Interval(lo, hi) <= s;
    assert s == (s - Interval(lo, hi)) + Interval(lo, hi);
  }
}
