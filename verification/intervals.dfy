/** Time intervals between two instants (integer milliseconds since the
    epoch), the pointwise notions of coverage used to state what the free-slot
    sweep computes, and the sort by start instant it runs first. */
module Intervals {

  type Instant = int

  /** `{ start, end }`: the half-open range of instants `[start, end)`. */
  datatype Interval = Interval(start: Instant, end: Instant)

  predicate Contains(iv: Interval, p: Instant) {
    iv.start <= p < iv.end
  }

  /** An interval whose end is not before its start; a zero-length interval is
      well-formed and contains no instant. */
  predicate WellFormed(iv: Interval) {
    iv.start <= iv.end
  }

  predicate AllWellFormed(ivs: seq<Interval>) {
    forall i :: 0 <= i < |ivs| ==> WellFormed(ivs[i])
  }

  /** Some interval of `ivs` contains instant `p`. */
  predicate Covered(ivs: seq<Interval>, p: Instant) {
    exists i :: 0 <= i < |ivs| && Contains(ivs[i], p)
  }

  predicate SortedByStart(ivs: seq<Interval>) {
    forall i, j :: 0 <= i < j < |ivs| ==> ivs[i].start <= ivs[j].start
  }

  /** Inserts `x` in front of the first element that does not start before it,
      so that `x` stays ahead of the equal-start elements that followed it. */
  function InsertByStart(x: Interval, ivs: seq<Interval>): (r: seq<Interval>)
    requires SortedByStart(ivs)
    ensures SortedByStart(r)
    ensures multiset(r) == multiset(ivs) + multiset{x}
    ensures r[0] == x || r[0] == ivs[0]
  {
    if |ivs| == 0 || x.start <= ivs[0].start then
      SortedCons(x, ivs);
      [x] + ivs
    else
      var tail := ivs[1..];
      assert ivs == [ivs[0]] + tail;
      SortedTail(ivs);
      var rest := InsertByStart(x, tail);
      assert ivs[0].start <= rest[0].start by {
        if |tail| > 0 {
          assert ivs[0].start <= ivs[1].start;
        }
      }
      SortedCons(ivs[0], rest);
      [ivs[0]] + rest
  }

  /** An element that starts no later than the head of a sorted sequence can
      be put in front of it. */
  lemma SortedCons(y: Interval, ivs: seq<Interval>)
    requires SortedByStart(ivs) && (|ivs| > 0 ==> y.start <= ivs[0].start)
    ensures SortedByStart([y] + ivs)
  {
    var r := [y] + ivs;
    forall i, j | 0 <= i < j < |r|
      ensures r[i].start <= r[j].start
    {
      if i == 0 {
        assert r[j] == ivs[j - 1];
        assert ivs[0].start <= ivs[j - 1].start;
      } else {
        assert r[i] == ivs[i - 1] && r[j] == ivs[j - 1];
      }
    }
  }

  lemma SortedTail(ivs: seq<Interval>)
    requires SortedByStart(ivs) && |ivs| > 0
    ensures SortedByStart(ivs[1..])
  {
    forall i, j | 0 <= i < j < |ivs[1..]|
      ensures ivs[1..][i].start <= ivs[1..][j].start
    {
      assert ivs[1..][i] == ivs[i + 1] && ivs[1..][j] == ivs[j + 1];
    }
  }

  /** `slots.sort((a, b) => a.start - b.start)`: a stable sort on the start
      instant alone; intervals with equal starts keep their input order. */
  function SortByStart(ivs: seq<Interval>): (r: seq<Interval>)
    ensures SortedByStart(r)
    ensures multiset(r) == multiset(ivs)
  {
    if |ivs| == 0 then []
    else
      assert ivs == [ivs[0]] + ivs[1..];
      InsertByStart(ivs[0], SortByStart(ivs[1..]))
  }

  /** The elements of `ivs` that start at `t`, in their order in `ivs`. */
  function StartingAt(ivs: seq<Interval>, t: Instant): (r: seq<Interval>)
    ensures |r| <= |ivs|
  {
    if |ivs| == 0 then []
    else (if ivs[0].start == t then [ivs[0]] else []) + StartingAt(ivs[1..], t)
  }

  lemma StartingAtCons(x: Interval, ivs: seq<Interval>, t: Instant)
    ensures StartingAt([x] + ivs, t) == (if x.start == t then [x] else []) + StartingAt(ivs, t)
  {
    assert ([x] + ivs)[1..] == ivs;
  }

  lemma {:induction false} InsertByStartStable(x: Interval, ivs: seq<Interval>, t: Instant)
    requires SortedByStart(ivs)
    ensures StartingAt(InsertByStart(x, ivs), t)
      == (if x.start == t then [x] else []) + StartingAt(ivs, t)
  {
    if |ivs| > 0 && x.start > ivs[0].start {
      var y, tail := ivs[0], ivs[1..];
      SortedTail(ivs);
      var inserted := InsertByStart(x, tail);
      assert InsertByStart(x, ivs) == [y] + inserted;
      InsertByStartStable(x, tail, t);
      StartingAtCons(y, inserted, t);
      assert ivs == [y] + tail;
      StartingAtCons(y, tail, t);
      var hx, hy := if x.start == t then [x] else [], if y.start == t then [y] else [];
      assert y.start < x.start;
      assert hx == [] || hy == [];
      assert hy + (hx + StartingAt(tail, t)) == hx + (hy + StartingAt(tail, t));
    } else {
      StartingAtCons(x, ivs, t);
    }
  }

  /** The sort is stable: the intervals that share a start instant come out in
      the order they went in. */
  lemma {:induction false} SortByStartStable(ivs: seq<Interval>, t: Instant)
    ensures StartingAt(SortByStart(ivs), t) == StartingAt(ivs, t)
  {
    if |ivs| > 0 {
      SortByStartStable(ivs[1..], t);
      InsertByStartStable(ivs[0], SortByStart(ivs[1..]), t);
    }
  }

  /** Sorting a sequence that is already sorted by start leaves it as it is. */
  lemma {:induction false} SortByStartSorted(ivs: seq<Interval>)
    requires SortedByStart(ivs)
    ensures SortByStart(ivs) == ivs
  {
    if |ivs| > 0 {
      SortedTail(ivs);
      SortByStartSorted(ivs[1..]);
    }
  }

  /** Two sequences with the same elements hold the same interval values. */
  lemma SameElements(a: seq<Interval>, b: seq<Interval>, i: int)
    requires multiset(a) == multiset(b) && 0 <= i < |a|
    ensures exists j :: 0 <= j < |b| && b[j] == a[i]
  {
    assert a[i] in multiset(a);
    assert a[i] in multiset(b);
  }

  /** Coverage depends only on the elements, not on their order. */
  lemma CoveredPermutation(a: seq<Interval>, b: seq<Interval>, p: Instant)
    requires multiset(a) == multiset(b)
    ensures Covered(a, p) <==> Covered(b, p)
  {
    if Covered(a, p) {
      var i :| 0 <= i < |a| && Contains(a[i], p);
      SameElements(a, b, i);
    }
    if Covered(b, p) {
      var i :| 0 <= i < |b| && Contains(b[i], p);
      SameElements(b, a, i);
    }
  }
}
