/** The `/occupied-slots` handler (index.js:10-79): the gaps of a working day
    left free by a list of occupied intervals, found by one sweep over the
    intervals sorted by start. */
module FreeSlots {
  import opened Boundary
  import opened Intervals

  /** State after the sweep: the free slots found, in order, and the cursor,
      the instant up to which the day has been accounted for. */
  datatype Sweep = Sweep(free: seq<Interval>, cursor: Instant)

  /** The loop of index.js:52-62 run from `cursor` over `slots` in the given
      order: a gap `[cursor, slot.start)` is recorded when the cursor is
      before the slot, then the cursor moves to the slot's end if that is
      later. Zero-length slots are not skipped. */
  function SweepFrom(cursor: Instant, slots: seq<Interval>): (r: Sweep)
    ensures cursor <= r.cursor
    decreases |slots|
  {
    if |slots| == 0 then Sweep([], cursor)
    else
      var slot := slots[0];
      var gap := if cursor < slot.start then [Interval(cursor, slot.start)] else [];
      var rest := SweepFrom(if slot.end > cursor then slot.end else cursor, slots[1..]);
      Sweep(gap + rest.free, rest.cursor)
  }

  /** The final cursor is the latest of the starting cursor and the ends of
      all slots, and every recorded gap is non-empty and lies after the
      starting cursor. */
  lemma {:induction false} SweepBounds(cursor: Instant, slots: seq<Interval>)
    ensures forall i :: 0 <= i < |slots| ==> slots[i].end <= SweepFrom(cursor, slots).cursor
    ensures SweepFrom(cursor, slots).cursor == cursor
      || exists i :: 0 <= i < |slots| && SweepFrom(cursor, slots).cursor == slots[i].end
    ensures forall g :: 0 <= g < |SweepFrom(cursor, slots).free| ==>
      cursor <= SweepFrom(cursor, slots).free[g].start < SweepFrom(cursor, slots).free[g].end
    decreases |slots|
  {
    if |slots| > 0 {
      var slot := slots[0];
      var next := if slot.end > cursor then slot.end else cursor;
      var r := SweepFrom(next, slots[1..]);
      SweepBounds(next, slots[1..]);
      forall i | 0 < i < |slots|
        ensures slots[i].end <= r.cursor
      {
        assert slots[i] == slots[1..][i - 1];
      }
      if r.cursor != next {
        var i :| 0 <= i < |slots[1..]| && r.cursor == slots[1..][i].end;
        assert r.cursor == slots[i + 1].end;
      }
    }
  }

  /** Free slots that are non-empty and come in ascending order, each one
      starting at or after the end of every slot before it. */
  predicate Ascending(free: seq<Interval>) {
    && (forall i :: 0 <= i < |free| ==> free[i].start < free[i].end)
    && (forall i, j :: 0 <= i < j < |free| ==> free[i].end <= free[j].start)
  }

  /** An instant is covered by a non-empty list exactly when it is in its
      head or covered by its tail. */
  lemma CoveredCons(ivs: seq<Interval>, p: Instant)
    requires |ivs| > 0
    ensures Covered(ivs, p) <==> Contains(ivs[0], p) || Covered(ivs[1..], p)
  {
    if Covered(ivs, p) {
      var i :| 0 <= i < |ivs| && Contains(ivs[i], p);
      if i > 0 {
        assert ivs[1..][i - 1] == ivs[i];
      }
    }
    if Covered(ivs[1..], p) {
      var i :| 0 <= i < |ivs[1..]| && Contains(ivs[1..][i], p);
      assert ivs[i + 1] == ivs[1..][i];
    }
  }

  lemma CoveredAppend(a: seq<Interval>, b: seq<Interval>, p: Instant)
    ensures Covered(a + b, p) <==> Covered(a, p) || Covered(b, p)
  {
    if Covered(a + b, p) {
      var i :| 0 <= i < |a + b| && Contains((a + b)[i], p);
      if i >= |a| {
        assert b[i - |a|] == (a + b)[i];
      }
    }
    if Covered(a, p) {
      var i :| 0 <= i < |a| && Contains(a[i], p);
      assert (a + b)[i] == a[i];
    }
    if Covered(b, p) {
      var i :| 0 <= i < |b| && Contains(b[i], p);
      assert (a + b)[|a| + i] == b[i];
    }
  }

  /** Every instant from the starting cursor up to the final one is either
      occupied or inside a recorded gap, whatever the order of `slots`. */
  lemma {:induction false} SweepComplete(cursor: Instant, slots: seq<Interval>, p: Instant)
    requires cursor <= p < SweepFrom(cursor, slots).cursor
    requires !Covered(slots, p)
    ensures Covered(SweepFrom(cursor, slots).free, p)
    decreases |slots|
  {
    var slot := slots[0];
    var gap := if cursor < slot.start then [Interval(cursor, slot.start)] else [];
    var next := if slot.end > cursor then slot.end else cursor;
    var rest := SweepFrom(next, slots[1..]);
    CoveredCons(slots, p);
    CoveredAppend(gap, rest.free, p);
    if p < slot.start {
      assert Contains(gap[0], p);
    } else {
      SweepComplete(next, slots[1..], p);
    }
  }

  /** On slots sorted by start and well-formed, the recorded gaps are
      ascending and end by the final cursor. */
  lemma {:induction false} SweepAscending(cursor: Instant, slots: seq<Interval>)
    requires SortedByStart(slots) && AllWellFormed(slots)
    ensures Ascending(SweepFrom(cursor, slots).free)
    ensures forall g :: 0 <= g < |SweepFrom(cursor, slots).free| ==>
      SweepFrom(cursor, slots).free[g].end <= SweepFrom(cursor, slots).cursor
    decreases |slots|
  {
    if |slots| > 0 {
      var slot := slots[0];
      var gap := if cursor < slot.start then [Interval(cursor, slot.start)] else [];
      var next := if slot.end > cursor then slot.end else cursor;
      var rest := SweepFrom(next, slots[1..]);
      SortedTail(slots);
      assert AllWellFormed(slots[1..]) by {
        forall i | 0 <= i < |slots[1..]|
          ensures WellFormed(slots[1..][i])
        {
          assert slots[1..][i] == slots[i + 1];
        }
      }
      SweepAscending(next, slots[1..]);
      SweepBounds(next, slots[1..]);
      assert WellFormed(slots[0]);
      assert SweepFrom(cursor, slots) == Sweep(gap + rest.free, rest.cursor);
      AscendingPrepend(gap, rest.free, next, rest.cursor);
    }
  }

  /** At most one non-empty gap ending by `bound`, put in front of ascending
      slots that start at or after `bound`, keeps them ascending; all of them
      end by `last` when the slots do and `bound <= last`. */
  lemma AscendingPrepend(gap: seq<Interval>, free: seq<Interval>, bound: Instant, last: Instant)
    requires |gap| <= 1 && (|gap| == 1 ==> gap[0].start < gap[0].end <= bound)
    requires Ascending(free) && bound <= last
    requires forall g :: 0 <= g < |free| ==> bound <= free[g].start && free[g].end <= last
    ensures Ascending(gap + free)
    ensures forall g :: 0 <= g < |gap + free| ==> (gap + free)[g].end <= last
  {
    var r := gap + free;
    forall i, j | 0 <= i < j < |r|
      ensures r[i].end <= r[j].start
    {
      if i < |gap| {
        assert r[j] == free[j - |gap|];
      } else {
        assert r[i] == free[i - |gap|] && r[j] == free[j - |gap|];
      }
    }
    forall i | 0 <= i < |r|
      ensures r[i].start < r[i].end && r[i].end <= last
    {
      if i >= |gap| {
        assert r[i] == free[i - |gap|];
      }
    }
  }

  /** On slots sorted by start, no recorded gap holds an occupied instant,
      even when some slot ends before it starts. */
  lemma {:induction false} SweepSound(cursor: Instant, slots: seq<Interval>, p: Instant)
    requires SortedByStart(slots)
    requires Covered(SweepFrom(cursor, slots).free, p)
    ensures !Covered(slots, p)
    decreases |slots|
  {
    var slot := slots[0];
    var gap := if cursor < slot.start then [Interval(cursor, slot.start)] else [];
    var next := if slot.end > cursor then slot.end else cursor;
    var rest := SweepFrom(next, slots[1..]);
    CoveredCons(slots, p);
    CoveredAppend(gap, rest.free, p);
    if Covered(gap, p) {
      assert p < slot.start;
      forall i | 0 <= i < |slots|
        ensures !Contains(slots[i], p)
      {
        assert slots[0].start <= slots[i].start;
      }
    } else {
      SortedTail(slots);
      SweepSound(next, slots[1..], p);
      SweepBounds(next, slots[1..]);
      var g :| 0 <= g < |rest.free| && Contains(rest.free[g], p);
      assert next <= p;
    }
  }

  /** One step of the sweep in front of the rest of it: the gap before
      `slot`, if any, ahead of what the rest records. */
  function SweepStep(cursor: Instant, slot: Interval, rest: Sweep): Sweep {
    Sweep((if cursor < slot.start then [Interval(cursor, slot.start)] else []) + rest.free, rest.cursor)
  }

  lemma SweepCons(cursor: Instant, slot: Interval, rest: seq<Interval>)
    ensures SweepFrom(cursor, [slot] + rest)
      == SweepStep(cursor, slot, SweepFrom(if slot.end > cursor then slot.end else cursor, rest))
  {
    assert ([slot] + rest)[1..] == rest;
  }

  /** Two occupied intervals that start together can be swept in either
      order: the first records the gap, if any, and the second none. */
  lemma StepCommute(cursor: Instant, x: Interval, y: Interval, rest: Sweep)
    requires x.start == y.start && WellFormed(x) && WellFormed(y)
    ensures var cx := if x.end > cursor then x.end else cursor;
      var cy := if y.end > cursor then y.end else cursor;
      SweepStep(cursor, x, SweepStep(cx, y, rest)) == SweepStep(cursor, y, SweepStep(cy, x, rest))
  {
  }

  /** An occupied interval can be swept ahead of the intervals before it that
      start at the same instant. */
  lemma {:induction false} SweepMoveToFront(cursor: Instant, pre: seq<Interval>, x: Interval, rest: seq<Interval>)
    requires WellFormed(x) && AllWellFormed(pre)
    requires forall j :: 0 <= j < |pre| ==> pre[j].start == x.start
    ensures SweepFrom(cursor, pre + [x] + rest) == SweepFrom(cursor, [x] + pre + rest)
    decreases |pre|
  {
    if |pre| > 0 {
      var y := pre[0];
      var tail := pre[1..];
      var cx := if x.end > cursor then x.end else cursor;
      var cy := if y.end > cursor then y.end else cursor;
      var cxy := if y.end > cx then y.end else cx;
      var cyx := if x.end > cy then x.end else cy;
      assert cxy == cyx;
      assert pre + [x] + rest == [y] + (tail + [x] + rest);
      assert [x] + pre + rest == [x] + ([y] + (tail + rest));
      SweepCons(cursor, y, tail + [x] + rest);
      SweepMoveToFront(cy, tail, x, rest);
      assert [x] + tail + rest == [x] + (tail + rest);
      SweepCons(cy, x, tail + rest);
      SweepCons(cursor, x, [y] + (tail + rest));
      SweepCons(cx, y, tail + rest);
      StepCommute(cursor, x, y, SweepFrom(cxy, tail + rest));
    }
  }

  lemma ElementsWellFormed(a: seq<Interval>, b: seq<Interval>)
    requires multiset(a) == multiset(b) && AllWellFormed(a)
    ensures AllWellFormed(b)
  {
    forall j | 0 <= j < |b|
      ensures WellFormed(b[j])
    {
      SameElements(b, a, j);
    }
  }

  /** Removing one element keeps a sequence sorted by start. */
  lemma SortedRemove(b: seq<Interval>, k: int)
    requires SortedByStart(b) && 0 <= k < |b|
    ensures SortedByStart(b[..k] + b[k + 1..])
    ensures multiset(b[..k] + b[k + 1..]) == multiset(b) - multiset{b[k]}
  {
    var b' := b[..k] + b[k + 1..];
    forall i, j | 0 <= i < j < |b'|
      ensures b'[i].start <= b'[j].start
    {
      var i' := if i < k then i else i + 1;
      var j' := if j < k then j else j + 1;
      assert b'[i] == b[i'] && b'[j] == b[j'];
    }
    assert b == b[..k] + [b[k]] + b[k + 1..];
  }

  /** In two orderings by start of the same intervals, whatever precedes the
      first interval of one ordering in the other starts at the same instant. */
  lemma TiedPrefix(a: seq<Interval>, b: seq<Interval>, k: int)
    requires SortedByStart(a) && SortedByStart(b) && multiset(a) == multiset(b)
    requires 0 < |a| && 0 <= k < |b| && b[k] == a[0]
    ensures forall j :: 0 <= j < |b[..k]| ==> b[..k][j].start == a[0].start
  {
    forall j | 0 <= j < k
      ensures b[j].start == a[0].start
    {
      SameElements(b, a, j);
    }
  }

  /** Sweeping `b` is sweeping its `k`-th interval first when the intervals
      before it start at the same instant. */
  lemma SweepPull(cursor: Instant, b: seq<Interval>, k: int)
    requires AllWellFormed(b) && 0 <= k < |b|
    requires forall j :: 0 <= j < |b[..k]| ==> b[..k][j].start == b[k].start
    ensures SweepFrom(cursor, b) == SweepFrom(cursor, [b[k]] + (b[..k] + b[k + 1..]))
  {
    assert b == b[..k] + [b[k]] + b[k + 1..];
    assert AllWellFormed(b[..k]);
    SweepMoveToFront(cursor, b[..k], b[k], b[k + 1..]);
    assert [b[k]] + b[..k] + b[k + 1..] == [b[k]] + (b[..k] + b[k + 1..]);
  }

  /** Brings the first interval of one ordering by start to the front of
      another ordering of the same intervals without changing its sweep. */
  lemma PullFirst(cursor: Instant, a: seq<Interval>, b: seq<Interval>) returns (b': seq<Interval>)
    requires SortedByStart(a) && SortedByStart(b) && multiset(a) == multiset(b)
    requires AllWellFormed(a) && AllWellFormed(b) && |a| > 0
    ensures SortedByStart(b') && multiset(b') == multiset(a[1..])
    ensures SweepFrom(cursor, b) == SweepFrom(cursor, [a[0]] + b')
  {
    var x := a[0];
    assert x in multiset(b);
    var k :| 0 <= k < |b| && b[k] == x;
    TiedPrefix(a, b, k);
    SweepPull(cursor, b, k);
    b' := b[..k] + b[k + 1..];
    SortedRemove(b, k);
    assert multiset(a) == multiset{x} + multiset(a[1..]) by {
      assert a == [x] + a[1..];
    }
  }

  /** Two orderings by start of the same well-formed intervals sweep to the
      same result: the order among equal starts does not matter. */
  lemma {:induction false} SweepSortedUnique(cursor: Instant, a: seq<Interval>, b: seq<Interval>)
    requires SortedByStart(a) && SortedByStart(b) && multiset(a) == multiset(b)
    requires AllWellFormed(a)
    ensures SweepFrom(cursor, a) == SweepFrom(cursor, b)
    decreases |a|
  {
    ElementsWellFormed(a, b);
    if |a| == 0 {
      assert |b| == |multiset(b)| == 0;
    } else {
      var x := a[0];
      var b' := PullFirst(cursor, a, b);
      var next := if x.end > cursor then x.end else cursor;
      SweepSortedUnique(next, a[1..], b');
      SweepCons(cursor, x, b');
      SweepCons(cursor, x, a[1..]);
      assert a == [x] + a[1..];
    }
  }

  /** The latest of `from` and the ends of `occupied`: how far the occupied
      intervals reach, counting from `from`. */
  function Horizon(from: Instant, occupied: seq<Interval>): (h: Instant)
    ensures from <= h
    ensures forall i :: 0 <= i < |occupied| ==> occupied[i].end <= h
    ensures h == from || exists i :: 0 <= i < |occupied| && h == occupied[i].end
  {
    if |occupied| == 0 then from
    else
      var last := occupied[|occupied| - 1];
      var h := Horizon(from, occupied[..|occupied| - 1]);
      assert forall i :: 0 <= i < |occupied| - 1 ==> occupied[..|occupied| - 1][i] == occupied[i];
      if last.end > h then last.end else h
  }

  /** The condition of index.js:65-70: the stretch from the final cursor to
      `workDayEnd`, when the cursor has not reached it, closes the list. */
  function WithTrailing(sweep: Sweep, workDayEnd: Instant): (r: seq<Interval>)
    ensures |r| == |sweep.free| + (if sweep.cursor < workDayEnd then 1 else 0)
    ensures forall i :: 0 <= i < |sweep.free| ==> r[i] == sweep.free[i]
    ensures |r| > |sweep.free| ==> r[|r| - 1] == Interval(sweep.cursor, workDayEnd)
  {
    if sweep.cursor < workDayEnd then sweep.free + [Interval(sweep.cursor, workDayEnd)] else sweep.free
  }

  /** The free slots of the working day `[workDayStart, workDayEnd)` around
      `occupied` (index.js:41-70): the occupied intervals are sorted by start
      and swept from `workDayStart`; then the stretch from the final cursor to
      `workDayEnd`, if any, is added. A gap in front of an occupied interval
      that starts after `workDayEnd` is not cut at `workDayEnd`. */
  function FreeSlots(workDayStart: Instant, workDayEnd: Instant, occupied: seq<Interval>): (r: seq<Interval>)
    ensures forall i :: 0 <= i < |r| ==> workDayStart <= r[i].start < r[i].end
    ensures forall p :: workDayStart <= p < workDayEnd && !Covered(occupied, p) ==> Covered(r, p)
    ensures AllWellFormed(occupied) ==> Ascending(r)
    ensures forall p :: Covered(r, p) ==> !Covered(occupied, p)
  {
    var sweep := SweepFrom(workDayStart, SortByStart(occupied));
    FreeSlotsBounded(workDayStart, workDayEnd, occupied);
    FreeSlotsComplete(workDayStart, workDayEnd, occupied);
    FreeSlotsSound(workDayStart, workDayEnd, occupied);
    FreeSlotsAscending(workDayStart, workDayEnd, occupied);
    WithTrailing(sweep, workDayEnd)
  }

  /** The trailing slot keeps the sweep's gaps non-empty and after `from`. */
  lemma TrailingBounded(from: Instant, sweep: Sweep, workDayEnd: Instant)
    requires from <= sweep.cursor
    requires forall g :: 0 <= g < |sweep.free| ==> from <= sweep.free[g].start < sweep.free[g].end
    ensures forall i :: 0 <= i < |WithTrailing(sweep, workDayEnd)| ==>
      from <= WithTrailing(sweep, workDayEnd)[i].start < WithTrailing(sweep, workDayEnd)[i].end
  {
    var r := WithTrailing(sweep, workDayEnd);
    forall i | 0 <= i < |r|
      ensures from <= r[i].start < r[i].end
    {
      if i < |sweep.free| {
        assert r[i] == sweep.free[i];
      } else {
        assert r[i] == Interval(sweep.cursor, workDayEnd);
      }
    }
  }

  /** The trailing slot, which starts at the cursor, keeps ascending gaps
      that end by the cursor ascending. */
  lemma TrailingAscending(sweep: Sweep, workDayEnd: Instant)
    requires Ascending(sweep.free)
    requires forall g :: 0 <= g < |sweep.free| ==> sweep.free[g].end <= sweep.cursor
    ensures Ascending(WithTrailing(sweep, workDayEnd))
  {
    var r := WithTrailing(sweep, workDayEnd);
    forall i | 0 <= i < |r|
      ensures r[i].start < r[i].end
    {
      if i < |sweep.free| {
        assert r[i] == sweep.free[i];
      }
    }
    forall i, j | 0 <= i < j < |r|
      ensures r[i].end <= r[j].start
    {
      assert r[i] == sweep.free[i];
      if j < |sweep.free| {
        assert r[j] == sweep.free[j];
      }
    }
  }

  /** Every free slot is non-empty and starts at or after `workDayStart`. */
  lemma FreeSlotsBounded(workDayStart: Instant, workDayEnd: Instant, occupied: seq<Interval>)
    ensures forall i :: 0 <= i < |WithTrailing(SweepFrom(workDayStart, SortByStart(occupied)), workDayEnd)| ==>
      workDayStart <= WithTrailing(SweepFrom(workDayStart, SortByStart(occupied)), workDayEnd)[i].start
      < WithTrailing(SweepFrom(workDayStart, SortByStart(occupied)), workDayEnd)[i].end
  {
    var sorted := SortByStart(occupied);
    SweepBounds(workDayStart, sorted);
    TrailingBounded(workDayStart, SweepFrom(workDayStart, sorted), workDayEnd);
  }

  /** With well-formed occupied intervals the free slots are ascending. */
  lemma FreeSlotsAscending(workDayStart: Instant, workDayEnd: Instant, occupied: seq<Interval>)
    ensures AllWellFormed(occupied) ==> Ascending(WithTrailing(SweepFrom(workDayStart, SortByStart(occupied)), workDayEnd))
  {
    if AllWellFormed(occupied) {
      var sorted := SortByStart(occupied);
      ElementsWellFormed(occupied, sorted);
      SweepAscending(workDayStart, sorted);
      TrailingAscending(SweepFrom(workDayStart, sorted), workDayEnd);
    }
  }

  /** Every unoccupied instant of the working day, and every unoccupied
      instant before the final cursor, lies in a free slot. */
  lemma FreeSlotsComplete(workDayStart: Instant, workDayEnd: Instant, occupied: seq<Interval>)
    ensures var sweep := SweepFrom(workDayStart, SortByStart(occupied));
      forall p :: workDayStart <= p && (p < workDayEnd || p < sweep.cursor) && !Covered(occupied, p) ==>
        Covered(WithTrailing(sweep, workDayEnd), p)
  {
    var sorted := SortByStart(occupied);
    var sweep := SweepFrom(workDayStart, sorted);
    var tail := if sweep.cursor < workDayEnd then [Interval(sweep.cursor, workDayEnd)] else [];
    assert WithTrailing(sweep, workDayEnd) == sweep.free + tail;
    forall p | workDayStart <= p && (p < workDayEnd || p < sweep.cursor) && !Covered(occupied, p)
      ensures Covered(sweep.free + tail, p)
    {
      CoveredPermutation(occupied, sorted, p);
      CoveredAppend(sweep.free, tail, p);
      if p < sweep.cursor {
        SweepComplete(workDayStart, sorted, p);
      } else {
        assert Contains(tail[0], p);
      }
    }
  }

  /** No free slot holds an occupied instant, whatever the intervals. */
  lemma FreeSlotsSound(workDayStart: Instant, workDayEnd: Instant, occupied: seq<Interval>)
    ensures forall p :: Covered(WithTrailing(SweepFrom(workDayStart, SortByStart(occupied)), workDayEnd), p) ==>
      !Covered(occupied, p)
  {
    var sorted := SortByStart(occupied);
    var sweep := SweepFrom(workDayStart, sorted);
    var tail := if sweep.cursor < workDayEnd then [Interval(sweep.cursor, workDayEnd)] else [];
    assert WithTrailing(sweep, workDayEnd) == sweep.free + tail;
    SweepBounds(workDayStart, sorted);
    forall p | Covered(sweep.free + tail, p)
      ensures !Covered(occupied, p)
    {
      CoveredPermutation(occupied, sorted, p);
      CoveredAppend(sweep.free, tail, p);
      if Covered(sweep.free, p) {
        SweepSound(workDayStart, sorted, p);
      } else {
        assert sweep.cursor <= p;
        forall i | 0 <= i < |sorted|
          ensures !Contains(sorted[i], p)
        {
        }
      }
    }
  }

  /** The final cursor of the sweep is how far the occupied intervals reach
      from `workDayStart`, in whatever order they came. */
  lemma SweepReachesHorizon(workDayStart: Instant, occupied: seq<Interval>)
    ensures SweepFrom(workDayStart, SortByStart(occupied)).cursor == Horizon(workDayStart, occupied)
  {
    var sorted := SortByStart(occupied);
    var c := SweepFrom(workDayStart, sorted).cursor;
    var h := Horizon(workDayStart, occupied);
    SweepBounds(workDayStart, sorted);
    forall i | 0 <= i < |occupied|
      ensures occupied[i].end <= c
    {
      SameElements(occupied, sorted, i);
    }
    if c != workDayStart {
      var i :| 0 <= i < |sorted| && c == sorted[i].end;
      SameElements(sorted, occupied, i);
    }
  }

  /** All slots but the trailing one end by the horizon of the occupied
      intervals; the trailing one ends at `workDayEnd`. */
  lemma FreeSlotsEndByHorizon(workDayStart: Instant, workDayEnd: Instant, occupied: seq<Interval>)
    requires AllWellFormed(occupied)
    ensures var r := FreeSlots(workDayStart, workDayEnd, occupied);
      var h := Horizon(workDayStart, occupied);
      forall i :: 0 <= i < |r| && r[i] != Interval(h, workDayEnd) ==> r[i].end <= h
  {
    var sorted := SortByStart(occupied);
    var sweep := SweepFrom(workDayStart, sorted);
    var r := FreeSlots(workDayStart, workDayEnd, occupied);
    var h := Horizon(workDayStart, occupied);
    ElementsWellFormed(occupied, sorted);
    SweepAscending(workDayStart, sorted);
    SweepReachesHorizon(workDayStart, occupied);
    FreeSlotsUnfold(workDayStart, workDayEnd, occupied);
    assert sweep.cursor == h;
    forall i | 0 <= i < |r| && r[i] != Interval(h, workDayEnd)
      ensures r[i].end <= h
    {
      assert i < |sweep.free|;
      assert r[i] == sweep.free[i];
    }
  }
  /** index.js:65-70: a trailing slot is emitted exactly when the occupied
      intervals do not reach `workDayEnd`, and it runs from where they stop to
      `workDayEnd`; no other slot reaches past that point. */
  lemma TrailingSlot(workDayStart: Instant, workDayEnd: Instant, occupied: seq<Interval>)
    ensures var r := FreeSlots(workDayStart, workDayEnd, occupied);
      var h := Horizon(workDayStart, occupied);
      h < workDayEnd <==> |r| > 0 && r[|r| - 1] == Interval(h, workDayEnd)
    ensures AllWellFormed(occupied) ==>
      var r := FreeSlots(workDayStart, workDayEnd, occupied);
      var h := Horizon(workDayStart, occupied);
      forall i :: 0 <= i < |r| - 1 ==> r[i].end <= h
  {
    SweepReachesHorizon(workDayStart, occupied);
    if AllWellFormed(occupied) {
      FreeSlotsEndByHorizon(workDayStart, workDayEnd, occupied);
      var r := FreeSlots(workDayStart, workDayEnd, occupied);
      var h := Horizon(workDayStart, occupied);
      forall i | 0 <= i < |r| - 1
        ensures r[i].end <= h
      {
        assert r[i].end <= r[|r| - 1].start;
        assert r[|r| - 1].start <= r[|r| - 1].end;
      }
    }
  }

  /** index.js:72-75 answers the sentinel `"0"` exactly when this holds: with
      well-formed occupied intervals, there is no free slot exactly when every
      instant from `workDayStart` to the later of `workDayEnd` and the
      horizon of the occupied intervals is occupied. */
  lemma NoFreeSlotIffOccupied(workDayStart: Instant, workDayEnd: Instant, occupied: seq<Interval>)
    requires AllWellFormed(occupied)
    ensures var h := Horizon(workDayStart, occupied);
      var until := if workDayEnd > h then workDayEnd else h;
      FreeSlots(workDayStart, workDayEnd, occupied) == [] <==>
        forall p :: workDayStart <= p < until ==> Covered(occupied, p)
  {
    var r := FreeSlots(workDayStart, workDayEnd, occupied);
    var h := Horizon(workDayStart, occupied);
    FreeSlotsComplete(workDayStart, workDayEnd, occupied);
    SweepReachesHorizon(workDayStart, occupied);
    FreeSlotsEndByHorizon(workDayStart, workDayEnd, occupied);
    assert |r| > 0 ==> Contains(r[0], r[0].start) && Covered(r, r[0].start);
  }

  /** The output depends only on the collection of occupied intervals, not on
      the order they are given in, when each of them is well-formed. */
  lemma FreeSlotsOrderIndependent(workDayStart: Instant, workDayEnd: Instant, a: seq<Interval>, b: seq<Interval>)
    requires multiset(a) == multiset(b) && AllWellFormed(a)
    ensures FreeSlots(workDayStart, workDayEnd, a) == FreeSlots(workDayStart, workDayEnd, b)
  {
    ElementsWellFormed(a, SortByStart(a));
    SweepSortedUnique(workDayStart, SortByStart(a), SortByStart(b));
  }

  /** Without well-formedness the order does matter: an interval ending
      before it starts, sorted in front of a proper one with the same start,
      leaves the cursor short of that start, and the same gap is emitted
      twice, overlapping itself. */
  lemma MalformedOrderMatters()
    ensures FreeSlots(0, 0, [Interval(10, 5), Interval(10, 12)]) == [Interval(0, 10), Interval(5, 10)]
    ensures FreeSlots(0, 0, [Interval(10, 12), Interval(10, 5)]) == [Interval(0, 10)]
  {
    MalformedFirst();
    MalformedSecond();
  }

  /** The malformed interval swept first. */
  lemma MalformedFirst()
    ensures FreeSlots(0, 0, [Interval(10, 5), Interval(10, 12)]) == [Interval(0, 10), Interval(5, 10)]
  {
    var a, b := Interval(10, 5), Interval(10, 12);
    SortTwo(a, b);
    FreeSlotsUnfold(0, 0, [a, b]);
    SweepCons(0, a, [b]);
    SweepCons(5, b, []);
  }

  /** The malformed interval swept second. */
  lemma MalformedSecond()
    ensures FreeSlots(0, 0, [Interval(10, 12), Interval(10, 5)]) == [Interval(0, 10)]
  {
    var a, b := Interval(10, 5), Interval(10, 12);
    SortTwo(b, a);
    FreeSlotsUnfold(0, 0, [b, a]);
    SweepCons(0, b, [a]);
    SweepCons(12, a, []);
  }

  lemma FreeSlotsUnfold(workDayStart: Instant, workDayEnd: Instant, occupied: seq<Interval>)
    ensures FreeSlots(workDayStart, workDayEnd, occupied)
      == WithTrailing(SweepFrom(workDayStart, SortByStart(occupied)), workDayEnd)
  {
  }

  /** Two intervals are sorted by swapping them only when the second starts
      strictly earlier. */
  lemma SortTwo(a: Interval, b: Interval)
    ensures SortByStart([a, b]) == if b.start < a.start then [b, a] else [a, b]
  {
    assert [a, b][1..] == [b];
    assert SortByStart([b]) == [b] by {
      assert [b][1..] == [];
    }
  }

  /** Each gap the sweep records starts at the starting cursor or where a slot
      ends, and ends where a slot starts. */
  lemma {:induction false} SweepBoundaries(cursor: Instant, slots: seq<Interval>)
    ensures forall g :: 0 <= g < |SweepFrom(cursor, slots).free| ==>
      GapBounded(SweepFrom(cursor, slots).free[g], cursor, slots)
    decreases |slots|
  {
    if |slots| > 0 {
      var slot := slots[0];
      var gap := if cursor < slot.start then [Interval(cursor, slot.start)] else [];
      var next := if slot.end > cursor then slot.end else cursor;
      var rest := SweepFrom(next, slots[1..]);
      SweepBoundaries(next, slots[1..]);
      var free := SweepFrom(cursor, slots).free;
      assert free == gap + rest.free;
      forall g | 0 <= g < |free|
        ensures GapBounded(free[g], cursor, slots)
      {
        if g < |gap| {
          assert free[g].end == slots[0].start;
        } else {
          var f := rest.free[g - |gap|];
          assert free[g] == f;
          assert GapBounded(f, next, slots[1..]);
          if f.start == next {
            if next != cursor {
              assert f.start == slots[0].end;
            }
          } else {
            var i :| 0 <= i < |slots[1..]| && f.start == slots[1..][i].end;
            assert f.start == slots[i + 1].end;
          }
          var i :| 0 <= i < |slots[1..]| && f.end == slots[1..][i].start;
          assert f.end == slots[i + 1].start;
        }
      }
    }
  }

  /** A gap that starts at `cursor` or where one of `slots` ends, and ends
      where one of `slots` starts. */
  predicate GapBounded(gap: Interval, cursor: Instant, slots: seq<Interval>) {
    && (gap.start == cursor || exists i :: 0 <= i < |slots| && gap.start == slots[i].end)
    && (exists i :: 0 <= i < |slots| && gap.end == slots[i].start)
  }

  /** Where the endpoints of a free slot come from: it starts at
      `workDayStart` or where an occupied interval ends, and ends at
      `workDayEnd` or where an occupied interval starts. The slots need not be
      maximal: a zero-length interval splits a free stretch in two
      (`ZeroLengthSplits`). */
  lemma FreeSlotsEndpoints(workDayStart: Instant, workDayEnd: Instant, occupied: seq<Interval>)
    ensures var r := FreeSlots(workDayStart, workDayEnd, occupied);
      forall g :: 0 <= g < |r| ==>
        && (r[g].start == workDayStart || exists i :: 0 <= i < |occupied| && r[g].start == occupied[i].end)
        && (r[g].end == workDayEnd || exists i :: 0 <= i < |occupied| && r[g].end == occupied[i].start)
  {
    var sorted := SortByStart(occupied);
    var sweep := SweepFrom(workDayStart, sorted);
    var r := FreeSlots(workDayStart, workDayEnd, occupied);
    SweepBoundaries(workDayStart, sorted);
    SweepBounds(workDayStart, sorted);
    FreeSlotsUnfold(workDayStart, workDayEnd, occupied);
    forall g | 0 <= g < |r|
      ensures r[g].start == workDayStart || exists i :: 0 <= i < |occupied| && r[g].start == occupied[i].end
      ensures r[g].end == workDayEnd || exists i :: 0 <= i < |occupied| && r[g].end == occupied[i].start
    {
      if g < |sweep.free| {
        assert r[g] == sweep.free[g];
        if r[g].start != workDayStart {
          var i :| 0 <= i < |sorted| && r[g].start == sorted[i].end;
          SameElements(sorted, occupied, i);
        }
        var i :| 0 <= i < |sorted| && r[g].end == sorted[i].start;
        SameElements(sorted, occupied, i);
      } else {
        assert r[g] == Interval(sweep.cursor, workDayEnd);
        if sweep.cursor != workDayStart {
          var i :| 0 <= i < |sorted| && sweep.cursor == sorted[i].end;
          SameElements(sorted, occupied, i);
        }
      }
    }
  }

  /** One occupied interval inside the day splits it in two; a zero-length
      one splits it too, and one that starts after `workDayEnd` leaves a
      single slot that runs past `workDayEnd` up to its start. */
  lemma OneOccupied(workDayStart: Instant, workDayEnd: Instant, start: Instant, end: Instant)
    requires workDayStart < start <= end
    ensures FreeSlots(workDayStart, workDayEnd, [Interval(start, end)])
      == [Interval(workDayStart, start)] + (if end < workDayEnd then [Interval(end, workDayEnd)] else [])
  {
    var iv := Interval(start, end);
    assert [iv][1..] == [];
    FreeSlotsUnfold(workDayStart, workDayEnd, [iv]);
    SweepCons(workDayStart, iv, []);
  }

  /** An occupied interval covering the whole day leaves nothing free; so
      does one spanning a window whose end comes before its start. */
  lemma FullyBooked(workDayStart: Instant, workDayEnd: Instant)
    ensures FreeSlots(workDayStart, workDayEnd, [Interval(workDayStart, workDayEnd)]) == []
  {
    var iv := Interval(workDayStart, workDayEnd);
    assert [iv][1..] == [];
    FreeSlotsUnfold(workDayStart, workDayEnd, [iv]);
    SweepCons(workDayStart, iv, []);
  }

  /** A zero-length occupied interval is not dropped: it splits the day into
      two adjacent slots whose union is one free stretch. */
  lemma ZeroLengthSplits()
    ensures FreeSlots(0, 20, [Interval(10, 10)]) == [Interval(0, 10), Interval(10, 20)]
  {
    OneOccupied(0, 20, 10, 10);
  }

  /** `startHour` / `endHour` as they arrive in the request body: a JSON
      number (an integral hour) or anything else. */
  datatype HourField = Number(hour: int) | NotNumber

  /** The `free_slots` field of a successful answer: the list of slots, or
      the string `"0"` when the list is empty. */
  datatype FreeSlotsBody = Slots(slots: seq<Interval>) | NoFreeSlot

  const MissingSlotsMessage := "Invalid input, 'value' is required and should contain slots."
  const HoursNotNumbersMessage := "Invalid input, 'startHour' and 'endHour' must be numbers."

  /** `POST /occupied-slots` (index.js:10-79). `localHour(t, h)` is the
      host's `new Date(year, month, day, h, 0, 0)` for the local calendar day
      of instant `t`: the working day is taken on the day of the first
      occupied interval as given, before sorting. A truthy `value` that is not
      an array makes the handler throw. */
  function OccupiedSlots(value: Payload<Interval>, startHour: HourField, endHour: HourField,
                         localHour: (Instant, int) -> Instant): (r: Response<FreeSlotsBody>)
    ensures value.Absent? || value == Array([]) <==> r == BadRequest(MissingSlotsMessage)
    ensures r == BadRequest(HoursNotNumbersMessage) <==>
      !(value.Absent? || value == Array([])) && (startHour.NotNumber? || endHour.NotNumber?)
    ensures r.ServerError? <==> value.NotArray? && startHour.Number? && endHour.Number?
    ensures r.Ok? ==> value.Array? && |value.items| > 0 && r.body != Slots([])
    ensures r.Ok? ==>
      var first := value.items[0].start;
      var free := FreeSlots(localHour(first, startHour.hour), localHour(first, endHour.hour), value.items);
      r.body == (if free == [] then NoFreeSlot else Slots(free))
  {
    if value.Absent? || (value.Array? && |value.items| == 0) then
      BadRequest(MissingSlotsMessage)
    else if startHour.NotNumber? || endHour.NotNumber? then
      BadRequest(HoursNotNumbersMessage)
    else if value.NotArray? then
      ServerError
    else
      var first := value.items[0].start;
      var free := FreeSlots(localHour(first, startHour.hour), localHour(first, endHour.hour), value.items);
      if |free| == 0 then Ok(NoFreeSlot) else Ok(Slots(free))
  }
}
