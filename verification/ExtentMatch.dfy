/**
 The client-side match of a collection's extent: bounding boxes by four comparisons, time
 intervals by two. Instants are integers between the smallest and the largest datetime.
 */
module ExtentMatch {
  import opened Wrappers
  import Calendar

  const MIN_INSTANT := 0
  const MAX_INSTANT := 315537897599999999  // microseconds to the end of year 9999

  // A missing bound is open.
  datatype Interval = Interval(start: Option<int>, end: Option<int>)

  datatype Box = Box(xmin: real, ymin: real, xmax: real, ymax: real)

  datatype Extent = Extent(boxes: seq<Box>, intervals: seq<Interval>)

  function From(i: Interval): int {
    if i.start.Some? then i.start.value else MIN_INSTANT
  }

  function To(i: Interval): int {
    if i.end.Some? then i.end.value else MAX_INSTANT
  }

  function TemporalOverlap(i: Interval, j: Interval): bool {
    From(j) <= To(i) && From(i) <= To(j)
  }

  function BoxOverlap(a: Box, b: Box): bool {
    a.xmin <= b.xmax && b.xmin <= a.xmax && a.ymin <= b.ymax && b.ymin <= a.ymax
  }

  // ---- What the comparisons mean ----

  predicate Holds(i: Interval, t: int) {
    From(i) <= t <= To(i)
  }

  predicate Ordered(i: Interval) {
    From(i) <= To(i)
  }

  predicate InBox(b: Box, x: real, y: real) {
    b.xmin <= x <= b.xmax && b.ymin <= y <= b.ymax
  }

  predicate OrderedBox(b: Box) {
    b.xmin <= b.xmax && b.ymin <= b.ymax
  }

  ghost predicate ShareInstant(i: Interval, j: Interval) {
    exists t :: Holds(i, t) && Holds(j, t)
  }

  ghost predicate SharePoint(a: Box, b: Box) {
    exists x, y :: InBox(a, x, y) && InBox(b, x, y)
  }

  // The bounds are the first and the last microsecond of the calendar, so that a missing one
  // excludes no instant of it.
  lemma MissingBoundIsOpen(bound: int, t: int)
    requires 0 <= t <= Calendar.Instant(Calendar.DateTime(9999, 12, 31, 23, 59, 59)) * 1000000 + 999999
    ensures Holds(Interval(None, None), t)
    ensures Holds(Interval(Some(bound), None), t) <==> bound <= t
    ensures Holds(Interval(None, Some(bound)), t) <==> t <= bound
    ensures MAX_INSTANT == Calendar.Instant(Calendar.DateTime(9999, 12, 31, 23, 59, 59)) * 1000000 + 999999
    ensures MIN_INSTANT == Calendar.Instant(Calendar.DateTime(1, 1, 1, 0, 0, 0))
  {
    Calendar.MonthsOfYear(9999);
    assert Calendar.DaysBeforeMonth(9999, 13) == Calendar.DaysBeforeMonth(9999, 12) + 31;
  }

  // i ends before it starts, and both its bounds lie in j.
  predicate ReversedInside(i: Interval, j: Interval) {
    From(j) <= To(i) < From(i) <= To(j)
  }

  // The comparisons say that some instant lies in both intervals, except exactly for a reversed
  // interval inside the other.
  lemma TemporalOverlapIff(i: Interval, j: Interval)
    ensures (TemporalOverlap(i, j) <==> ShareInstant(i, j)) <==> !ReversedInside(i, j) && !ReversedInside(j, i)
  {
    if Ordered(i) && Ordered(j) && TemporalOverlap(i, j) {
      var t := if From(i) <= From(j) then From(j) else From(i);
      assert Holds(i, t) && Holds(j, t);
    }
  }

  // A search from 2 to 8 "matches" a collection from 6 to 4, though no instant lies in both.
  lemma ReversedIntervalMatches()
    ensures var i, j := Interval(Some(2), Some(8)), Interval(Some(6), Some(4));
            TemporalOverlap(i, j) && !ShareInstant(i, j)
  {
    TemporalOverlapIff(Interval(Some(2), Some(8)), Interval(Some(6), Some(4)));
  }

  // One side of two boxes: a common coordinate, or one side reversed inside the other.
  predicate SidesMeet(min: real, max: real, min': real, max': real) {
    min <= max && min' <= max' && min <= max' && min' <= max
  }

  predicate SidesReversed(min: real, max: real, min': real, max': real) {
    min' <= max < min <= max' || min <= max' < min' <= max
  }

  // Neither side keeps the boxes apart, and at least one of them only because it is reversed.
  predicate BoxReversedInside(a: Box, b: Box) {
    var xMeet, xReversed := SidesMeet(a.xmin, a.xmax, b.xmin, b.xmax), SidesReversed(a.xmin, a.xmax, b.xmin, b.xmax);
    var yMeet, yReversed := SidesMeet(a.ymin, a.ymax, b.ymin, b.ymax), SidesReversed(a.ymin, a.ymax, b.ymin, b.ymax);
    (xReversed && (yMeet || yReversed)) || (xMeet && yReversed)
  }

  lemma BoxOverlapIff(a: Box, b: Box)
    ensures (BoxOverlap(a, b) <==> SharePoint(a, b)) <==> !BoxReversedInside(a, b)
  {
    if BoxOverlap(a, b) && OrderedBox(a) && OrderedBox(b) {
      var x := if a.xmin <= b.xmin then b.xmin else a.xmin;
      var y := if a.ymin <= b.ymin then b.ymin else a.ymin;
      assert InBox(a, x, y) && InBox(b, x, y);
    }
  }

  // A box given with its corners swapped.
  lemma ReversedBoxMatches()
    ensures var a, b := Box(2.0, 2.0, 8.0, 8.0), Box(6.0, 6.0, 4.0, 4.0);
            BoxOverlap(a, b) && !SharePoint(a, b)
  {
    BoxOverlapIff(Box(2.0, 2.0, 8.0, 8.0), Box(6.0, 6.0, 4.0, 4.0));
  }

  // ---- The match ----

  // A part of the search text between slashes: ".." or an instant.
  datatype Part = Dots | Instant(t: int)

  // The search range after ".." was replaced. One part alone is an error of the source.
  ghost function Searched(parts: seq<Part>): Interval
    requires |parts| >= 2
  {
    Interval(if parts[0].Dots? then None else Some(parts[0].t), if parts[1].Dots? then None else Some(parts[1].t))
  }

  method ExtentMatches(extent: Extent, box: Option<Box>, temporal: Option<seq<Part>>)
    returns (r: Option<(bool, bool)>)
    requires temporal.Some? ==> temporal.value != []
    ensures r.None? <==> temporal.Some? && |temporal.value| == 1
    ensures r.Some? && box.Some? && (forall b <- extent.boxes :: !BoxReversedInside(box.value, b)) ==>
              (r.value.0 <==> exists b <- extent.boxes :: SharePoint(box.value, b))
    ensures r.Some? && temporal.Some? &&
            (forall i <- extent.intervals ::
               !ReversedInside(Searched(temporal.value), i) && !ReversedInside(i, Searched(temporal.value))) ==>
              (r.value.1 <==> exists i <- extent.intervals :: ShareInstant(Searched(temporal.value), i))
    ensures r.Some? ==> (box.None? ==> r.value.0) && (temporal.None? ==> r.value.1)
  {
    var boxOverlaps := box.None? || exists b <- extent.boxes :: BoxOverlap(box.value, b);
    forall b | box.Some? && b in extent.boxes
      ensures !BoxReversedInside(box.value, b) ==> (BoxOverlap(box.value, b) <==> SharePoint(box.value, b))
    {
      BoxOverlapIff(box.value, b);
    }
    if temporal.None? {
      return Some((boxOverlaps, true));
    }
    var parts := temporal.value;
    if parts[0].Dots? {
      parts := parts[0 := Instant(MIN_INSTANT)];
    }
    if |parts| < 2 {
      return None;
    }
    if parts[1].Dots? {
      parts := parts[1 := Instant(MAX_INSTANT)];
    }
    var search := Interval(Some(parts[0].t), Some(parts[1].t));
    var overlaps := exists i <- extent.intervals :: TemporalOverlap(search, i);
    forall i | i in extent.intervals
      ensures !ReversedInside(Searched(temporal.value), i) && !ReversedInside(i, Searched(temporal.value)) ==>
                (TemporalOverlap(search, i) <==> ShareInstant(Searched(temporal.value), i))
    {
      TemporalOverlapIff(search, i);
      assert forall t :: Holds(search, t) <==> Holds(Searched(temporal.value), t);
    }
    return Some((boxOverlaps, overlaps));
  }
}
