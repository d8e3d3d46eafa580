/** Instants, windows and series of samples (common/pessimal_core/src/metric.rs). */
module MetricSeries {
  import opened Texts

  // ----- time, in nanoseconds

  const SECOND: int := 1_000_000_000

  /** The first and last instant that chrono's `DateTime<Utc>` represents. */
  const EARLIEST: int := -8_334_601_228_800 * SECOND
  const LATEST: int := 8_210_266_876_799 * SECOND + 999_999_999

  type Instant = t: int | EARLIEST <= t <= LATEST witness 0

  // ----- metrics

  /** In declaration order, which is the order they compare in. */
  datatype MetricKind =
    | CpuUtilization | MemoryUtilization | MemoryUsage | FilesystemUtilization | FilesystemUsage | NetworkIo
    | LoadAverage1m | LoadAverage5m | LoadAverage15m | SystemUptime | Temperature | AgentHeartbeat
    | AgentCollectionFailures

  // ----- values

  /** A double; rounding plays no part here. */
  datatype F64 = NaN | NegativeInfinity | Finite(r: real) | PositiveInfinity

  predicate FloatLess(a: F64, b: F64) {
    match (a, b)
    case (NaN, _) => false
    case (_, NaN) => false
    case (Finite(x), Finite(y)) => x < y
    case (NegativeInfinity, _) => !b.NegativeInfinity?
    case (_, PositiveInfinity) => !a.PositiveInfinity?
    case _ => false
  }

  predicate FloatAtMost(a: F64, b: F64) {
    FloatLess(a, b) || (a == b && !a.NaN?)
  }

  // ----- windows

  datatype TimeRange = TimeRange(start: Instant, end: Instant)

  /** `TimeRange::new` */
  function NewRange(start: Instant, end: Instant): (r: Option<TimeRange>)
    ensures r.Some? <==> start < end
    ensures r.Some? ==> forall t: Instant :: Within(r.value, t) <==> start <= t < end
  {
    if start >= end then None else Some(TimeRange(start, end))
  }

  /** `TimeRange::ending_at`, with its subtraction checked. */
  function EndingAt(now: Instant, window: int): (r: Option<TimeRange>)
    ensures r.Some? <==> 0 < window <= now - EARLIEST
    ensures r.Some? ==> forall t: Instant :: Within(r.value, t) <==> 0 < now - t <= window
  {
    if window <= 0 then None
    else if now - window < EARLIEST then None
    else NewRange(now - window, now)
  }

  /** `contains` */
  predicate Within(range: TimeRange, t: Instant) {
    range.start <= t < range.end
  }

  // ----- series

  datatype Point = Point(at: Instant, value: F64)

  /** Samples, oldest first. */
  datatype Series = Series(points: seq<Point>)

  predicate IsSorted(points: seq<Point>) {
    forall i, j :: 0 <= i < j < |points| ==> points[i].at <= points[j].at
  }

  /** A point put after every point that is not later. */
  function Insert(points: seq<Point>, p: Point): seq<Point> {
    if points == [] || points[|points| - 1].at <= p.at then points + [p]
    else Insert(points[..|points| - 1], p) + [points[|points| - 1]]
  }

  /** The stable sort by time, as `sort_by_key` promises it. */
  function Sorted(points: seq<Point>): seq<Point> {
    if points == [] then [] else Insert(Sorted(points[..|points| - 1]), points[|points| - 1])
  }

  /** `MetricSeries::new`, which restoring from the wire goes through as well. */
  function NewSeries(points: seq<Point>): Series {
    Series(Sorted(points))
  }

  /** `latest_at`: the first from the end that is not later than `t`. */
  function LatestAt(points: seq<Point>, t: Instant): Option<Point> {
    if points == [] then None
    else if points[|points| - 1].at <= t then Some(points[|points| - 1])
    else LatestAt(points[..|points| - 1], t)
  }

  /** `within` */
  function PointsWithin(points: seq<Point>, range: TimeRange): seq<Point> {
    if points == [] then []
    else (if Within(range, points[0].at) then [points[0]] else []) + PointsWithin(points[1..], range)
  }

  // ----- what sorting does

  /** The points at one instant, in order. */
  function AtTime(points: seq<Point>, t: Instant): seq<Point> {
    if points == [] then []
    else AtTime(points[..|points| - 1], t) + if points[|points| - 1].at == t then [points[|points| - 1]] else []
  }

  /** The same points, those of one instant in the same order. */
  ghost predicate Rearranges(a: seq<Point>, b: seq<Point>) {
    forall t: Instant :: AtTime(a, t) == AtTime(b, t)
  }

  lemma {:induction false} InsertIsSorted(points: seq<Point>, p: Point)
    requires IsSorted(points)
    ensures IsSorted(Insert(points, p)) && |Insert(points, p)| == |points| + 1
    ensures forall q :: q in Insert(points, p) ==> q == p || q in points
  {
    if points != [] && points[|points| - 1].at > p.at {
      var most, last := points[..|points| - 1], points[|points| - 1];
      InsertIsSorted(most, p);
      var all := Insert(most, p) + [last];
      forall i, j | 0 <= i < j < |all| ensures all[i].at <= all[j].at {
        assert Insert(most, p)[i] in Insert(most, p);
      }
    }
  }

  lemma {:induction false} InsertRearranges(points: seq<Point>, p: Point, t: Instant)
    ensures AtTime(Insert(points, p), t) == AtTime(points + [p], t)
  {
    assert (points + [p])[..|points|] == points;
    if points != [] && points[|points| - 1].at > p.at {
      var most, last := points[..|points| - 1], points[|points| - 1];
      InsertRearranges(most, p, t);
      assert (most + [p])[..|most|] == most;
      var all := Insert(most, p) + [last];
      assert all[..|all| - 1] == Insert(most, p);
    }
  }

  lemma AppendAtTime(a: seq<Point>, b: seq<Point>, p: Point, t: Instant)
    requires AtTime(a, t) == AtTime(b, t)
    ensures AtTime(a + [p], t) == AtTime(b + [p], t)
  {
    assert (a + [p])[..|a|] == a && (b + [p])[..|b|] == b;
  }

  /** Sorting sorts, and keeps every point and the order of the points of one instant. */
  lemma {:induction false} SortedIsAStableSort(points: seq<Point>)
    ensures IsSorted(Sorted(points)) && Rearranges(Sorted(points), points)
  {
    hide AtTime, Insert;
    if points != [] {
      var most, last := points[..|points| - 1], points[|points| - 1];
      SortedIsAStableSort(most);
      InsertIsSorted(Sorted(most), last);
      forall t: Instant ensures AtTime(Sorted(points), t) == AtTime(points, t) {
        InsertRearranges(Sorted(most), last, t);
        AppendAtTime(Sorted(most), most, last, t);
        assert most + [last] == points;
      }
    }
  }

  lemma {:induction false} AtTimeHolds(points: seq<Point>, t: Instant)
    ensures forall p :: p in AtTime(points, t) <==> p in points && p.at == t
  {
    if points != [] {
      AtTimeHolds(points[..|points| - 1], t);
      assert points == points[..|points| - 1] + [points[|points| - 1]];
    }
  }

  /** The sort's result is pinned down: nothing else is sorted and a stable rearrangement. */
  lemma {:induction false} OneStableSort(a: seq<Point>, b: seq<Point>)
    requires IsSorted(a) && IsSorted(b) && Rearranges(a, b)
    ensures a == b
  {
    if a != [] {
      SameLast(a, b);
      var m, n := |a| - 1, |b| - 1;
      forall t: Instant ensures AtTime(a[..m], t) == AtTime(b[..n], t) {
        assert AtTime(a, t) == AtTime(b, t);
        WithoutLast(a, t);
        WithoutLast(b, t);
      }
      OneStableSort(a[..m], b[..n]);
      assert a == a[..m] + [a[m]] && b == b[..n] + [b[n]];
    } else if b != [] {
      SameLast(b, a);
    }
  }

  lemma WithoutLast(points: seq<Point>, t: Instant)
    requires points != []
    ensures var n := |points| - 1; var all := AtTime(points, t);
      AtTime(points[..n], t) == if points[n].at == t && all != [] then all[..|all| - 1] else all
  {
    var n := |points| - 1;
    if points[n].at == t {
      assert AtTime(points, t)[..|AtTime(points, t)| - 1] == AtTime(points[..n], t);
    }
  }

  lemma SameLast(a: seq<Point>, b: seq<Point>)
    requires IsSorted(a) && IsSorted(b) && Rearranges(a, b) && a != []
    ensures b != [] && a[|a| - 1] == b[|b| - 1]
  {
    var p := a[|a| - 1];
    AtTimeHolds(a, p.at);
    AtTimeHolds(b, p.at);
    assert p in AtTime(a, p.at) && AtTime(a, p.at) == AtTime(b, p.at);
    assert p in b;
    var q := b[|b| - 1];
    AtTimeHolds(a, q.at);
    AtTimeHolds(b, q.at);
    assert q in AtTime(b, q.at) && AtTime(a, q.at) == AtTime(b, q.at);
    assert q in a && p in b;
    assert p.at == q.at;
    assert AtTime(a, p.at)[|AtTime(a, p.at)| - 1] == p;
    assert AtTime(b, p.at)[|AtTime(b, p.at)| - 1] == q;
  }

  /** Restoring a series sorts it again, which changes nothing. */
  lemma RestoringIsTheIdentity(points: seq<Point>)
    ensures NewSeries(NewSeries(points).points) == NewSeries(points)
  {
    SortedIsAStableSort(points);
    SortedIsAStableSort(Sorted(points));
    OneStableSort(Sorted(Sorted(points)), Sorted(points));
  }

  lemma {:induction false} NothingAtTime(points: seq<Point>, t: Instant)
    requires forall p :: p in points ==> p.at != t
    ensures AtTime(points, t) == []
  {
    if points != [] {
      NothingAtTime(points[..|points| - 1], t);
    }
  }

  ghost predicate TimesDiffer(points: seq<Point>) {
    forall i, j :: 0 <= i < j < |points| ==> points[i].at != points[j].at
  }

  lemma {:induction false} OneAtATime(points: seq<Point>, p: Point)
    requires TimesDiffer(points) && p in points
    ensures AtTime(points, p.at) == [p]
  {
    var most, last := points[..|points| - 1], points[|points| - 1];
    if last == p {
      forall q | q in most ensures q.at != p.at {}
      NothingAtTime(most, p.at);
    } else {
      assert points == most + [last];
      OneAtATime(most, p);
      var k :| 0 <= k < |most| && most[k] == p;
      assert points[k].at != last.at;
    }
  }

  /** Where no two points share an instant, the series depends on the points alone, not on their order. */
  lemma OrderDoesNotMatter(a: seq<Point>, b: seq<Point>)
    requires TimesDiffer(a) && TimesDiffer(b) && forall p :: p in a <==> p in b
    ensures NewSeries(a) == NewSeries(b)
  {
    SortedIsAStableSort(a);
    SortedIsAStableSort(b);
    forall t: Instant ensures AtTime(a, t) == AtTime(b, t) {
      AtTimeHolds(a, t);
      AtTimeHolds(b, t);
      if p :| p in a && p.at == t {
        OneAtATime(a, p);
        OneAtATime(b, p);
      } else {
        NothingAtTime(a, t);
        NothingAtTime(b, t);
      }
    }
    OneStableSort(Sorted(a), Sorted(b));
  }

  // ----- looking up

  /** The point a lookup at `t` is for: none that counts is later, and none of the same instant follows. */
  ghost predicate IsLatest(points: seq<Point>, t: Instant, i: nat) {
    i < |points| && points[i].at <= t
    && forall j :: 0 <= j < |points| && points[j].at <= t ==>
         points[j].at < points[i].at || (points[j].at == points[i].at && j <= i)
  }

  /** A search of the points as they came. */
  function Search(points: seq<Point>, t: Instant): (r: Option<nat>)
    ensures r.Some? ==> IsLatest(points, t, r.value)
    ensures r.None? ==> forall j :: 0 <= j < |points| ==> points[j].at > t
  {
    if points == [] then None
    else
      var n := |points| - 1;
      var r := Search(points[..n], t);
      if points[n].at <= t && (r.None? || points[r.value].at <= points[n].at) then Some(n) else r
  }

  function PointAt(points: seq<Point>, i: Option<nat>): Option<Point>
    requires i.Some? ==> i.value < |points|
  {
    if i.Some? then Some(points[i.value]) else None
  }

  lemma {:induction false} InsertedIsFound(points: seq<Point>, p: Point, t: Instant)
    requires IsSorted(points)
    ensures var r := LatestAt(points, t);
      LatestAt(Insert(points, p), t) == if p.at <= t && (r.None? || r.value.at <= p.at) then Some(p) else r
  {
    if points == [] {
    } else if points[|points| - 1].at <= p.at {
      LatestIsNoLater(points, t, points[|points| - 1].at);
      assert (points + [p])[..|points|] == points;
    } else {
      var most, last := points[..|points| - 1], points[|points| - 1];
      InsertedIsFound(most, p, t);
      var all := Insert(most, p) + [last];
      assert all[..|all| - 1] == Insert(most, p);
    }
  }

  lemma {:induction false} LatestIsNoLater(points: seq<Point>, t: Instant, bound: Instant)
    requires IsSorted(points) && (points != [] ==> points[|points| - 1].at <= bound)
    ensures LatestAt(points, t).Some? ==> LatestAt(points, t).value.at <= bound
  {
    if points != [] && points[|points| - 1].at > t {
      LatestIsNoLater(points[..|points| - 1], t, bound);
    }
  }

  /** `latest_at` finds what a search of the unsorted points finds: the greatest time at or before `t`, the
      last to come among equals, and nothing exactly when there is none. */
  lemma {:induction false} LookupIsASearch(points: seq<Point>, t: Instant)
    ensures LatestAt(NewSeries(points).points, t) == PointAt(points, Search(points, t))
  {
    if points != [] {
      var most, last := points[..|points| - 1], points[|points| - 1];
      LookupIsASearch(most, t);
      SortedIsAStableSort(most);
      InsertedIsFound(Sorted(most), last, t);
    }
  }

  // ----- windows of a series

  lemma {:induction false} NothingWithin(points: seq<Point>, range: TimeRange)
    requires forall p :: p in points ==> !Within(range, p.at)
    ensures PointsWithin(points, range) == []
  {
    if points != [] {
      NothingWithin(points[1..], range);
    }
  }

  lemma FirstWithin(points: seq<Point>, range: TimeRange)
    requires points != []
    ensures PointsWithin(points, range) ==
      if Within(range, points[0].at) then [points[0]] + PointsWithin(points[1..], range)
      else PointsWithin(points[1..], range)
  {
  }

  lemma {:induction false} WindowKeepsInstants(points: seq<Point>, range: TimeRange, t: Instant)
    ensures AtTime(PointsWithin(points, range), t) == if Within(range, t) then AtTime(points, t) else []
  {
    hide AtTime, PointsWithin, Within;
    if points == [] {
      NothingWithin(points, range);
      NothingAtTime(points, t);
    } else {
      var rest := PointsWithin(points[1..], range);
      WindowKeepsInstants(points[1..], range, t);
      FirstAtTime(points, t);
      FirstWithin(points, range);
      if Within(range, points[0].at) {
        FirstAtTime([points[0]] + rest, t);
        assert ([points[0]] + rest)[1..] == rest;
      }
    }
  }

  lemma {:induction false} WindowIsPart(points: seq<Point>, range: TimeRange)
    ensures forall p :: p in PointsWithin(points, range) ==> p in points
    ensures IsSorted(points) ==> IsSorted(PointsWithin(points, range))
  {
    hide PointsWithin, Within;
    if points == [] {
      NothingWithin(points, range);
    } else {
      WindowIsPart(points[1..], range);
      FirstWithin(points, range);
      if IsSorted(points) {
        var rest := PointsWithin(points[1..], range);
        assert forall p :: p in points[1..] ==> points[0].at <= p.at;
        assert forall p :: p in rest ==> points[0].at <= p.at;
      }
    }
  }

  /** A window of a series holds exactly the points from its start on and before its end, in order: of each instant
      in the window all points, and of any other none. */
  lemma WindowHoldsItsPoints(points: seq<Point>, range: TimeRange, t: Instant)
    ensures var window := PointsWithin(NewSeries(points).points, range);
      IsSorted(window) && AtTime(window, t) == if range.start <= t < range.end then AtTime(points, t) else []
    ensures forall p :: p in PointsWithin(NewSeries(points).points, range) <==> p in points && range.start <= p.at < range.end
  {
    hide AtTime, PointsWithin, Sorted;
    SortedIsAStableSort(points);
    WindowIsPart(Sorted(points), range);
    WindowKeepsInstants(Sorted(points), range, t);
    forall p ensures p in PointsWithin(Sorted(points), range) <==> p in points && range.start <= p.at < range.end {
      WindowKeepsInstants(Sorted(points), range, p.at);
      AtTimeHolds(PointsWithin(Sorted(points), range), p.at);
      AtTimeHolds(points, p.at);
    }
  }

  lemma {:induction false} FirstAtTime(points: seq<Point>, t: Instant)
    requires points != []
    ensures AtTime(points, t) == (if points[0].at == t then [points[0]] else []) + AtTime(points[1..], t)
  {
    var n := |points| - 1;
    if n > 0 {
      FirstAtTime(points[..n], t);
      assert points[..n][1..] == points[1..][..n - 1];
    }
  }

  /** Two windows that meet give, one after the other, what the window over both gives. */
  lemma {:induction false} WindowsJoin(points: seq<Point>, a: Instant, b: Instant, c: Instant)
    requires IsSorted(points) && a < b < c
    ensures PointsWithin(points, TimeRange(a, b)) + PointsWithin(points, TimeRange(b, c))
         == PointsWithin(points, TimeRange(a, c))
  {
    hide PointsWithin;
    if points != [] {
      var p, rest := points[0], points[1..];
      WindowsJoin(rest, a, b, c);
      FirstWithin(points, TimeRange(a, b));
      FirstWithin(points, TimeRange(b, c));
      FirstWithin(points, TimeRange(a, c));
      if b <= p.at {
        AllLater(points, a, b);
      } else {
        PutFirst(p, PointsWithin(rest, TimeRange(a, b)), PointsWithin(rest, TimeRange(b, c)));
      }
    } else {
      NothingWithin(points, TimeRange(a, b));
      NothingWithin(points, TimeRange(b, c));
      NothingWithin(points, TimeRange(a, c));
    }
  }

  lemma PutFirst(p: Point, x: seq<Point>, y: seq<Point>)
    ensures ([p] + x) + y == [p] + (x + y)
  {
  }

  lemma AllLater(points: seq<Point>, a: Instant, b: Instant)
    requires IsSorted(points) && points != [] && b <= points[0].at && a < b
    ensures PointsWithin(points[1..], TimeRange(a, b)) == []
  {
    forall q | q in points[1..] ensures !Within(TimeRange(a, b), q.at) {}
    NothingWithin(points[1..], TimeRange(a, b));
  }

  /** Hence for every series that was built or restored. */
  lemma SeriesWindowsJoin(points: seq<Point>, a: Instant, b: Instant, c: Instant)
    requires a < b < c
    ensures var s := NewSeries(points).points;
      PointsWithin(s, TimeRange(a, b)) + PointsWithin(s, TimeRange(b, c)) == PointsWithin(s, TimeRange(a, c))
  {
    SortedIsAStableSort(points);
    WindowsJoin(Sorted(points), a, b, c);
  }
}
