/**
 The browser's metric history: new points are merged into a time series that is kept sorted,
 free of repeated timestamps and cut to a window. Timestamps are milliseconds.
 */
module HistoryMerge {
  import opened Outcomes
  import opened HostTypes
  import Text

  /** A JavaScript number field as it may arrive. */
  datatype RawNumber = Missing | NotANumber | Infinite | Number(r: real)

  /** A point as it may arrive; `None` is a timestamp that does not parse. */
  datatype RawPoint = RawPoint(ts: Option<int>, value: RawNumber)

  datatype Point = Point(ts: int, value: real)

  type Series = seq<Point>

  /** `normalizeMetricPoint`: absent and not-a-number values count as zero, infinite ones reject the point. */
  function Normalize(p: Option<RawPoint>): (q: Option<Point>) {
    if p.None? || p.value.ts.None? || p.value.value.Infinite? then None
    else Some(Point(p.value.ts.value, if p.value.value.Number? then p.value.value.r else 0.0))
  }

  // ---- One series ----

  function Without(points: Series, ts: int): (r: Series) {
    if points == [] then []
    else
      var rest, last := Without(points[..|points| - 1], ts), points[|points| - 1];
      if last.ts != ts then rest + [last] else rest
  }

  function Since(points: Series, cutoff: int): (r: Series) {
    if points == [] then []
    else
      var rest, last := Since(points[..|points| - 1], cutoff), points[|points| - 1];
      if last.ts >= cutoff then rest + [last] else rest
  }

  /** Insertion after all points that are not later, which keeps equal ones in order as a stable sort does. */
  function Insert(points: Series, p: Point): (r: Series) {
    if points != [] && points[|points| - 1].ts > p.ts
    then Insert(points[..|points| - 1], p) + [points[|points| - 1]]
    else points + [p]
  }

  function Sorted(points: Series): (r: Series) {
    if points == [] then [] else Insert(Sorted(points[..|points| - 1]), points[|points| - 1])
  }

  function Merge(points: Series, p: Point, cutoff: int): (r: Series) {
    Since(Sorted(Without(points, p.ts) + [p]), cutoff)
  }

  ghost predicate DistinctTimes(points: Series) {
    forall i, j :: 0 <= i < j < |points| ==> points[i].ts != points[j].ts
  }

  ghost predicate Ascending(points: Series) {
    forall i, j :: 0 <= i < j < |points| ==> points[i].ts < points[j].ts
  }

  /** The points are the entries of a map from timestamps to values. */
  ghost predicate Represents(points: Series, m: map<int, real>) {
    forall p: Point :: p in points <==> p.ts in m && m[p.ts] == p.value
  }

  ghost function Window(m: map<int, real>, cutoff: int): (r: map<int, real>) {
    map ts | ts in m && ts >= cutoff :: m[ts]
  }

  /** The map a series with distinct timestamps stands for. */
  function MapOf(points: Series): (m: map<int, real>) {
    if points == [] then map[] else MapOf(points[..|points| - 1])[points[|points| - 1].ts := points[|points| - 1].value]
  }

  lemma {:induction false} MapOfRepresents(points: Series)
    requires DistinctTimes(points)
    ensures Represents(points, MapOf(points))
  {
    if points != [] {
      var before, last := points[..|points| - 1], points[|points| - 1];
      MapOfRepresents(before);
      assert points == before + [last];
      forall p | p in before ensures p.ts != last.ts {
        var i :| 0 <= i < |before| && before[i] == p;
        assert points[i].ts != points[|points| - 1].ts;
      }
      assert Represents(before, MapOf(before));
    }
  }

  lemma {:induction false} WithoutExactly(points: Series, ts: int)
    ensures forall p :: p in Without(points, ts) <==> p in points && p.ts != ts
    ensures DistinctTimes(points) ==> DistinctTimes(Without(points, ts))
  {
    if points != [] {
      var before, last := points[..|points| - 1], points[|points| - 1];
      WithoutExactly(before, ts);
      assert points == before + [last];
      if DistinctTimes(points) {
        forall i | 0 <= i < |Without(before, ts)| ensures Without(before, ts)[i].ts != last.ts {
          assert Without(before, ts)[i] in before;
        }
      }
    }
  }

  lemma {:induction false} SinceExactly(points: Series, cutoff: int)
    requires Ascending(points)
    ensures forall p :: p in Since(points, cutoff) <==> p in points && p.ts >= cutoff
    ensures Ascending(Since(points, cutoff))
  {
    if points != [] {
      var before, last := points[..|points| - 1], points[|points| - 1];
      SinceExactly(before, cutoff);
      assert points == before + [last];
      forall i | 0 <= i < |Since(before, cutoff)| ensures Since(before, cutoff)[i].ts < last.ts {
        assert Since(before, cutoff)[i] in before;
      }
    }
  }

  lemma {:induction false} InsertExactly(points: Series, p: Point)
    requires Ascending(points) && forall q :: q in points ==> q.ts != p.ts
    ensures Ascending(Insert(points, p))
    ensures forall q :: q in Insert(points, p) <==> q == p || q in points
  {
    if points != [] {
      var before, last := points[..|points| - 1], points[|points| - 1];
      assert points == before + [last];
      if last.ts > p.ts {
        InsertExactly(before, p);
        forall i | 0 <= i < |Insert(before, p)| ensures Insert(before, p)[i].ts < last.ts {
          assert Insert(before, p)[i] in Insert(before, p);
        }
      } else {
        assert last in points;
      }
    }
  }

  lemma {:induction false} SortedExactly(points: Series)
    requires DistinctTimes(points)
    ensures Ascending(Sorted(points))
    ensures forall p :: p in Sorted(points) <==> p in points
  {
    if points != [] {
      var before, last := points[..|points| - 1], points[|points| - 1];
      SortedExactly(before);
      assert points == before + [last];
      InsertExactly(Sorted(before), last);
    }
  }

  /** The points of a merge: the new one and the others, as far as they are in the window. */
  ghost predicate MergedPoint(points: Series, p: Point, cutoff: int, q: Point) {
    q.ts >= cutoff && (q == p || (q in points && q.ts != p.ts))
  }

  lemma MergeExactly(points: Series, p: Point, cutoff: int)
    requires DistinctTimes(points)
    ensures Ascending(Merge(points, p, cutoff))
    ensures forall q :: q in Merge(points, p, cutoff) <==> MergedPoint(points, p, cutoff, q)
  {
    var kept := Without(points, p.ts);
    WithoutExactly(points, p.ts);
    assert forall i :: 0 <= i < |kept| ==> kept[i] in kept;
    assert DistinctTimes(kept + [p]);
    SortedExactly(kept + [p]);
    SinceExactly(Sorted(kept + [p]), cutoff);
  }

  /** Merging a point is an update of the map, cut to the window, listed in ascending order. */
  lemma MergeRefinesMap(points: Series, m: map<int, real>, p: Point, cutoff: int)
    requires DistinctTimes(points) && Represents(points, m)
    ensures Ascending(Merge(points, p, cutoff))
    ensures Represents(Merge(points, p, cutoff), Window(m[p.ts := p.value], cutoff))
  {
    MergeExactly(points, p, cutoff);
    var m' := Window(m[p.ts := p.value], cutoff);
    forall q: Point ensures MergedPoint(points, p, cutoff, q) <==> q.ts in m' && m'[q.ts] == q.value {
      assert q in points <==> q.ts in m && m[q.ts] == q.value;
    }
  }

  lemma LastIsLatest(a: Series, p: Point)
    requires Ascending(a) && p in a
    ensures p.ts <= a[|a| - 1].ts
    ensures p.ts == a[|a| - 1].ts ==> p == a[|a| - 1]
  {
  }

  /** An ascending series is determined by its map. */
  lemma {:induction false} Canonical(a: Series, b: Series)
    requires Ascending(a) && Ascending(b) && forall p :: p in a <==> p in b
    ensures a == b
  {
    if a == [] {
      assert Text.Elements(b) == Text.Elements(a);
    } else {
      var x := a[|a| - 1];
      assert x in b;
      var y := b[|b| - 1];
      assert y in a;
      LastIsLatest(a, y);
      LastIsLatest(b, x);
      assert x == y;
      var a', b' := a[..|a| - 1], b[..|b| - 1];
      WithoutLast(a, a', x);
      WithoutLast(b, b', y);
      Canonical(a', b');
    }
  }

  lemma WithoutLast(a: Series, rest: Series, last: Point)
    requires Ascending(a) && a != [] && rest == a[..|a| - 1] && last == a[|a| - 1]
    ensures a == rest + [last] && Ascending(rest)
    ensures forall p :: p in rest <==> p in a && p != last
  {
    assert forall i :: 0 <= i < |rest| ==> rest[i].ts < last.ts;
    assert a == rest + [last];
  }

  lemma SameMapSameSeries(a: Series, b: Series, m: map<int, real>)
    requires Ascending(a) && Ascending(b) && Represents(a, m) && Represents(b, m)
    ensures a == b
  {
    Canonical(a, b);
  }

  // ---- Many merges ----

  datatype Step = Step(p: Point, cutoff: int)

  function MergeAll(points: Series, steps: seq<Step>): (r: Series) {
    if steps == [] then points
    else
      var before, last := steps[..|steps| - 1], steps[|steps| - 1];
      Merge(MergeAll(points, before), last.p, last.cutoff)
  }

  function Updated(m: map<int, real>, steps: seq<Step>): (r: map<int, real>) {
    if steps == [] then m
    else Updated(m, steps[..|steps| - 1])[steps[|steps| - 1].p.ts := steps[|steps| - 1].p.value]
  }

  /** The clock, and with it the edge of the window, does not go back. */
  ghost predicate ClockAdvances(steps: seq<Step>) {
    forall i, j :: 0 <= i < j < |steps| ==> steps[i].cutoff <= steps[j].cutoff
  }

  lemma WindowAgain(m: map<int, real>, p: Point, low: int, high: int)
    requires low <= high
    ensures Window(Window(m, low)[p.ts := p.value], high) == Window(m[p.ts := p.value], high)
  {
  }

  lemma {:induction false} MergesUpdateMap(points: Series, m: map<int, real>, steps: seq<Step>)
    requires DistinctTimes(points) && Represents(points, m) && ClockAdvances(steps) && steps != []
    ensures Ascending(MergeAll(points, steps))
    ensures Represents(MergeAll(points, steps), Window(Updated(m, steps), steps[|steps| - 1].cutoff))
  {
    var before, last := steps[..|steps| - 1], steps[|steps| - 1];
    if before == [] {
      assert MergeAll(points, before) == points && Updated(m, before) == m;
      MergeRefinesMap(points, m, last.p, last.cutoff);
    } else {
      MergesUpdateMap(points, m, before);
      var low := before[|before| - 1].cutoff;
      MergeRefinesMap(MergeAll(points, before), Window(Updated(m, before), low), last.p, last.cutoff);
      WindowAgain(Updated(m, before), last.p, low, last.cutoff);
    }
  }

  /**
   A history that starts with distinct timestamps behaves as a map from timestamps to values: after
   any sequence of merges it lists, in ascending order, the map with all updates cut to the window.
   */
  lemma MergesRefineMap(points: Series, steps: seq<Step>)
    requires DistinctTimes(points) && ClockAdvances(steps) && steps != []
    ensures Ascending(MergeAll(points, steps))
    ensures Represents(MergeAll(points, steps), Window(Updated(MapOf(points), steps), steps[|steps| - 1].cutoff))
  {
    MapOfRepresents(points);
    MergesUpdateMap(points, MapOf(points), steps);
  }

  /** Merging the same point again at the same time changes nothing. */
  lemma MergeIdempotent(points: Series, p: Point, cutoff: int)
    requires DistinctTimes(points)
    ensures Merge(Merge(points, p, cutoff), p, cutoff) == Merge(points, p, cutoff)
  {
    var m := MapOf(points);
    MapOfRepresents(points);
    MergeRefinesMap(points, m, p, cutoff);
    var once, m' := Merge(points, p, cutoff), Window(m[p.ts := p.value], cutoff);
    MergeRefinesMap(once, m', p, cutoff);
    WindowAgain(m[p.ts := p.value], p, cutoff, cutoff);
    assert m[p.ts := p.value][p.ts := p.value] == m[p.ts := p.value];
    SameMapSameSeries(once, Merge(once, p, cutoff), m');
  }

  ghost predicate DistinctSteps(steps: seq<Step>) {
    forall i, j :: 0 <= i < j < |steps| ==> steps[i].p.ts != steps[j].p.ts
  }

  /** With distinct timestamps no later step overwrites an earlier one. */
  lemma {:induction false} StepIsKept(m: map<int, real>, steps: seq<Step>, i: nat)
    requires DistinctSteps(steps) && i < |steps|
    ensures steps[i].p.ts in Updated(m, steps) && Updated(m, steps)[steps[i].p.ts] == steps[i].p.value
  {
    var n := |steps| - 1;
    if i < n { StepIsKept(m, steps[..n], i); }
  }

  ghost predicate Untouched(steps: seq<Step>, ts: int) {
    forall i :: 0 <= i < |steps| ==> steps[i].p.ts != ts
  }

  lemma {:induction false} RestIsKept(m: map<int, real>, steps: seq<Step>, ts: int)
    requires Untouched(steps, ts)
    ensures ts in Updated(m, steps) <==> ts in m
    ensures ts in m ==> Updated(m, steps)[ts] == m[ts]
  {
    if steps != [] { RestIsKept(m, steps[..|steps| - 1], ts); }
  }

  ghost predicate SameAt(a: map<int, real>, b: map<int, real>, ts: int) {
    (ts in a <==> ts in b) && (ts in a ==> a[ts] == b[ts])
  }

  lemma SameEverywhere(a: map<int, real>, b: map<int, real>)
    requires forall ts :: SameAt(a, b, ts)
    ensures a == b
  {
    forall ts | ts in a ensures ts in b && a[ts] == b[ts] { assert SameAt(a, b, ts); }
    forall ts | ts in b ensures ts in a { assert SameAt(a, b, ts); }
  }

  lemma SameStepsSameMap(m: map<int, real>, a: seq<Step>, b: seq<Step>)
    requires DistinctSteps(a) && DistinctSteps(b) && forall s :: s in a <==> s in b
    ensures Updated(m, a) == Updated(m, b)
  {
    forall ts ensures SameAt(Updated(m, a), Updated(m, b), ts) {
      if i :| 0 <= i < |a| && a[i].p.ts == ts {
        assert a[i] in b;
        var j :| 0 <= j < |b| && b[j] == a[i];
        StepIsKept(m, a, i);
        StepIsKept(m, b, j);
      } else {
        assert Untouched(b, ts) by {
          forall j | 0 <= j < |b| ensures b[j].p.ts != ts { assert b[j] in a; }
        }
        RestIsKept(m, a, ts);
        RestIsKept(m, b, ts);
      }
    }
    SameEverywhere(Updated(m, a), Updated(m, b));
  }

  lemma AllAtOnce(steps: seq<Step>, cutoff: int)
    requires forall s :: s in steps ==> s.cutoff == cutoff
    ensures ClockAdvances(steps) && (steps != [] ==> steps[|steps| - 1].cutoff == cutoff)
  {
    assert forall i :: 0 <= i < |steps| ==> steps[i] in steps;
  }

  /** At a fixed time, points with distinct timestamps may be merged in any order. */
  lemma MergeOrderIsIrrelevant(points: Series, a: seq<Step>, b: seq<Step>, cutoff: int)
    requires DistinctTimes(points) && a != []
    requires DistinctSteps(a) && DistinctSteps(b) && forall s :: s in a <==> s in b
    requires forall s :: s in a ==> s.cutoff == cutoff
    ensures MergeAll(points, a) == MergeAll(points, b)
  {
    assert a[0] in b;
    AllAtOnce(a, cutoff);
    AllAtOnce(b, cutoff);
    MergesRefineMap(points, a);
    MergesRefineMap(points, b);
    SameStepsSameMap(MapOf(points), a, b);
    SameMapSameSeries(MergeAll(points, a), MergeAll(points, b), Window(Updated(MapOf(points), a), cutoff));
  }

  // ---- All metrics ----

  type HistoryMap = map<MetricKey, Series>

  function SeriesOf(h: HistoryMap, key: MetricKey): (s: Series) {
    if key in h then h[key] else []
  }

  /** What becomes of one metric: merged if a usable point arrived, otherwise left as it is, window or not. */
  ghost predicate MergedAt(before: HistoryMap, after: HistoryMap, latest: map<MetricKey, RawPoint>, cutoff: int, key: MetricKey) {
    match Normalize(if key in latest then Some(latest[key]) else None)
    case None => (key in after <==> key in before) && (key in after ==> after[key] == before[key])
    case Some(p) => key in after && after[key] == Merge(SeriesOf(before, key), p, cutoff)
  }

  method MergeLatestHistory(current: HistoryMap, latest: map<MetricKey, RawPoint>, cutoff: int) returns (next: HistoryMap)
    ensures forall key :: MergedAt(current, next, latest, cutoff, key)
  {
    next := current;
    for i := 0 to 16
      invariant forall key :: Ordinal(key) < i ==> MergedAt(current, next, latest, cutoff, key)
      invariant forall key :: Ordinal(key) >= i ==> (key in next <==> key in current) && (key in next ==> next[key] == current[key])
    {
      var key := KeyAt(i);
      var point := Normalize(if key in latest then Some(latest[key]) else None);
      if point.Some? {
        var merged := Merge(SeriesOf(next, key), point.value, cutoff);
        next := next[key := merged];
      }
      forall k | Ordinal(k) == i ensures k == key { OrdinalInjective(k, key); }
    }
  }
}
