/** The server's check of a metric batch before anything is taken from it. */
module MetricValidation {
  import opened Text
  import opened Sums
  import opened MetricPoints

  const MAX_POINTS := 4096
  const MAX_COLLECTORS := 64
  const MAX_COLLECTOR_METRIC_NAMES := 4096
  const MAX_STRING_BYTES := 0x10_0000

  datatype CollectorStatus = CollectorStatus(
    name: string, state: int, metricNames: seq<string>, durationMicros: int, timedOut: bool)

  // ---- What is accepted ----

  ghost function LabelBytes(labels: map<string, string>): (n: int) {
    SumOver(labels.Keys, k => if k in labels then ByteLen(k) + ByteLen(labels[k]) else 0)
  }

  ghost function PointBytes(points: seq<Point>): (n: int) {
    if points == [] then 0 else PointBytes(points[..|points| - 1]) + BytesOf(points[|points| - 1])
  }

  ghost function BytesOf(p: Point): (n: int) {
    ByteLen(p.name) + LabelBytes(p.labels)
  }

  function NameBytes(names: seq<string>): (n: nat) {
    if names == [] then 0 else NameBytes(names[..|names| - 1]) + ByteLen(names[|names| - 1])
  }

  function CollectorBytes(collectors: seq<CollectorStatus>): (n: nat) {
    if collectors == [] then 0
    else
      var c := collectors[|collectors| - 1];
      CollectorBytes(collectors[..|collectors| - 1]) + ByteLen(c.name) + NameBytes(c.metricNames)
  }

  function NameCount(collectors: seq<CollectorStatus>): (n: nat) {
    if collectors == [] then 0
    else NameCount(collectors[..|collectors| - 1]) + |collectors[|collectors| - 1].metricNames|
  }

  ghost predicate ValidNames(names: seq<string>, alnum: char -> bool) {
    forall i :: 0 <= i < |names| ==> ValidIdentifier(names[i], MAX_NAME_BYTES, alnum)
  }

  ghost predicate ValidCollector(c: CollectorStatus, alnum: char -> bool) {
    && ValidIdentifier(c.name, MAX_NAME_BYTES, alnum) && 0 <= c.state <= 3 && c.durationMicros >= 0
    && ValidNames(c.metricNames, alnum)
  }

  /** The whole condition, with the totals over the whole batch. */
  ghost predicate ValidBatch(points: seq<Point>, collectors: seq<CollectorStatus>, alnum: char -> bool) {
    && |points| <= MAX_POINTS && |collectors| <= MAX_COLLECTORS
    && (forall i :: 0 <= i < |points| ==> ValidPoint(points[i], alnum))
    && (forall i :: 0 <= i < |collectors| ==> ValidCollector(collectors[i], alnum))
    && NameCount(collectors) <= MAX_COLLECTOR_METRIC_NAMES
    && PointBytes(points) + CollectorBytes(collectors) <= MAX_STRING_BYTES
  }

  // ---- The check itself ----

  /** Labels in whatever order the map is ranged over. */
  method CheckLabels(labels: map<string, string>, alnum: char -> bool) returns (ok: bool, bytes: int)
    ensures ok <==> ValidLabels(labels, alnum)
    ensures ok ==> bytes == LabelBytes(labels)
  {
    ghost var f := k => if k in labels then ByteLen(k) + ByteLen(labels[k]) else 0;
    var rest := labels.Keys;
    bytes := 0;
    while rest != {}
      invariant rest <= labels.Keys
      invariant forall k :: k in labels && k !in rest ==>
        ValidIdentifier(k, MAX_KEY_BYTES, alnum) && ValidText(labels[k], MAX_VALUE_BYTES)
      invariant bytes + SumOver(rest, f) == SumOver(labels.Keys, f)
      decreases rest
    {
      var k :| k in rest;
      if !ValidIdentifier(k, MAX_KEY_BYTES, alnum) || !ValidText(labels[k], MAX_VALUE_BYTES) {
        return false, 0;
      }
      SumRemove(rest, k, f);
      bytes := bytes + (ByteLen(k) + ByteLen(labels[k]));
      rest := rest - {k};
    }
    ok := true;
  }

  method CheckPoint(p: Point, alnum: char -> bool) returns (ok: bool, bytes: int)
    ensures ok <==> ValidPoint(p, alnum)
    ensures ok ==> bytes == BytesOf(p)
  {
    if !ValidIdentifier(p.name, MAX_NAME_BYTES, alnum) || !p.value.Finite? || |p.labels| > MAX_LABELS {
      return false, 0;
    }
    ok, bytes := CheckLabels(p.labels, alnum);
    bytes := ByteLen(p.name) + bytes;
  }

  lemma PointBytesNext(points: seq<Point>, i: nat)
    requires i < |points|
    ensures PointBytes(points[..i + 1]) == PointBytes(points[..i]) + BytesOf(points[i])
  {
    assert points[..i + 1][..i] == points[..i];
  }

  ghost predicate ValidUpTo(points: seq<Point>, n: int, alnum: char -> bool)
    requires 0 <= n <= |points|
  {
    forall i :: 0 <= i < n ==> ValidPoint(points[i], alnum)
  }

  method CheckPoints(points: seq<Point>, alnum: char -> bool) returns (ok: bool, bytes: int)
    ensures ok <==> ValidUpTo(points, |points|, alnum)
    ensures ok ==> bytes == PointBytes(points)
  {
    bytes := 0;
    for i := 0 to |points|
      invariant ValidUpTo(points, i, alnum)
      invariant bytes == PointBytes(points[..i])
    {
      var pointOk, pointBytes := CheckPoint(points[i], alnum);
      if !pointOk {
        return false, 0;
      }
      PointBytesNext(points, i);
      bytes := bytes + pointBytes;
    }
    assert points[..|points|] == points;
    ok := true;
  }

  method CheckNames(names: seq<string>, alnum: char -> bool) returns (ok: bool, bytes: nat)
    ensures ok <==> ValidNames(names, alnum)
    ensures ok ==> bytes == NameBytes(names)
  {
    bytes := 0;
    for i := 0 to |names|
      invariant ValidNames(names[..i], alnum)
      invariant bytes == NameBytes(names[..i])
    {
      if !ValidIdentifier(names[i], MAX_NAME_BYTES, alnum) {
        return false, 0;
      }
      assert names[..i + 1][..i] == names[..i];
      bytes := bytes + ByteLen(names[i]);
    }
    assert names[..|names|] == names;
    ok := true;
  }

  lemma {:induction false} NameCountGrows(collectors: seq<CollectorStatus>, n: nat)
    requires n <= |collectors|
    ensures NameCount(collectors[..n]) <= NameCount(collectors)
  {
    if n == |collectors| {
      assert collectors[..n] == collectors;
    } else {
      var shorter := collectors[..|collectors| - 1];
      assert shorter[..n] == collectors[..n];
      NameCountGrows(shorter, n);
    }
  }

  /** Stops as soon as the running count of metric names is too high. */
  method CheckCollectors(collectors: seq<CollectorStatus>, alnum: char -> bool) returns (ok: bool, bytes: nat)
    ensures ok <==> (forall i :: 0 <= i < |collectors| ==> ValidCollector(collectors[i], alnum))
                    && NameCount(collectors) <= MAX_COLLECTOR_METRIC_NAMES
    ensures ok ==> bytes == CollectorBytes(collectors)
  {
    bytes := 0;
    var names := 0;
    for i := 0 to |collectors|
      invariant forall j :: 0 <= j < i ==> ValidCollector(collectors[j], alnum)
      invariant bytes == CollectorBytes(collectors[..i])
      invariant names == NameCount(collectors[..i]) <= MAX_COLLECTOR_METRIC_NAMES
    {
      var c := collectors[i];
      if !ValidIdentifier(c.name, MAX_NAME_BYTES, alnum) || c.state < 0 || c.state > 3 || c.durationMicros < 0 {
        return false, 0;
      }
      assert collectors[..i + 1][..i] == collectors[..i];
      names := names + |c.metricNames|;
      if names > MAX_COLLECTOR_METRIC_NAMES {
        NameCountGrows(collectors, i + 1);
        return false, 0;
      }
      var namesOk, nameBytes := CheckNames(c.metricNames, alnum);
      if !namesOk {
        return false, 0;
      }
      bytes := bytes + ByteLen(c.name) + nameBytes;
    }
    assert collectors[..|collectors|] == collectors;
    ok := true;
  }

  /** `validateMetricBatch`: its early exits and running totals decide exactly `ValidBatch`. */
  method ValidateMetricBatch(points: seq<Point>, collectors: seq<CollectorStatus>, alnum: char -> bool) returns (ok: bool)
    ensures ok <==> ValidBatch(points, collectors, alnum)
  {
    if |points| > MAX_POINTS || |collectors| > MAX_COLLECTORS {
      return false;
    }
    var pointsOk, pointBytes := CheckPoints(points, alnum);
    if !pointsOk {
      return false;
    }
    var collectorsOk, collectorBytes := CheckCollectors(collectors, alnum);
    if !collectorsOk {
      return false;
    }
    ok := pointBytes + collectorBytes <= MAX_STRING_BYTES;
  }
}
