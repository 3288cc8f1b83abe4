/** From an agent's digest to metric points and back to a digest on the server. */
module DigestRecovery {
  import opened Outcomes
  import opened Text
  import opened HostTypes
  import opened MetricPoints
  import opened MetricIdentity
  import opened MetricDedup
  import opened FirstOccurrences

  /** The name under which a reading travels. */
  function WireName(key: MetricKey): (name: string) {
    match key
    case CPUUsagePct => "host_cpu_usage_pct"
    case MemUsedPct => "host_mem_used_pct"
    case MemAvailableBytes => "host_mem_available_bytes"
    case SwapUsedPct => "host_swap_used_pct"
    case DiskUsedPct => "host_disk_used_pct"
    case DiskFreeBytes => "host_disk_free_bytes"
    case DiskInodesUsedPct => "host_disk_inodes_used_pct"
    case DiskReadBPS => "host_disk_read_bps"
    case DiskWriteBPS => "host_disk_write_bps"
    case DiskReadIOPS => "host_disk_read_iops"
    case DiskWriteIOPS => "host_disk_write_iops"
    case Load1 => "host_load1"
    case NetRxBPS => "host_net_rx_bps"
    case NetTxBPS => "host_net_tx_bps"
    case NetRxPacketsPS => "host_net_rx_packets_ps"
    case NetTxPacketsPS => "host_net_tx_packets_ps"
  }

  /** The key a name is switched to, as the server compares names. */
  function KeyOf(name: string): (key: Option<MetricKey>)
    ensures key.Some? ==> WireName(key.value) == name
  {
    if name == "host_cpu_usage_pct" then Some(CPUUsagePct)
    else if name == "host_mem_used_pct" then Some(MemUsedPct)
    else if name == "host_mem_available_bytes" then Some(MemAvailableBytes)
    else if name == "host_swap_used_pct" then Some(SwapUsedPct)
    else if name == "host_disk_used_pct" then Some(DiskUsedPct)
    else if name == "host_disk_free_bytes" then Some(DiskFreeBytes)
    else if name == "host_disk_inodes_used_pct" then Some(DiskInodesUsedPct)
    else if name == "host_disk_read_bps" then Some(DiskReadBPS)
    else if name == "host_disk_write_bps" then Some(DiskWriteBPS)
    else if name == "host_disk_read_iops" then Some(DiskReadIOPS)
    else if name == "host_disk_write_iops" then Some(DiskWriteIOPS)
    else if name == "host_load1" then Some(Load1)
    else if name == "host_net_rx_bps" then Some(NetRxBPS)
    else if name == "host_net_tx_bps" then Some(NetTxBPS)
    else if name == "host_net_rx_packets_ps" then Some(NetRxPacketsPS)
    else if name == "host_net_tx_packets_ps" then Some(NetTxPacketsPS)
    else None
  }

  lemma KeyOfWireName(key: MetricKey)
    ensures KeyOf(WireName(key)) == Some(key)
  {
  }

  predicate Integral(key: MetricKey) {
    key in {MemAvailableBytes, DiskFreeBytes, DiskReadBPS, DiskWriteBPS, DiskReadIOPS, DiskWriteIOPS, NetRxBPS, NetTxBPS, NetRxPacketsPS, NetTxPacketsPS}
  }

  /** Go's conversion of a float to an integer: towards zero. */
  function Trunc(v: real): (n: int) {
    if v >= 0.0 then v.Floor else -((-v).Floor)
  }

  /** The field as the server stores it. */
  function Converted(key: MetricKey, v: real): (r: real) {
    if Integral(key) then Trunc(v) as real else v
  }

  function With(d: Readings, key: MetricKey, v: real): (r: Readings)
    ensures forall k :: MetricValue(r, k) == if k == key then Converted(key, v) else MetricValue(d, k)
  {
    match key
    case CPUUsagePct => d.(cpuUsagePct := v)
    case MemUsedPct => d.(memUsedPct := v)
    case MemAvailableBytes => d.(memAvailableBytes := Trunc(v))
    case SwapUsedPct => d.(swapUsedPct := v)
    case DiskUsedPct => d.(diskUsedPct := v)
    case DiskFreeBytes => d.(diskFreeBytes := Trunc(v))
    case DiskInodesUsedPct => d.(diskInodesUsedPct := v)
    case DiskReadBPS => d.(diskReadBPS := Trunc(v))
    case DiskWriteBPS => d.(diskWriteBPS := Trunc(v))
    case DiskReadIOPS => d.(diskReadIOPS := Trunc(v))
    case DiskWriteIOPS => d.(diskWriteIOPS := Trunc(v))
    case Load1 => d.(load1 := v)
    case NetRxBPS => d.(netRxBPS := Trunc(v))
    case NetTxBPS => d.(netTxBPS := Trunc(v))
    case NetRxPacketsPS => d.(netRxPacketsPS := Trunc(v))
    case NetTxPacketsPS => d.(netTxPacketsPS := Trunc(v))
  }

  // ---- The server's fold ----

  /** The value of the last point with this name. */
  function Last(points: seq<Point>, name: string): (v: Option<real>) {
    if points == [] then None
    else
      var p := points[|points| - 1];
      if p.name == name && p.value.Finite? then Some(p.value.r) else Last(points[..|points| - 1], name)
  }

  /** What the fold must find for a key: the last point of that name, or zero. */
  function LastReading(points: seq<Point>, key: MetricKey): (v: real) {
    match Last(points, WireName(key))
    case None => 0.0
    case Some(v) => Converted(key, v)
  }

  ghost predicate ReadingsAre(d: Readings, points: seq<Point>) {
    forall key :: MetricValue(d, key) == LastReading(points, key)
  }

  lemma ReadingsNext(d: Readings, points: seq<Point>, p: Point)
    requires ReadingsAre(d, points) && p.value.Finite?
    ensures ReadingsAre(match KeyOf(p.name) case None => d case Some(key) => With(d, key, p.value.r), points + [p])
  {
    var d' := match KeyOf(p.name) case None => d case Some(key) => With(d, key, p.value.r);
    assert (points + [p])[..|points|] == points;
    forall key ensures MetricValue(d', key) == LastReading(points + [p], key) {
      KeyOfWireName(key);
      assert MetricValue(d, key) == LastReading(points, key);
    }
  }

  /** `digestFromMetricBatch`, on a batch that passed validation: by name only, the last point of a name wins. */
  method DigestFromMetricBatch(points: seq<Point>, batchSeq: int) returns (d: AgentDigest)
    requires forall p :: p in points ==> p.value.Finite?
    ensures d.queueDepth == 0 && d.lastMetricBatchSeq == batchSeq
    ensures ReadingsAre(d.readings, points)
  {
    d := AgentDigest(NO_READINGS, 0, batchSeq);
    for i := 0 to |points|
      invariant d.queueDepth == 0 && d.lastMetricBatchSeq == batchSeq
      invariant ReadingsAre(d.readings, points[..i])
    {
      var p := points[i];
      assert p in points;
      ReadingsNext(d.readings, points[..i], p);
      assert points[..i + 1] == points[..i] + [p];
      match KeyOf(p.name)
      case None =>
      case Some(key) => d := d.(readings := With(d.readings, key, p.value.r));
    }
    assert points[..|points|] == points;
  }

  // ---- The agent's points ----

  const EXACT_LIMIT := 0x20_0000_0000_0000

  /** A conversion of integers to floats that is exact up to 2^53 in size. */
  ghost predicate ExactFloats(f64: int -> real) {
    forall i: int :: -EXACT_LIMIT <= i <= EXACT_LIMIT ==> f64(i) == i as real
  }

  /** An integral reading as the integer it is. */
  function Count(d: Readings, key: MetricKey): (n: int)
    ensures Integral(key) ==> MetricValue(d, key) == n as real
  {
    match key
    case MemAvailableBytes => d.memAvailableBytes
    case DiskFreeBytes => d.diskFreeBytes
    case DiskReadBPS => d.diskReadBPS
    case DiskWriteBPS => d.diskWriteBPS
    case DiskReadIOPS => d.diskReadIOPS
    case DiskWriteIOPS => d.diskWriteIOPS
    case NetRxBPS => d.netRxBPS
    case NetTxBPS => d.netTxBPS
    case NetRxPacketsPS => d.netRxPacketsPS
    case NetTxPacketsPS => d.netTxPacketsPS
    case _ => 0
  }

  function Sent(d: Readings, key: MetricKey, f64: int -> real): (v: real) {
    if Integral(key) then f64(Count(d, key)) else MetricValue(d, key)
  }

  ghost predicate IntegersFit(d: Readings) {
    forall key :: Integral(key) ==> -EXACT_LIMIT <= Count(d, key) <= EXACT_LIMIT
  }

  /** The fixed part of a batch: the uptime, then one unlabelled point for each reading. */
  function BasePoints(d: Readings, uptime: real, now: int, f64: int -> real): (points: seq<Point>)
    ensures |points| == 17
    ensures forall i :: 1 <= i < 17 ==>
      points[i] == Point(WireName(KeyAt(i - 1)), Finite(Sent(d, KeyAt(i - 1), f64)), now, map[])
  {
    [
      Point("runtime_uptime_seconds", Finite(uptime), now, map[]),
      Point("host_cpu_usage_pct", Finite(d.cpuUsagePct), now, map[]),
      Point("host_mem_used_pct", Finite(d.memUsedPct), now, map[]),
      Point("host_mem_available_bytes", Finite(f64(d.memAvailableBytes)), now, map[]),
      Point("host_swap_used_pct", Finite(d.swapUsedPct), now, map[]),
      Point("host_disk_used_pct", Finite(d.diskUsedPct), now, map[]),
      Point("host_disk_free_bytes", Finite(f64(d.diskFreeBytes)), now, map[]),
      Point("host_disk_inodes_used_pct", Finite(d.diskInodesUsedPct), now, map[]),
      Point("host_disk_read_bps", Finite(f64(d.diskReadBPS)), now, map[]),
      Point("host_disk_write_bps", Finite(f64(d.diskWriteBPS)), now, map[]),
      Point("host_disk_read_iops", Finite(f64(d.diskReadIOPS)), now, map[]),
      Point("host_disk_write_iops", Finite(f64(d.diskWriteIOPS)), now, map[]),
      Point("host_load1", Finite(d.load1), now, map[]),
      Point("host_net_rx_bps", Finite(f64(d.netRxBPS)), now, map[]),
      Point("host_net_tx_bps", Finite(f64(d.netTxBPS)), now, map[]),
      Point("host_net_rx_packets_ps", Finite(f64(d.netRxPacketsPS)), now, map[]),
      Point("host_net_tx_packets_ps", Finite(f64(d.netTxPacketsPS)), now, map[])
    ]
  }

  lemma TruncExact(n: int)
    ensures Trunc(n as real) == n
  {
  }

  lemma SentSurvives(d: Readings, key: MetricKey, f64: int -> real)
    requires ExactFloats(f64) && IntegersFit(d)
    ensures Converted(key, Sent(d, key, f64)) == MetricValue(d, key)
  {
    TruncExact(Count(d, key));
  }

  lemma {:induction false} LastIs(points: seq<Point>, name: string, i: int)
    requires 0 <= i < |points| && points[i].name == name && points[i].value.Finite?
    requires forall j :: i < j < |points| ==> points[j].name != name
    ensures Last(points, name) == Some(points[i].value.r)
  {
    if i < |points| - 1 { LastIs(points[..|points| - 1], name, i); }
  }

  lemma {:induction false} LastInPrefix(points: seq<Point>, n: nat, name: string)
    requires n <= |points| && forall i :: n <= i < |points| ==> points[i].name != name
    ensures Last(points, name) == Last(points[..n], name)
  {
    if n == |points| {
      assert points[..n] == points;
    } else {
      var shorter := points[..|points| - 1];
      assert shorter[..n] == points[..n];
      LastInPrefix(shorter, n, name);
    }
  }

  lemma BaseLast(d: Readings, uptime: real, now: int, f64: int -> real, key: MetricKey)
    ensures Last(BasePoints(d, uptime, now, f64), WireName(key)) == Some(Sent(d, key, f64))
  {
    var points := BasePoints(d, uptime, now, f64);
    var i := 1 + Ordinal(key);
    OrdinalInjective(KeyAt(i - 1), key);
    forall j | i < j < 17 ensures points[j].name != WireName(key) {
      KeyOfWireName(KeyAt(j - 1));
      KeyOfWireName(key);
    }
    LastIs(points, WireName(key), i);
  }

  // ---- What the server recovers ----

  ghost predicate LabelledExtra(extra: seq<Point>, name: string) {
    exists k :: 0 <= k < |extra| && extra[k].name == name && extra[k].labels != map[]
  }

  lemma PlainIdentity(p: Point)
    ensures p.labels == map[] ==> Identity(p) == p.name
    ensures p.labels != map[] ==> '\0' in Identity(p)
  {
    var keys := SortedKeys(p.labels.Keys);
    SortedKeysAre(p.labels.Keys);
    if p.labels == map[] {
      assert p.labels.Keys == {};
    } else {
      assert p.labels.Keys != {};
      assert keys != [];
      assert Suffix(keys, p.labels)[0] == '\0';
      assert Identity(p)[|p.name|] == '\0';
    }
  }

  /** An unlabelled extra point under a reading's name is a duplicate and dropped. */
  lemma UnlabelledIsDropped(base: seq<Point>, extra: seq<Point>, now: int, name: string)
    requires exists b :: b in base && b.name == name && b.labels == map[]
    requires !LabelledExtra(extra, name)
    ensures var r := Appended(base, extra, now); forall i :: |base| <= i < |r| ==> r[i].name != name
  {
    var seen, ids := Elements(Ids(base)), Ids(extra);
    var at := NewOnes(seen, ids, |extra|);
    var r := Appended(base, extra, now);
    NewOnesExactly(seen, ids, |extra|);
    assert name in seen by {
      var b :| b in base && b.name == name && b.labels == map[];
      PlainIdentity(b);
      var m :| 0 <= m < |base| && base[m] == b;
      assert Ids(base)[m] == name;
    }
    forall i | |base| <= i < |r| ensures r[i].name != name {
      var k := at[i - |base|];
      assert k in at && IsNew(seen, ids, k);
      PlainIdentity(extra[k]);
    }
  }

  lemma NoNulInNames(key: MetricKey)
    ensures '\0' !in WireName(key)
  {
    if Ordinal(key) < 8 {
      NoNulInFirstNames(key);
    } else {
      NoNulInLastNames(key);
    }
  }

  lemma NoNulInFirstNames(key: MetricKey)
    requires Ordinal(key) < 8
    ensures '\0' !in WireName(key)
  {
  }

  lemma NoNulInLastNames(key: MetricKey)
    requires Ordinal(key) >= 8
    ensures '\0' !in WireName(key)
  {
  }

  lemma NoNulInUptime()
    ensures '\0' !in "runtime_uptime_seconds"
  {
  }

  /** A labelled extra point is not a duplicate of any base point without labels, so its series is appended. */
  lemma LabelledIsNew(seen: set<string>, extra: seq<Point>, k: int, alnum: char -> bool) returns (first: int)
    requires AlnumTable(alnum) && AllValid(extra, alnum) && (forall id :: id in seen ==> '\0' !in id)
    requires 0 <= k < |extra| && extra[k].labels != map[]
    ensures 0 <= first < |extra| && IsNew(seen, Ids(extra), first) && extra[first].name == extra[k].name
  {
    PlainIdentity(extra[k]);
    first := FirstExists(seen, Ids(extra), k);
    IdentityInjective(extra[first], extra[k], alnum);
  }

  lemma LabelledIsAppendedTo(base: seq<Point>, extra: seq<Point>, now: int, k: int, alnum: char -> bool)
    requires AlnumTable(alnum) && AllValid(extra, alnum) && (forall id :: id in Elements(Ids(base)) ==> '\0' !in id)
    requires 0 <= k < |extra| && extra[k].labels != map[]
    ensures var r := Appended(base, extra, now); exists i :: |base| <= i < |r| && r[i].name == extra[k].name
  {
    var seen, ids := Elements(Ids(base)), Ids(extra);
    var first := LabelledIsNew(seen, extra, k, alnum);
    NewOnesExactly(seen, ids, |extra|);
    var at := NewOnes(seen, ids, |extra|);
    var i :| 0 <= i < |at| && at[i] == first;
    assert Appended(base, extra, now)[|base| + i] == Stamp(extra[first], now);
  }

  lemma LabelledIsAppended(d: Readings, uptime: real, now: int, f64: int -> real, extra: seq<Point>, k: int, alnum: char -> bool)
    requires AlnumTable(alnum) && AllValid(extra, alnum)
    requires 0 <= k < |extra| && extra[k].labels != map[]
    ensures var base := BasePoints(d, uptime, now, f64);
      var r := Appended(base, extra, now);
      exists i :: |base| <= i < |r| && r[i].name == extra[k].name
  {
    BaseIdentitiesArePlain(d, uptime, now, f64);
    LabelledIsAppendedTo(BasePoints(d, uptime, now, f64), extra, now, k, alnum);
  }

  lemma BaseIdentitiesArePlain(d: Readings, uptime: real, now: int, f64: int -> real)
    ensures forall id :: id in Elements(Ids(BasePoints(d, uptime, now, f64))) ==> '\0' !in id
  {
    var base := BasePoints(d, uptime, now, f64);
    forall id | id in Elements(Ids(base)) ensures '\0' !in id {
      var i :| 0 <= i < |base| && Ids(base)[i] == id;
      PlainIdentity(base[i]);
      if i == 0 { NoNulInUptime(); } else { NoNulInNames(KeyAt(i - 1)); }
    }
  }

  /** Among the appended points of the batch there is one of a reading's name exactly when a labelled one was offered. */
  lemma OverriddenExactly(d: Readings, uptime: real, now: int, f64: int -> real, extra: seq<Point>, key: MetricKey, alnum: char -> bool)
    requires AlnumTable(alnum) && AllValid(extra, alnum)
    ensures var base := BasePoints(d, uptime, now, f64);
      var batch := Appended(base, extra, now);
      LabelledExtra(extra, WireName(key)) <==> exists i :: |base| <= i < |batch| && batch[i].name == WireName(key)
  {
    var base := BasePoints(d, uptime, now, f64);
    if LabelledExtra(extra, WireName(key)) {
      var k :| 0 <= k < |extra| && extra[k].name == WireName(key) && extra[k].labels != map[];
      LabelledIsAppended(d, uptime, now, f64, extra, k, alnum);
    } else {
      OrdinalInjective(KeyAt(Ordinal(key)), key);
      assert base[1 + Ordinal(key)] in base;
      UnlabelledIsDropped(base, extra, now, WireName(key));
    }
  }

  /**
   Digest recovery: what the server folds out of the agent's batch is the agent's own reading, for
   every key whose name no labelled extra point bears, as long as the integers fit a float exactly.
   */
  lemma DigestRecovered(d: Readings, uptime: real, now: int, f64: int -> real, extra: seq<Point>, received: Readings, key: MetricKey)
    requires ExactFloats(f64) && IntegersFit(d)
    requires ReadingsAre(received, Appended(BasePoints(d, uptime, now, f64), extra, now))
    requires !LabelledExtra(extra, WireName(key))
    ensures MetricValue(received, key) == MetricValue(d, key)
  {
    var base := BasePoints(d, uptime, now, f64);
    var batch := Appended(base, extra, now);
    OrdinalInjective(KeyAt(Ordinal(key)), key);
    assert base[1 + Ordinal(key)] in base;
    UnlabelledIsDropped(base, extra, now, WireName(key));
    LastInPrefix(batch, |base|, WireName(key));
    assert batch[..|base|] == base;
    BaseLast(d, uptime, now, f64, key);
    SentSurvives(d, key, f64);
  }

  lemma {:induction false} LastFound(points: seq<Point>, name: string, lo: nat, i: int) returns (j: int)
    requires lo <= i < |points| && points[i].name == name
    requires forall k :: lo <= k < |points| ==> points[k].value.Finite?
    ensures i <= j < |points| && points[j].name == name && points[j].value.Finite?
    ensures forall m :: j < m < |points| ==> points[m].name != name
    ensures Last(points, name) == Some(points[j].value.r)
    decreases |points| - i
  {
    if m :| i < m < |points| && points[m].name == name {
      j := LastFound(points, name, lo, m);
    } else {
      j := i;
      LastIs(points, name, i);
    }
  }

  lemma AppendedFromExtra(base: seq<Point>, extra: seq<Point>, now: int, i: int) returns (k: int)
    requires |base| <= i < |Appended(base, extra, now)|
    ensures 0 <= k < |extra| && Appended(base, extra, now)[i] == Stamp(extra[k], now)
  {
    k := NewOnes(Elements(Ids(base)), Ids(extra), |extra|)[i - |base|];
  }

  /** Position `j` of the batch holds extra point `k`, finite and the last point of that name. */
  ghost predicate LastOfName(batch: seq<Point>, extra: seq<Point>, now: int, name: string, j: int, k: int) {
    && 0 <= j < |batch| && 0 <= k < |extra| && batch[j] == Stamp(extra[k], now)
    && extra[k].name == name && extra[k].value.Finite?
    && (forall m :: j < m < |batch| ==> batch[m].name != name)
  }

  lemma LastExtraFound(base: seq<Point>, extra: seq<Point>, now: int, name: string, i: int) returns (j: int, k: int)
    requires |base| <= i < |Appended(base, extra, now)| && Appended(base, extra, now)[i].name == name
    requires forall p :: p in extra ==> p.value.Finite?
    ensures LastOfName(Appended(base, extra, now), extra, now, name, j, k)
    ensures Last(Appended(base, extra, now), name) == Some(extra[k].value.r)
  {
    var batch := Appended(base, extra, now);
    forall m | |base| <= m < |batch| ensures batch[m].value.Finite? {
      var k := AppendedFromExtra(base, extra, now, m);
      assert extra[k] in extra;
    }
    j := LastFound(batch, name, |base|, i);
    k := AppendedFromExtra(base, extra, now, j);
  }

  /**
   Once a labelled extra point bears a reading's name, as the per-core points do for the CPU, the
   agent's own reading is lost: the server's is that of the last extra point of that name in the batch.
   */
  lemma LabelledExtraDecides(d: Readings, uptime: real, now: int, f64: int -> real, extra: seq<Point>,
                             received: Readings, key: MetricKey, alnum: char -> bool)
    requires AlnumTable(alnum) && AllValid(extra, alnum) && LabelledExtra(extra, WireName(key))
    requires ReadingsAre(received, Appended(BasePoints(d, uptime, now, f64), extra, now))
    ensures var batch := Appended(BasePoints(d, uptime, now, f64), extra, now);
      exists j, k :: LastOfName(batch, extra, now, WireName(key), j, k)
                     && MetricValue(received, key) == Converted(key, extra[k].value.r)
  {
    var base := BasePoints(d, uptime, now, f64);
    var batch := Appended(base, extra, now);
    OverriddenExactly(d, uptime, now, f64, extra, key, alnum);
    var i :| |base| <= i < |batch| && batch[i].name == WireName(key);
    var j, k := LastExtraFound(base, extra, now, WireName(key), i);
    assert MetricValue(received, key) == LastReading(batch, key);
  }

  // ---- Exactly when a reading is recovered ----

  /** The number a point carries; the server accepts only points that carry one. */
  function Amount(p: Point): (v: real) {
    if p.value.Finite? then p.value.r else 0.0
  }

  ghost predicate Labelled(extra: seq<Point>, name: string, k: int) {
    0 <= k < |extra| && extra[k].name == name && extra[k].labels != map[]
  }

  ghost predicate FirstAmong(extra: seq<Point>, k: int) {
    0 <= k < |extra| && forall m :: 0 <= m < k ==> !SameSeries(extra[m], extra[k])
  }

  /** The last extra point of a name that is labelled and not a repetition. */
  ghost predicate Decides(extra: seq<Point>, name: string, k: int) {
    && Labelled(extra, name, k) && FirstAmong(extra, k)
    && forall j :: k < j && Labelled(extra, name, j) ==> !FirstAmong(extra, j)
  }

  lemma OneDecides(extra: seq<Point>, name: string, j: int, k: int)
    requires Decides(extra, name, j) && Decides(extra, name, k)
    ensures j == k
  {
  }

  lemma {:induction false} FirstLabelled(extra: seq<Point>, name: string, k: int) returns (first: int)
    requires Labelled(extra, name, k)
    ensures Labelled(extra, name, first) && FirstAmong(extra, first)
    decreases k
  {
    if m :| 0 <= m < k && SameSeries(extra[m], extra[k]) {
      first := FirstLabelled(extra, name, m);
    } else {
      first := k;
    }
  }

  lemma {:induction false} LastLabelled(extra: seq<Point>, name: string, k: int) returns (last: int)
    requires Labelled(extra, name, k) && FirstAmong(extra, k)
    ensures Decides(extra, name, last)
    decreases |extra| - k
  {
    if j :| k < j && Labelled(extra, name, j) && FirstAmong(extra, j) {
      last := LastLabelled(extra, name, j);
    } else {
      last := k;
    }
  }

  lemma DecidingExists(extra: seq<Point>, name: string)
    ensures LabelledExtra(extra, name) <==> exists k :: Decides(extra, name, k)
  {
    if LabelledExtra(extra, name) {
      var k :| 0 <= k < |extra| && extra[k].name == name && extra[k].labels != map[];
      var first := FirstLabelled(extra, name, k);
      var last := LastLabelled(extra, name, first);
    }
  }

  /** An extra point is new exactly if no earlier extra point is of its series, given that its identity is not a base one. */
  lemma NewAmongExtra(seen: set<string>, extra: seq<Point>, k: int, alnum: char -> bool)
    requires AlnumTable(alnum) && AllValid(extra, alnum) && 0 <= k < |extra| && Ids(extra)[k] !in seen
    ensures IsNew(seen, Ids(extra), k) <==> FirstAmong(extra, k)
  {
    var ids := Ids(extra);
    forall m | 0 <= m < |extra| ensures ids[m] == ids[k] <==> SameSeries(extra[m], extra[k]) {
      IdentityInjective(extra[m], extra[k], alnum);
    }
    assert ids[k] in ids[..k] <==> exists m :: 0 <= m < k && ids[m] == ids[k];
  }

  /** Which extra points of a reading's name are appended to a base that has its unlabelled point and no identity with NUL. */
  lemma NewUnderName(seen: set<string>, extra: seq<Point>, name: string, k: int, alnum: char -> bool)
    requires AlnumTable(alnum) && AllValid(extra, alnum) && 0 <= k < |extra| && extra[k].name == name
    requires name in seen && forall id :: id in seen ==> '\0' !in id
    ensures IsNew(seen, Ids(extra), k) <==> Labelled(extra, name, k) && FirstAmong(extra, k)
  {
    PlainIdentity(extra[k]);
    if extra[k].labels != map[] { NewAmongExtra(seen, extra, k, alnum); }
  }

  /** The deciding point is appended, and none of its name after it. */
  lemma DecidingPosition(seen: set<string>, extra: seq<Point>, name: string, k: int, alnum: char -> bool) returns (i: int)
    requires AlnumTable(alnum) && AllValid(extra, alnum) && Decides(extra, name, k)
    requires name in seen && forall id :: id in seen ==> '\0' !in id
    ensures var at := NewOnes(seen, Ids(extra), |extra|);
      && 0 <= i < |at| && at[i] == k
      && forall j :: i < j < |at| ==> extra[at[j]].name != name
  {
    var at := NewOnes(seen, Ids(extra), |extra|);
    NewOnesExactly(seen, Ids(extra), |extra|);
    NewOnesAscend(seen, Ids(extra), |extra|);
    NewUnderName(seen, extra, name, k, alnum);
    i :| 0 <= i < |at| && at[i] == k;
    forall j | i < j < |at| ensures extra[at[j]].name != name {
      assert at[j] in at && k < at[j];
      if extra[at[j]].name == name { NewUnderName(seen, extra, name, at[j], alnum); }
    }
  }

  lemma DecidingIsLast(base: seq<Point>, extra: seq<Point>, now: int, name: string, k: int, alnum: char -> bool)
    requires AlnumTable(alnum) && AllValid(extra, alnum) && Decides(extra, name, k)
    requires name in Elements(Ids(base)) && forall id :: id in Elements(Ids(base)) ==> '\0' !in id
    ensures Last(Appended(base, extra, now), name) == Some(Amount(extra[k]))
  {
    var at := NewOnes(Elements(Ids(base)), Ids(extra), |extra|);
    var i := DecidingPosition(Elements(Ids(base)), extra, name, k, alnum);
    assert extra[k] in extra;
    LastOfSelected(base, Select(extra, at, now), name, i);
  }

  lemma LastOfSelected(base: seq<Point>, selected: seq<Point>, name: string, i: int)
    requires 0 <= i < |selected| && selected[i].name == name && selected[i].value.Finite?
    requires forall j :: i < j < |selected| ==> selected[j].name != name
    ensures Last(base + selected, name) == Some(selected[i].value.r)
  {
    LastIs(base + selected, name, |base| + i);
  }

  lemma BaseHasName(d: Readings, uptime: real, now: int, f64: int -> real, key: MetricKey)
    ensures WireName(key) in Elements(Ids(BasePoints(d, uptime, now, f64)))
  {
    var base := BasePoints(d, uptime, now, f64);
    OrdinalInjective(KeyAt(Ordinal(key)), key);
    PlainIdentity(base[1 + Ordinal(key)]);
    assert Ids(base)[1 + Ordinal(key)] == WireName(key);
  }

  /** The value that decides a reading is that of the extra point which `Decides`. */
  lemma DecidedBy(d: Readings, uptime: real, now: int, f64: int -> real, extra: seq<Point>,
                  received: Readings, key: MetricKey, k: int, alnum: char -> bool)
    requires AlnumTable(alnum) && AllValid(extra, alnum) && Decides(extra, WireName(key), k)
    requires ReadingsAre(received, Appended(BasePoints(d, uptime, now, f64), extra, now))
    ensures MetricValue(received, key) == Converted(key, Amount(extra[k]))
  {
    BaseHasName(d, uptime, now, f64, key);
    BaseIdentitiesArePlain(d, uptime, now, f64);
    DecidingIsLast(BasePoints(d, uptime, now, f64), extra, now, WireName(key), k, alnum);
    assert MetricValue(received, key) == LastReading(Appended(BasePoints(d, uptime, now, f64), extra, now), key);
  }

  /**
   The server recovers the agent's own reading if and only if no labelled extra point bears its
   name, or the last such point that is not a repetition happens to convert to the same value.
   */
  lemma RecoveredExactly(d: Readings, uptime: real, now: int, f64: int -> real, extra: seq<Point>,
                         received: Readings, key: MetricKey, alnum: char -> bool)
    requires AlnumTable(alnum) && AllValid(extra, alnum) && ExactFloats(f64) && IntegersFit(d)
    requires ReadingsAre(received, Appended(BasePoints(d, uptime, now, f64), extra, now))
    ensures MetricValue(received, key) == MetricValue(d, key) <==>
      || !LabelledExtra(extra, WireName(key))
      || exists k :: Decides(extra, WireName(key), k) && Converted(key, Amount(extra[k])) == MetricValue(d, key)
  {
    DecidingExists(extra, WireName(key));
    if LabelledExtra(extra, WireName(key)) {
      var k :| Decides(extra, WireName(key), k);
      DecidedBy(d, uptime, now, f64, extra, received, key, k, alnum);
      forall j | Decides(extra, WireName(key), j) ensures j == k { OneDecides(extra, WireName(key), j, k); }
    } else {
      DigestRecovered(d, uptime, now, f64, extra, received, key);
    }
  }

  /** A lower-case letter, a digit or an underscore. */
  predicate PlainChar(c: char) {
    'a' <= c <= 'z' || '0' <= c <= '9' || c == '_'
  }

  lemma {:induction false} PlainByteLen(s: string)
    requires forall i :: 0 <= i < |s| ==> PlainChar(s[i])
    ensures ByteLen(s) == |s|
  {
    if s != "" { PlainByteLen(s[1..]); }
  }

  lemma PlainIsValid(s: string, maxBytes: int, alnum: char -> bool)
    requires AlnumTable(alnum) && 1 <= |s| <= maxBytes && forall i :: 0 <= i < |s| ==> PlainChar(s[i])
    ensures ValidIdentifier(s, maxBytes, alnum) && ValidText(s, maxBytes)
  {
    PlainByteLen(s);
  }

  /** A point as the CPU collector sends one for a core. */
  function CorePoint(core: string, usage: real): Point {
    Point(WireName(CPUUsagePct), Finite(usage), 0, map["cpu" := core])
  }

  lemma CpuNameIsPlain()
    ensures Plain(WireName(CPUUsagePct), MAX_NAME_BYTES)
  {
  }

  ghost predicate Plain(s: string, maxBytes: int) {
    1 <= |s| <= maxBytes && forall i :: 0 <= i < |s| ==> PlainChar(s[i])
  }

  lemma PlainPointIsValid(name: string, key: string, value: string, v: real, alnum: char -> bool)
    requires AlnumTable(alnum) && Plain(name, MAX_NAME_BYTES) && Plain(key, MAX_KEY_BYTES) && Plain(value, MAX_VALUE_BYTES)
    ensures var p := Point(name, Finite(v), 0, map[key := value]);
      ValidPoint(p, alnum) && p.labels != map[] && Decides([p], name, 0)
  {
    PlainIsValid(name, MAX_NAME_BYTES, alnum);
    PlainIsValid(key, MAX_KEY_BYTES, alnum);
    PlainIsValid(value, MAX_VALUE_BYTES, alnum);
    assert key in map[key := value];
  }

  lemma CoreNamesArePlain()
    ensures Plain("cpu", MAX_KEY_BYTES) && Plain("cpu0", MAX_VALUE_BYTES)
  {
  }

  lemma CorePointIsValid(usage: real, alnum: char -> bool)
    requires AlnumTable(alnum)
    ensures AllValid([CorePoint("cpu0", usage)], alnum) && Decides([CorePoint("cpu0", usage)], WireName(CPUUsagePct), 0)
  {
    CpuNameIsPlain();
    CoreNamesArePlain();
    PlainPointIsValid(WireName(CPUUsagePct), "cpu", "cpu0", usage, alnum);
  }

  /** One core's point with another value is enough: the server takes it for the host's CPU usage. */
  lemma CoreReplacesHostReading(d: Readings, uptime: real, now: int, f64: int -> real, usage: real,
                                received: Readings, alnum: char -> bool)
    requires AlnumTable(alnum) && usage != d.cpuUsagePct
    requires ReadingsAre(received, Appended(BasePoints(d, uptime, now, f64), [CorePoint("cpu0", usage)], now))
    ensures received.cpuUsagePct == usage != d.cpuUsagePct
  {
    CorePointIsValid(usage, alnum);
    DecidedBy(d, uptime, now, f64, [CorePoint("cpu0", usage)], received, CPUUsagePct, 0, alnum);
  }
}
