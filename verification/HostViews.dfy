/** What a reader may see of hosts: selection of hosts and projection of their fields. */
module HostViews {
  import opened Outcomes
  import opened Access
  import opened HostTypes

  /** The names under which a public view shows something. */
  datatype ViewKey =
    | HostUid | Hostname
    | AgentState | ReachabilityState | ServiceState | OverallState
    | LastAgentSeenAt | LastProbeAt | OpenAlertCount | Version
    | LastMetricAt | Metric(key: MetricKey)

  datatype ViewValue = Text(s: string) | State(c: Code) | Time(t: int) | Number(n: int) | Value(v: real)

  /** Users see the snapshot itself, others a view with chosen keys. */
  datatype View = Whole(host: HostSnapshot) | Fields(fields: map<ViewKey, ViewValue>)

  function ValueOf(h: HostSnapshot, key: ViewKey): (v: ViewValue) {
    match key
    case HostUid => Text(h.hostUid)
    case Hostname => Text(h.hostname)
    case AgentState => State(h.agentState)
    case ReachabilityState => State(h.reachabilityState)
    case ServiceState => State(h.serviceState)
    case OverallState => State(h.overallState)
    case LastAgentSeenAt => Time(h.lastAgentSeenAt)
    case LastProbeAt => Time(h.lastProbeAt)
    case OpenAlertCount => Number(h.openAlertCount)
    case Version => Number(h.version)
    case LastMetricAt => Time(h.lastMetricAt)
    case Metric(k) => Value(MetricValue(h.readings, k))
  }

  /** The allow-list: which keys a reader who is not a user may see of a host. */
  predicate MaySee(p: Principal, h: HostSnapshot, key: ViewKey) {
    match key
    case HostUid => true
    case Hostname => p.AllowsField("hostname")
    case LastMetricAt => p.AllowsField("metrics") && h.lastMetricAt != 0
    case Metric(_) => p.AllowsField("metrics") && h.lastMetricAt != 0
    case _ => p.AllowsField("status")
  }

  /** Exactly the keys on the allow-list, each with the host's own value. */
  ghost predicate IsProjection(p: Principal, h: HostSnapshot, view: View) {
    if p.IsUser() then view == Whole(h)
    else view.Fields? && forall key ::
      (key in view.fields <==> MaySee(p, h, key)) && (key in view.fields ==> view.fields[key] == ValueOf(h, key))
  }

  predicate IsStatus(key: ViewKey) {
    key in {AgentState, ReachabilityState, ServiceState, OverallState, LastAgentSeenAt, LastProbeAt, OpenAlertCount, Version}
  }

  method AddStatus(before: map<ViewKey, ViewValue>, h: HostSnapshot) returns (fields: map<ViewKey, ViewValue>)
    ensures forall key :: key in fields <==> key in before || IsStatus(key)
    ensures forall key :: key in fields ==> fields[key] == if IsStatus(key) then ValueOf(h, key) else before[key]
  {
    fields := before[AgentState := State(h.agentState)][ReachabilityState := State(h.reachabilityState)];
    fields := fields[ServiceState := State(h.serviceState)][OverallState := State(h.overallState)];
    fields := fields[LastAgentSeenAt := Time(h.lastAgentSeenAt)][LastProbeAt := Time(h.lastProbeAt)];
    fields := fields[OpenAlertCount := Number(h.openAlertCount)][Version := Number(h.version)];
  }

  method AddReadings(before: map<ViewKey, ViewValue>, h: HostSnapshot) returns (fields: map<ViewKey, ViewValue>)
    ensures forall key :: key in fields <==> key in before || key.Metric?
    ensures forall key :: key in fields ==> fields[key] == if key.Metric? then ValueOf(h, key) else before[key]
  {
    fields := before;
    for i := 0 to 16
      invariant forall key :: key in fields <==> key in before || (key.Metric? && Ordinal(key.key) < i)
      invariant forall key :: key in fields && key.Metric? && Ordinal(key.key) < i ==> fields[key] == ValueOf(h, key)
      invariant forall key :: key in before && !key.Metric? ==> fields[key] == before[key]
    {
      var k := KeyAt(i);
      fields := fields[Metric(k) := Value(MetricValue(h.readings, k))];
      forall j | Ordinal(j) == i ensures j == k { OrdinalInjective(j, k); }
    }
  }

  /** `ProjectHost` builds the view group by group. */
  method ProjectHost(p: Principal, h: HostSnapshot) returns (view: View)
    ensures IsProjection(p, h, view)
  {
    if p.IsUser() {
      return Whole(h);
    }
    var fields: map<ViewKey, ViewValue> := map[HostUid := Text(h.hostUid)];
    if p.AllowsField("hostname") {
      fields := fields[Hostname := Text(h.hostname)];
    }
    if p.AllowsField("status") {
      fields := AddStatus(fields, h);
    }
    if p.AllowsField("metrics") && h.lastMetricAt != 0 {
      fields := fields[LastMetricAt := Time(h.lastMetricAt)];
      fields := AddReadings(fields, h);
    }
    view := Fields(fields);
  }

  ghost predicate AreProjections(p: Principal, hosts: seq<HostSnapshot>, views: seq<View>) {
    |views| == |hosts| && forall i :: 0 <= i < |hosts| ==> IsProjection(p, hosts[i], views[i])
  }

  method ProjectHosts(p: Principal, hosts: seq<HostSnapshot>) returns (views: seq<View>)
    ensures AreProjections(p, hosts, views)
  {
    views := [];
    for i := 0 to |hosts|
      invariant AreProjections(p, hosts[..i], views)
    {
      var view := ProjectHost(p, hosts[i]);
      views := views + [view];
    }
    assert hosts[..|hosts|] == hosts;
  }

  predicate ValidReader(p: Principal) {
    && p.tenantCode != ""
    && (p.IsUser() || ((p.kind == Share || p.kind == Demo) && |p.allowedHosts| > 0 && |p.fields| > 0))
  }

  /** The hosts of a list that a principal may see, in order. */
  function Allowed(p: Principal, hosts: seq<HostSnapshot>): (r: seq<HostSnapshot>)
    ensures forall h :: h in r <==> h in hosts && p.AllowsHost(h.tenantCode, h.hostUid)
  {
    if hosts == [] then []
    else
      var before, h := Allowed(p, hosts[..|hosts| - 1]), hosts[|hosts| - 1];
      assert hosts == hosts[..|hosts| - 1] + [h];
      if p.AllowsHost(h.tenantCode, h.hostUid) then before + [h] else before
  }

  /** `ReadHosts`, given what the host store lists. */
  method ReadHosts(p: Principal, listed: seq<HostSnapshot>) returns (r: Result<seq<HostSnapshot>, Error>)
    ensures r == if ValidReader(p) then Ok(Allowed(p, listed)) else Err(Unauthorized)
  {
    if !ValidReader(p) {
      return Err(Unauthorized);
    }
    var result: seq<HostSnapshot> := [];
    for i := 0 to |listed|
      invariant result == Allowed(p, listed[..i])
    {
      assert listed[..i + 1][..i] == listed[..i];
      if p.AllowsHost(listed[i].tenantCode, listed[i].hostUid) {
        result := result + [listed[i]];
      }
    }
    assert listed[..|listed|] == listed;
    r := Ok(result);
  }

  /** A stored history may hold series under names that are not metrics of this version. */
  datatype StoredKey = Known(key: MetricKey) | Other(name: string)
  type Series = seq<MetricPoint>
  type Stored = map<string, map<StoredKey, Series>>

  /** The histories that go out: of the given hosts only, and of the sixteen metrics only. */
  ghost predicate IsSelection(hosts: seq<HostSnapshot>, stored: Stored, out: map<string, map<MetricKey, Series>>) {
    && (forall uid :: uid in out <==> uid in stored && exists h :: h in hosts && h.hostUid == uid)
    && forall uid, key :: uid in out ==>
         && (key in out[uid] <==> Known(key) in stored[uid])
         && (key in out[uid] ==> out[uid][key] == stored[uid][Known(key)])
  }

  method SelectMetrics(stored: map<StoredKey, Series>) returns (points: map<MetricKey, Series>)
    ensures forall key ::
      (key in points <==> Known(key) in stored) && (key in points ==> points[key] == stored[Known(key)])
  {
    points := map[];
    for i := 0 to 16
      invariant forall key ::
        (key in points <==> Ordinal(key) < i && Known(key) in stored) && (key in points ==> points[key] == stored[Known(key)])
    {
      var key := KeyAt(i);
      if Known(key) in stored {
        points := points[key := stored[Known(key)]];
      }
      forall k | Ordinal(k) == i ensures k == key { OrdinalInjective(k, key); }
    }
  }

  method SelectHistories(hosts: seq<HostSnapshot>, stored: Stored) returns (out: map<string, map<MetricKey, Series>>)
    ensures IsSelection(hosts, stored, out)
  {
    out := map[];
    for i := 0 to |hosts|
      invariant IsSelection(hosts[..i], stored, out)
    {
      assert hosts[..i + 1] == hosts[..i] + [hosts[i]];
      var uid := hosts[i].hostUid;
      if uid in stored {
        var points := SelectMetrics(stored[uid]);
        out := out[uid := points];
      }
    }
    assert hosts[..|hosts|] == hosts;
  }

  /** All sixteen readings at the time of the last report, or nothing before the first. */
  function LatestPoints(h: HostSnapshot): (points: map<MetricKey, MetricPoint>) {
    if h.lastMetricAt == 0 then map[] else (map key: MetricKey :: MetricPoint(h.lastMetricAt, MetricValue(h.readings, key)))
  }

  ghost predicate Reports(hosts: seq<HostSnapshot>, uid: string, points: map<MetricKey, MetricPoint>) {
    exists h :: h in hosts && h.hostUid == uid && h.lastMetricAt != 0 && points == LatestPoints(h)
  }

  /** Every host that has reported, with its latest points, and no other. */
  ghost predicate IsLatest(hosts: seq<HostSnapshot>, out: map<string, map<MetricKey, MetricPoint>>) {
    && (forall uid :: uid in out ==> Reports(hosts, uid, out[uid]))
    && (forall h :: h in hosts && h.lastMetricAt != 0 ==> h.hostUid in out)
  }

  method LatestByHost(hosts: seq<HostSnapshot>) returns (out: map<string, map<MetricKey, MetricPoint>>)
    ensures IsLatest(hosts, out)
  {
    out := map[];
    for i := 0 to |hosts|
      invariant IsLatest(hosts[..i], out)
    {
      assert hosts[..i + 1] == hosts[..i] + [hosts[i]];
      var points := LatestPoints(hosts[i]);
      var before := out;
      if hosts[i].lastMetricAt != 0 {
        out := out[hosts[i].hostUid := points];
      }
      forall uid | uid in out ensures Reports(hosts[..i + 1], uid, out[uid]) {
        assert (uid in before && Reports(hosts[..i], uid, before[uid]))
            || (hosts[i].lastMetricAt != 0 && uid == hosts[i].hostUid);
      }
    }
    assert hosts[..|hosts|] == hosts;
  }
}
