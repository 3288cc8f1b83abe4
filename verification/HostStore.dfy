/** The in-memory host store: registration, heartbeats, offline reconciliation, pruned histories. */
module HostStore {
  import opened Outcomes
  import opened HostTypes

  const RETENTION := 3600 * 1_000_000_000
  const OFFLINE_AFTER := 15 * 1_000_000_000

  datatype HostIdentity = HostIdentity(
    hostUid: string, tenantCode: string, hostname: string, primaryIp: string, labels: map<string, string>)

  type Series = seq<MetricPoint>
  type History = map<MetricKey, Series>

  /** The store's tables as a value. */
  datatype Tables = Tables(
    hosts: map<string, HostSnapshot>, tenants: map<string, string>, histories: map<string, History>)

  // ---- What one operation does to the tables ----

  function Pruned(points: Series, now: int): (r: Series) {
    if points != [] && points[0].ts < now - RETENTION then Pruned(points[1..], now) else points
  }

  function NextSeries(h: History, key: MetricKey, value: real, now: int): (r: Series) {
    Pruned((if key in h then h[key] else []) + [MetricPoint(now, value)], now)
  }

  function TenantFor(t: Tables, uid: string, asked: string, allowCustom: bool, freshTenant: string): (code: string) {
    if uid in t.tenants && t.tenants[uid] != "" then t.tenants[uid]
    else if allowCustom && asked != "" then asked
    else freshTenant
  }

  function RegisteredSnapshot(s: HostSnapshot, uid: string, tenant: string, req: HostIdentity, now: int): HostSnapshot {
    s.(hostUid := uid, tenantCode := tenant, hostname := req.hostname, primaryIp := req.primaryIp,
       agentState := Up, reachabilityState := Unknown, serviceState := Unknown, overallState := Up,
       labels := req.labels, lastAgentSeenAt := now, version := s.version + 1)
  }

  function AfterRegister(t: Tables, req: HostIdentity, allowCustom: bool, freshUid: string, freshTenant: string, now: int): Tables {
    var uid := if req.hostUid == "" then freshUid else req.hostUid;
    var tenant := TenantFor(t, uid, req.tenantCode, allowCustom, freshTenant);
    var before := if uid in t.hosts then t.hosts[uid] else ZERO_SNAPSHOT;
    Tables(t.hosts[uid := RegisteredSnapshot(before, uid, tenant, req, now)], t.tenants[uid := tenant],
           if uid in t.histories then t.histories else t.histories[uid := map[]])
  }

  function BeatSnapshot(s: HostSnapshot, r: Readings, now: int): HostSnapshot {
    s.(agentState := Up, overallState := Up, readings := r,
       lastAgentSeenAt := now, lastMetricAt := now, version := s.version + 1)
  }

  function BeatHistory(h: History, r: Readings, now: int): (h': History) {
    map key: MetricKey :: NextSeries(h, key, MetricValue(r, key), now)
  }

  function AfterHeartbeat(t: Tables, uid: string, r: Readings, now: int): Tables {
    if uid !in t.hosts then t
    else
      var history := if uid in t.histories then t.histories[uid] else map[];
      t.(hosts := t.hosts[uid := BeatSnapshot(t.hosts[uid], r, now)],
         histories := t.histories[uid := BeatHistory(history, r, now)])
  }

  /** Seen once, silent for more than 15 seconds, and not yet marked. */
  predicate Overdue(s: HostSnapshot, now: int) {
    && s.lastAgentSeenAt != 0 && now - s.lastAgentSeenAt > OFFLINE_AFTER
    && !(s.agentState == Offline && s.overallState == Offline)
  }

  function Reconciled(s: HostSnapshot, now: int): HostSnapshot {
    if Overdue(s, now)
    then s.(agentState := Offline, reachabilityState := Offline, overallState := Offline, version := s.version + 1)
    else s
  }

  function AfterReconcile(t: Tables, now: int): Tables {
    t.(hosts := map uid | uid in t.hosts :: Reconciled(t.hosts[uid], now))
  }

  class Store {
    var hosts: map<string, HostSnapshot>
    var hostTenants: map<string, string>
    var histories: map<string, History>
    const allowCustomTenantCode: bool

    function Now(): Tables
      reads this
    {
      Tables(hosts, hostTenants, histories)
    }

    constructor (allowCustom: bool)
      ensures Now() == Tables(map[], map[], map[]) && allowCustomTenantCode == allowCustom
    {
      hosts, hostTenants, histories := map[], map[], map[];
      allowCustomTenantCode := allowCustom;
    }

    /** The two fresh names stand for identifiers drawn from the random source. */
    method RegisterAgent(req: HostIdentity, freshUid: string, freshTenant: string, now: int)
      returns (snapshot: HostSnapshot, tenantCode: string)
      modifies this
      ensures Now() == AfterRegister(old(Now()), req, allowCustomTenantCode, freshUid, freshTenant, now)
      ensures snapshot.hostUid in hosts && snapshot == hosts[snapshot.hostUid] && tenantCode == snapshot.tenantCode
    {
      var hostUid := if req.hostUid == "" then freshUid else req.hostUid;
      tenantCode := TenantCode(hostUid, req.tenantCode, freshTenant);
      snapshot := if hostUid in hosts then hosts[hostUid] else ZERO_SNAPSHOT;
      snapshot := snapshot.(
        hostUid := hostUid, tenantCode := tenantCode, hostname := req.hostname, primaryIp := req.primaryIp,
        agentState := Up, reachabilityState := Unknown, serviceState := Unknown, overallState := Up,
        labels := req.labels, lastAgentSeenAt := now, version := snapshot.version + 1);
      hosts := hosts[hostUid := snapshot];
      hostTenants := hostTenants[hostUid := tenantCode];
      if hostUid !in histories {
        histories := histories[hostUid := map[]];
      }
    }

    method TenantCode(hostUid: string, asked: string, freshTenant: string) returns (code: string)
      ensures code == TenantFor(Now(), hostUid, asked, allowCustomTenantCode, freshTenant)
    {
      code := if hostUid in hostTenants then hostTenants[hostUid] else "";
      if code == "" && allowCustomTenantCode {
        code := asked;
      }
      if code == "" {
        code := freshTenant;
      }
    }

    method Heartbeat(hostUid: string, digest: AgentDigest, now: int) returns (r: Option<HostSnapshot>)
      modifies this
      ensures Now() == AfterHeartbeat(old(Now()), hostUid, digest.readings, now)
      ensures r == if hostUid in old(hosts) then Some(hosts[hostUid]) else None
    {
      if hostUid !in hosts {
        return None;
      }
      var snapshot := hosts[hostUid];
      var d := digest.readings;
      snapshot := snapshot.(agentState := Up, overallState := Up);
      snapshot := snapshot.(readings := Readings(
        d.cpuUsagePct, d.memUsedPct, d.memAvailableBytes, d.swapUsedPct,
        d.diskUsedPct, d.diskFreeBytes, d.diskInodesUsedPct,
        d.diskReadBPS, d.diskWriteBPS, d.diskReadIOPS, d.diskWriteIOPS,
        d.load1, d.netRxBPS, d.netTxBPS, d.netRxPacketsPS, d.netTxPacketsPS));
      snapshot := snapshot.(lastAgentSeenAt := now, lastMetricAt := now);
      snapshot := snapshot.(version := snapshot.version + 1);
      hosts := hosts[hostUid := snapshot];
      var history := RecordReadings(if hostUid in histories then histories[hostUid] else map[], snapshot.readings, now);
      histories := histories[hostUid := history];
      r := Some(snapshot);
    }

    /** Goes through the hosts in whatever order the map is ranged over. */
    method ReconcileOffline(now: int) returns (changed: nat)
      modifies this`hosts
      ensures Now() == AfterReconcile(old(Now()), now)
      ensures changed == |set uid | uid in old(hosts) && Overdue(old(hosts)[uid], now)|
    {
      changed := 0;
      var rest := hosts.Keys;
      while rest != {}
        invariant PartlyReconciled(old(hosts), hosts, rest, now)
        invariant changed == |OverdueOutside(old(hosts), rest, now)|
        decreases rest
      {
        var uid :| uid in rest;
        OverdueNext(old(hosts), rest, uid, now);
        if Overdue(hosts[uid], now) {
          hosts := hosts[uid := Reconciled(hosts[uid], now)];
          changed := changed + 1;
        }
        rest := rest - {uid};
      }
      assert OverdueOutside(old(hosts), {}, now) == set uid | uid in old(hosts) && Overdue(old(hosts)[uid], now);
    }
  }

  /** All hosts except those in `rest` have been looked at. */
  ghost predicate PartlyReconciled(before: map<string, HostSnapshot>, after: map<string, HostSnapshot>, rest: set<string>, now: int) {
    && after.Keys == before.Keys && rest <= before.Keys
    && forall uid :: uid in after ==> after[uid] == if uid in rest then before[uid] else Reconciled(before[uid], now)
  }

  ghost function OverdueOutside(hosts: map<string, HostSnapshot>, rest: set<string>, now: int): set<string> {
    set uid | uid in hosts && uid !in rest && Overdue(hosts[uid], now)
  }

  lemma OverdueNext(hosts: map<string, HostSnapshot>, rest: set<string>, uid: string, now: int)
    requires uid in rest && uid in hosts
    ensures |OverdueOutside(hosts, rest - {uid}, now)|
         == |OverdueOutside(hosts, rest, now)| + if Overdue(hosts[uid], now) then 1 else 0
  {
    var before, after := OverdueOutside(hosts, rest, now), OverdueOutside(hosts, rest - {uid}, now);
    if Overdue(hosts[uid], now) {
      assert after == before + {uid};
    } else {
      assert after == before;
    }
  }

  /** The first `n` metrics have their new point; the others are as before. */
  ghost predicate Partly(before: History, h: History, r: Readings, now: int, n: int) {
    forall key :: PartlyAt(before, h, r, now, n, key)
  }

  ghost predicate PartlyAt(before: History, h: History, r: Readings, now: int, n: int, key: MetricKey) {
    if Ordinal(key) < n then key in h && h[key] == NextSeries(before, key, MetricValue(r, key), now)
    else (key in h <==> key in before) && (key in h ==> h[key] == before[key])
  }

  method RecordMetric(h: History, key: MetricKey, now: int, value: real, ghost before: History, ghost r: Readings)
    returns (h': History)
    requires Partly(before, h, r, now, Ordinal(key)) && value == MetricValue(r, key)
    ensures Partly(before, h', r, now, Ordinal(key) + 1)
  {
    assert PartlyAt(before, h, r, now, Ordinal(key), key);
    var series := if key in h then h[key] else [];
    var pruned := PruneMetricHistory(series + [MetricPoint(now, value)], now);
    h' := h[key := pruned];
    var n := Ordinal(key) + 1;
    forall k ensures PartlyAt(before, h', r, now, n, k) {
      assert PartlyAt(before, h, r, now, n - 1, k);
    }
  }

  /** The arguments of the sixteen calls that record a heartbeat. */
  function RecordCalls(r: Readings): (calls: seq<(MetricKey, real)>)
    ensures |calls| == 16
    ensures forall i :: 0 <= i < 16 ==> Ordinal(calls[i].0) == i && calls[i].1 == MetricValue(r, calls[i].0)
  {
    [
      (CPUUsagePct, r.cpuUsagePct), (MemUsedPct, r.memUsedPct),
      (MemAvailableBytes, r.memAvailableBytes as real), (SwapUsedPct, r.swapUsedPct),
      (DiskUsedPct, r.diskUsedPct), (DiskFreeBytes, r.diskFreeBytes as real),
      (DiskInodesUsedPct, r.diskInodesUsedPct),
      (DiskReadBPS, r.diskReadBPS as real), (DiskWriteBPS, r.diskWriteBPS as real),
      (DiskReadIOPS, r.diskReadIOPS as real), (DiskWriteIOPS, r.diskWriteIOPS as real),
      (Load1, r.load1),
      (NetRxBPS, r.netRxBPS as real), (NetTxBPS, r.netTxBPS as real),
      (NetRxPacketsPS, r.netRxPacketsPS as real), (NetTxPacketsPS, r.netTxPacketsPS as real)
    ]
  }

  /** One point for each of the sixteen metrics of a host. */
  method RecordReadings(before: History, r: Readings, now: int) returns (h: History)
    ensures h == BeatHistory(before, r, now)
  {
    var calls := RecordCalls(r);
    h := before;
    for i := 0 to 16
      invariant Partly(before, h, r, now, i)
    {
      h := RecordMetric(h, calls[i].0, now, calls[i].1, before, r);
    }
    forall key: MetricKey ensures key in h && h[key] == BeatHistory(before, r, now)[key] {
      assert PartlyAt(before, h, r, now, 16, key);
    }
  }

  method PruneMetricHistory(points: Series, now: int) returns (r: Series)
    ensures r == Pruned(points, now)
  {
    var idx := 0;
    while idx < |points| && points[idx].ts < now - RETENTION
      invariant 0 <= idx <= |points|
      invariant Pruned(points, now) == Pruned(points[idx..], now)
    {
      assert points[idx..][1..] == points[idx + 1..];
      idx := idx + 1;
    }
    r := points[idx..];
  }
}
