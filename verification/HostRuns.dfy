/** What holds of the host store over every sequence of operations. */
module HostRuns {
  import opened Outcomes
  import opened HostTypes
  import opened HostStore

  datatype Op =
    | Register(req: HostIdentity, freshUid: string, freshTenant: string, at: int)
    | Beat(uid: string, readings: Readings, at: int)
    | Reconcile(at: int)

  /** Fresh identifiers are never empty. */
  ghost predicate Proper(ops: seq<Op>) {
    forall i :: 0 <= i < |ops| && ops[i].Register? ==> ops[i].freshUid != "" && ops[i].freshTenant != ""
  }

  ghost predicate Nondecreasing(ops: seq<Op>) {
    forall i, j :: 0 <= i < j < |ops| ==> ops[i].at <= ops[j].at
  }

  function Step(t: Tables, op: Op, allowCustom: bool): Tables {
    match op
    case Register(req, u, c, at) => AfterRegister(t, req, allowCustom, u, c, at)
    case Beat(uid, r, at) => AfterHeartbeat(t, uid, r, at)
    case Reconcile(at) => AfterReconcile(t, at)
  }

  /** The tables after a run from the empty store. */
  function After(ops: seq<Op>, allowCustom: bool): Tables {
    if ops == [] then Tables(map[], map[], map[])
    else Step(After(ops[..|ops| - 1], allowCustom), ops[|ops| - 1], allowCustom)
  }

  // ---- Identity, tenant and states ----

  ghost predicate HostOk(t: Tables, uid: string)
    requires uid in t.hosts
  {
    var s := t.hosts[uid];
    && uid in t.tenants && uid in t.histories
    && s.hostUid == uid && s.tenantCode == t.tenants[uid] && s.tenantCode != ""
    && s.agentState == s.overallState && (s.agentState == Up || s.agentState == Offline)
  }

  ghost predicate TablesOk(t: Tables) {
    && t.tenants.Keys == t.hosts.Keys
    && forall uid :: uid in t.hosts ==> HostOk(t, uid)
  }

  lemma StepOk(t: Tables, op: Op, allowCustom: bool)
    requires TablesOk(t) && Proper([op])
    ensures TablesOk(Step(t, op, allowCustom))
  {
    assert [op][0] == op;
    var t' := Step(t, op, allowCustom);
    forall uid | uid in t'.hosts ensures HostOk(t', uid) {
      if uid in t.hosts { assert HostOk(t, uid); }
    }
  }

  /** Agent and overall state always agree, and a host is filed under its own uid and tenant. */
  lemma {:induction false} StatesAgree(ops: seq<Op>, allowCustom: bool)
    requires Proper(ops)
    ensures TablesOk(After(ops, allowCustom))
  {
    if ops != [] {
      StatesAgree(ops[..|ops| - 1], allowCustom);
      StepOk(After(ops[..|ops| - 1], allowCustom), ops[|ops| - 1], allowCustom);
    }
  }

  lemma StepKeepsTenant(t: Tables, op: Op, uid: string, allowCustom: bool)
    requires TablesOk(t) && uid in t.hosts
    ensures uid in Step(t, op, allowCustom).hosts
    ensures Step(t, op, allowCustom).hosts[uid].tenantCode == t.hosts[uid].tenantCode
  {
    assert HostOk(t, uid);
  }

  /** Whatever later registrations ask for, a host stays in the tenant it was first put in. */
  lemma {:induction false} TenantNeverChanges(ops: seq<Op>, n: nat, uid: string, allowCustom: bool)
    requires Proper(ops) && n <= |ops| && uid in After(ops[..n], allowCustom).hosts
    ensures var early, late := After(ops[..n], allowCustom), After(ops, allowCustom);
      uid in late.hosts && late.hosts[uid].tenantCode == early.hosts[uid].tenantCode
  {
    if n == |ops| {
      assert ops[..n] == ops;
    } else {
      var before := ops[..|ops| - 1];
      assert before[..n] == ops[..n];
      TenantNeverChanges(before, n, uid, allowCustom);
      StatesAgree(before, allowCustom);
      StepKeepsTenant(After(before, allowCustom), ops[|ops| - 1], uid, allowCustom);
    }
  }

  // ---- Versions ----

  function Lookup(t: Tables, uid: string): (s: Option<HostSnapshot>) {
    if uid in t.hosts then Some(t.hosts[uid]) else None
  }

  function Version(t: Tables, uid: string): (v: int) {
    if uid in t.hosts then t.hosts[uid].version else 0
  }

  /** The number of operations of a run after which this host's entry is not what it was before. */
  function Changes(ops: seq<Op>, uid: string, allowCustom: bool): (n: nat) {
    if ops == [] then 0
    else
      var before := ops[..|ops| - 1];
      Changes(before, uid, allowCustom)
      + (if Lookup(After(ops, allowCustom), uid) == Lookup(After(before, allowCustom), uid) then 0 else 1)
  }

  lemma {:induction false} VersionCountsChanges(ops: seq<Op>, uid: string, allowCustom: bool)
    ensures Version(After(ops, allowCustom), uid) == Changes(ops, uid, allowCustom)
  {
    if ops != [] {
      VersionCountsChanges(ops[..|ops| - 1], uid, allowCustom);
    }
  }

  // ---- Offline reconciliation ----

  /** Last seen more than 15 seconds before `now`; a zero time counts as never seen. */
  predicate Silent(s: HostSnapshot, now: int) {
    s.lastAgentSeenAt != 0 && now - s.lastAgentSeenAt > OFFLINE_AFTER
  }

  lemma {:induction false} OfflineMeansSilent(ops: seq<Op>, uid: string, allowCustom: bool)
    requires Nondecreasing(ops) && ops != [] && uid in After(ops, allowCustom).hosts
    ensures var s := After(ops, allowCustom).hosts[uid];
      s.agentState == Offline ==> Silent(s, ops[|ops| - 1].at)
  {
    var before := ops[..|ops| - 1];
    if before != [] && uid in After(before, allowCustom).hosts {
      OfflineMeansSilent(before, uid, allowCustom);
      assert before[|before| - 1].at <= ops[|ops| - 1].at;
    }
  }

  /**
   With a nondecreasing clock, right after a reconciliation the offline hosts are the silent
   ones, and a second reconciliation at the same time changes nothing.
   */
  lemma OfflineExactlyWhenSilent(ops: seq<Op>, now: int, uid: string, allowCustom: bool)
    requires Proper(ops) && Nondecreasing(ops + [Reconcile(now)])
    requires uid in After(ops + [Reconcile(now)], allowCustom).hosts
    ensures var s := After(ops + [Reconcile(now)], allowCustom).hosts[uid];
      s.agentState == Offline <==> Silent(s, now)
    ensures var t := After(ops + [Reconcile(now)], allowCustom); AfterReconcile(t, now) == t
  {
    var all := ops + [Reconcile(now)];
    assert all[..|ops|] == ops;
    OfflineMeansSilent(all, uid, allowCustom);
    StatesAgree(ops, allowCustom);
    assert HostOk(After(ops, allowCustom), uid);
  }

  // ---- Histories ----

  datatype Sample = Sample(at: int, readings: Readings)

  /** Every heartbeat of this host that the store accepted, in order. */
  function Log(ops: seq<Op>, uid: string, allowCustom: bool): (log: seq<Sample>) {
    if ops == [] then []
    else
      var before, op := ops[..|ops| - 1], ops[|ops| - 1];
      if op.Beat? && op.uid == uid && uid in After(before, allowCustom).hosts
      then Log(before, uid, allowCustom) + [Sample(op.at, op.readings)]
      else Log(before, uid, allowCustom)
  }

  function PointsOf(log: seq<Sample>, key: MetricKey): (points: Series)
    ensures |points| == |log|
    ensures forall i :: 0 <= i < |log| ==> points[i] == MetricPoint(log[i].at, MetricValue(log[i].readings, key))
  {
    seq(|log|, i requires 0 <= i < |log| => MetricPoint(log[i].at, MetricValue(log[i].readings, key)))
  }

  function From(points: Series, cutoff: int): (r: Series) {
    if points == [] then []
    else if points[0].ts >= cutoff then [points[0]] + From(points[1..], cutoff)
    else From(points[1..], cutoff)
  }

  ghost predicate Ascending(points: Series) {
    forall i, j :: 0 <= i < j < |points| ==> points[i].ts <= points[j].ts
  }

  function SeriesOf(t: Tables, uid: string, key: MetricKey): (points: Series) {
    if uid in t.histories && key in t.histories[uid] then t.histories[uid][key] else []
  }

  /** The log cut to the hour before its last entry. */
  function Recent(log: seq<Sample>, key: MetricKey): (points: Series) {
    if log == [] then [] else From(PointsOf(log, key), log[|log| - 1].at - RETENTION)
  }

  lemma {:induction false} FromAll(points: Series, cutoff: int)
    requires forall i :: 0 <= i < |points| ==> points[i].ts >= cutoff
    ensures From(points, cutoff) == points
  {
    if points != [] { FromAll(points[1..], cutoff); }
  }

  lemma {:induction false} FromAppend(a: Series, p: MetricPoint, cutoff: int)
    ensures From(a + [p], cutoff) == From(a, cutoff) + (if p.ts >= cutoff then [p] else [])
  {
    if a == [] {
      assert a + [p] == [p];
    } else {
      FromAppend(a[1..], p, cutoff);
      assert (a + [p])[1..] == a[1..] + [p];
    }
  }

  lemma {:induction false} FromFrom(points: Series, low: int, high: int)
    requires low <= high
    ensures From(From(points, low), high) == From(points, high)
  {
    if points != [] {
      FromFrom(points[1..], low, high);
      if points[0].ts >= low { assert From(points, low)[1..] == From(points[1..], low); }
    }
  }

  lemma {:induction false} FromKeepsOrder(points: Series, cutoff: int)
    requires Ascending(points)
    ensures Ascending(From(points, cutoff))
    ensures forall p :: p in From(points, cutoff) ==> p in points
  {
    if points != [] {
      FromKeepsOrder(points[1..], cutoff);
      forall p | p in From(points[1..], cutoff) ensures p.ts >= points[0].ts {
        assert p in points[1..];
      }
    }
  }

  /** Dropping from the front is filtering, because the series is in order. */
  lemma {:induction false} PrunedIsFilter(points: Series, now: int)
    requires Ascending(points)
    ensures Pruned(points, now) == From(points, now - RETENTION)
  {
    if points != [] {
      if points[0].ts < now - RETENTION {
        PrunedIsFilter(points[1..], now);
      } else {
        FromAll(points, now - RETENTION);
      }
    }
  }

  ghost predicate InOrder(log: seq<Sample>) {
    forall i, j :: 0 <= i < j < |log| ==> log[i].at <= log[j].at
  }

  lemma {:induction false} LogInOrder(ops: seq<Op>, uid: string, allowCustom: bool)
    requires Nondecreasing(ops)
    ensures InOrder(Log(ops, uid, allowCustom))
    ensures forall sample :: sample in Log(ops, uid, allowCustom) ==> ops != [] && sample.at <= ops[|ops| - 1].at
  {
    if ops != [] {
      var before := ops[..|ops| - 1];
      LogInOrder(before, uid, allowCustom);
      if before != [] { assert before[|before| - 1].at <= ops[|ops| - 1].at; }
    }
  }

  lemma PointsInOrder(log: seq<Sample>, key: MetricKey)
    requires InOrder(log)
    ensures Ascending(PointsOf(log, key))
    ensures log != [] ==> forall p :: p in PointsOf(log, key) ==> p.ts <= log[|log| - 1].at
  {
    var points := PointsOf(log, key);
    forall i, j | 0 <= i < j < |points| ensures points[i].ts <= points[j].ts {
      assert log[i].at <= log[j].at;
    }
  }

  /** One more heartbeat on a series that is the recent part of its log. */
  lemma NextIsRecent(log: seq<Sample>, sample: Sample, key: MetricKey)
    requires InOrder(log) && (log != [] ==> log[|log| - 1].at <= sample.at)
    ensures Pruned(Recent(log, key) + [MetricPoint(sample.at, MetricValue(sample.readings, key))], sample.at)
         == Recent(log + [sample], key)
  {
    var p := MetricPoint(sample.at, MetricValue(sample.readings, key));
    var cutoff := sample.at - RETENTION;
    var points := PointsOf(log, key);
    assert PointsOf(log + [sample], key) == points + [p];
    PointsInOrder(log, key);
    if log != [] {
      var before := log[|log| - 1].at - RETENTION;
      FromKeepsOrder(points, before);
      FromFrom(points, before, cutoff);
    }
    PrunedIsFilter(Recent(log, key) + [p], sample.at);
    FromAppend(Recent(log, key), p, cutoff);
    FromAppend(points, p, cutoff);
  }

  /** Which series an operation extends. */
  lemma StepSeries(t: Tables, op: Op, uid: string, key: MetricKey, allowCustom: bool)
    requires TablesOk(t)
    ensures SeriesOf(Step(t, op, allowCustom), uid, key)
         == if op.Beat? && op.uid == uid && uid in t.hosts
            then Pruned(SeriesOf(t, uid, key) + [MetricPoint(op.at, MetricValue(op.readings, key))], op.at)
            else SeriesOf(t, uid, key)
  {
    if op.Beat? && op.uid == uid && uid in t.hosts { assert HostOk(t, uid); }
  }

  /**
   With nondecreasing times every stored series is the whole heartbeat log of its host cut
   to the last hour: nothing recent is lost, nothing old is kept.
   */
  lemma {:induction false} SeriesIsRecentLog(ops: seq<Op>, uid: string, key: MetricKey, allowCustom: bool)
    requires Proper(ops) && Nondecreasing(ops)
    ensures SeriesOf(After(ops, allowCustom), uid, key) == Recent(Log(ops, uid, allowCustom), key)
  {
    if ops != [] {
      var before, op := ops[..|ops| - 1], ops[|ops| - 1];
      var t := After(before, allowCustom);
      SeriesIsRecentLog(before, uid, key, allowCustom);
      StatesAgree(before, allowCustom);
      StepSeries(t, op, uid, key, allowCustom);
      if op.Beat? && op.uid == uid && uid in t.hosts {
        LogInOrder(before, uid, allowCustom);
        if before != [] { assert before[|before| - 1].at <= op.at; }
        NextIsRecent(Log(before, uid, allowCustom), Sample(op.at, op.readings), key);
      }
    }
  }

  lemma {:induction false} FromSameTimes(log: seq<Sample>, a: MetricKey, b: MetricKey, cutoff: int)
    ensures var x, y := From(PointsOf(log, a), cutoff), From(PointsOf(log, b), cutoff);
      |x| == |y| && forall i :: 0 <= i < |x| ==> x[i].ts == y[i].ts
  {
    if log != [] {
      FromSameTimes(log[1..], a, b, cutoff);
      assert PointsOf(log, a)[1..] == PointsOf(log[1..], a);
      assert PointsOf(log, b)[1..] == PointsOf(log[1..], b);
    }
  }

  /** The sixteen series of a host carry the same, ascending, timestamps. */
  lemma SeriesShareTimes(ops: seq<Op>, uid: string, a: MetricKey, b: MetricKey, allowCustom: bool)
    requires Proper(ops) && Nondecreasing(ops)
    ensures var t := After(ops, allowCustom);
      var x, y := SeriesOf(t, uid, a), SeriesOf(t, uid, b);
      && |x| == |y| && (forall i :: 0 <= i < |x| ==> x[i].ts == y[i].ts)
      && Ascending(x)
  {
    SeriesIsRecentLog(ops, uid, a, allowCustom);
    SeriesIsRecentLog(ops, uid, b, allowCustom);
    LogInOrder(ops, uid, allowCustom);
    RecentShareTimes(Log(ops, uid, allowCustom), a, b);
  }

  lemma RecentShareTimes(log: seq<Sample>, a: MetricKey, b: MetricKey)
    requires InOrder(log)
    ensures var x, y := Recent(log, a), Recent(log, b);
      && |x| == |y| && (forall i :: 0 <= i < |x| ==> x[i].ts == y[i].ts)
      && Ascending(x)
  {
    if log != [] {
      PointsInOrder(log, a);
      FromSameTimes(log, a, b, log[|log| - 1].at - RETENTION);
      FromKeepsOrder(PointsOf(log, a), log[|log| - 1].at - RETENTION);
    }
  }
}
