/**
 The stream of host events to one reader, run against the live share tables: share
 transactions interleave with every step of the stream. Access is checked again before each
 frame. For a reader with a share session the check is two statements, the session and share
 rows and then the share's hosts; for users and the demo reader it is an arbitrary decision.
 */
module HostStream {
  import opened Outcomes
  import opened Access
  import opened Tokens
  import opened HostTypes
  import opened HostViews
  import opened ShareTables
  import Shares = ShareProtocol

  datatype Frame =
    | Sync(items: seq<View>, histories: map<string, map<MetricKey, Series>>,
           latest: map<string, map<MetricKey, MetricPoint>>)
    | Upsert(item: View, points: map<MetricKey, MetricPoint>)

  datatype Event = Deleted(uid: string) | Upserted(snapshot: Option<HostSnapshot>) | UnknownEvent

  /** What a check of access is made for. */
  datatype Task = Nothing | SendSync(hosts: seq<HostSnapshot>, stored: Stored) | Handle(event: Event)

  /** A check: the steps at which it was asked for and made, and the tables and clock it was made against. */
  datatype Check = Check(asked: nat, looked: nat, seen: Shares.Sys, now: int)

  datatype Stage =
    | Start
    | Idle
    | Asked(task: Task, at: nat)
    | Found(task: Task, check: Check, id: string)
    | Cleared(task: Task, check: Check)
    | Closed

  /** A frame, what it was sent for, the check before it and the step that sent it. */
  datatype Sent = Sent(frame: Frame, task: Task, check: Check, done: nat)

  /** The reader `p` was authenticated by the session token `raw` when the request came in; `steps` counts the steps. */
  datatype World = World(sys: Shares.Sys, p: Principal, raw: string, stage: Stage, sent: seq<Sent>, steps: nat)

  datatype Action =
    | ShareStep(a: Shares.Action)
    | Open(listed: seq<HostSnapshot>, stored: Stored)
    | Tick
    | Receive(event: Event)
    | LookUp(now: int)
    | Compare
    | Decide(ok: bool, now: int)
    | Proceed(frame: Frame)
    | Hangup

  /** Whether a frame is due once access is confirmed. Deletions carry no tenant and go to nobody. */
  predicate CallsForFrame(p: Principal, task: Task) {
    match task
    case Nothing => false
    case SendSync(_, _) => true
    case Handle(event) =>
      event.Upserted? && event.snapshot.Some? && p.AllowsHost(event.snapshot.value.tenantCode, event.snapshot.value.hostUid)
  }

  ghost predicate IsFrameOf(p: Principal, task: Task, frame: Frame)
    requires CallsForFrame(p, task)
  {
    match task
    case SendSync(hosts, stored) =>
      && frame.Sync? && AreProjections(p, hosts, frame.items)
      && (if p.AllowsField("metrics") then IsSelection(hosts, stored, frame.histories) && IsLatest(hosts, frame.latest)
          else frame.histories == map[] && frame.latest == map[])
    case Handle(event) =>
      && frame.Upsert? && IsProjection(p, event.snapshot.value, frame.item)
      && frame.points == if p.AllowsField("metrics") then LatestPoints(event.snapshot.value) else map[]
  }

  ghost function Current(db: Db, seen: Db, id: string): (p: Principal)
    requires ValidShare(seen, id)
  {
    SharePrincipal(db, id, seen.shares[id], seen.tenants[seen.shares[id].tenantId].code)
  }

  predicate SameAccess(a: Principal, b: Principal) {
    a.shareId == b.shareId && a.tenantCode == b.tenantCode && a.allowedHosts == b.allowedHosts && a.fields == b.fields
  }

  /** The share that a session token leads to, if the session is good now. */
  function SessionShare(db: Db, raw: string, now: int): (id: Option<string>)
    ensures forall other :: SessionFinds(db, raw, now, other) <==> id == Some(other)
  {
    if TokenHash(raw).None? || TokenHash(raw).value !in db.sessions then None
    else
      var id := db.sessions[TokenHash(raw).value].shareId;
      if SessionFinds(db, raw, now, id) then Some(id) else None
  }

  function LookUpStage(w: World, task: Task, at: nat, now: int): Stage {
    match SessionShare(w.sys.db, w.raw, now)
    case None => Closed
    case Some(id) => Found(task, Check(at, w.steps, w.sys, now), id)
  }

  ghost function CompareStage(w: World, task: Task, check: Check, id: string): Stage {
    if ValidShare(check.seen.db, id) && SameAccess(Current(w.sys.db, check.seen.db, id), w.p)
    then Cleared(task, check) else Closed
  }

  /** The stage after a step. A check that does not fit the kind of reader is no step; unknown kinds are refused. */
  ghost function NextStage(w: World, a: Action): (stage: Stage) {
    match (a, w.stage)
    case (Open(listed, stored), Start) =>
      if ValidReader(w.p) then Asked(SendSync(Allowed(w.p, listed), stored), w.steps) else Closed
    case (Tick, Idle) => Asked(Nothing, w.steps)
    case (Receive(event), Idle) => Asked(Handle(event), w.steps)
    case (LookUp(now), Asked(task, at)) =>
      if w.p.kind == Share then LookUpStage(w, task, at, now)
      else if w.p.kind == User || w.p.kind == Demo then w.stage
      else Closed
    case (Decide(ok, now), Asked(task, at)) =>
      if w.p.kind == User || w.p.kind == Demo then
        if ok then Cleared(task, Check(at, w.steps, w.sys, now)) else Closed
      else w.stage
    case (Compare, Found(task, check, id)) => CompareStage(w, task, check, id)
    case (Proceed(frame), Cleared(task, _)) =>
      if !CallsForFrame(w.p, task) || IsFrameOf(w.p, task, frame) then Idle else w.stage
    case (Hangup, _) => Closed
    case _ => w.stage
  }

  /** What has been sent after a step. */
  ghost function NextSent(w: World, a: Action): (sent: seq<Sent>) {
    if a.Proceed? && w.stage.Cleared? && CallsForFrame(w.p, w.stage.task) && IsFrameOf(w.p, w.stage.task, a.frame)
    then w.sent + [Sent(a.frame, w.stage.task, w.stage.check, w.steps)] else w.sent
  }

  ghost function Apply(w: World, a: Action): (w': World) {
    World(if a.ShareStep? then Shares.Apply(w.sys, a.a) else w.sys, w.p, w.raw, NextStage(w, a), NextSent(w, a), w.steps + 1)
  }

  ghost function After(w: World, actions: seq<Action>): (w': World) {
    if actions == [] then w else Apply(After(w, actions[..|actions| - 1]), actions[|actions| - 1])
  }

  /** A request that has just come in, from any reader. */
  ghost predicate Opening(w: World) {
    w.stage == Start && w.sent == [] && w.steps == 0
  }
}
