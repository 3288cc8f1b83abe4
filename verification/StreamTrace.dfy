/** What every reader is shown and when, with the check of access left open. */
module StreamTrace {
  import opened Access
  import opened Text
  import opened HostTypes
  import opened HostViews
  import opened HostStream

  // ---- What a frame may show ----

  /** The name of the grant that a key of a view falls under. */
  function GrantOf(key: ViewKey): string {
    match key
    case Hostname => "hostname"
    case LastMetricAt => "metrics"
    case Metric(_) => "metrics"
    case _ => "status"
  }

  /** A view of one of these hosts, showing its uid and otherwise only granted fields. */
  ghost predicate ShowsOnly(hosts: set<string>, fields: seq<string>, view: View) {
    && view.Fields? && HostUid in view.fields && view.fields[HostUid].Text? && view.fields[HostUid].s in hosts
    && forall key :: key in view.fields ==> key == HostUid || GrantOf(key) in fields
  }

  /** A frame for a reader who is not a user. */
  ghost predicate StaysWithin(hosts: set<string>, fields: seq<string>, frame: Frame) {
    match frame
    case Sync(items, histories, latest) =>
      && (forall i :: 0 <= i < |items| ==> ShowsOnly(hosts, fields, items[i]))
      && histories.Keys <= hosts && latest.Keys <= hosts
      && ("metrics" !in fields ==> histories == map[] && latest == map[])
    case Upsert(item, points) =>
      ShowsOnly(hosts, fields, item) && ("metrics" !in fields ==> points == map[])
  }

  /** Whole snapshots, all of one tenant. */
  ghost predicate OfTenant(tenant: string, items: seq<View>) {
    forall i :: 0 <= i < |items| ==> items[i].Whole? && items[i].host.tenantCode == tenant
  }

  ghost predicate Listed(items: seq<View>, uid: string) {
    exists i :: 0 <= i < |items| && items[i].Whole? && items[i].host.hostUid == uid
  }

  /** A frame for a user. */
  ghost predicate StaysInTenant(tenant: string, frame: Frame) {
    match frame
    case Sync(items, histories, latest) =>
      && OfTenant(tenant, items)
      && (forall uid :: uid in histories ==> Listed(items, uid)) && (forall uid :: uid in latest ==> Listed(items, uid))
    case Upsert(item, _) => OfTenant(tenant, [item])
  }

  ghost predicate Permitted(p: Principal, frame: Frame) {
    if p.IsUser() then StaysInTenant(p.tenantCode, frame) else StaysWithin(Elements(p.allowedHosts), p.fields, frame)
  }

  ghost predicate OnlyAllowed(p: Principal, hosts: seq<HostSnapshot>) {
    forall h :: h in hosts ==> p.AllowsHost(h.tenantCode, h.hostUid)
  }

  ghost predicate TaskAllowed(p: Principal, task: Task) {
    task.SendSync? ==> OnlyAllowed(p, task.hosts)
  }

  lemma ProjectionShowsOnly(p: Principal, h: HostSnapshot, view: View)
    requires !p.IsUser() && p.AllowsHost(h.tenantCode, h.hostUid) && IsProjection(p, h, view)
    ensures ShowsOnly(Elements(p.allowedHosts), p.fields, view)
  {
    assert MaySee(p, h, HostUid);
    forall key | key in view.fields ensures key == HostUid || GrantOf(key) in p.fields {
      assert MaySee(p, h, key);
    }
  }

  lemma SyncStaysWithin(p: Principal, task: Task, frame: Frame)
    requires !p.IsUser() && task.SendSync? && OnlyAllowed(p, task.hosts) && IsFrameOf(p, task, frame)
    ensures StaysWithin(Elements(p.allowedHosts), p.fields, frame)
  {
    var hosts := Elements(p.allowedHosts);
    forall i | 0 <= i < |frame.items| ensures ShowsOnly(hosts, p.fields, frame.items[i]) {
      ProjectionShowsOnly(p, task.hosts[i], frame.items[i]);
    }
    forall uid | uid in frame.latest ensures uid in hosts {
      assert Reports(task.hosts, uid, frame.latest[uid]);
    }
  }

  lemma HostIsListed(p: Principal, hosts: seq<HostSnapshot>, items: seq<View>, h: HostSnapshot)
    requires p.IsUser() && AreProjections(p, hosts, items) && h in hosts
    ensures Listed(items, h.hostUid)
  {
    var i :| 0 <= i < |hosts| && hosts[i] == h;
    assert IsProjection(p, hosts[i], items[i]);
  }

  lemma SyncStaysInTenant(p: Principal, task: Task, frame: Frame)
    requires p.IsUser() && task.SendSync? && OnlyAllowed(p, task.hosts) && IsFrameOf(p, task, frame)
    ensures StaysInTenant(p.tenantCode, frame)
  {
    forall i | 0 <= i < |frame.items|
      ensures frame.items[i].Whole? && frame.items[i].host.tenantCode == p.tenantCode
    {
      assert IsProjection(p, task.hosts[i], frame.items[i]);
    }
    forall uid | uid in frame.histories ensures Listed(frame.items, uid) {
      var h :| h in task.hosts && h.hostUid == uid;
      HostIsListed(p, task.hosts, frame.items, h);
    }
    forall uid | uid in frame.latest ensures Listed(frame.items, uid) {
      assert Reports(task.hosts, uid, frame.latest[uid]);
      var h :| h in task.hosts && h.hostUid == uid;
      HostIsListed(p, task.hosts, frame.items, h);
    }
  }

  lemma FrameIsPermitted(p: Principal, task: Task, frame: Frame)
    requires CallsForFrame(p, task) && TaskAllowed(p, task) && IsFrameOf(p, task, frame)
    ensures Permitted(p, frame)
  {
    if p.IsUser() {
      if task.SendSync? { SyncStaysInTenant(p, task, frame); }
    } else if task.SendSync? {
      SyncStaysWithin(p, task, frame);
    } else {
      ProjectionShowsOnly(p, task.event.snapshot.value, frame.item);
    }
  }

  // ---- When a frame is sent ----

  /** The step that a task comes from. */
  ghost predicate AsksFor(p: Principal, a: Action, task: Task) {
    match task
    case Nothing => a.Tick?
    case SendSync(hosts, stored) => a.Open? && ValidReader(p) && hosts == Allowed(p, a.listed) && stored == a.stored
    case Handle(event) => a == Receive(event)
  }

  /** The step that makes a check: the look-up of the session, or a decision in favour. */
  ghost predicate Checks(p: Principal, a: Action, now: int) {
    if p.kind == Share then a == LookUp(now) else (p.kind == User || p.kind == Demo) && a == Decide(true, now)
  }

  ghost predicate AskedAt(p: Principal, actions: seq<Action>, task: Task, at: nat) {
    at < |actions| && AsksFor(p, actions[at], task)
  }

  /** The check was made after it was asked for, against the tables as they were at that step. */
  ghost predicate CheckTraced(w: World, actions: seq<Action>, task: Task, c: Check) {
    && c.asked < c.looked < |actions| && AskedAt(w.p, actions, task, c.asked)
    && Checks(w.p, actions[c.looked], c.now) && After(w, actions[..c.looked]).sys == c.seen
  }

  ghost predicate StageTraced(w: World, actions: seq<Action>, stage: Stage) {
    match stage
    case Asked(task, at) => AskedAt(w.p, actions, task, at)
    case Found(task, check, _) => CheckTraced(w, actions, task, check)
    case Cleared(task, check) => CheckTraced(w, actions, task, check)
    case _ => true
  }

  /** A frame was sent after its check, for its task. */
  ghost predicate SentTraced(w: World, actions: seq<Action>, e: Sent) {
    && CheckTraced(w, actions, e.task, e.check) && e.check.looked < e.done < |actions|
    && actions[e.done] == Proceed(e.frame) && CallsForFrame(w.p, e.task) && IsFrameOf(w.p, e.task, e.frame)
  }

  ghost predicate AllTraced(w: World, actions: seq<Action>, sent: seq<Sent>) {
    forall i :: 0 <= i < |sent| ==> SentTraced(w, actions, sent[i])
  }

  /** Each frame is asked for after the one before it was sent, so no check serves twice. */
  ghost predicate InTurn(sent: seq<Sent>) {
    forall i, j :: 0 <= i < j < |sent| ==> sent[i].done < sent[j].check.asked
  }

  ghost predicate DoneBefore(sent: seq<Sent>, at: nat) {
    forall i :: 0 <= i < |sent| ==> sent[i].done < at
  }

  ghost predicate StageInTurn(stage: Stage, sent: seq<Sent>) {
    match stage
    case Asked(_, at) => DoneBefore(sent, at)
    case Found(_, check, _) => DoneBefore(sent, check.asked)
    case Cleared(_, check) => DoneBefore(sent, check.asked)
    case _ => true
  }

  ghost predicate Ordered(w: World) {
    InTurn(w.sent) && DoneBefore(w.sent, w.steps) && StageInTurn(w.stage, w.sent)
  }

  lemma CheckTracedLater(w: World, actions: seq<Action>, a: Action, task: Task, c: Check)
    requires CheckTraced(w, actions, task, c)
    ensures CheckTraced(w, actions + [a], task, c)
  {
    assert (actions + [a])[..c.looked] == actions[..c.looked];
  }

  lemma {:induction false} ReaderStays(w: World, actions: seq<Action>)
    ensures After(w, actions).p == w.p && After(w, actions).raw == w.raw
    ensures After(w, actions).steps == w.steps + |actions|
  {
    if actions != [] { ReaderStays(w, actions[..|actions| - 1]); }
  }

  lemma NewCheckTraced(w: World, actions: seq<Action>, a: Action, task: Task, at: nat, now: int)
    requires AskedAt(w.p, actions, task, at) && Checks(w.p, a, now)
    ensures CheckTraced(w, actions + [a], task, Check(at, |actions|, After(w, actions).sys, now))
  {
    assert (actions + [a])[..|actions|] == actions;
  }

  lemma AskedStep(w: World, actions: seq<Action>, a: Action, task: Task, at: nat)
    requires w.steps == 0 && After(w, actions).stage == Asked(task, at) && AskedAt(w.p, actions, task, at)
    ensures StageTraced(w, actions + [a], NextStage(After(w, actions), a))
  {
    ReaderStays(w, actions);
    assert AskedAt(w.p, actions + [a], task, at);
    if a.LookUp? && w.p.kind == Share {
      NewCheckTraced(w, actions, a, task, at, a.now);
    } else if a.Decide? && a.ok && (w.p.kind == User || w.p.kind == Demo) {
      NewCheckTraced(w, actions, a, task, at, a.now);
    }
  }

  lemma StageStep(w: World, actions: seq<Action>, a: Action)
    requires w.steps == 0 && StageTraced(w, actions, After(w, actions).stage)
    ensures StageTraced(w, actions + [a], NextStage(After(w, actions), a))
  {
    ReaderStays(w, actions);
    var v := After(w, actions);
    match v.stage
    case Asked(task, at) => AskedStep(w, actions, a, task, at);
    case Found(task, check, _) => CheckTracedLater(w, actions, a, task, check);
    case Cleared(task, check) => CheckTracedLater(w, actions, a, task, check);
    case _ =>
  }

  lemma SentStep(w: World, actions: seq<Action>, a: Action)
    requires w.steps == 0 && StageTraced(w, actions, After(w, actions).stage)
    requires AllTraced(w, actions, After(w, actions).sent)
    ensures AllTraced(w, actions + [a], NextSent(After(w, actions), a))
  {
    ReaderStays(w, actions);
    var v := After(w, actions);
    var sent := NextSent(v, a);
    forall i | 0 <= i < |sent| ensures SentTraced(w, actions + [a], sent[i]) {
      if i < |v.sent| { assert SentTraced(w, actions, v.sent[i]); }
      CheckTracedLater(w, actions, a, sent[i].task, sent[i].check);
    }
  }

  lemma {:induction false} RunTraced(w: World, actions: seq<Action>)
    requires Opening(w)
    ensures StageTraced(w, actions, After(w, actions).stage) && AllTraced(w, actions, After(w, actions).sent)
  {
    if actions != [] {
      var before, a := actions[..|actions| - 1], actions[|actions| - 1];
      RunTraced(w, before);
      StageStep(w, before, a);
      SentStep(w, before, a);
      assert actions == before + [a];
    }
  }

  lemma StepOrdered(w: World, a: Action)
    requires Ordered(w)
    ensures Ordered(Apply(w, a))
  {
  }

  lemma {:induction false} RunOrdered(w: World, actions: seq<Action>)
    requires Opening(w)
    ensures Ordered(After(w, actions))
  {
    if actions != [] {
      RunOrdered(w, actions[..|actions| - 1]);
      StepOrdered(After(w, actions[..|actions| - 1]), actions[|actions| - 1]);
    }
  }

  lemma TracedIsAllowed(p: Principal, a: Action, task: Task)
    requires AsksFor(p, a, task)
    ensures TaskAllowed(p, task)
  {
  }

  /**
   For every reader, in every run: each frame is sent for one event, or for the opening, after a
   check that was made in between, against the tables of that moment; no check serves two frames;
   and a frame shows a user only whole hosts of the own tenant, anyone else only the hosts and
   fields on their list.
   */
  lemma EveryFrameIsCheckedAndPermitted(w: World, actions: seq<Action>, i: nat)
    requires Opening(w) && i < |After(w, actions).sent|
    ensures var sent := After(w, actions).sent;
      && SentTraced(w, actions, sent[i]) && Permitted(w.p, sent[i].frame)
      && forall j :: i < j < |sent| ==> sent[i].done < sent[j].check.asked
  {
    RunTraced(w, actions);
    RunOrdered(w, actions);
    var e := After(w, actions).sent[i];
    assert SentTraced(w, actions, e);
    TracedIsAllowed(w.p, actions[e.check.asked], e.task);
    FrameIsPermitted(w.p, e.task, e.frame);
  }
}
