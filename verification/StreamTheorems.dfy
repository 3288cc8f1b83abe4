/** The stream to a reader with a share session, against every interleaving of share transactions. */
module StreamTheorems {
  import opened Outcomes
  import opened Access
  import opened Text
  import opened ShareTables
  import opened HostStream
  import opened StreamTrace
  import Shares = ShareProtocol
  import ShareTheorems

  // ---- What a completed check knows ----

  /** The session was good for this share in the tables it was looked up in, and the grant stands since then. */
  ghost predicate Looked(raw: string, seen: Shares.Sys, now: int, id: string, sys: Shares.Sys) {
    && SessionFinds(seen.db, raw, now, id) && Shares.Revoked(id) !in seen.log
    && ShareTheorems.Fixed(seen, sys, id)
  }

  ghost predicate Matches(p: Principal, db: Db) {
    && p.shareId in db.shares && p.fields == db.shares[p.shareId].fields
    && Elements(p.allowedHosts) == HostsOf(db, p.shareId)
  }

  ghost predicate Checked(p: Principal, raw: string, c: Check, sys: Shares.Sys) {
    Looked(raw, c.seen, c.now, p.shareId, sys) && Matches(p, sys.db)
  }

  ghost predicate StageSound(p: Principal, raw: string, sys: Shares.Sys, stage: Stage) {
    match stage
    case Found(_, c, id) => Looked(raw, c.seen, c.now, id, sys)
    case Cleared(_, c) => Checked(p, raw, c, sys)
    case _ => true
  }

  ghost predicate AllSound(p: Principal, raw: string, sys: Shares.Sys, sent: seq<Sent>) {
    forall i :: 0 <= i < |sent| ==> Checked(p, raw, sent[i].check, sys)
  }

  ghost predicate Sound(w: World) {
    && w.p.kind == Share && Shares.Inv(w.sys)
    && StageSound(w.p, w.raw, w.sys, w.stage) && AllSound(w.p, w.raw, w.sys, w.sent)
  }

  lemma FixedAgain(a: Shares.Sys, b: Shares.Sys, c: Shares.Sys, id: string)
    requires ShareTheorems.Fixed(a, b, id) && ShareTheorems.Fixed(b, c, id)
    ensures ShareTheorems.Fixed(a, c, id)
  {
  }

  lemma LookedStays(raw: string, seen: Shares.Sys, now: int, id: string, sys: Shares.Sys, a: Shares.Action)
    requires Looked(raw, seen, now, id, sys) && Shares.Inv(sys)
    ensures Looked(raw, seen, now, id, Shares.Apply(sys, a)) && ShareTheorems.Fixed(sys, Shares.Apply(sys, a), id)
  {
    ShareTheorems.StepFixes(sys, a, id);
    FixedAgain(seen, sys, Shares.Apply(sys, a), id);
  }

  lemma MatchesStays(p: Principal, db: Db, db': Db)
    requires Matches(p, db) && ShareTheorems.SameGrant(db, db', p.shareId)
    ensures Matches(p, db')
  {
    var id := p.shareId;
    assert db'.shares[id].(revokedAt := None).fields == db.shares[id].(revokedAt := None).fields;
  }

  lemma CheckedStays(p: Principal, raw: string, c: Check, sys: Shares.Sys, a: Shares.Action)
    requires Checked(p, raw, c, sys) && Shares.Inv(sys)
    ensures Checked(p, raw, c, Shares.Apply(sys, a))
  {
    LookedStays(raw, c.seen, c.now, p.shareId, sys, a);
    MatchesStays(p, sys.db, Shares.Apply(sys, a).db);
  }

  lemma StageSoundStays(p: Principal, raw: string, sys: Shares.Sys, stage: Stage, a: Shares.Action)
    requires StageSound(p, raw, sys, stage) && Shares.Inv(sys)
    ensures StageSound(p, raw, Shares.Apply(sys, a), stage)
  {
    match stage
    case Found(_, c, id) => LookedStays(raw, c.seen, c.now, id, sys, a);
    case Cleared(_, c) => CheckedStays(p, raw, c, sys, a);
    case _ =>
  }

  lemma ShareStepSound(w: World, a: Shares.Action)
    requires Sound(w)
    ensures Sound(Apply(w, ShareStep(a)))
  {
    ShareTheorems.StepKeeps(w.sys, a);
    StageSoundStays(w.p, w.raw, w.sys, w.stage, a);
    var sys' := Shares.Apply(w.sys, a);
    forall i | 0 <= i < |w.sent| ensures Checked(w.p, w.raw, w.sent[i].check, sys') {
      CheckedStays(w.p, w.raw, w.sent[i].check, w.sys, a);
    }
  }

  lemma FixedNow(sys: Shares.Sys, id: string)
    requires id in sys.db.shares
    ensures ShareTheorems.Fixed(sys, sys, id)
  {
  }

  lemma FoundIsLooked(raw: string, sys: Shares.Sys, now: int, id: string)
    requires Shares.RevocationsKept(sys.db, sys.log) && SessionFinds(sys.db, raw, now, id)
    ensures Looked(raw, sys, now, id, sys)
  {
    FixedNow(sys, id);
  }

  lemma LookUpSound(w: World, task: Task, at: nat, now: int)
    requires Shares.RevocationsKept(w.sys.db, w.sys.log)
    ensures StageSound(w.p, w.raw, w.sys, LookUpStage(w, task, at, now))
  {
    var id := SessionShare(w.sys.db, w.raw, now);
    if id.Some? {
      FoundIsLooked(w.raw, w.sys, now, id.value);
    }
  }

  ghost function HostsRead(db: Db, id: string, tenant: int): set<string> {
    set h | h in db.shareHosts && h.shareId == id && h.tenantId == tenant :: h.hostUid
  }

  /** The hosts read by the second statement are all hosts of the share. */
  lemma HostsReadAreAll(db: Db, id: string)
    requires RowsConsistent(db) && id in db.shares
    ensures HostsRead(db, id, db.shares[id].tenantId) == HostsOf(db, id)
  {
  }

  lemma SameRow(db: Db, db': Db, id: string)
    requires ShareTheorems.SameGrant(db, db', id)
    ensures db'.shares[id].tenantId == db.shares[id].tenantId && db'.shares[id].fields == db.shares[id].fields
  {
    assert db'.shares[id].(revokedAt := None).tenantId == db.shares[id].(revokedAt := None).tenantId;
    assert db'.shares[id].(revokedAt := None).fields == db.shares[id].(revokedAt := None).fields;
  }

  /** Passing the comparison pins the reader to the share's hosts and fields, although they are read in a second statement. */
  lemma CurrentMatches(db: Db, seen: Db, id: string, p: Principal)
    requires RowsConsistent(db) && ValidShare(seen, id) && ShareTheorems.SameGrant(seen, db, id)
    requires SameAccess(Current(db, seen, id), p)
    ensures p.shareId == id && Matches(p, db)
  {
    SameRow(seen, db, id);
    HostsReadAreAll(db, id);
    assert p.allowedHosts == SortedKeys(HostsRead(db, id, seen.shares[id].tenantId));
    SortedKeysAre(HostsOf(db, id));
  }

  lemma CompareSound(w: World, task: Task, c: Check, id: string)
    requires Looked(w.raw, c.seen, c.now, id, w.sys) && RowsConsistent(w.sys.db)
    ensures StageSound(w.p, w.raw, w.sys, CompareStage(w, task, c, id))
  {
    if SameAccess(Current(w.sys.db, c.seen.db, id), w.p) {
      CurrentMatches(w.sys.db, c.seen.db, id, w.p);
    }
  }

  lemma NextStageSound(w: World, a: Action)
    requires Sound(w) && !a.ShareStep?
    ensures StageSound(w.p, w.raw, w.sys, NextStage(w, a))
  {
    if a.LookUp? && w.stage.Asked? {
      LookUpSound(w, w.stage.task, w.stage.at, a.now);
    } else if a.Compare? && w.stage.Found? {
      CompareSound(w, w.stage.task, w.stage.check, w.stage.id);
    }
  }

  lemma StepSound(w: World, a: Action)
    requires Sound(w)
    ensures Sound(Apply(w, a))
  {
    if a.ShareStep? {
      ShareStepSound(w, a.a);
    } else {
      NextStageSound(w, a);
    }
  }

  lemma {:induction false} RunSound(w: World, actions: seq<Action>)
    requires Sound(w)
    ensures Sound(After(w, actions))
  {
    if actions != [] {
      RunSound(w, actions[..|actions| - 1]);
      StepSound(After(w, actions[..|actions| - 1]), actions[|actions| - 1]);
    }
  }

  // ---- Theorems ----

  /** A share reader's request, in a system whose share tables started empty. */
  ghost predicate Initial(w: World) {
    Opening(w) && w.p.kind == Share && Shares.Initial(w.sys)
  }

  lemma InitialSound(w: World)
    requires Initial(w)
    ensures Sound(w)
  {
    ShareTheorems.InitialHolds(w.sys);
  }

  /**
   Every frame ever sent to a share reader was preceded, after its event, by a check against the
   tables of that moment, in which the reader's session and share were unexpired and the share
   not revoked; and it shows nothing beyond what the share grants: its own hosts, all of the
   share's tenant, and the granted fields of those hosts.
   */
  lemma EveryFrameWasAllowed(w0: World, actions: seq<Action>, i: nat)
    requires Initial(w0) && i < |After(w0, actions).sent|
    ensures var w := After(w0, actions);
      var e, id := w.sent[i], w.p.shareId;
      && SentTraced(w0, actions, e) && SessionFinds(e.check.seen.db, w.raw, e.check.now, id)
      && Shares.Revoked(id) !in e.check.seen.log
      && id in w.sys.db.shares && StaysWithin(HostsOf(w.sys.db, id), w.sys.db.shares[id].fields, e.frame)
      && forall uid :: uid in HostsOf(w.sys.db, id) ==>
           uid in w.sys.db.hosts && w.sys.db.hosts[uid] == w.sys.db.shares[id].tenantId
  {
    InitialSound(w0);
    RunSound(w0, actions);
    ReaderStays(w0, actions);
    EveryFrameIsCheckedAndPermitted(w0, actions, i);
    var w := After(w0, actions);
    assert Checked(w.p, w.raw, w.sent[i].check, w.sys);
  }

  /** Frames sent, and the one more that a look-up already made may still lead to. */
  ghost function Reach(w: World): nat {
    |w.sent| + if w.stage.Cleared? || (w.stage.Found? && w.stage.id == w.p.shareId) then 1 else 0
  }

  ghost predicate RevokedIn(sys: Shares.Sys, id: string) {
    id in sys.db.shares && sys.db.shares[id].revokedAt.Some?
  }

  lemma RevokedStays(sys: Shares.Sys, a: Shares.Action, id: string)
    requires Shares.Inv(sys) && RevokedIn(sys, id)
    ensures RevokedIn(Shares.Apply(sys, a), id)
  {
    ShareTheorems.StepFixes(sys, a, id);
  }

  lemma RevokedStep(w: World, a: Action)
    requires w.p.kind == Share && Shares.Inv(w.sys) && RevokedIn(w.sys, w.p.shareId)
    ensures var w' := Apply(w, a);
      w'.p == w.p && RevokedIn(w'.sys, w.p.shareId) && Reach(w') <= Reach(w) && w.sent <= w'.sent
  {
    if a.ShareStep? {
      RevokedStays(w.sys, a.a, w.p.shareId);
    } else if a.LookUp? {
      assert !SessionFinds(w.sys.db, w.raw, a.now, w.p.shareId);
    }
  }

  lemma {:induction false} RevokedRun(w: World, actions: seq<Action>)
    requires Sound(w) && RevokedIn(w.sys, w.p.shareId)
    ensures var w' := After(w, actions);
      w'.p == w.p && RevokedIn(w'.sys, w.p.shareId) && Reach(w') <= Reach(w) && w.sent <= w'.sent
  {
    if actions != [] {
      var before := actions[..|actions| - 1];
      RevokedRun(w, before);
      RunSound(w, before);
      RevokedStep(After(w, before), actions[|actions| - 1]);
    }
  }

  /**
   After a revocation has committed the stream sends nothing more, whatever happens, except
   for one frame whose look-up had been made before the revocation.
   */
  lemma SilentAfterRevocation(w0: World, before: seq<Action>, after: seq<Action>)
    requires Initial(w0) && Shares.Revoked(w0.p.shareId) in After(w0, before).sys.log
    ensures var w := After(w0, before);
      var w' := After(w, after);
      && w.sent <= w'.sent
      && (w.stage.Found? || w.stage.Cleared? ==> |w'.sent| <= |w.sent| + 1)
      && (!w.stage.Found? && !w.stage.Cleared? ==> w'.sent == w.sent)
  {
    InitialSound(w0);
    RunSound(w0, before);
    ReaderStays(w0, before);
    RevokedRun(After(w0, before), after);
  }

  // ---- Delivery ----

  ghost predicate OnlyShares(actions: seq<Action>) {
    forall i :: 0 <= i < |actions| ==> actions[i].ShareStep?
  }

  /** Share transactions move the tables and nothing of the stream. */
  lemma {:induction false} SharesLeaveStream(w: World, actions: seq<Action>)
    requires OnlyShares(actions) && Shares.Inv(w.sys)
    ensures var w' := After(w, actions);
      && w' == World(w'.sys, w.p, w.raw, w.stage, w.sent, w.steps + |actions|) && Shares.Inv(w'.sys)
  {
    if actions != [] {
      var before, a := actions[..|actions| - 1], actions[|actions| - 1];
      SharesLeaveStream(w, before);
      ShareTheorems.StepKeeps(After(w, before).sys, a.a);
    }
  }

  lemma {:induction false} SharesKeepGrant(w: World, actions: seq<Action>, id: string)
    requires OnlyShares(actions) && Shares.Inv(w.sys) && id in w.sys.db.shares
    ensures ShareTheorems.Fixed(w.sys, After(w, actions).sys, id)
  {
    if actions == [] {
      FixedNow(w.sys, id);
    } else {
      var before, a := actions[..|actions| - 1], actions[|actions| - 1];
      SharesLeaveStream(w, before);
      SharesKeepGrant(w, before, id);
      var sys := After(w, before).sys;
      ShareTheorems.StepFixes(sys, a.a, id);
      FixedAgain(w.sys, sys, Shares.Apply(sys, a.a), id);
    }
  }

  /** What the second statement reads does not depend on what has been committed since the first. */
  lemma CurrentStays(db: Db, seen: Db, id: string)
    requires RowsConsistent(db) && RowsConsistent(seen) && ValidShare(seen, id) && ShareTheorems.SameGrant(seen, db, id)
    ensures Current(db, seen, id) == Current(seen, seen, id)
  {
    SameRow(seen, db, id);
    HostsReadAreAll(db, id);
    HostsReadAreAll(seen, id);
    assert HostsRead(db, id, seen.shares[id].tenantId) == HostsRead(seen, id, seen.shares[id].tenantId);
  }

  /** The session is good at the look-up and its share still grants what the reader was given. */
  ghost predicate Passes(p: Principal, raw: string, seen: Shares.Sys, now: int) {
    SessionFinds(seen.db, raw, now, p.shareId) && SameAccess(Current(seen.db, seen.db, p.shareId), p)
  }

  lemma PassesById(p: Principal, raw: string, seen: Shares.Sys, now: int, id: string)
    requires SessionFinds(seen.db, raw, now, id)
    ensures Passes(p, raw, seen, now) <==> SameAccess(Current(seen.db, seen.db, id), p)
  {
    assert Current(seen.db, seen.db, id).shareId == id;
    var found := SessionShare(seen.db, raw, now);
    assert found == Some(id);
  }

  lemma CompareDecides(w: World, task: Task, c: Check, id: string)
    requires SessionFinds(c.seen.db, w.raw, c.now, id) && RowsConsistent(w.sys.db) && RowsConsistent(c.seen.db)
    requires ShareTheorems.SameGrant(c.seen.db, w.sys.db, id)
    ensures CompareStage(w, task, c, id) == if Passes(w.p, w.raw, c.seen, c.now) then Cleared(task, c) else Closed
  {
    CurrentStays(w.sys.db, c.seen.db, id);
    PassesById(w.p, w.raw, c.seen, c.now, id);
  }

  /** What share transactions can do meanwhile: move the tables on, and nothing of the stream. */
  ghost predicate Meanwhile(w: World, v: World) {
    && v.p == w.p && v.raw == w.raw && v.stage == w.stage && v.sent == w.sent && w.steps <= v.steps
    && RowsConsistent(v.sys.db) && forall id :: id in w.sys.db.shares ==> ShareTheorems.SameGrant(w.sys.db, v.sys.db, id)
  }

  lemma SharesAreMeanwhile(w: World, actions: seq<Action>)
    requires OnlyShares(actions) && Shares.Inv(w.sys)
    ensures Meanwhile(w, After(w, actions)) && Shares.Inv(After(w, actions).sys)
  {
    SharesLeaveStream(w, actions);
    forall id | id in w.sys.db.shares ensures ShareTheorems.SameGrant(w.sys.db, After(w, actions).sys.db, id) {
      SharesKeepGrant(w, actions, id);
    }
  }

  lemma LookUpStep(w: World, now: int)
    requires w.p.kind == Share && w.stage.Asked?
    ensures Apply(w, LookUp(now))
         == World(w.sys, w.p, w.raw, LookUpStage(w, w.stage.task, w.stage.at, now), w.sent, w.steps + 1)
  {
  }

  lemma CompareStep(w: World)
    ensures Apply(w, Compare).stage
         == if w.stage.Found? then CompareStage(w, w.stage.task, w.stage.check, w.stage.id) else w.stage
    ensures Apply(w, Compare) == World(w.sys, w.p, w.raw, Apply(w, Compare).stage, w.sent, w.steps + 1)
  {
  }

  lemma ReceiveStep(w: World, event: Event)
    requires w.stage == Idle
    ensures Apply(w, Receive(event)) == World(w.sys, w.p, w.raw, Asked(Handle(event), w.steps), w.sent, w.steps + 1)
  {
  }

  /** The outcome of a check that was looked up in `w`. */
  ghost function CheckStage(w: World, now: int): Stage
    requires w.stage.Asked?
  {
    if Passes(w.p, w.raw, w.sys, now) then Cleared(w.stage.task, Check(w.stage.at, w.steps, w.sys, now)) else Closed
  }

  /** The two statements of a check, with share transactions in between. */
  lemma CheckPassesExactly(w: World, now: int, v: World)
    requires w.p.kind == Share && RowsConsistent(w.sys.db) && w.stage.Asked? && Meanwhile(Apply(w, LookUp(now)), v)
    ensures Apply(v, Compare) == World(v.sys, w.p, w.raw, CheckStage(w, now), w.sent, v.steps + 1)
  {
    LookUpStep(w, now);
    CompareStep(v);
    var id := SessionShare(w.sys.db, w.raw, now);
    if id.Some? {
      assert SessionFinds(w.sys.db, w.raw, now, id.value);
      CompareDecides(v, w.stage.task, Check(w.stage.at, w.steps, w.sys, now), id.value);
    } else {
      assert !SessionFinds(w.sys.db, w.raw, now, w.p.shareId);
    }
  }

  /** The frame that a task calls for, if it calls for one. */
  ghost predicate Fits(p: Principal, task: Task, frame: Frame) {
    CallsForFrame(p, task) ==> IsFrameOf(p, task, frame)
  }

  lemma ProceedStep(w: World, frame: Frame, task: Task)
    requires w.stage == Closed || (w.stage.Cleared? && w.stage.task == task)
    requires Fits(w.p, task, frame)
    ensures Apply(w, Proceed(frame)).sent == if w.stage.Cleared? && CallsForFrame(w.p, task)
                                             then w.sent + [Sent(frame, task, w.stage.check, w.steps)] else w.sent
  {
  }

  /**
   However share transactions interleave, the frame for an event that arrives is sent if and only
   if the event is an update of an allowed host and, in the tables `asked` of the look-up, the
   session is good and the grant unchanged; a revocation that commits after the look-up does not
   stop it. The worlds `asked`, `found` and `cleared` are reached by any share transactions.
   */
  lemma DeliveredMeanwhile(w: World, event: Event, now: int, frame: Frame,
                           asked: World, found: World, cleared: World)
    requires w.p.kind == Share && w.stage == Idle && Fits(w.p, Handle(event), frame)
    requires Meanwhile(Apply(w, Receive(event)), asked)
    requires Meanwhile(Apply(asked, LookUp(now)), found)
    requires Meanwhile(Apply(found, Compare), cleared)
    ensures Apply(cleared, Proceed(frame)).sent
         == if Passes(w.p, w.raw, asked.sys, now) && CallsForFrame(w.p, Handle(event))
            then w.sent + [Sent(frame, Handle(event), Check(w.steps, asked.steps, asked.sys, now), cleared.steps)]
            else w.sent
  {
    ReceiveStep(w, event);
    CheckPassesExactly(asked, now, found);
    ProceedStep(cleared, frame, Handle(event));
  }

  /** The same with the share transactions as steps of the run: `x` before the look-up, `y` before the comparison, `z` before the frame. */
  lemma UpdateDeliveredExactlyWhenAllowed(w: World, event: Event, now: int, frame: Frame, x: seq<Action>, y: seq<Action>, z: seq<Action>)
    requires w.p.kind == Share && Shares.Inv(w.sys) && w.stage == Idle && Fits(w.p, Handle(event), frame)
    requires OnlyShares(x) && OnlyShares(y) && OnlyShares(z)
    ensures var asked := After(Apply(w, Receive(event)), x);
      var found := After(Apply(asked, LookUp(now)), y);
      var cleared := After(Apply(found, Compare), z);
      Apply(cleared, Proceed(frame)).sent
      == if Passes(w.p, w.raw, asked.sys, now) && CallsForFrame(w.p, Handle(event))
         then w.sent + [Sent(frame, Handle(event), Check(w.steps, asked.steps, asked.sys, now), cleared.steps)]
         else w.sent
  {
    var asked := After(Apply(w, Receive(event)), x);
    SharesAreMeanwhile(Apply(w, Receive(event)), x);
    var found := After(Apply(asked, LookUp(now)), y);
    SharesAreMeanwhile(Apply(asked, LookUp(now)), y);
    SharesAreMeanwhile(Apply(found, Compare), z);
    DeliveredMeanwhile(w, event, now, frame, asked, found, After(Apply(found, Compare), z));
  }
}
