/** What the locks of the administrator check are for: whoever creates or revokes is still an administrator at the commit. */
module ShareAuthority {
  import opened Outcomes
  import opened Access
  import opened Tokens
  import opened ShareTables
  import opened ShareProtocol
  import opened ShareTheorems

  predicate ByAdmin(x: Txn) {
    x.call.Create? || x.call.Revoke?
  }

  /** Past the check, the caller holds its locks and the rows still say what they said. */
  ghost predicate Authorised(db: Db, x: Txn) {
    ByAdmin(x) && x.stage != Begun ==>
      && x.held.user == Some(x.call.p.userId) && x.held.tenant.Some?
      && AdminTenant(db, x.call.p) == x.held.tenant
  }

  /** A revocation that has found its share found it in the caller's tenant. */
  ghost predicate InScope(db: Db, x: Txn) {
    x.call.Revoke? && x.stage != Begun && x.stage != TenantLocked ==>
      x.held.tenant.Some? && x.call.id in db.shares && db.shares[x.call.id].tenantId == x.held.tenant.value
  }

  ghost predicate AllAuthorised(s: Sys) {
    forall t :: t in s.txns ==> Authorised(s.db, s.txns[t]) && InScope(s.db, s.txns[t])
  }

  lemma AdminDependsOnTwoRows(db: Db, db': Db, p: Principal)
    requires AdminTenant(db, p).Some?
    requires p.userId in db'.users && db'.users[p.userId] == db.users[p.userId]
    requires var tid := AdminTenant(db, p).value; tid in db'.tenants && db'.tenants[tid] == db.tenants[tid]
    ensures AdminTenant(db', p) == AdminTenant(db, p)
  {
  }

  // ---- What a step leaves alone ----

  /** A statement of transaction `t` touches no other transaction, no user and no tenant, and no row at all before it ends. */
  ghost predicate OwnStepOnly(s: Sys, s': Sys, t: nat) {
    && s'.db.users == s.db.users && s'.db.tenants == s.db.tenants
    && (t in s'.txns ==> s'.db == s.db)
    && forall u :: u != t ==> (u in s'.txns <==> u in s.txns) && (u in s.txns ==> s'.txns[u] == s.txns[u])
  }

  lemma CreateTouches(s: Sys, t: nat, x: Txn, freshId: string)
    requires x.call.Create?
    ensures OwnStepOnly(s, AdvanceCreate(s, t, x, freshId), t)
  {
  }

  lemma RevokeTouches(s: Sys, t: nat, x: Txn)
    requires x.call.Revoke?
    ensures OwnStepOnly(s, AdvanceRevoke(s, t, x), t)
  {
  }

  lemma ExchangeTouches(s: Sys, t: nat, x: Txn, d: Digest)
    requires x.call.Exchange?
    ensures OwnStepOnly(s, AdvanceExchange(s, t, x, d), t)
  {
  }

  lemma AdvanceTouches(s: Sys, a: Action)
    requires a.Advance?
    ensures OwnStepOnly(s, Apply(s, a), a.t)
  {
    if a.t in s.txns {
      var x := s.txns[a.t];
      if x.call.Create? {
        CreateTouches(s, a.t, x, a.freshId);
      } else if x.call.Revoke? {
        RevokeTouches(s, a.t, x);
      } else {
        ExchangeTouches(s, a.t, x, a.freshDigest);
      }
    }
  }

  /** No step changes a row that an open transaction has locked. */
  lemma LockedRowsStay(s: Sys, a: Action, x: Txn, t: nat)
    requires t in s.txns && x == s.txns[t]
    ensures var db' := Apply(s, a).db;
      && (forall uid :: x.held.user == Some(uid) && uid in s.db.users ==> uid in db'.users && db'.users[uid] == s.db.users[uid])
      && (forall tid :: x.held.tenant == Some(tid) && tid in s.db.tenants ==>
            tid in db'.tenants && db'.tenants[tid] == s.db.tenants[tid])
  {
    if a.Advance? {
      AdvanceTouches(s, a);
    } else if a.SetUser? && x.held.user == Some(a.uid) {
      assert UserLocked(s.txns, a.uid);
    } else if a.SetTenant? && x.held.tenant == Some(a.tid) {
      assert TenantRowLocked(s.txns, a.tid);
    }
  }

  lemma AuthorisedStays(s: Sys, a: Action, t: nat)
    requires t in s.txns && Authorised(s.db, s.txns[t])
    ensures Authorised(Apply(s, a).db, s.txns[t])
  {
    var x := s.txns[t];
    if ByAdmin(x) && x.stage != Begun {
      LockedRowsStay(s, a, x, t);
      AdminDependsOnTwoRows(s.db, Apply(s, a).db, x.call.p);
    }
  }

  lemma InScopeStays(s: Sys, a: Action, t: nat)
    requires AllKnow(s.db, s.txns) && t in s.txns && InScope(s.db, s.txns[t])
    ensures InScope(Apply(s, a).db, s.txns[t])
  {
    var x := s.txns[t];
    if x.call.Revoke? && x.stage != Begun && x.stage != TenantLocked {
      StepFixes(s, a, x.call.id);
      SameTenant(s.db, Apply(s, a).db, x.call.id);
    }
  }

  lemma SameTenant(db: Db, db': Db, id: string)
    requires SameGrant(db, db', id)
    ensures db'.shares[id].tenantId == db.shares[id].tenantId
  {
    assert db'.shares[id].(revokedAt := None).tenantId == db.shares[id].(revokedAt := None).tenantId;
  }

  /** The transaction that takes a step, with the rows as they were. */
  lemma CreateStepAuthorised(s: Sys, t: nat, freshId: string)
    requires t in s.txns && s.txns[t].call.Create? && Authorised(s.db, s.txns[t])
    ensures var s' := AdvanceCreate(s, t, s.txns[t], freshId);
      t in s'.txns ==> Authorised(s.db, s'.txns[t]) && InScope(s.db, s'.txns[t])
  {
  }

  lemma RevokeStepAuthorised(s: Sys, t: nat)
    requires t in s.txns && s.txns[t].call.Revoke? && Authorised(s.db, s.txns[t]) && InScope(s.db, s.txns[t])
    ensures var s' := AdvanceRevoke(s, t, s.txns[t]);
      t in s'.txns ==> Authorised(s.db, s'.txns[t]) && InScope(s.db, s'.txns[t])
  {
  }

  lemma ExchangeStepAuthorised(s: Sys, t: nat, d: Digest)
    requires t in s.txns && s.txns[t].call.Exchange?
    ensures var s' := AdvanceExchange(s, t, s.txns[t], d);
      t in s'.txns ==> s'.txns[t].call.Exchange?
  {
  }

  lemma OwnStepAuthorised(s: Sys, a: Action)
    requires AllAuthorised(s) && a.Advance? && a.t in s.txns
    ensures var s' := Apply(s, a);
      a.t in s'.txns ==> Authorised(s.db, s'.txns[a.t]) && InScope(s.db, s'.txns[a.t])
  {
    if s.txns[a.t].call.Create? {
      CreateStepAuthorised(s, a.t, a.freshId);
    } else if s.txns[a.t].call.Revoke? {
      RevokeStepAuthorised(s, a.t);
    } else {
      ExchangeStepAuthorised(s, a.t, a.freshDigest);
    }
  }

  lemma OthersUntouched(s: Sys, a: Action, t: nat)
    requires t in Apply(s, a).txns && !(a.Advance? && a.t == t)
    ensures t in s.txns ==> Apply(s, a).txns[t] == s.txns[t]
    ensures t !in s.txns ==> Apply(s, a).txns[t].stage == Begun
  {
    if a.Advance? { AdvanceTouches(s, a); }
  }

  lemma StepAuthorised(s: Sys, a: Action)
    requires AllKnow(s.db, s.txns) && AllAuthorised(s)
    ensures AllAuthorised(Apply(s, a))
  {
    var s' := Apply(s, a);
    forall t | t in s'.txns ensures Authorised(s'.db, s'.txns[t]) && InScope(s'.db, s'.txns[t]) {
      if a.Advance? && a.t == t && t in s.txns {
        OwnStepAuthorised(s, a);
        AdvanceTouches(s, a);
      } else {
        OthersUntouched(s, a, t);
        if t in s.txns {
          AuthorisedStays(s, a, t);
          InScopeStays(s, a, t);
        }
      }
    }
  }

  lemma {:induction false} RunAuthorised(s: Sys, actions: seq<Action>)
    requires Inv(s) && AllAuthorised(s)
    ensures AllAuthorised(Run(s, actions))
    decreases |actions|
  {
    if actions != [] {
      StepAuthorised(s, actions[0]);
      StepKeeps(s, actions[0]);
      RunAuthorised(Apply(s, actions[0]), actions[1..]);
    }
  }

  /** The event a step reports, if any. */
  ghost predicate Reports(s: Sys, a: Action, e: Event) {
    Apply(s, a).log == s.log + [e]
  }

  lemma CreatedBy(s: Sys, a: Action, e: Event)
    requires Reports(s, a, e) && e.Created?
    ensures a.Advance? && a.t in s.txns && s.txns[a.t].call.Create? && s.txns[a.t].stage.ShareInserted?
    ensures s.txns[a.t].held.tenant.Some?
    ensures Apply(s, a).db == CommittedCreate(s.db, s.txns[a.t].call, s.txns[a.t].held.tenant.value, e.id)
  {
    assert (s.log + [e])[|s.log|] == e;
  }

  lemma RevokedBy(s: Sys, a: Action, e: Event)
    requires Reports(s, a, e) && e.Revoked?
    ensures a.Advance? && a.t in s.txns && s.txns[a.t].call.Revoke? && s.txns[a.t].stage.SessionsCleared?
    ensures s.txns[a.t].call.id == e.id && e.id in s.db.shares
    ensures Apply(s, a).db == CommittedRevoke(s.db, e.id, s.txns[a.t].call.now, s.txns[a.t].stage.gone)
  {
    assert (s.log + [e])[|s.log|] == e;
  }

  /** `p` is, in these rows, an active administrator of the active tenant that the share belongs to. */
  ghost predicate AdminOfShare(db: Db, p: Principal, id: string) {
    id in db.shares && AdminTenant(db, p) == Some(db.shares[id].tenantId)
  }

  /**
   In every interleaving, also with users being deactivated or demoted and tenants closed at any
   time: at the moment a creation or a revocation commits, its caller still is an active
   administrator of the share's own, active tenant; and a created share names that caller.
   */
  lemma CommitsAreAuthorised(s0: Sys, actions: seq<Action>, a: Action, e: Event)
    requires Initial(s0) && Reports(Run(s0, actions), a, e) && (e.Created? || e.Revoked?)
    ensures var s := Run(s0, actions);
      && a.Advance? && a.t in s.txns && ByAdmin(s.txns[a.t])
      && AdminOfShare(Apply(s, a).db, s.txns[a.t].call.p, e.id)
      && (e.Created? ==> Apply(s, a).db.shares[e.id].createdBy == s.txns[a.t].call.p.userId)
  {
    var s := Run(s0, actions);
    InitialHolds(s0);
    RunAuthorised(s0, actions);
    if e.Created? {
      CreatedBy(s, a, e);
    } else {
      RevokedBy(s, a, e);
    }
    assert Authorised(s.db, s.txns[a.t]) && InScope(s.db, s.txns[a.t]);
  }
}
