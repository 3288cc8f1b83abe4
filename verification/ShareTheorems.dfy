/** What holds of share links in every run, whatever the interleaving. */
module ShareTheorems {
  import opened Outcomes
  import opened Access
  import opened Tokens
  import opened Text
  import opened ShareTables
  import opened ShareProtocol
  import ShareRequests

  // ---- One step keeps the invariant ----

  lemma ExchangesAppend(log: seq<Event>, e: Event, id: string)
    ensures Exchanges(log + [e], id) == Exchanges(log, id) + (if e.Exchanged? && e.id == id then 1 else 0)
  {
    assert (log + [e])[..|log|] == log;
  }

  lemma LogKeeps(db: Db, log: seq<Event>, e: Event)
    requires ExchangesKept(db, log) && RevocationsKept(db, log) && e.Failed?
    ensures ExchangesKept(db, log + [e]) && RevocationsKept(db, log + [e])
  {
    forall id ensures ExchangesOf(db, log + [e], id) {
      ExchangesAppend(log, e, id);
      assert ExchangesOf(db, log, id);
    }
  }

  /** A statement that only moves its own transaction on. */
  lemma GotoKeeps(s: Sys, t: nat, x: Txn)
    requires Inv(s) && Knows(s.db, x)
    ensures Inv(Goto(s, t, x))
  {
    if !MustWait(s.txns, t, x.held) {
      assert AllKnow(s.db, s.txns[t := x]);
      StaysExclusive(s.txns, t, x);
    }
  }

  lemma StaysExclusive(txns: map<nat, Txn>, t: nat, x: Txn)
    requires Exclusive(txns) && !MustWait(txns, t, x.held)
    ensures Exclusive(txns[t := x])
  {
  }

  lemma FailKeeps(s: Sys, t: nat, e: Error)
    requires Inv(s)
    ensures Inv(Fail(s, t, e))
  {
    LogKeeps(s.db, s.log, Failed(t, e));
  }

  /** A duplicate-free host list matched by as many rows as it is long is matched throughout. */
  lemma CountForcesEveryHost(db: Db, uids: seq<string>, tenant: int)
    requires ShareRequests.Distinct(uids)
    ensures |MatchingHosts(db, tenant, uids)| == |uids| <==> AllHostsOf(db, uids, tenant)
  {
    ShareRequests.DistinctCardinality(uids);
    var matching := MatchingHosts(db, tenant, uids);
    assert matching <= Elements(uids);
    if AllHostsOf(db, uids, tenant) {
      assert matching == Elements(uids);
    }
    if |matching| == |uids| {
      SubsetOfSameSize(matching, Elements(uids));
      assert forall uid :: uid in uids ==> uid in Elements(uids);
    }
  }

  lemma SubsetOfSameSize<T>(a: set<T>, b: set<T>)
    requires a <= b && |a| == |b|
    ensures a == b
  {
    assert |b - a| == 0 by { assert b == a + (b - a); }
  }

  // ---- Committing a creation ----

  lemma CreateRows(db: Db, x: Txn)
    requires RowsConsistent(db)
    requires x.call.Create? && x.stage.ShareInserted? && KnowsCreate(db, x)
    ensures RowsConsistent(CommittedCreate(db, x.call, x.held.tenant.value, x.held.newShare.value))
  {
    assert !HashTaken(db, x.call.hash);
  }

  lemma CreateHosts(db: Db, c: Call, tenant: int, newId: string)
    requires SharesHaveHosts(db) && c.Create? && c.req.hostUids != []
    ensures SharesHaveHosts(CommittedCreate(db, c, tenant, newId))
  {
    var db' := CommittedCreate(db, c, tenant, newId);
    forall id | id in db'.shares ensures HostsOf(db', id) != {} {
      if id == newId {
        assert ShareHostRow(id, tenant, c.req.hostUids[0]) in db'.shareHosts;
        assert c.req.hostUids[0] in HostsOf(db', id);
      } else {
        assert HostsOf(db, id) <= HostsOf(db', id);
      }
    }
  }

  lemma CreateQuota(db: Db, c: Call, tenant: int, newId: string)
    requires ShareQuotaKept(db) && c.Create? && newId !in db.shares && |SharesOf(db, tenant)| < SHARE_QUOTA
    ensures ShareQuotaKept(CommittedCreate(db, c, tenant, newId))
  {
    var db' := CommittedCreate(db, c, tenant, newId);
    forall other ensures |SharesOf(db', other)| <= SHARE_QUOTA {
      if other == tenant {
        assert SharesOf(db', other) == SharesOf(db, other) + {newId};
      } else {
        assert SharesOf(db', other) == SharesOf(db, other);
      }
    }
  }

  lemma CreateKnows(db: Db, x: Txn, y: Txn)
    requires x.call.Create? && x.stage.ShareInserted? && KnowsCreate(db, x)
    requires Knows(db, y) && !Overlap(x.held, y.held)
    ensures Knows(CommittedCreate(db, x.call, x.held.tenant.value, x.held.newShare.value), y)
  {
    var tenant, newId := x.held.tenant.value, x.held.newShare.value;
    var db' := CommittedCreate(db, x.call, tenant, newId);
    if y.call.Create? {
      if y.stage != Begun {
        assert SharesOf(db', y.held.tenant.value) == SharesOf(db, y.held.tenant.value);
      }
      if y.stage.ShareInserted? {
        assert !HashTaken(db', y.call.hash);
      }
    } else if y.call.Revoke? {
      assert SessionsOf(db', y.call.id) == SessionsOf(db, y.call.id);
    } else if y.stage != Begun {
      assert SessionsOf(db', y.held.share.value) == SessionsOf(db, y.held.share.value);
    }
  }

  lemma CreateCommitKeeps(s: Sys, t: nat)
    requires Inv(s) && t in s.txns && s.txns[t].call.Create? && s.txns[t].stage.ShareInserted?
    ensures var x := s.txns[t];
      && x.held.tenant.Some? && x.held.newShare.Some?
      && Inv(Commit(s, t, CommittedCreate(s.db, x.call, x.held.tenant.value, x.held.newShare.value),
                    Created(x.held.newShare.value)))
  {
    var x := s.txns[t];
    assert Knows(s.db, x);
    var newId := x.held.newShare.value;
    var s' := Commit(s, t, CommittedCreate(s.db, x.call, x.held.tenant.value, newId), Created(newId));
    CreateRows(s.db, x);
    CreateHosts(s.db, x.call, x.held.tenant.value, newId);
    CreateQuota(s.db, x.call, x.held.tenant.value, newId);
    forall u | u in s'.txns ensures Knows(s'.db, s'.txns[u]) {
      CreateKnows(s.db, x, s.txns[u]);
    }
    forall id ensures ExchangesOf(s'.db, s'.log, id) {
      ExchangesAppend(s.log, Created(newId), id);
      assert ExchangesOf(s.db, s.log, id);
      assert SessionsOf(s'.db, id) == SessionsOf(s.db, id);
      if id == newId { assert SessionsOf(s.db, id) == {}; }
    }
  }

  // ---- Committing a revocation ----

  lemma RevokeRows(db: Db, id: string, now: int)
    requires RowsConsistent(db) && SharesHaveHosts(db) && ShareQuotaKept(db) && id in db.shares
    ensures var db' := CommittedRevoke(db, id, now, SessionsOf(db, id));
      RowsConsistent(db') && SharesHaveHosts(db') && ShareQuotaKept(db')
  {
    var db' := CommittedRevoke(db, id, now, SessionsOf(db, id));
    forall other | other in db'.shares ensures HostsOf(db', other) != {} {
      assert HostsOf(db', other) == HostsOf(db, other);
    }
    forall tenant ensures |SharesOf(db', tenant)| <= SHARE_QUOTA {
      assert SharesOf(db', tenant) == SharesOf(db, tenant);
    }
  }

  lemma RevokeKnows(db: Db, id: string, now: int, held: Held, y: Txn)
    requires id in db.shares && held.share == Some(id)
    requires Knows(db, y) && !Overlap(held, y.held)
    ensures Knows(CommittedRevoke(db, id, now, SessionsOf(db, id)), y)
  {
    var db' := CommittedRevoke(db, id, now, SessionsOf(db, id));
    forall other | other != id ensures SessionsOf(db', other) == SessionsOf(db, other) {}
    if y.call.Create? {
      if y.stage != Begun {
        assert SharesOf(db', y.held.tenant.value) == SharesOf(db, y.held.tenant.value);
      }
      if y.stage.ShareInserted? {
        assert !HashTaken(db', y.call.hash);
      }
    }
  }

  lemma RevokeCommitKeeps(s: Sys, t: nat)
    requires Inv(s) && t in s.txns && s.txns[t].call.Revoke? && s.txns[t].stage.SessionsCleared?
    ensures var x := s.txns[t];
      && x.call.id in s.db.shares
      && Inv(Commit(s, t, CommittedRevoke(s.db, x.call.id, x.call.now, x.stage.gone), Revoked(x.call.id)))
  {
    var x := s.txns[t];
    assert Knows(s.db, x);
    var gone := x.call.id;
    var s' := Commit(s, t, CommittedRevoke(s.db, gone, x.call.now, x.stage.gone), Revoked(gone));
    RevokeRows(s.db, gone, x.call.now);
    forall u | u in s'.txns ensures Knows(s'.db, s'.txns[u]) {
      RevokeKnows(s.db, gone, x.call.now, x.held, s.txns[u]);
    }
    forall id ensures ExchangesOf(s'.db, s'.log, id) {
      ExchangesAppend(s.log, Revoked(gone), id);
      assert ExchangesOf(s.db, s.log, id);
      if id != gone { assert SessionsOf(s'.db, id) == SessionsOf(s.db, id); }
    }
  }

  // ---- Committing an exchange ----

  lemma ExchangeRows(db: Db, x: Txn)
    requires RowsConsistent(db) && SharesHaveHosts(db) && ShareQuotaKept(db)
    requires x.call.Exchange? && x.stage.SessionInserted? && KnowsExchange(db, x, x.call.now)
    ensures var db' := CommittedExchange(db, x.call.now, x.held.share.value, x.stage.row, x.stage.gone, x.held.newSession.value);
      RowsConsistent(db') && SharesHaveHosts(db') && ShareQuotaKept(db')
  {
    var db' := CommittedExchange(db, x.call.now, x.held.share.value, x.stage.row, x.stage.gone, x.held.newSession.value);
    forall other | other in db'.shares ensures HostsOf(db', other) != {} {
      assert HostsOf(db', other) == HostsOf(db, other);
    }
    forall tenant ensures |SharesOf(db', tenant)| <= SHARE_QUOTA {
      assert SharesOf(db', tenant) == SharesOf(db, tenant);
    }
  }

  lemma ExchangeKnows(db: Db, x: Txn, y: Txn)
    requires x.call.Exchange? && x.stage.SessionInserted? && KnowsExchange(db, x, x.call.now)
    requires Knows(db, y) && !Overlap(x.held, y.held)
    ensures Knows(CommittedExchange(db, x.call.now, x.held.share.value, x.stage.row, x.stage.gone, x.held.newSession.value), y)
  {
    var db' := CommittedExchange(db, x.call.now, x.held.share.value, x.stage.row, x.stage.gone, x.held.newSession.value);
    forall other | other != x.held.share.value ensures SessionsOf(db', other) == SessionsOf(db, other) {}
    if y.call.Create? {
      if y.stage != Begun {
        assert SharesOf(db', y.held.tenant.value) == SharesOf(db, y.held.tenant.value);
      }
      if y.stage.ShareInserted? {
        assert !HashTaken(db', y.call.hash);
      }
    }
  }

  lemma ExchangeSessions(db: Db, now: int, share: string, row: ShareRow, h: Digest, id: string)
    requires h !in db.sessions
    ensures SessionsOf(CommittedExchange(db, now, share, row, {}, h), id)
         == SessionsOf(db, id) + if id == share then {h} else {}
  {
  }

  lemma ExchangeCountsOne(db: Db, log: seq<Event>, now: int, row: ShareRow, h: Digest, e: Event, id: string)
    requires ExchangesOf(db, log, id) && h !in db.sessions && e.Exchanged? && e.id in db.shares
    requires db.shares[e.id].revokedAt == None && |SessionsOf(db, e.id)| < SESSION_QUOTA
    ensures ExchangesOf(CommittedExchange(db, now, e.id, row, {}, h), log + [e], id)
  {
    ExchangesAppend(log, e, id);
    ExchangeSessions(db, now, e.id, row, h, id);
    assert h !in SessionsOf(db, id);
  }

  lemma ExchangeCounts(db: Db, log: seq<Event>, x: Txn, e: Event)
    requires ExchangesKept(db, log)
    requires x.call.Exchange? && x.stage.SessionInserted? && KnowsExchange(db, x, x.call.now)
    requires e.Exchanged? && e.id == x.held.share.value
    ensures ExchangesKept(
      CommittedExchange(db, x.call.now, e.id, x.stage.row, x.stage.gone, x.held.newSession.value), log + [e])
  {
    forall id ensures ExchangesOf(CommittedExchange(db, x.call.now, e.id, x.stage.row, {}, x.held.newSession.value), log + [e], id) {
      assert ExchangesOf(db, log, id);
      ExchangeCountsOne(db, log, x.call.now, x.stage.row, x.held.newSession.value, e, id);
    }
  }

  lemma ExchangeCommitKeeps(s: Sys, t: nat, p: Principal)
    requires Inv(s) && t in s.txns && s.txns[t].call.Exchange? && s.txns[t].stage.SessionInserted?
    ensures var x := s.txns[t];
      && x.held.share.Some? && x.held.newSession.Some?
      && Inv(Commit(s, t, CommittedExchange(s.db, x.call.now, x.held.share.value, x.stage.row, x.stage.gone, x.held.newSession.value),
                    Exchanged(x.held.share.value, x.held.newSession.value, p)))
  {
    var x := s.txns[t];
    assert Knows(s.db, x);
    var share, h := x.held.share.value, x.held.newSession.value;
    var e := Exchanged(share, h, p);
    var s' := Commit(s, t, CommittedExchange(s.db, x.call.now, share, x.stage.row, x.stage.gone, h), e);
    ExchangeRows(s.db, x);
    ExchangeCounts(s.db, s.log, x, e);
    forall u | u in s'.txns ensures Knows(s'.db, s'.txns[u]) {
      ExchangeKnows(s.db, x, s.txns[u]);
    }
  }

  // ---- Every statement, every transaction, every run ----

  lemma CreateKeeps(s: Sys, t: nat, freshId: string)
    requires Inv(s) && t in s.txns && s.txns[t].call.Create?
    ensures Inv(AdvanceCreate(s, t, s.txns[t], freshId))
  {
    var x := s.txns[t];
    var c := x.call;
    assert Knows(s.db, x);
    match x.stage
    case Begun =>
      FailKeeps(s, t, Forbidden);
      if AdminTenant(s.db, c.p).Some? {
        GotoKeeps(s, t, Txn(c, TenantLocked, AdminLocks(AdminTenant(s.db, c.p), c.p)));
      }
    case TenantLocked =>
      FailKeeps(s, t, Quota);
      if |SharesOf(s.db, x.held.tenant.value)| < SHARE_QUOTA {
        GotoKeeps(s, t, x.(stage := QuotaChecked));
      }
    case QuotaChecked =>
      FailKeeps(s, t, NotFound);
      CountForcesEveryHost(s.db, c.req.hostUids, x.held.tenant.value);
      if AllHostsOf(s.db, c.req.hostUids, x.held.tenant.value) {
        GotoKeeps(s, t, x.(stage := HostsChecked));
      }
    case HostsChecked =>
      FailKeeps(s, t, Constraint);
      if freshId !in s.db.shares && !HashTaken(s.db, c.hash) {
        GotoKeeps(s, t, Txn(c, ShareInserted(0), x.held.(newShare := Some(freshId), newHash := Some(c.hash))));
      }
    case ShareInserted(rows) => CreateInsertKeeps(s, t, freshId);
    case _ =>
  }

  lemma CreateInsertKeeps(s: Sys, t: nat, freshId: string)
    requires Inv(s) && t in s.txns && s.txns[t].call.Create? && s.txns[t].stage.ShareInserted?
    ensures Inv(AdvanceCreate(s, t, s.txns[t], freshId))
  {
    var x := s.txns[t];
    if x.stage.rows < |x.call.req.hostUids| {
      CreateRowKeeps(s, t, freshId);
    } else {
      CreateCommitKeeps(s, t);
    }
  }

  lemma CreateRowKeeps(s: Sys, t: nat, freshId: string)
    requires Inv(s) && t in s.txns && s.txns[t].call.Create? && s.txns[t].stage.ShareInserted?
    requires s.txns[t].stage.rows < |s.txns[t].call.req.hostUids|
    ensures Inv(AdvanceCreate(s, t, s.txns[t], freshId))
  {
    var x := s.txns[t];
    assert Knows(s.db, x);
    FailKeeps(s, t, Constraint);
    GotoKeeps(s, t, x.(stage := ShareInserted(x.stage.rows + 1)));
  }

  lemma RevokeKeeps(s: Sys, t: nat)
    requires Inv(s) && t in s.txns && s.txns[t].call.Revoke?
    ensures Inv(AdvanceRevoke(s, t, s.txns[t]))
  {
    match s.txns[t].stage
    case Begun => RevokeStartKeeps(s, t);
    case TenantLocked => RevokeStartKeeps(s, t);
    case SessionsCleared(gone) => RevokeCommitKeeps(s, t);
    case _ => RevokeMarkKeeps(s, t);
  }

  lemma RevokeStartKeeps(s: Sys, t: nat)
    requires Inv(s) && t in s.txns && s.txns[t].call.Revoke?
    requires s.txns[t].stage == Begun || s.txns[t].stage == TenantLocked
    ensures Inv(AdvanceRevoke(s, t, s.txns[t]))
  {
    var x := s.txns[t];
    var r := x.call;
    assert Knows(s.db, x);
    if x.stage == Begun {
      FailKeeps(s, t, Forbidden);
      if AdminTenant(s.db, r.p).Some? {
        GotoKeeps(s, t, Txn(r, TenantLocked, AdminLocks(AdminTenant(s.db, r.p), r.p)));
      }
    } else {
      FailKeeps(s, t, NotFound);
      if r.id in s.db.shares {
        GotoKeeps(s, t, x.(stage := ShareFound));
      }
    }
  }

  lemma RevokeMarkKeeps(s: Sys, t: nat)
    requires Inv(s) && t in s.txns && s.txns[t].call.Revoke?
    requires s.txns[t].stage != Begun && s.txns[t].stage != TenantLocked && !s.txns[t].stage.SessionsCleared?
    ensures Inv(AdvanceRevoke(s, t, s.txns[t]))
  {
    var x := s.txns[t];
    var r := x.call;
    assert Knows(s.db, x);
    if x.stage == ShareFound {
      GotoKeeps(s, t, Txn(r, ShareMarked, x.held.(share := Some(r.id))));
    } else if x.stage == ShareMarked {
      GotoKeeps(s, t, x.(stage := SessionsCleared(SessionsOf(s.db, r.id))));
    }
  }

  lemma ExchangeKeeps(s: Sys, t: nat, freshDigest: Digest)
    requires Inv(s) && t in s.txns && s.txns[t].call.Exchange?
    ensures Inv(AdvanceExchange(s, t, s.txns[t], freshDigest))
  {
    assert Knows(s.db, s.txns[t]);
    match s.txns[t].stage
    case Begun => ExchangeStartKeeps(s, t, freshDigest);
    case ShareLocked => ExchangeStartKeeps(s, t, freshDigest);
    case ShareChecked(row) => NoneExpired(s, t);
    case ExpiredRemoved(row, gone) => ExchangeCountKeeps(s, t, freshDigest);
    case SlotsChecked(row, gone) => ExchangeInsertKeeps(s, t, freshDigest);
    case SessionInserted(row, gone) => ExchangeEndKeeps(s, t, freshDigest);
    case _ =>
  }

  lemma ExchangeCountKeeps(s: Sys, t: nat, freshDigest: Digest)
    requires Inv(s) && t in s.txns && s.txns[t].call.Exchange? && s.txns[t].stage.ExpiredRemoved?
    ensures Inv(AdvanceExchange(s, t, s.txns[t], freshDigest))
  {
    var x := s.txns[t];
    assert Knows(s.db, x);
    CountStep(s, t, x, freshDigest);
    if |SessionsOf(s.db, x.held.share.value)| < SESSION_QUOTA {
      GotoKeeps(s, t, x.(stage := SlotsChecked(x.stage.row, x.stage.gone)));
    } else {
      FailKeeps(s, t, Quota);
    }
  }

  lemma CountStep(s: Sys, t: nat, x: Txn, d: Digest)
    requires x.call.Exchange? && x.stage.ExpiredRemoved? && x.stage.gone == {} && x.held.share.Some?
    ensures AdvanceExchange(s, t, x, d) == if |SessionsOf(s.db, x.held.share.value)| >= SESSION_QUOTA then Fail(s, t, Quota)
                                           else Goto(s, t, x.(stage := SlotsChecked(x.stage.row, x.stage.gone)))
  {
    var mine := SessionsOf(s.db, x.held.share.value);
    assert mine - {} == mine;
  }

  lemma ExchangeInsertKeeps(s: Sys, t: nat, freshDigest: Digest)
    requires Inv(s) && t in s.txns && s.txns[t].call.Exchange? && s.txns[t].stage.SlotsChecked?
    ensures Inv(AdvanceExchange(s, t, s.txns[t], freshDigest))
  {
    var x := s.txns[t];
    assert Knows(s.db, x);
    FailKeeps(s, t, Constraint);
    if freshDigest !in s.db.sessions {
      GotoKeeps(s, t, Txn(x.call, SessionInserted(x.stage.row, x.stage.gone), x.held.(newSession := Some(freshDigest))));
    }
  }

  lemma ExchangeStartKeeps(s: Sys, t: nat, freshDigest: Digest)
    requires Inv(s) && t in s.txns && s.txns[t].call.Exchange?
    requires s.txns[t].stage == Begun || s.txns[t].stage == ShareLocked
    ensures Inv(AdvanceExchange(s, t, s.txns[t], freshDigest))
  {
    var x := s.txns[t];
    var c := x.call;
    assert Knows(s.db, x);
    FailKeeps(s, t, Unauthorized);
    if x.stage == Begun {
      if HashTaken(s.db, c.hash) {
        GotoKeeps(s, t, Txn(c, ShareLocked, NOTHING.(share := Some(ShareByHash(s.db, c.hash)))));
      }
    } else {
      var id := x.held.share.value;
      if ValidShare(s.db, id) && s.db.shares[id].expiresAt > c.now {
        GotoKeeps(s, t, x.(stage := ShareChecked(s.db.shares[id])));
      }
    }
  }

  lemma ExchangeEndKeeps(s: Sys, t: nat, freshDigest: Digest)
    requires Inv(s) && t in s.txns && s.txns[t].call.Exchange? && s.txns[t].stage.SessionInserted?
    ensures Inv(AdvanceExchange(s, t, s.txns[t], freshDigest))
  {
    assert Knows(s.db, s.txns[t]);
    var p := EndStep(s, t, s.txns[t], freshDigest);
    ExchangeCommitKeeps(s, t, p);
  }

  lemma EndStep(s: Sys, t: nat, x: Txn, d: Digest) returns (p: Principal)
    requires x.call.Exchange? && x.stage.SessionInserted? && x.held.share.Some? && x.held.newSession.Some?
    ensures AdvanceExchange(s, t, x, d)
         == Commit(s, t, CommittedExchange(s.db, x.call.now, x.held.share.value, x.stage.row, x.stage.gone, x.held.newSession.value),
                   Exchanged(x.held.share.value, x.held.newSession.value, p))
  {
    var row := x.stage.row;
    p := SharePrincipal(s.db, x.held.share.value, row,
                        if row.tenantId in s.db.tenants then s.db.tenants[row.tenantId].code else "");
  }

  /** The clean-up finds nothing: every session of a live share expires with the share. */
  lemma NoneExpired(s: Sys, t: nat)
    requires Inv(s) && t in s.txns && s.txns[t].call.Exchange? && s.txns[t].stage.ShareChecked?
    ensures var x := s.txns[t];
      && x.held.share.Some?
      && (set h | h in SessionsOf(s.db, x.held.share.value) && s.db.sessions[h].expiresAt <= x.call.now) == {}
      && Inv(Goto(s, t, x.(stage := ExpiredRemoved(x.stage.row, {}))))
  {
    var x := s.txns[t];
    assert Knows(s.db, x);
    var gone := set h | h in SessionsOf(s.db, x.held.share.value) && s.db.sessions[h].expiresAt <= x.call.now;
    assert gone == {};
    GotoKeeps(s, t, x.(stage := ExpiredRemoved(x.stage.row, gone)));
  }

  lemma EnvironmentKnows(db: Db, db': Db, y: Txn)
    requires Knows(db, y)
    requires db'.shares == db.shares && db'.sessions == db.sessions
    requires forall uid :: uid in db.hosts ==> uid in db'.hosts && db'.hosts[uid] == db.hosts[uid]
    ensures Knows(db', y)
  {
    if y.call.Create? {
      if y.stage != Begun {
        assert SharesOf(db', y.held.tenant.value) == SharesOf(db, y.held.tenant.value);
      }
      assert HashTaken(db', y.call.hash) == HashTaken(db, y.call.hash);
    } else if y.call.Revoke? {
      assert SessionsOf(db', y.call.id) == SessionsOf(db, y.call.id);
    } else if y.stage != Begun {
      assert SessionsOf(db', y.held.share.value) == SessionsOf(db, y.held.share.value);
    }
  }

  lemma EnvironmentKeeps(s: Sys, db': Db)
    requires Inv(s)
    requires db'.shares == s.db.shares && db'.sessions == s.db.sessions && db'.shareHosts == s.db.shareHosts
    requires forall uid :: uid in s.db.hosts ==> uid in db'.hosts && db'.hosts[uid] == s.db.hosts[uid]
    ensures Inv(s.(db := db'))
  {
    forall t | t in s.txns ensures Knows(db', s.txns[t]) {
      EnvironmentKnows(s.db, db', s.txns[t]);
    }
    forall id | id in db'.shares ensures HostsOf(db', id) != {} {
      assert HostsOf(db', id) == HostsOf(s.db, id);
    }
    forall tenant ensures |SharesOf(db', tenant)| <= SHARE_QUOTA {
      assert SharesOf(db', tenant) == SharesOf(s.db, tenant);
    }
    forall id ensures ExchangesOf(db', s.log, id) {
      assert ExchangesOf(s.db, s.log, id);
      assert SessionsOf(db', id) == SessionsOf(s.db, id);
    }
  }

  lemma BeginKeeps(s: Sys, a: Action)
    requires Inv(s) && (a.BeginCreate? || a.BeginRevoke? || a.BeginExchange?)
    ensures Inv(Apply(s, a))
  {
    match a
    case BeginCreate(t, p, req, hash, now) =>
      FailKeeps(s, t, Forbidden);
      FailKeeps(s, t, BadRequest);
      FailKeeps(s, t, Unauthorized);
      if ShareRequests.Valid(req) && hash.Some? {
        GotoKeeps(s, t, Txn(Create(p, req, hash.value, now), Begun, NOTHING));
      }
    case BeginRevoke(t, p, id, now) => GotoKeeps(s, t, Txn(Revoke(p, id, now), Begun, NOTHING));
    case BeginExchange(t, raw, now) =>
      FailKeeps(s, t, Unauthorized);
      if TokenHash(raw).Some? {
        GotoKeeps(s, t, Txn(Exchange(TokenHash(raw).value, now), Begun, NOTHING));
      }
  }

  lemma AdvanceKeeps(s: Sys, a: Action)
    requires Inv(s) && a.Advance? && a.t in s.txns
    ensures Inv(Apply(s, a))
  {
    if s.txns[a.t].call.Create? {
      CreateKeeps(s, a.t, a.freshId);
    } else if s.txns[a.t].call.Revoke? {
      RevokeKeeps(s, a.t);
    } else {
      ExchangeKeeps(s, a.t, a.freshDigest);
    }
  }

  lemma RollbackKeeps(s: Sys, t: nat)
    requires Inv(s)
    ensures Inv(Apply(s, Rollback(t)))
  {
  }

  lemma StepKeeps(s: Sys, a: Action)
    requires Inv(s)
    ensures Inv(Apply(s, a))
  {
    match a
    case BeginCreate(_, _, _, _, _) => BeginKeeps(s, a);
    case BeginRevoke(_, _, _, _) => BeginKeeps(s, a);
    case BeginExchange(_, _, _) => BeginKeeps(s, a);
    case Advance(t, _, _) => if t in s.txns { AdvanceKeeps(s, a); }
    case Rollback(t) => RollbackKeeps(s, t);
    case _ => EnvironmentStepKeeps(s, a);
  }

  lemma EnvironmentStepKeeps(s: Sys, a: Action)
    requires Inv(s) && (a.SetUser? || a.SetTenant? || a.AddHost?)
    ensures Inv(Apply(s, a))
  {
    EnvironmentStep(s, a);
    EnvironmentKeeps(s, Apply(s, a).db);
  }

  lemma EnvironmentStep(s: Sys, a: Action)
    requires a.SetUser? || a.SetTenant? || a.AddHost?
    ensures var s' := Apply(s, a);
      && s' == s.(db := s'.db) && s'.db.shares == s.db.shares && s'.db.sessions == s.db.sessions
      && s'.db.shareHosts == s.db.shareHosts
      && forall uid :: uid in s.db.hosts ==> uid in s'.db.hosts && s'.db.hosts[uid] == s.db.hosts[uid]
  {
  }

  lemma InitialHolds(s: Sys)
    requires Initial(s)
    ensures Inv(s)
  {
    forall tenant ensures |SharesOf(s.db, tenant)| <= SHARE_QUOTA {
      assert SharesOf(s.db, tenant) == {};
    }
  }

  lemma {:induction false} RunKeeps(s: Sys, actions: seq<Action>)
    requires Inv(s)
    ensures Inv(Run(s, actions))
    decreases |actions|
  {
    if actions != [] {
      StepKeeps(s, actions[0]);
      RunKeeps(Apply(s, actions[0]), actions[1..]);
    }
  }

  // ---- Theorems ----

  /** The grant a share stands for: only the time of revocation may still be filled in. */
  ghost predicate SameGrant(db: Db, db': Db, id: string) {
    && id in db.shares && id in db'.shares
    && db'.shares[id].(revokedAt := None) == db.shares[id].(revokedAt := None)
    && (db.shares[id].revokedAt.Some? ==> db'.shares[id] == db.shares[id])
    && HostsOf(db', id) == HostsOf(db, id)
  }

  /** From `s` to `s'` the share keeps its grant and, once revoked, its count of exchanges. */
  ghost predicate Fixed(s: Sys, s': Sys, id: string) {
    && SameGrant(s.db, s'.db, id)
    && (s.db.shares[id].revokedAt.Some? ==> Exchanges(s'.log, id) == Exchanges(s.log, id))
  }

  lemma QuietFixes(s: Sys, s': Sys, id: string)
    requires id in s.db.shares && s'.db.shares == s.db.shares && s'.db.shareHosts == s.db.shareHosts
    requires s'.log == s.log || (|s'.log| > |s.log| && s'.log == s.log + [s'.log[|s.log|]] && s'.log[|s.log|].Failed?)
    ensures Fixed(s, s', id)
  {
    if s'.log != s.log { ExchangesAppend(s.log, s'.log[|s.log|], id); }
    assert HostsOf(s'.db, id) == HostsOf(s.db, id);
  }

  lemma CreateCommitFixes(s: Sys, t: nat, c: Call, tenant: int, newId: string, id: string)
    requires c.Create? && newId !in s.db.shares && id in s.db.shares
    ensures Fixed(s, Commit(s, t, CommittedCreate(s.db, c, tenant, newId), Created(newId)), id)
  {
    ExchangesAppend(s.log, Created(newId), id);
    CreateSameHosts(s.db, c, tenant, newId, id);
    CreateSameRow(s.db, c, tenant, newId, id);
  }

  lemma CreateSameHosts(db: Db, c: Call, tenant: int, newId: string, id: string)
    requires c.Create? && newId != id
    ensures HostsOf(CommittedCreate(db, c, tenant, newId), id) == HostsOf(db, id)
  {
    var db' := CommittedCreate(db, c, tenant, newId);
    forall row | row in db'.shareHosts && row.shareId == id ensures row in db.shareHosts {
    }
  }

  lemma CreateSameRow(db: Db, c: Call, tenant: int, newId: string, id: string)
    requires c.Create? && newId != id && id in db.shares
    ensures var db' := CommittedCreate(db, c, tenant, newId); id in db'.shares && db'.shares[id] == db.shares[id]
  {
  }

  lemma RevokeCommitFixes(s: Sys, t: nat, revoked: string, now: int, gone: set<Digest>, id: string)
    requires revoked in s.db.shares && id in s.db.shares
    ensures Fixed(s, Commit(s, t, CommittedRevoke(s.db, revoked, now, gone), Revoked(revoked)), id)
  {
    ExchangesAppend(s.log, Revoked(revoked), id);
    assert HostsOf(CommittedRevoke(s.db, revoked, now, gone), id) == HostsOf(s.db, id);
  }

  lemma HostsDependOnHostRows(db: Db, db': Db, id: string)
    requires db'.shareHosts == db.shareHosts
    ensures HostsOf(db', id) == HostsOf(db, id)
  {
  }

  lemma ExchangeCommitFixes(s: Sys, t: nat, db': Db, e: Event, id: string)
    requires id in s.db.shares && db'.shares == s.db.shares && db'.shareHosts == s.db.shareHosts
    requires e.Exchanged? && (e.id == id ==> s.db.shares[id].revokedAt == None)
    ensures Fixed(s, Commit(s, t, db', e), id)
  {
    ExchangesAppend(s.log, e, id);
    HostsDependOnHostRows(s.db, db', id);
  }

  lemma CreateFixes(s: Sys, t: nat, x: Txn, freshId: string, id: string)
    requires x.call.Create? && KnowsCreate(s.db, x) && id in s.db.shares
    ensures Fixed(s, AdvanceCreate(s, t, x, freshId), id)
  {
    var s' := AdvanceCreate(s, t, x, freshId);
    if x.stage.ShareInserted? && x.stage.rows >= |x.call.req.hostUids| {
      CreateCommitFixes(s, t, x.call, x.held.tenant.value, x.held.newShare.value, id);
    } else {
      QuietFixes(s, s', id);
    }
  }

  lemma RevokeFixes(s: Sys, t: nat, x: Txn, id: string)
    requires x.call.Revoke? && id in s.db.shares
    ensures Fixed(s, AdvanceRevoke(s, t, x), id)
  {
    var s' := AdvanceRevoke(s, t, x);
    if x.stage.SessionsCleared? && x.call.id in s.db.shares {
      RevokeCommitFixes(s, t, x.call.id, x.call.now, x.stage.gone, id);
    } else {
      QuietFixes(s, s', id);
    }
  }

  lemma ExchangeFixes(s: Sys, t: nat, x: Txn, d: Digest, id: string)
    requires x.call.Exchange? && KnowsExchange(s.db, x, x.call.now) && id in s.db.shares
    ensures Fixed(s, AdvanceExchange(s, t, x, d), id)
  {
    var s' := AdvanceExchange(s, t, x, d);
    if x.stage.SessionInserted? {
      ExchangeEndFixes(s, t, x, d, id);
    } else {
      QuietFixes(s, s', id);
    }
  }

  lemma ExchangeEndFixes(s: Sys, t: nat, x: Txn, d: Digest, id: string)
    requires x.call.Exchange? && KnowsExchange(s.db, x, x.call.now) && id in s.db.shares && x.stage.SessionInserted?
    ensures Fixed(s, AdvanceExchange(s, t, x, d), id)
  {
    var s' := AdvanceExchange(s, t, x, d);
    ExchangeCommitFixes(s, t, s'.db, s'.log[|s.log|], id);
  }

  lemma AdvanceFixes(s: Sys, a: Action, id: string)
    requires AllKnow(s.db, s.txns) && id in s.db.shares && a.Advance? && a.t in s.txns
    ensures Fixed(s, Apply(s, a), id)
  {
    var x := s.txns[a.t];
    assert Knows(s.db, x);
    if x.call.Create? {
      CreateFixes(s, a.t, x, a.freshId, id);
    } else if x.call.Revoke? {
      RevokeFixes(s, a.t, x, id);
    } else {
      ExchangeFixes(s, a.t, x, a.freshDigest, id);
    }
  }

  lemma StepFixes(s: Sys, a: Action, id: string)
    requires AllKnow(s.db, s.txns) && id in s.db.shares
    ensures Fixed(s, Apply(s, a), id)
  {
    if a.Advance? && a.t in s.txns {
      AdvanceFixes(s, a, id);
    } else {
      QuietFixes(s, Apply(s, a), id);
    }
  }

  /** Title, hosts, fields, tenant and expiry of a share are settled when it is created. */
  lemma {:induction false} GrantNeverChanges(s: Sys, actions: seq<Action>, id: string)
    requires Inv(s) && id in s.db.shares
    ensures Fixed(s, Run(s, actions), id)
    decreases |actions|
  {
    if actions != [] {
      StepFixes(s, actions[0], id);
      StepKeeps(s, actions[0]);
      GrantNeverChanges(Apply(s, actions[0]), actions[1..], id);
    }
  }

  /**
   Once a revocation has committed, the share has no session and is found by neither link
   nor session token, for ever and whatever was under way at the time: not even a
   transaction that began to exchange the link earlier can add a session any more.
   */
  lemma RevocationIsFinal(s0: Sys, before: seq<Action>, after: seq<Action>, id: string)
    requires Initial(s0) && Revoked(id) in Run(s0, before).log
    ensures var s, s' := Run(s0, before), Run(Run(s0, before), after);
      && SameGrant(s.db, s'.db, id) && s'.db.shares[id].revokedAt.Some?
      && SessionsOf(s'.db, id) == {}
      && Exchanges(s'.log, id) == Exchanges(s.log, id)
      && (forall raw, now :: !SessionFinds(s'.db, raw, now, id))
      && (forall raw, kind, now, other :: TokenHash(raw) == Some(s'.db.shares[id].tokenHash) ==>
            !LinkFinds(s'.db, raw, kind, now, other))
  {
    InitialHolds(s0);
    RunKeeps(s0, before);
    var s := Run(s0, before);
    RunKeeps(s, after);
    GrantNeverChanges(s, after, id);
  }

  /** Over its whole life a share is exchanged at most 100 times, revoked or not, expired or not. */
  lemma ExchangedAtMostHundredTimes(s0: Sys, actions: seq<Action>, id: string)
    requires Initial(s0)
    ensures Exchanges(Run(s0, actions).log, id) <= SESSION_QUOTA
  {
    InitialHolds(s0);
    RunKeeps(s0, actions);
    assert ExchangesOf(Run(s0, actions).db, Run(s0, actions).log, id);
  }

  /** However creators interleave: at most 100 shares per tenant, each over that tenant's own hosts. */
  lemma TenantQuotaAndScope(s0: Sys, actions: seq<Action>, tenant: int)
    requires Initial(s0)
    ensures var db := Run(s0, actions).db;
      && |SharesOf(db, tenant)| <= SHARE_QUOTA
      && forall id :: id in SharesOf(db, tenant) ==>
           && HostsOf(db, id) != {}
           && forall uid :: uid in HostsOf(db, id) ==> uid in db.hosts && db.hosts[uid] == tenant
  {
    InitialHolds(s0);
    RunKeeps(s0, actions);
  }
}
