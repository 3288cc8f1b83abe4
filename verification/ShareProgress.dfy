/** That the protocol gets somewhere: no deadlock, and an undisturbed exchange does what it should. */
module ShareProgress {
  import opened Outcomes
  import opened Access
  import opened Tokens
  import opened ShareTables
  import opened ShareProtocol
  import opened ShareTheorems

  // ---- Somebody can always move ----

  /** Locks are taken in the order tenant, share, new key; this is how far a transaction has come. */
  function Rank(held: Held): (r: nat) {
    if held.newShare.Some? || held.newHash.Some? || held.newSession.Some? then 3
    else if held.share.Some? then 2
    else if held.tenant.Some? then 1
    else 0
  }

  ghost predicate Foremost(s: Sys, t: nat) {
    t in s.txns && forall u :: u in s.txns ==> Rank(s.txns[u].held) <= Rank(s.txns[t].held)
  }

  lemma ForemostExists(s: Sys)
    requires s.txns != map[]
    ensures exists t :: Foremost(s, t)
  {
    assert s.txns.Keys != {};
    if t :| t in s.txns && Rank(s.txns[t].held) == 3 {
      assert Foremost(s, t);
    } else if t :| t in s.txns && Rank(s.txns[t].held) == 2 {
      assert Foremost(s, t);
    } else if t :| t in s.txns && Rank(s.txns[t].held) == 1 {
      assert Foremost(s, t);
    } else {
      var t :| t in s.txns;
      assert Foremost(s, t);
    }
  }

  /** What the foremost transaction takes next is free. */
  lemma NextIsFree(s: Sys, t: nat, held: Held)
    requires Exclusive(s.txns) && Foremost(s, t)
    requires var mine := s.txns[t].held;
      || held == mine
      || (Rank(mine) == 0)
      || (Rank(mine) == 1 && held.tenant == mine.tenant)
      || (Rank(mine) == 2 && held.tenant == mine.tenant && held.share == mine.share)
    ensures !MustWait(s.txns, t, held)
  {
    forall u | u in s.txns && u != t ensures !Overlap(held, s.txns[u].held) {
      assert !Overlap(s.txns[t].held, s.txns[u].held);
    }
  }

  lemma CreateMoves(s: Sys, t: nat, i: string)
    requires Exclusive(s.txns) && Foremost(s, t) && s.txns[t].call.Create? && KnowsCreate(s.db, s.txns[t])
    ensures AdvanceCreate(s, t, s.txns[t], i) != s
  {
    var x := s.txns[t];
    NextIsFree(s, t, x.held);
    if x.stage == Begun && AdminTenant(s.db, x.call.p).Some? {
      NextIsFree(s, t, AdminLocks(AdminTenant(s.db, x.call.p), x.call.p));
    }
    if x.stage == HostsChecked {
      NextIsFree(s, t, x.held.(newShare := Some(i), newHash := Some(x.call.hash)));
    }
  }

  lemma RevokeMoves(s: Sys, t: nat)
    requires Exclusive(s.txns) && Foremost(s, t) && s.txns[t].call.Revoke? && KnowsRevoke(s.db, s.txns[t], s.txns[t].call.id)
    ensures AdvanceRevoke(s, t, s.txns[t]) != s
  {
    var x := s.txns[t];
    NextIsFree(s, t, x.held);
    if x.stage == Begun && AdminTenant(s.db, x.call.p).Some? {
      NextIsFree(s, t, AdminLocks(AdminTenant(s.db, x.call.p), x.call.p));
    }
    if x.stage == ShareFound {
      NextIsFree(s, t, x.held.(share := Some(x.call.id)));
    }
  }

  lemma ExchangeMoves(s: Sys, t: nat, d: Digest)
    requires Exclusive(s.txns) && Foremost(s, t) && s.txns[t].call.Exchange?
    requires KnowsExchange(s.db, s.txns[t], s.txns[t].call.now)
    ensures AdvanceExchange(s, t, s.txns[t], d) != s
  {
    var x := s.txns[t];
    NextIsFree(s, t, x.held);
    if x.stage == Begun && HashTaken(s.db, x.call.hash) {
      NextIsFree(s, t, NOTHING.(share := Some(ShareByHash(s.db, x.call.hash))));
    }
    if x.stage.SlotsChecked? {
      NextIsFree(s, t, x.held.(newSession := Some(d)));
    }
  }

  /** While any transaction is open, one of them can complete its next statement. */
  lemma NoDeadlock(s: Sys)
    requires Inv(s) && s.txns != map[]
    ensures exists t :: t in s.txns && forall i, d :: Apply(s, Advance(t, i, d)) != s
  {
    ForemostExists(s);
    var t :| Foremost(s, t);
    assert Knows(s.db, s.txns[t]);
    forall i, d ensures Apply(s, Advance(t, i, d)) != s {
      if s.txns[t].call.Create? {
        CreateMoves(s, t, i);
      } else if s.txns[t].call.Revoke? {
        RevokeMoves(s, t);
      } else {
        ExchangeMoves(s, t, d);
      }
    }
  }

  // ---- Exchanging with nobody else about ----

  ghost function Steps(s: Sys, t: nat, d: Digest, n: nat): (s': Sys)
    decreases n
  {
    if n == 0 then s else Steps(Apply(s, Advance(t, "", d)), t, d, n - 1)
  }

  /** The statements of one exchange, run to the end without another transaction. */
  ghost function ExchangeAlone(s: Sys, t: nat, raw: string, now: int, d: Digest): (s': Sys) {
    Steps(Apply(s, BeginExchange(t, raw, now)), t, d, 6)
  }

  lemma {:induction false} StepsAfterEnd(s: Sys, t: nat, d: Digest, n: nat)
    requires t !in s.txns
    ensures Steps(s, t, d, n) == s
  {
    if n > 0 { StepsAfterEnd(s, t, d, n - 1); }
  }

  /** One statement of the only open transaction. */
  lemma StepAlone(s: Sys, t: nat, x: Txn, d: Digest, n: nat)
    requires s.txns == map[t := x] && x.call.Exchange?
    ensures Steps(s, t, d, n + 1) == Steps(AdvanceExchange(s, t, x, d), t, d, n)
  {
  }

  lemma GotoAlone(s: Sys, t: nat, x: Txn, y: Txn)
    requires s.txns == map[t := x]
    ensures Goto(s, t, y) == s.(txns := map[t := y])
  {
    assert s.txns[t := y] == map[t := y];
  }

  /** What the end of an exchange leaves behind. */
  ghost predicate Ended(s: Sys, s': Sys, t: nat, now: int, d: Digest, id: string, row: ShareRow) {
    if |SessionsOf(s.db, id)| >= SESSION_QUOTA then s'.db == s.db && s'.log == s.log + [Failed(t, Quota)]
    else
      && s'.db == CommittedExchange(s.db, now, id, row, {}, d)
      && |s'.log| == |s.log| + 1 && s'.log == s.log + [s'.log[|s.log|]]
      && s'.log[|s.log|].Exchanged? && s'.log[|s.log|].id == id
  }

  /** The last two statements: insert the new session, commit. */
  lemma ExchangeAloneInserts(s: Sys, x: Txn, t: nat, d: Digest, id: string, row: ShareRow)
    requires x == Txn(x.call, SlotsChecked(row, {}), NOTHING.(share := Some(id))) && x.call.Exchange?
    requires s.txns == map[t := x] && d !in s.db.sessions && |SessionsOf(s.db, id)| < SESSION_QUOTA
    ensures Ended(s, Steps(s, t, d, 2), t, x.call.now, d, id, row)
  {
    var x' := Txn(x.call, SessionInserted(row, {}), x.held.(newSession := Some(d)));
    StepAlone(s, t, x, d, 1);
    GotoAlone(s, t, x, x');
    StepAlone(s.(txns := map[t := x']), t, x', d, 0);
  }

  /** The last three: count the sessions first. */
  lemma ExchangeAloneEnds(s: Sys, x: Txn, t: nat, d: Digest, id: string, row: ShareRow)
    requires x == Txn(x.call, ExpiredRemoved(row, {}), NOTHING.(share := Some(id))) && x.call.Exchange?
    requires s.txns == map[t := x] && d !in s.db.sessions
    ensures Ended(s, Steps(s, t, d, 3), t, x.call.now, d, id, row)
  {
    var mine := SessionsOf(s.db, id);
    assert mine - {} == mine;
    StepAlone(s, t, x, d, 2);
    if |mine| >= SESSION_QUOTA {
      StepsAfterEnd(Fail(s, t, Quota), t, d, 2);
    } else {
      var x' := x.(stage := SlotsChecked(row, {}));
      GotoAlone(s, t, x, x');
      ExchangeAloneInserts(s.(txns := map[t := x']), x', t, d, id, row);
    }
  }

  /** The share row is checked and no session of it has expired. */
  lemma ExchangeAloneChecks(s: Sys, x: Txn, t: nat, id: string, d: Digest)
    requires RowsConsistent(s.db) && x.call.Exchange? && x == Txn(x.call, ShareLocked, NOTHING.(share := Some(id)))
    requires s.txns == map[t := x] && ValidShare(s.db, id) && s.db.shares[id].expiresAt > x.call.now
    ensures Steps(s, t, d, 2) == s.(txns := map[t := x.(stage := ExpiredRemoved(s.db.shares[id], {}))])
  {
    var x' := x.(stage := ShareChecked(s.db.shares[id]));
    StepAlone(s, t, x, d, 1);
    GotoAlone(s, t, x, x');
    var s' := s.(txns := map[t := x']);
    StepAlone(s', t, x', d, 0);
    assert (set h | h in SessionsOf(s.db, id) && s.db.sessions[h].expiresAt <= x.call.now) == {};
    GotoAlone(s', t, x', x.(stage := ExpiredRemoved(s.db.shares[id], {})));
  }

  lemma ExchangeAloneRefused(s: Sys, x: Txn, t: nat, id: string, d: Digest)
    requires x.call.Exchange? && x == Txn(x.call, ShareLocked, NOTHING.(share := Some(id))) && s.txns == map[t := x]
    requires !(ValidShare(s.db, id) && s.db.shares[id].expiresAt > x.call.now)
    ensures Steps(s, t, d, 2) == Fail(s, t, Unauthorized)
  {
    StepAlone(s, t, x, d, 1);
    StepsAfterEnd(Fail(s, t, Unauthorized), t, d, 1);
  }

  /** The first three: lock the share, check it, find no expired session. */
  lemma ExchangeAloneBegins(s: Sys, t: nat, id: string, c: Call, d: Digest)
    requires RowsConsistent(s.db) && c.Exchange? && s.txns == map[t := Txn(c, Begun, NOTHING)]
    requires id in s.db.shares && s.db.shares[id].tokenHash == c.hash
    ensures var s' := Steps(s, t, d, 3);
      if ValidShare(s.db, id) && s.db.shares[id].expiresAt > c.now then
        s' == s.(txns := map[t := Txn(c, ExpiredRemoved(s.db.shares[id], {}), NOTHING.(share := Some(id)))])
      else s' == Fail(s, t, Unauthorized)
  {
    assert HashTaken(s.db, c.hash) && ShareByHash(s.db, c.hash) == id;
    StepAlone(s, t, Txn(c, Begun, NOTHING), d, 2);
    var x1 := Txn(c, ShareLocked, NOTHING.(share := Some(id)));
    GotoAlone(s, t, Txn(c, Begun, NOTHING), x1);
    var s1 := s.(txns := map[t := x1]);
    if ValidShare(s.db, id) && s.db.shares[id].expiresAt > c.now {
      ExchangeAloneChecks(s1, x1, t, id, d);
    } else {
      ExchangeAloneRefused(s1, x1, t, id, d);
    }
  }

  lemma {:induction false} StepsCompose(s: Sys, t: nat, d: Digest, m: nat, n: nat)
    ensures Steps(s, t, d, m + n) == Steps(Steps(s, t, d, m), t, d, n)
    decreases m
  {
    if m > 0 { StepsCompose(Apply(s, Advance(t, "", d)), t, d, m - 1, n); }
  }

  lemma ExchangeAloneReaches(s: Sys, t: nat, id: string, raw: string, now: int, d: Digest)
    requires RowsConsistent(s.db) && s.txns == map[] && id in s.db.shares && d !in s.db.sessions
    requires TokenHash(raw) == Some(s.db.shares[id].tokenHash)
    ensures var s' := ExchangeAlone(s, t, raw, now, d);
      if LinkFinds(s.db, raw, Share, now, id) then Ended(s, s', t, now, d, id, s.db.shares[id])
      else s'.db == s.db && s'.log == s.log + [Failed(t, Unauthorized)]
  {
    var c := Exchange(TokenHash(raw).value, now);
    var s1 := Apply(s, BeginExchange(t, raw, now));
    assert s1 == s.(txns := map[t := Txn(c, Begun, NOTHING)]) by { assert s.txns[t := Txn(c, Begun, NOTHING)] == map[t := Txn(c, Begun, NOTHING)]; }
    StepsCompose(s1, t, d, 3, 3);
    ExchangeAloneBegins(s1, t, id, c, d);
    var s4 := Steps(s1, t, d, 3);
    if LinkFinds(s.db, raw, Share, now, id) {
      ExchangeAloneEnds(s4, s4.txns[t], t, d, id, s.db.shares[id]);
    } else {
      StepsAfterEnd(s4, t, d, 3);
    }
  }

  lemma NewSessionOpens(db: Db, now: int, id: string, token: string)
    requires ValidShare(db, id) && TokenHash(token).Some?
    ensures var db' := CommittedExchange(db, now, id, db.shares[id], {}, TokenHash(token).value);
      forall later :: SessionFinds(db', token, later, id) <==> later < db.shares[id].expiresAt
  {
  }

  /**
   Left alone, an exchange succeeds exactly when the link is valid at that time and has been
   exchanged fewer than 100 times; the new session then opens this share until it expires.
   */
  lemma ExchangeAloneSucceeds(s: Sys, t: nat, id: string, raw: string, now: int, token: string)
    requires Inv(s) && s.txns == map[] && id in s.db.shares
    requires TokenHash(raw) == Some(s.db.shares[id].tokenHash)
    requires TokenHash(token).Some? && TokenHash(token).value !in s.db.sessions
    ensures var s' := ExchangeAlone(s, t, raw, now, TokenHash(token).value);
      var succeeds := LinkFinds(s.db, raw, Share, now, id) && Exchanges(s.log, id) < SESSION_QUOTA;
      && Exchanges(s'.log, id) == Exchanges(s.log, id) + (if succeeds then 1 else 0)
      && (succeeds ==> forall later :: SessionFinds(s'.db, token, later, id) <==> later < s.db.shares[id].expiresAt)
      && (!succeeds ==> s'.db == s.db)
  {
    var d := TokenHash(token).value;
    var s' := ExchangeAlone(s, t, raw, now, d);
    ExchangeAloneReaches(s, t, id, raw, now, d);
    assert ExchangesOf(s.db, s.log, id);
    assert s'.log == s.log + [s'.log[|s.log|]];
    ExchangesAppend(s.log, s'.log[|s.log|], id);
    if LinkFinds(s.db, raw, Share, now, id) { NewSessionOpens(s.db, now, id, token); }
  }
}
