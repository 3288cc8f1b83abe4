/**
 The tables behind share links, with the keys the schema declares: shares by id and
 by token hash, sessions by token hash, share hosts by (share, host), hosts by uid.
 */
module ShareTables {
  import opened Outcomes
  import opened Access
  import opened Tokens
  import opened Text

  datatype ShareRow = ShareRow(
    tenantId: int, title: string, tokenHash: Digest, fields: seq<string>,
    expiresAt: int, createdBy: int, createdAt: int, revokedAt: Option<int>)
  datatype SessionRow = SessionRow(shareId: string, expiresAt: int, createdAt: int)
  datatype ShareHostRow = ShareHostRow(shareId: string, tenantId: int, hostUid: string)
  datatype UserRow = UserRow(tenantId: int, active: bool, role: string)
  datatype TenantRow = TenantRow(code: string, active: bool)

  datatype Db = Db(
    shares: map<string, ShareRow>, shareHosts: set<ShareHostRow>, sessions: map<Digest, SessionRow>,
    users: map<int, UserRow>, tenants: map<int, TenantRow>, hosts: map<string, int>)

  function SessionsOf(db: Db, id: string): set<Digest> {
    set h | h in db.sessions && db.sessions[h].shareId == id
  }

  function SharesOf(db: Db, tenant: int): set<string> {
    set id | id in db.shares && db.shares[id].tenantId == tenant
  }

  function HostsOf(db: Db, id: string): set<string> {
    set row | row in db.shareHosts && row.shareId == id :: row.hostUid
  }

  function MatchingHosts(db: Db, tenant: int, uids: seq<string>): set<string> {
    set uid | uid in db.hosts && uid in uids && db.hosts[uid] == tenant
  }

  predicate HashTaken(db: Db, hash: Digest) {
    exists id :: id in db.shares && db.shares[id].tokenHash == hash
  }

  ghost function ShareByHash(db: Db, hash: Digest): (id: string)
    requires HashTaken(db, hash)
    ensures id in db.shares && db.shares[id].tokenHash == hash
  {
    var id :| id in db.shares && db.shares[id].tokenHash == hash;
    id
  }

  /** The tenant an administrator may act for, by the current user and tenant rows. */
  function AdminTenant(db: Db, p: Principal): (tenant: Option<int>) {
    if !p.IsAdmin() || p.userId !in db.users then None
    else
      var user := db.users[p.userId];
      if user.tenantId in db.tenants && db.tenants[user.tenantId] == TenantRow(p.tenantCode, true)
         && user.active && user.role == "admin"
      then Some(user.tenantId) else None
  }

  /** A row `validShare` can return: not revoked, tenant active, creator still an active admin of it. */
  predicate ValidShare(db: Db, id: string) {
    && id in db.shares
    && var row := db.shares[id];
       && row.revokedAt == None
       && row.tenantId in db.tenants && db.tenants[row.tenantId].active
       && row.createdBy in db.users
       && db.users[row.createdBy] == UserRow(row.tenantId, true, "admin")
  }

  /** `Authenticate` finds this share for this link token at this time. */
  predicate LinkFinds(db: Db, raw: string, kind: Kind, now: int, id: string) {
    && kind == Share && TokenHash(raw).Some?
    && ValidShare(db, id) && db.shares[id].tokenHash == TokenHash(raw).value && db.shares[id].expiresAt > now
  }

  /** `AuthenticateShareSession` finds this share for this session token at this time. */
  predicate SessionFinds(db: Db, raw: string, now: int, id: string) {
    && TokenHash(raw).Some?
    && ValidShare(db, id) && db.shares[id].expiresAt > now
    && var h := TokenHash(raw).value;
       h in db.sessions && db.sessions[h].shareId == id && db.sessions[h].expiresAt > now
  }

  /** The principal built from a share row; its hosts come from a second statement, hence `db`. */
  ghost function SharePrincipal(db: Db, id: string, row: ShareRow, tenantCode: string): (p: Principal) {
    var hosts := set h | h in db.shareHosts && h.shareId == id && h.tenantId == row.tenantId :: h.hostUid;
    Principal(Share, row.tenantId, tenantCode, 0, "", "", "", id, SortedKeys(hosts), row.fields)
  }

  ghost predicate RowsConsistent(db: Db) {
    && (forall h :: h in db.sessions ==>
          && db.sessions[h].shareId in db.shares
          && db.shares[db.sessions[h].shareId].revokedAt == None
          && db.sessions[h].expiresAt == db.shares[db.sessions[h].shareId].expiresAt)
    && (forall row :: row in db.shareHosts ==>
          && row.shareId in db.shares && db.shares[row.shareId].tenantId == row.tenantId
          && row.hostUid in db.hosts && db.hosts[row.hostUid] == row.tenantId)
    && (forall a, b :: a in db.shares && b in db.shares && db.shares[a].tokenHash == db.shares[b].tokenHash ==> a == b)
  }
}

/**
 Creation, revocation and exchange as transactions that interleave statement by
 statement. Writes stay private to a transaction until it commits; every statement
 reads the latest committed rows and the transaction's own writes; row locks, taken by
 `FOR UPDATE` or by an `UPDATE`, are held until the transaction ends.
 */
module ShareProtocol {
  import opened Outcomes
  import opened Access
  import opened Tokens
  import opened ShareTables
  import ShareRequests

  const SHARE_QUOTA := 100
  const SESSION_QUOTA := 100

  datatype Call =
    | Create(p: Principal, req: ShareRequests.CreateShareRequest, hash: Digest, now: int)
    | Revoke(p: Principal, id: string, now: int)
    | Exchange(hash: Digest, now: int)

  /** The statement a transaction has completed last, with what it read. */
  datatype Stage =
    | Begun
    | TenantLocked
    | QuotaChecked | HostsChecked | ShareInserted(rows: nat)
    | ShareFound | ShareMarked | SessionsCleared(gone: set<Digest>)
    | ShareLocked | ShareChecked(row: ShareRow) | ExpiredRemoved(row: ShareRow, gone: set<Digest>)
    | SlotsChecked(row: ShareRow, gone: set<Digest>) | SessionInserted(row: ShareRow, gone: set<Digest>)

  /** Row locks, exclusive except for the shared one on a user, and keys of rows inserted but not yet committed. */
  datatype Held = Held(
    tenant: Option<int>, share: Option<string>,
    newShare: Option<string>, newHash: Option<Digest>, newSession: Option<Digest>, user: Option<int>)

  const NOTHING := Held(None, None, None, None, None, None)

  /** What the check of an administrator locks: the tenant for update, the user shared. */
  function AdminLocks(tenant: Option<int>, p: Principal): Held {
    NOTHING.(tenant := tenant, user := Some(p.userId))
  }

  datatype Txn = Txn(call: Call, stage: Stage, held: Held)

  datatype Event =
    | Created(id: string)
    | Revoked(id: string)
    | Exchanged(id: string, session: Digest, p: Principal)
    | Failed(txn: nat, error: Error)

  /** Committed tables, open transactions, and the history of what callers were told. */
  datatype Sys = Sys(db: Db, txns: map<nat, Txn>, log: seq<Event>)

  /** What one step of the world can be. `Advance` runs the next statement of a transaction. */
  datatype Action =
    | BeginCreate(t: nat, p: Principal, req: ShareRequests.CreateShareRequest, hash: Option<Digest>, now: int)
    | BeginRevoke(t: nat, p: Principal, id: string, now: int)
    | BeginExchange(t: nat, raw: string, now: int)
    | Advance(t: nat, freshId: string, freshDigest: Digest)
    | Rollback(t: nat)
    | SetUser(uid: int, user: UserRow)
    | SetTenant(tid: int, tenant: TenantRow)
    | AddHost(hostUid: string, tid: int)

  predicate Same<T(==)>(a: Option<T>, b: Option<T>) {
    a.Some? && a == b
  }

  predicate Overlap(a: Held, b: Held) {
    || Same(a.tenant, b.tenant) || Same(a.share, b.share)
    || Same(a.newShare, b.newShare) || Same(a.newHash, b.newHash) || Same(a.newSession, b.newSession)
  }

  predicate MustWait(txns: map<nat, Txn>, t: nat, held: Held) {
    exists u :: u in txns && u != t && Overlap(held, txns[u].held)
  }

  /** Both kinds of lock keep the row from being updated. */
  predicate UserLocked(txns: map<nat, Txn>, uid: int) {
    exists u :: u in txns && txns[u].held.user == Some(uid)
  }

  predicate TenantRowLocked(txns: map<nat, Txn>, tid: int) {
    exists u :: u in txns && txns[u].held.tenant == Some(tid)
  }

  /** Completes a statement, unless another open transaction holds a lock or key it takes. */
  function Goto(s: Sys, t: nat, x: Txn): Sys {
    if MustWait(s.txns, t, x.held) then s else s.(txns := s.txns[t := x])
  }

  function Fail(s: Sys, t: nat, e: Error): Sys {
    Sys(s.db, s.txns - {t}, s.log + [Failed(t, e)])
  }

  function Commit(s: Sys, t: nat, db: Db, e: Event): Sys {
    Sys(db, s.txns - {t}, s.log + [e])
  }

  function CreatedRow(c: Call, tenant: int): ShareRow
    requires c.Create?
  {
    ShareRow(tenant, c.req.title, c.hash, c.req.fields, c.now + c.req.ttlSeconds, c.p.userId, c.now, None)
  }

  function CommittedCreate(db: Db, c: Call, tenant: int, id: string): Db
    requires c.Create?
  {
    db.(shares := db.shares[id := CreatedRow(c, tenant)],
        shareHosts := db.shareHosts + set uid | uid in c.req.hostUids :: ShareHostRow(id, tenant, uid))
  }

  function RevokedRow(row: ShareRow, now: int): ShareRow {
    row.(revokedAt := if row.revokedAt.None? then Some(now) else row.revokedAt)
  }

  function CommittedRevoke(db: Db, id: string, now: int, gone: set<Digest>): Db
    requires id in db.shares
  {
    db.(shares := db.shares[id := RevokedRow(db.shares[id], now)], sessions := db.sessions - gone)
  }

  function CommittedExchange(db: Db, now: int, id: string, row: ShareRow, gone: set<Digest>, h: Digest): Db {
    db.(sessions := (db.sessions - gone)[h := SessionRow(id, row.expiresAt, now)])
  }

  ghost function AdvanceCreate(s: Sys, t: nat, x: Txn, freshId: string): (s': Sys)
    requires x.call.Create?
  {
    var c := x.call;
    match (x.stage, x.held.tenant)
    case (Begun, _) =>
      (match AdminTenant(s.db, c.p)
       case None => Fail(s, t, Forbidden)
       case Some(tenant) => Goto(s, t, Txn(c, TenantLocked, AdminLocks(Some(tenant), c.p))))
    case (TenantLocked, Some(tenant)) =>
      if |SharesOf(s.db, tenant)| >= SHARE_QUOTA then Fail(s, t, Quota) else Goto(s, t, x.(stage := QuotaChecked))
    case (QuotaChecked, Some(tenant)) =>
      if |MatchingHosts(s.db, tenant, c.req.hostUids)| != |c.req.hostUids| then Fail(s, t, NotFound)
      else Goto(s, t, x.(stage := HostsChecked))
    case (HostsChecked, Some(tenant)) =>
      if freshId in s.db.shares || HashTaken(s.db, c.hash) then Fail(s, t, Constraint)
      else Goto(s, t, Txn(c, ShareInserted(0), x.held.(newShare := Some(freshId), newHash := Some(c.hash))))
    case (ShareInserted(rows), Some(tenant)) =>
      if rows < |c.req.hostUids| then
        var uid := c.req.hostUids[rows];
        if uid in s.db.hosts && s.db.hosts[uid] == tenant then Goto(s, t, x.(stage := ShareInserted(rows + 1)))
        else Fail(s, t, Constraint)
      else if x.held.newShare.Some? then
        Commit(s, t, CommittedCreate(s.db, c, tenant, x.held.newShare.value), Created(x.held.newShare.value))
      else s
    case _ => s
  }

  ghost function AdvanceRevoke(s: Sys, t: nat, x: Txn): (s': Sys)
    requires x.call.Revoke?
  {
    var r := x.call;
    match (x.stage, x.held.tenant)
    case (Begun, _) =>
      (match AdminTenant(s.db, r.p)
       case None => Fail(s, t, Forbidden)
       case Some(tenant) => Goto(s, t, Txn(r, TenantLocked, AdminLocks(Some(tenant), r.p))))
    case (TenantLocked, Some(tenant)) =>
      if r.id in SharesOf(s.db, tenant) then Goto(s, t, x.(stage := ShareFound)) else Fail(s, t, NotFound)
    case (ShareFound, _) => Goto(s, t, Txn(r, ShareMarked, x.held.(share := Some(r.id))))
    case (ShareMarked, _) => Goto(s, t, x.(stage := SessionsCleared(SessionsOf(s.db, r.id))))
    case (SessionsCleared(gone), _) =>
      if r.id in s.db.shares then Commit(s, t, CommittedRevoke(s.db, r.id, r.now, gone), Revoked(r.id)) else s
    case _ => s
  }

  ghost function AdvanceExchange(s: Sys, t: nat, x: Txn, freshDigest: Digest): (s': Sys)
    requires x.call.Exchange?
  {
    var c := x.call;
    match (x.stage, x.held.share)
    case (Begun, _) =>
      if !HashTaken(s.db, c.hash) then Fail(s, t, Unauthorized)
      else Goto(s, t, Txn(c, ShareLocked, NOTHING.(share := Some(ShareByHash(s.db, c.hash)))))
    case (ShareLocked, Some(id)) =>
      if ValidShare(s.db, id) && s.db.shares[id].expiresAt > c.now
      then Goto(s, t, x.(stage := ShareChecked(s.db.shares[id])))
      else Fail(s, t, Unauthorized)
    case (ShareChecked(row), Some(id)) =>
      var gone := set h | h in SessionsOf(s.db, id) && s.db.sessions[h].expiresAt <= c.now;
      Goto(s, t, x.(stage := ExpiredRemoved(row, gone)))
    case (ExpiredRemoved(row, gone), Some(id)) =>
      if |SessionsOf(s.db, id) - gone| >= SESSION_QUOTA then Fail(s, t, Quota)
      else Goto(s, t, x.(stage := SlotsChecked(row, gone)))
    case (SlotsChecked(row, gone), Some(id)) =>
      if freshDigest in s.db.sessions && freshDigest !in gone then Fail(s, t, Constraint)
      else Goto(s, t, Txn(c, SessionInserted(row, gone), x.held.(newSession := Some(freshDigest))))
    case (SessionInserted(row, gone), Some(id)) =>
      if x.held.newSession.Some? then
        var h := x.held.newSession.value;
        var code := if row.tenantId in s.db.tenants then s.db.tenants[row.tenantId].code else "";
        Commit(s, t, CommittedExchange(s.db, c.now, id, row, gone, h),
               Exchanged(id, h, SharePrincipal(s.db, id, row, code)))
      else s
    case _ => s
  }

  ghost function Apply(s: Sys, a: Action): (s': Sys) {
    match a
    case BeginCreate(t, p, req, hash, now) =>
      if t in s.txns then s
      else if !p.IsAdmin() then Fail(s, t, Forbidden)
      else if !ShareRequests.Valid(req) then Fail(s, t, BadRequest)
      else if hash.None? then Fail(s, t, Unauthorized)
      else Goto(s, t, Txn(Create(p, req, hash.value, now), Begun, NOTHING))
    case BeginRevoke(t, p, id, now) =>
      if t in s.txns then s else Goto(s, t, Txn(Revoke(p, id, now), Begun, NOTHING))
    case BeginExchange(t, raw, now) =>
      if t in s.txns then s
      else if TokenHash(raw).None? then Fail(s, t, Unauthorized)
      else Goto(s, t, Txn(Exchange(TokenHash(raw).value, now), Begun, NOTHING))
    case Advance(t, freshId, freshDigest) =>
      if t !in s.txns then s
      else
        var x := s.txns[t];
        if x.call.Create? then AdvanceCreate(s, t, x, freshId)
        else if x.call.Revoke? then AdvanceRevoke(s, t, x)
        else AdvanceExchange(s, t, x, freshDigest)
    case Rollback(t) => s.(txns := s.txns - {t})
    case SetUser(uid, user) =>
      if UserLocked(s.txns, uid) || (uid in s.db.users && s.db.users[uid].tenantId != user.tenantId) then s
      else s.(db := s.db.(users := s.db.users[uid := user]))
    case SetTenant(tid, tenant) =>
      if TenantRowLocked(s.txns, tid) then s else s.(db := s.db.(tenants := s.db.tenants[tid := tenant]))
    case AddHost(uid, tid) =>
      if uid in s.db.hosts then s else s.(db := s.db.(hosts := s.db.hosts[uid := tid]))
  }

  /** Every interleaving is the run of some sequence of actions. */
  ghost function Run(s: Sys, actions: seq<Action>): (s': Sys)
    decreases |actions|
  {
    if actions == [] then s else Run(Apply(s, actions[0]), actions[1..])
  }

  ghost predicate Initial(s: Sys) {
    && s.txns == map[] && s.log == []
    && s.db.shares == map[] && s.db.shareHosts == {} && s.db.sessions == map[]
  }

  ghost function Exchanges(log: seq<Event>, id: string): (n: nat) {
    if log == [] then 0
    else Exchanges(log[..|log| - 1], id)
         + (if log[|log| - 1].Exchanged? && log[|log| - 1].id == id then 1 else 0)
  }

  // ---- The invariant ----

  ghost predicate AllHostsOf(db: Db, uids: seq<string>, tenant: int) {
    forall uid :: uid in uids ==> uid in db.hosts && db.hosts[uid] == tenant
  }

  /** What a transaction that has come this far knows about the committed rows. */
  ghost predicate Knows(db: Db, x: Txn) {
    match x.call
    case Create(_, _, _, _) => KnowsCreate(db, x)
    case Revoke(_, id, _) => KnowsRevoke(db, x, id)
    case Exchange(_, now) => KnowsExchange(db, x, now)
  }

  ghost predicate KnowsCreate(db: Db, x: Txn)
    requires x.call.Create?
  {
    && ShareRequests.Distinct(x.call.req.hostUids) && x.call.req.hostUids != []
    && (x.stage in {Begun, TenantLocked, QuotaChecked, HostsChecked} || x.stage.ShareInserted?)
    && x.held.share == None && x.held.newSession == None
    && (x.stage == Begun ==> x.held == NOTHING)
    && (x.stage != Begun ==> x.held.tenant.Some?)
    && (x.stage != Begun && x.stage != TenantLocked ==> |SharesOf(db, x.held.tenant.value)| < SHARE_QUOTA)
    && (x.stage == HostsChecked || x.stage.ShareInserted? ==> AllHostsOf(db, x.call.req.hostUids, x.held.tenant.value))
    && (x.stage.ShareInserted? ==>
          && x.held.newShare.Some? && x.held.newHash == Some(x.call.hash)
          && x.held.newShare.value !in db.shares && !HashTaken(db, x.call.hash))
    && (!x.stage.ShareInserted? ==> x.held.newShare == None && x.held.newHash == None)
  }

  ghost predicate KnowsRevoke(db: Db, x: Txn, id: string) {
    && (x.stage in {Begun, TenantLocked, ShareFound, ShareMarked} || x.stage.SessionsCleared?)
    && x.held.newShare == None && x.held.newHash == None && x.held.newSession == None
    && (x.stage == Begun ==> x.held == NOTHING)
    && (x.stage != Begun ==> x.held.tenant.Some?)
    && (x.stage != Begun && x.stage != TenantLocked ==> id in db.shares)
    && (x.stage == TenantLocked || x.stage == ShareFound ==> x.held.share == None)
    && (x.stage == ShareMarked || x.stage.SessionsCleared? ==> x.held.share == Some(id))
    && (x.stage.SessionsCleared? ==> x.stage.gone == SessionsOf(db, id))
  }

  ghost predicate KnowsExchange(db: Db, x: Txn, now: int) {
    && x.held.tenant == None && x.held.newShare == None && x.held.newHash == None
    && (x.stage == Begun ==> x.held == NOTHING)
    && (x.stage != Begun ==> x.held.share.Some? && x.held.share.value in db.shares)
    && (x.stage != Begun && x.stage != ShareLocked ==>
          && (x.stage.ShareChecked? || x.stage.ExpiredRemoved? || x.stage.SlotsChecked? || x.stage.SessionInserted?)
          && db.shares[x.held.share.value] == x.stage.row
          && x.stage.row.revokedAt == None && x.stage.row.expiresAt > now)
    && (x.stage.ExpiredRemoved? || x.stage.SlotsChecked? || x.stage.SessionInserted? ==> x.stage.gone == {})
    && (x.stage.SlotsChecked? || x.stage.SessionInserted? ==> |SessionsOf(db, x.held.share.value)| < SESSION_QUOTA)
    && (x.stage.SessionInserted? ==> x.held.newSession.Some? && x.held.newSession.value !in db.sessions)
    && (!x.stage.SessionInserted? ==> x.held.newSession == None)
  }

  ghost predicate AllKnow(db: Db, txns: map<nat, Txn>) {
    forall t :: t in txns ==> Knows(db, txns[t])
  }

  /** Two open transactions never hold the same row lock or the same uncommitted key. */
  ghost predicate Exclusive(txns: map<nat, Txn>) {
    forall t, u :: t in txns && u in txns && t != u ==> !Overlap(txns[t].held, txns[u].held)
  }

  ghost predicate ShareQuotaKept(db: Db) {
    forall tenant :: |SharesOf(db, tenant)| <= SHARE_QUOTA
  }

  ghost predicate ExchangesKept(db: Db, log: seq<Event>) {
    forall id :: ExchangesOf(db, log, id)
  }

  /** While a share is live its sessions are exactly the exchanges so far. */
  ghost predicate ExchangesOf(db: Db, log: seq<Event>, id: string) {
    && Exchanges(log, id) <= SESSION_QUOTA
    && (id in db.shares && db.shares[id].revokedAt == None ==> Exchanges(log, id) == |SessionsOf(db, id)|)
    && (id !in db.shares ==> Exchanges(log, id) == 0)
  }

  ghost predicate RevocationsKept(db: Db, log: seq<Event>) {
    forall e :: e in log && e.Revoked? ==> e.id in db.shares && db.shares[e.id].revokedAt.Some?
  }

  ghost predicate SharesHaveHosts(db: Db) {
    forall id :: id in db.shares ==> HostsOf(db, id) != {}
  }

  ghost predicate Inv(s: Sys) {
    && RowsConsistent(s.db) && SharesHaveHosts(s.db) && ShareQuotaKept(s.db)
    && Exclusive(s.txns) && AllKnow(s.db, s.txns)
    && ExchangesKept(s.db, s.log) && RevocationsKept(s.db, s.log)
  }
}
