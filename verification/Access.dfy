/** Identities derived from verified credentials, and what each may see. */
module Access {

  datatype Kind = User | Share | Demo | Agent | Worker | Unrecognised(name: string)

  datatype Principal = Principal(
    kind: Kind, tenantId: int, tenantCode: string, userId: int, role: string,
    hostUid: string, workerId: string, shareId: string,
    allowedHosts: seq<string>, fields: seq<string>)
  {
    predicate IsUser() {
      kind == User && userId > 0 && tenantCode != "" && (role == "admin" || role == "member")
    }

    predicate IsAdmin() {
      IsUser() && role == "admin"
    }

    predicate AllowsHost(tenant: string, uid: string) {
      if tenantCode == "" || tenant != tenantCode || uid == "" then false
      else if IsUser() then true
      else if kind != Share && kind != Demo then false
      else uid in allowedHosts
    }

    predicate AllowsField(field: string) {
      IsUser() || field in fields
    }
  }

  datatype Error = Forbidden | Unauthorized | NotFound | Quota | BadRequest | Constraint
}

/** What an administrator asks for when creating a share link. */
module ShareRequests {
  import opened Text

  datatype CreateShareRequest = CreateShareRequest(
    title: string, hostUids: seq<string>, fields: seq<string>, ttlSeconds: int)

  const MAX_TTL := 7 * 24 * 3600

  predicate ShareField(field: string) {
    field == "hostname" || field == "status" || field == "metrics"
  }

  predicate ShareHost(uid: string) {
    uid != "" && ByteLen(uid) <= 64 && TrimSpace(uid) == uid
  }

  ghost predicate Distinct<T>(s: seq<T>) {
    forall i, j :: 0 <= i < j < |s| ==> s[i] != s[j]
  }

  ghost predicate Valid(req: CreateShareRequest) {
    && TrimSpace(req.title) != "" && ByteLen(req.title) <= 128
    && 1 <= |req.hostUids| <= 100 && 60 <= req.ttlSeconds <= MAX_TTL
    && 1 <= |req.fields| <= 3
    && (forall uid :: uid in req.hostUids ==> ShareHost(uid)) && Distinct(req.hostUids)
    && (forall f :: f in req.fields ==> ShareField(f)) && Distinct(req.fields)
  }

  /** One pass with a set of what was seen; stops at the first repeated or unacceptable entry. */
  method AcceptList(items: seq<string>, acceptable: string -> bool) returns (ok: bool)
    ensures ok <==> (forall x :: x in items ==> acceptable(x)) && Distinct(items)
  {
    var seen: set<string> := {};
    for i := 0 to |items|
      invariant seen == Elements(items[..i])
      invariant forall j :: 0 <= j < i ==> acceptable(items[j])
      invariant Distinct(items[..i])
    {
      if !acceptable(items[i]) || items[i] in seen {
        assert items[i] in seen ==> exists j :: 0 <= j < i && items[..i][j] == items[i];
        return false;
      }
      seen := seen + {items[i]};
      assert items[..i + 1] == items[..i] + [items[i]];
    }
    assert items[..|items|] == items;
    ok := true;
  }

  /** The request is accepted exactly when it is valid; a distinct list names as many hosts as its length. */
  method Validate(req: CreateShareRequest) returns (ok: bool)
    ensures ok <==> Valid(req)
  {
    if TrimSpace(req.title) == "" || ByteLen(req.title) > 128 || |req.hostUids| == 0 || |req.hostUids| > 100
       || req.ttlSeconds < 60 || req.ttlSeconds > MAX_TTL || |req.fields| == 0 || |req.fields| > 3 {
      return false;
    }
    ok := AcceptList(req.hostUids, uid => ShareHost(uid));
    if ok {
      ok := AcceptList(req.fields, f => ShareField(f));
    }
  }

  lemma {:induction false} DistinctCardinality(items: seq<string>)
    requires Distinct(items)
    ensures |Elements(items)| == |items|
  {
    if items != [] {
      DistinctCardinality(items[1..]);
      assert Elements(items) == Elements(items[1..]) + {items[0]};
      assert items[0] !in items[1..];
    }
  }
}
