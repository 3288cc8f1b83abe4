/**
 The authentication attempt limiter: per peer at most 20 attempts in a window that opens
 with the first of them and lasts a minute, and at most 1024 peers at a time. Times are
 nanoseconds.
 */
module AuthLimits {

  const MINUTE := 60 * 1_000_000_000
  const MAX_ATTEMPTS := 20
  const MAX_PEERS := 1024

  datatype Attempt = Attempt(started: int, count: int)

  type Table = map<string, Attempt>

  function Unexpired(table: Table, now: int): (r: Table) {
    map peer | peer in table && now - table[peer].started < MINUTE :: table[peer]
  }

  /** The table and the decision after one call, as a function of the table before it. */
  function Decide(table: Table, peer: string, now: int): (r: (Table, bool)) {
    var live := Unexpired(table, now);
    if peer !in live && |live| >= MAX_PEERS then (live, false)
    else
      var attempt := if peer in live then live[peer] else Attempt(now, 0);
      if attempt.count >= MAX_ATTEMPTS then (live, false)
      else (live[peer := attempt.(count := attempt.count + 1)], true)
  }

  class AuthGuard {
    var attempts: Table

    constructor ()
      ensures attempts == map[]
    {
      attempts := map[];
    }

    /** Evicts in whatever order the map is ranged over. */
    method Allow(peer: string, now: int) returns (ok: bool)
      modifies this
      ensures (attempts, ok) == Decide(old(attempts), peer, now)
    {
      var keys := attempts.Keys;
      while keys != {}
        invariant keys <= attempts.Keys <= old(attempts).Keys
        invariant forall k :: k in attempts ==> attempts[k] == old(attempts)[k]
        invariant forall k :: k in old(attempts) ==>
          (k in attempts <==> k in keys || now - old(attempts)[k].started < MINUTE)
        decreases keys
      {
        var key :| key in keys;
        if now - attempts[key].started >= MINUTE {
          attempts := attempts - {key};
        }
        keys := keys - {key};
      }
      assert attempts == Unexpired(old(attempts), now);
      var attempt := Attempt(now, 0);
      if peer in attempts {
        attempt := attempts[peer];
      } else if |attempts| >= MAX_PEERS {
        return false;
      }
      if attempt.count >= MAX_ATTEMPTS {
        return false;
      }
      attempt := attempt.(count := attempt.count + 1);
      attempts := attempts[peer := attempt];
      ok := true;
    }
  }

  // ---- Runs ----

  datatype Call = Call(peer: string, time: int)

  ghost predicate Nondecreasing(trace: seq<Call>) {
    forall i, j :: 0 <= i < j < |trace| ==> trace[i].time <= trace[j].time
  }

  /** The table after a trace, starting from an empty one. */
  function After(trace: seq<Call>): (table: Table) {
    if trace == [] then map[]
    else
      var last := trace[|trace| - 1];
      Decide(After(trace[..|trace| - 1]), last.peer, last.time).0
  }

  /** The decision on the last call of a trace. */
  predicate LastAllowed(trace: seq<Call>)
    requires trace != []
  {
    var last := trace[|trace| - 1];
    Decide(After(trace[..|trace| - 1]), last.peer, last.time).1
  }

  /** Attempts of one peer allowed in [from, from + one minute). */
  function AllowedIn(trace: seq<Call>, peer: string, from: int): (n: nat) {
    if trace == [] then 0
    else
      var last := trace[|trace| - 1];
      AllowedIn(trace[..|trace| - 1], peer, from)
      + (if last.peer == peer && from <= last.time < from + MINUTE && LastAllowed(trace) then 1 else 0)
  }

  /** On any trace, in any order of times: counts stay between 1 and 20, the table within 1024. */
  lemma {:induction false} TableBounded(trace: seq<Call>)
    ensures |After(trace)| <= MAX_PEERS
    ensures forall p :: p in After(trace) ==> 1 <= After(trace)[p].count <= MAX_ATTEMPTS
  {
    if trace != [] {
      var before := trace[..|trace| - 1];
      TableBounded(before);
      UnexpiredIsSmaller(After(before), trace[|trace| - 1].time);
    }
  }

  lemma UnexpiredIsSmaller(table: Table, now: int)
    ensures |Unexpired(table, now)| <= |table|
  {
    var live := Unexpired(table, now);
    assert live.Keys <= table.Keys;
    assert |table.Keys| == |live.Keys| + |table.Keys - live.Keys| by {
      assert table.Keys == live.Keys + (table.Keys - live.Keys);
    }
  }

  // ---- At most 39 in any minute ----

  /** The latest window of a peer that was ever opened, evicted since or not. */
  datatype Window = Never | Window(started: int, count: int)

  ghost function Latest(trace: seq<Call>, peer: string): (w: Window) {
    if trace == [] then Never
    else if peer in After(trace) then Window(After(trace)[peer].started, After(trace)[peer].count)
    else Latest(trace[..|trace| - 1], peer)
  }

  ghost function Now(trace: seq<Call>): int
    requires trace != []
  {
    trace[|trace| - 1].time
  }

  /** How many attempts in [from, from + one minute) a latest window leaves room for. */
  function Ceiling(w: Window, from: int): int {
    match w
    case Never => 0
    case Window(started, count) =>
      if started < from then count - 1
      else if started < from + MINUTE then MAX_ATTEMPTS - 1 + count
      else 2 * MAX_ATTEMPTS - 1
  }

  /** A window that is no longer in the table is over. */
  ghost predicate WindowState(trace: seq<Call>, peer: string) {
    match Latest(trace, peer)
    case Never => peer !in After(trace)
    case Window(started, count) =>
      && trace != [] && started <= Now(trace) && 1 <= count <= MAX_ATTEMPTS
      && (peer !in After(trace) ==> Now(trace) - started >= MINUTE)
  }

  lemma {:induction false} WindowSteps(trace: seq<Call>, peer: string)
    requires Nondecreasing(trace)
    ensures WindowState(trace, peer)
  {
    if trace != [] {
      var before := trace[..|trace| - 1];
      WindowSteps(before, peer);
      TableBounded(trace);
      if before != [] { assert Now(before) <= Now(trace); }
    }
  }

  lemma {:induction false} NoneBefore(trace: seq<Call>, peer: string, from: int)
    requires Nondecreasing(trace) && (trace == [] || Now(trace) < from)
    ensures AllowedIn(trace, peer, from) == 0
  {
    if trace != [] { NoneBefore(trace[..|trace| - 1], peer, from); }
  }

  lemma {:induction false} CountUnderCeiling(trace: seq<Call>, peer: string, from: int)
    requires Nondecreasing(trace)
    ensures AllowedIn(trace, peer, from) <= Ceiling(Latest(trace, peer), from)
  {
    if trace != [] {
      var before := trace[..|trace| - 1];
      CountUnderCeiling(before, peer, from);
      WindowSteps(before, peer);
      WindowSteps(trace, peer);
      if before != [] { assert Now(before) <= Now(trace); }
      if Now(trace) < from { NoneBefore(trace, peer, from); }
    }
  }

  /**
   Although a window admits 20, a minute can straddle two windows; but then it misses the
   attempt that opened the first, so 39 is the most it can see.
   */
  lemma AtMost39InAnyMinute(trace: seq<Call>, peer: string, from: int)
    requires Nondecreasing(trace)
    ensures AllowedIn(trace, peer, from) <= 39
  {
    CountUnderCeiling(trace, peer, from);
    WindowSteps(trace, peer);
  }

  // ---- 39 is reached ----

  lemma Extend(trace: seq<Call>, c: Call, peer: string, from: int)
    ensures After(trace + [c]) == Decide(After(trace), c.peer, c.time).0
    ensures LastAllowed(trace + [c]) == Decide(After(trace), c.peer, c.time).1
    ensures AllowedIn(trace + [c], peer, from) == AllowedIn(trace, peer, from)
      + (if c.peer == peer && from <= c.time < from + MINUTE && Decide(After(trace), c.peer, c.time).1 then 1 else 0)
  {
    assert (trace + [c])[..|trace|] == trace;
  }

  ghost predicate Only(table: Table, peer: string, started: int, count: int) {
    table.Keys == {peer} && table[peer] == Attempt(started, count)
  }

  lemma OpenWindowAdmits(table: Table, c: Call, started: int, count: int)
    requires Only(table, c.peer, started, count) && c.time - started < MINUTE && count < MAX_ATTEMPTS
    ensures Only(Decide(table, c.peer, c.time).0, c.peer, started, count + 1)
    ensures Decide(table, c.peer, c.time).1
  {
    assert Unexpired(table, c.time) == table;
  }

  /** A peer with an open window goes on calling: all are allowed, up to the limit. */
  lemma {:induction false} Burst(trace: seq<Call>, c: Call, n: nat, from: int, started: int, count: int)
    returns (longer: seq<Call>)
    requires Nondecreasing(trace) && trace != [] && Now(trace) <= c.time
    requires Only(After(trace), c.peer, started, count) && c.time - started < MINUTE && count + n <= MAX_ATTEMPTS
    ensures Nondecreasing(longer) && longer != [] && Now(longer) <= c.time
    ensures Only(After(longer), c.peer, started, count + n)
    ensures AllowedIn(longer, c.peer, from)
         == AllowedIn(trace, c.peer, from) + (if from <= c.time < from + MINUTE then n else 0)
    decreases n
  {
    if n == 0 {
      longer := trace;
    } else {
      var shorter := Burst(trace, c, n - 1, from, started, count);
      longer := shorter + [c];
      OpenWindowAdmits(After(shorter), c, started, count + n - 1);
      Extend(shorter, c, c.peer, from);
    }
  }

  /** The bound is sharp: one call, 19 just before the minute is over, 20 once it is. */
  lemma ThirtyNineIsReached(peer: string)
    ensures exists trace :: Nondecreasing(trace) && AllowedIn(trace, peer, MINUTE - 1) == 39
  {
    var from := MINUTE - 1;
    var a, b, c := Call(peer, 0), Call(peer, MINUTE - 1), Call(peer, MINUTE);
    Extend([], a, peer, from);
    assert [] + [a] == [a];
    var first := Burst([a], b, 19, from, 0, 1);
    Extend(first, c, peer, from);
    assert Unexpired(After(first), MINUTE) == map[];
    var second := Burst(first + [c], c, 19, from, MINUTE, 1);
  }

  // ---- Peers do not disturb each other ----

  /** The calls of one peer, in order. */
  function Own(trace: seq<Call>, peer: string): (own: seq<Call>) {
    if trace == [] then []
    else
      var before, last := trace[..|trace| - 1], trace[|trace| - 1];
      if last.peer == peer then Own(before, peer) + [last] else Own(before, peer)
  }

  /** The decisions on the calls of one peer, in order. */
  function Decisions(trace: seq<Call>, peer: string): (r: seq<bool>)
    ensures |r| == |Own(trace, peer)|
  {
    if trace == [] then []
    else
      var before := trace[..|trace| - 1];
      if trace[|trace| - 1].peer == peer then Decisions(before, peer) + [LastAllowed(trace)]
      else Decisions(before, peer)
  }

  /** Room for a call: the peer has an unexpired entry, or the table is not full. */
  predicate Room(table: Table, peer: string, now: int) {
    var live := Unexpired(table, now);
    peer in live || |live| < MAX_PEERS
  }

  /** Every call of this peer found room. */
  predicate AlwaysRoom(trace: seq<Call>, peer: string) {
    trace == [] ||
    var before, last := trace[..|trace| - 1], trace[|trace| - 1];
    AlwaysRoom(before, peer) && (last.peer == peer ==> Room(After(before), peer, last.time))
  }

  /** The shared table and the peer's own table hold the same entry for it, if still unexpired at `now`. */
  ghost predicate Agree(mixed: Table, solo: Table, peer: string, now: int) {
    && solo.Keys <= {peer}
    && (peer in mixed ==> peer in solo && mixed[peer] == solo[peer])
    && (peer in solo && peer !in mixed ==> now - solo[peer].started >= MINUTE)
  }

  /** Calls of other peers only evict: the entry they remove is one the peer's next call would remove. */
  lemma OthersOnlyEvict(mixed: Table, solo: Table, peer: string, other: string, now: int)
    requires Agree(mixed, solo, peer, now) && other != peer
    ensures Agree(Decide(mixed, other, now).0, solo, peer, now)
  {
  }

  lemma SoloHasRoom(solo: Table, peer: string, now: int)
    requires solo.Keys <= {peer}
    ensures |Unexpired(solo, now)| <= 1
  {
    UnexpiredIsSmaller(solo, now);
    assert solo.Keys == {peer} || solo.Keys == {};
  }

  lemma OwnCallsAgree(mixed: Table, solo: Table, peer: string, now: int)
    requires Agree(mixed, solo, peer, now)
    ensures Room(mixed, peer, now) ==> Agree(Decide(mixed, peer, now).0, Decide(solo, peer, now).0, peer, now)
    ensures Room(mixed, peer, now) <==> Decide(mixed, peer, now).1 == Decide(solo, peer, now).1
  {
    SoloHasRoom(solo, peer, now);
  }

  lemma {:induction false} TablesAgree(trace: seq<Call>, peer: string, now: int)
    requires Nondecreasing(trace) && AlwaysRoom(trace, peer) && (trace == [] || Now(trace) <= now)
    ensures Agree(After(trace), After(Own(trace, peer)), peer, now)
  {
    if trace != [] {
      var before, last := trace[..|trace| - 1], trace[|trace| - 1];
      TablesAgree(before, peer, last.time);
      var mixed, solo := After(before), After(Own(before, peer));
      if last.peer == peer {
        OwnCallsAgree(mixed, solo, peer, last.time);
        Extend(Own(before, peer), last, peer, 0);
      } else {
        OthersOnlyEvict(mixed, solo, peer, last.peer, last.time);
      }
    }
  }

  lemma {:induction false} OwnIsOwn(trace: seq<Call>, peer: string)
    ensures Own(Own(trace, peer), peer) == Own(trace, peer)
  {
    if trace != [] {
      var before, last := trace[..|trace| - 1], trace[|trace| - 1];
      OwnIsOwn(before, peer);
      if last.peer == peer {
        assert Own(trace, peer)[..|Own(before, peer)|] == Own(before, peer);
      }
    }
  }

  /**
   With nondecreasing times a peer is treated as if it were alone, although other peers'
   calls may evict its entry sooner, exactly as long as it always finds room in the table.
   */
  lemma {:induction false} PeerIsolation(trace: seq<Call>, peer: string)
    requires Nondecreasing(trace)
    ensures Decisions(trace, peer) == Decisions(Own(trace, peer), peer) <==> AlwaysRoom(trace, peer)
  {
    OwnIsOwn(trace, peer);
    if trace != [] {
      var before, last := trace[..|trace| - 1], trace[|trace| - 1];
      PeerIsolation(before, peer);
      OwnIsOwn(before, peer);
      if last.peer == peer {
        var own := Own(before, peer);
        assert Own(trace, peer)[..|own|] == own;
        Extend(own, last, peer, 0);
        assert Decisions(Own(trace, peer), peer) == Decisions(own, peer) + [LastAllowed(own + [last])];
        assert Decisions(trace, peer)[..|own|] == Decisions(before, peer);
        assert Decisions(Own(trace, peer), peer)[..|own|] == Decisions(own, peer);
        assert Decisions(trace, peer)[|own|] == LastAllowed(trace);
        if AlwaysRoom(before, peer) {
          TablesAgree(before, peer, last.time);
          OwnCallsAgree(After(before), After(own), peer, last.time);
        }
      }
    }
  }
}
