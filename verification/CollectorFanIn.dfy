/**
 The agent's collectors run side by side and send one result each into a channel with room for
 all of them; the receiver takes results until it has every one or the deadline passes.
 */
module CollectorFanIn {
  import opened Text
  import opened MetricPoints

  datatype State = Unspecified | Available | Unavailable | Degraded

  datatype Result = Result(name: string, points: seq<Point>, failures: nat, micros: int, timedOut: bool, structured: bool)

  datatype Status = Status(name: string, state: State, metricNames: seq<string>, micros: int, timedOut: bool)

  /** What one collection yields; `applied` lists the collectors whose structured part is taken over, in order. */
  datatype Collected = Collected(points: seq<Point>, statuses: seq<Status>, capabilities: seq<string>, applied: seq<string>)

  const NOTHING := Collected([], [], [], [])

  // ---- Assembly ----

  function NamesOf(points: seq<Point>): (names: set<string>) {
    set p | p in points :: p.name
  }

  /** `uniqueMetricNames`: each name once, sorted. */
  method UniqueMetricNames(points: seq<Point>) returns (names: seq<string>)
    ensures names == SortedKeys(NamesOf(points))
  {
    var seen: set<string> := {};
    for i := 0 to |points|
      invariant seen == NamesOf(points[..i])
    {
      assert points[..i + 1] == points[..i] + [points[i]];
      seen := seen + {points[i].name};
    }
    assert points[..|points|] == points;
    names := SortKeys(seen);
  }

  function StateOf(results: map<string, Result>, name: string): (s: State) {
    if name !in results || results[name].points == [] then Unavailable
    else if results[name].failures > 0 then Degraded
    else Available
  }

  ghost function StatusOf(results: map<string, Result>, name: string): (s: Status) {
    if name in results then
      var r := results[name];
      Status(name, StateOf(results, name), SortedKeys(NamesOf(r.points)), r.micros, r.timedOut)
    else Status(name, Unavailable, [], 0, true)
  }

  /** What is assembled from the received results for a list of declared collectors. */
  ghost function Assembled(names: seq<string>, results: map<string, Result>): (c: Collected) {
    if names == [] then NOTHING
    else
      var before, name := Assembled(names[..|names| - 1], results), names[|names| - 1];
      var statuses := before.statuses + [StatusOf(results, name)];
      if StateOf(results, name) == Unavailable then before.(statuses := statuses)
      else
        var r := results[name];
        Collected(before.points + r.points, statuses, before.capabilities + ["collector:" + r.name],
                  if r.structured then before.applied + [name] else before.applied)
  }

  method Assemble(names: seq<string>, results: map<string, Result>) returns (c: Collected)
    ensures c == Assembled(names, results)
  {
    c := NOTHING;
    for i := 0 to |names|
      invariant c == Assembled(names[..i], results)
    {
      var name := names[i];
      assert names[..i + 1][..i] == names[..i];
      var completed := name in results;
      var result := if completed then results[name] else Result("", [], 0, 0, false, false);
      var state := Available;
      if !completed || |result.points| == 0 {
        state := Unavailable;
      } else if result.failures > 0 {
        state := Degraded;
      }
      var metricNames := UniqueMetricNames(result.points);
      assert NamesOf([]) == {};
      c := c.(statuses := c.statuses + [Status(name, state, metricNames, result.micros, !completed || result.timedOut)]);
      if state != Unavailable {
        c := c.(capabilities := c.capabilities + ["collector:" + result.name], points := c.points + result.points);
        if result.structured {
          c := c.(applied := c.applied + [name]);
        }
      }
    }
    assert names[..|names|] == names;
  }

  /** One status for every declared collector, in declared order. */
  lemma {:induction false} OneStatusEach(names: seq<string>, results: map<string, Result>)
    ensures var statuses := Assembled(names, results).statuses;
      |statuses| == |names| && forall i :: 0 <= i < |names| ==> statuses[i] == StatusOf(results, names[i])
  {
    if names != [] { OneStatusEach(names[..|names| - 1], results); }
  }

  /** A point is there exactly if some declared collector that is not Unavailable delivered it. */
  lemma {:induction false} PointsExactlyFromAvailable(names: seq<string>, results: map<string, Result>, p: Point)
    ensures p in Assembled(names, results).points <==>
            exists name :: name in names && StateOf(results, name) != Unavailable && p in results[name].points
  {
    if names != [] {
      var before, name := names[..|names| - 1], names[|names| - 1];
      PointsExactlyFromAvailable(before, results, p);
      assert names == before + [name];
    }
  }

  // ---- The channel ----

  /** `waiting` are the collectors still at work, `taken` the results received, in order of arrival. */
  datatype Sys = Sys(waiting: set<string>, buffer: seq<Result>, taken: seq<Result>, stopped: bool)

  datatype Action = Finish(result: Result) | Take | Deadline

  function ByName(taken: seq<Result>): (results: map<string, Result>) {
    if taken == [] then map[]
    else ByName(taken[..|taken| - 1])[taken[|taken| - 1].name := taken[|taken| - 1]]
  }

  /** A collector's send is possible while the buffer has room. */
  predicate CanSend(s: Sys, capacity: nat) {
    |s.buffer| < capacity
  }

  function Apply(s: Sys, a: Action, capacity: nat): (s': Sys) {
    match a
    case Finish(result) =>
      if result.name in s.waiting && CanSend(s, capacity)
      then s.(waiting := s.waiting - {result.name}, buffer := s.buffer + [result])
      else s
    case Take =>
      if s.buffer == [] || s.stopped || |ByName(s.taken)| >= capacity then s
      else s.(buffer := s.buffer[1..], taken := s.taken + [s.buffer[0]])
    case Deadline => s.(stopped := true)
  }

  function Run(s: Sys, actions: seq<Action>, capacity: nat): (s': Sys)
    decreases |actions|
  {
    if actions == [] then s else Run(Apply(s, actions[0], capacity), actions[1..], capacity)
  }

  ghost predicate DistinctNames(results: seq<Result>) {
    forall i, j :: 0 <= i < j < |results| ==> results[i].name != results[j].name
  }

  function Sent(s: Sys): (r: seq<Result>) {
    s.taken + s.buffer
  }

  /** Every collector is either still at work or has sent exactly one result. */
  ghost predicate Inv(s: Sys, names: set<string>) {
    && |s.waiting| + |Sent(s)| == |names| && s.waiting <= names
    && DistinctNames(Sent(s))
    && forall i :: 0 <= i < |Sent(s)| ==> Sent(s)[i].name in names - s.waiting
  }

  lemma StepKeeps(s: Sys, a: Action, names: set<string>)
    requires Inv(s, names)
    ensures Inv(Apply(s, a, |names|), names)
  {
    var s' := Apply(s, a, |names|);
    match a
    case Finish(result) =>
      if s' != s {
        assert Sent(s') == Sent(s) + [result];
        assert |s'.waiting| == |s.waiting| - 1;
      }
    case Take =>
      if s' != s {
        assert s.buffer == [s.buffer[0]] + s.buffer[1..];
        assert Sent(s') == Sent(s);
      }
    case Deadline =>
      assert Sent(s') == Sent(s);
  }

  lemma {:induction false} RunKeeps(s: Sys, actions: seq<Action>, names: set<string>)
    requires Inv(s, names)
    ensures Inv(Run(s, actions, |names|), names)
    decreases |actions|
  {
    if actions != [] {
      StepKeeps(s, actions[0], names);
      RunKeeps(Apply(s, actions[0], |names|), actions[1..], names);
    }
  }

  /** In every run, before and after the deadline, a collector that finishes finds room for its result. */
  lemma NoSendBlocks(names: set<string>, actions: seq<Action>)
    ensures var s := Run(Sys(names, [], [], false), actions, |names|);
      s.waiting != {} ==> CanSend(s, |names|)
  {
    RunKeeps(Sys(names, [], [], false), actions, names);
  }

  // ---- Order of arrival ----

  lemma {:induction false} ByNameAt(taken: seq<Result>, i: nat)
    requires DistinctNames(taken) && i < |taken|
    ensures taken[i].name in ByName(taken) && ByName(taken)[taken[i].name] == taken[i]
  {
    var n := |taken| - 1;
    if i < n { ByNameAt(taken[..n], i); }
  }

  lemma {:induction false} ByNameOnly(taken: seq<Result>, name: string)
    ensures name in ByName(taken) ==> ByName(taken)[name] in taken && ByName(taken)[name].name == name
  {
    if taken != [] {
      var n := |taken| - 1;
      ByNameOnly(taken[..n], name);
      assert taken == taken[..n] + [taken[n]];
    }
  }

  lemma ByNameFinds(taken: seq<Result>)
    requires DistinctNames(taken)
    ensures forall r :: r in taken ==> r.name in ByName(taken) && ByName(taken)[r.name] == r
    ensures forall name :: name in ByName(taken) ==> ByName(taken)[name] in taken && ByName(taken)[name].name == name
  {
    forall r | r in taken ensures r.name in ByName(taken) && ByName(taken)[r.name] == r {
      var i :| 0 <= i < |taken| && taken[i] == r;
      ByNameAt(taken, i);
    }
    forall name | name in ByName(taken) ensures ByName(taken)[name] in taken && ByName(taken)[name].name == name {
      ByNameOnly(taken, name);
    }
  }

  /** Two orders of arrival of the same results are indistinguishable in what is collected. */
  lemma ArrivalOrderIsIrrelevant(a: seq<Result>, b: seq<Result>, names: seq<string>)
    requires DistinctNames(a) && DistinctNames(b) && forall r :: r in a <==> r in b
    ensures ByName(a) == ByName(b)
    ensures Assembled(names, ByName(a)) == Assembled(names, ByName(b))
  {
    ByNameFinds(a);
    ByNameFinds(b);
    forall name ensures name in ByName(a) <==> name in ByName(b) {
      if name in ByName(a) { assert ByName(a)[name] in b; }
      if name in ByName(b) { assert ByName(b)[name] in a; }
    }
    forall name | name in ByName(a) ensures ByName(a)[name] == ByName(b)[name] {
      assert ByName(a)[name] in b;
    }
  }

  /** A result of this collector with at least one point was received. */
  ghost predicate Delivered(taken: seq<Result>, name: string) {
    exists r :: r in taken && r.name == name && r.points != []
  }

  lemma AvailableExactly(taken: seq<Result>, name: string)
    requires DistinctNames(taken)
    ensures StateOf(ByName(taken), name) != Unavailable <==> Delivered(taken, name)
  {
    ByNameFinds(taken);
  }

  /**
   Any two runs, with any interleaving and any cut-off, in which the same results were received end
   in the same collection; and a collector is Unavailable exactly if its result did not arrive in
   time or was empty.
   */
  lemma OutcomeDependsOnResultsOnly(names: seq<string>, x: seq<Action>, y: seq<Action>)
    requires var n := Elements(names);
      forall r :: r in Run(Sys(n, [], [], false), x, |n|).taken <==> r in Run(Sys(n, [], [], false), y, |n|).taken
    ensures var n := Elements(names);
      var s, t := Run(Sys(n, [], [], false), x, |n|), Run(Sys(n, [], [], false), y, |n|);
      && Assembled(names, ByName(s.taken)) == Assembled(names, ByName(t.taken))
      && forall name :: name in names ==>
           (StateOf(ByName(s.taken), name) != Unavailable <==> Delivered(s.taken, name))
  {
    var n := Elements(names);
    var start := Sys(n, [], [], false);
    var s, t := Run(start, x, |n|), Run(start, y, |n|);
    RunKeeps(start, x, n);
    RunKeeps(start, y, n);
    assert forall i :: 0 <= i < |s.taken| ==> Sent(s)[i] == s.taken[i];
    assert forall i :: 0 <= i < |t.taken| ==> Sent(t)[i] == t.taken[i];
    ArrivalOrderIsIrrelevant(s.taken, t.taken, names);
    forall name ensures StateOf(ByName(s.taken), name) != Unavailable <==> Delivered(s.taken, name) {
      AvailableExactly(s.taken, name);
    }
  }
}
