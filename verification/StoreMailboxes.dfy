/** The host store and its watchers together: every operation that changes a host is broadcast. */
module StoreMailboxes {
  import opened HostStore
  import HostRuns
  import opened Mailboxes

  datatype World = World(tables: Tables, sys: Sys)

  datatype Event =
    | Operate(op: HostRuns.Op, order: seq<nat>)
    | Send(job: nat)
    | Receive(chan: nat)
    | SubscribeOpen(chan: nat)
    | SubscribeSend
    | Cancel(chan: nat)

  const EMPTY := Tables(map[], map[], map[])

  function ChannelAction(e: Event): Action
    requires !e.Operate?
  {
    match e
    case Send(job) => Mailboxes.Send(job)
    case Receive(chan) => Mailboxes.Receive(chan)
    case SubscribeOpen(chan) => Mailboxes.SubscribeOpen(chan)
    case SubscribeSend => Mailboxes.SubscribeSend
    case Cancel(chan) => Mailboxes.Cancel(chan)
  }

  /** Operations that change no host send nothing; the others wait while a subscriber holds the lock. */
  ghost function Next(w: World, e: Event, allowCustom: bool): (w': World) {
    if e.Operate? then
      var tables := HostRuns.Step(w.tables, e.op, allowCustom);
      var sys := Apply(w.sys, Mutate(tables.hosts, e.order));
      if tables.hosts == w.tables.hosts || sys == w.sys then w else World(tables, sys)
    else w.(sys := Apply(w.sys, ChannelAction(e)))
  }

  ghost function After(events: seq<Event>, allowCustom: bool): (w: World) {
    if events == [] then World(EMPTY, Start(map[]))
    else Next(After(events[..|events| - 1], allowCustom), events[|events| - 1], allowCustom)
  }

  /** Fresh identifiers are never empty. */
  ghost predicate Proper(events: seq<Event>) {
    forall i :: 0 <= i < |events| && events[i].Operate? ==> HostRuns.Proper([events[i].op])
  }

  /** The operations of a run that took effect, in order. */
  ghost function Effective(events: seq<Event>, allowCustom: bool): (ops: seq<HostRuns.Op>) {
    if events == [] then []
    else
      var before, e := events[..|events| - 1], events[|events| - 1];
      if e.Operate? && After(events, allowCustom) != After(before, allowCustom)
      then Effective(before, allowCustom) + [e.op] else Effective(before, allowCustom)
  }

  /** The hosts after some first part of a list of operations. */
  ghost predicate StoreState(ops: seq<HostRuns.Op>, hosts: Hosts, allowCustom: bool) {
    exists n :: 0 <= n <= |ops| && hosts == HostRuns.After(ops[..n], allowCustom).hosts
  }

  ghost predicate Follows(w: World, ops: seq<HostRuns.Op>, allowCustom: bool) {
    && HostRuns.Proper(ops) && w.tables == HostRuns.After(ops, allowCustom) && Inv(w.sys)
    && AllStoreStates(ops, w.sys.past, allowCustom)
  }

  ghost predicate AllStoreStates(ops: seq<HostRuns.Op>, past: seq<Hosts>, allowCustom: bool) {
    forall i :: 0 <= i < |past| ==> StoreState(ops, past[i], allowCustom)
  }

  lemma StoreStateLater(ops: seq<HostRuns.Op>, op: HostRuns.Op, hosts: Hosts, allowCustom: bool)
    requires StoreState(ops, hosts, allowCustom)
    ensures StoreState(ops + [op], hosts, allowCustom)
  {
    var n :| 0 <= n <= |ops| && hosts == HostRuns.After(ops[..n], allowCustom).hosts;
    assert (ops + [op])[..n] == ops[..n];
  }

  lemma StoreStateNow(ops: seq<HostRuns.Op>, allowCustom: bool)
    ensures StoreState(ops, HostRuns.After(ops, allowCustom).hosts, allowCustom)
  {
    assert ops[..|ops|] == ops;
  }

  lemma OneMoreState(ops: seq<HostRuns.Op>, op: HostRuns.Op, past: seq<Hosts>, allowCustom: bool)
    requires AllStoreStates(ops, past, allowCustom)
    ensures AllStoreStates(ops + [op], past, allowCustom)
    ensures AllStoreStates(ops + [op], past + [HostRuns.After(ops + [op], allowCustom).hosts], allowCustom)
  {
    forall i | 0 <= i < |past| ensures StoreState(ops + [op], past[i], allowCustom) {
      StoreStateLater(ops, op, past[i], allowCustom);
    }
    StoreStateNow(ops + [op], allowCustom);
  }

  lemma PastOnlyGrows(s: Sys, a: Action)
    ensures Apply(s, a).past == s.past || (a.Mutate? && Apply(s, a).past == s.past + [a.hosts])
  {
  }

  lemma OperateFollows(w: World, ops: seq<HostRuns.Op>, e: Event, allowCustom: bool)
    requires Follows(w, ops, allowCustom) && e.Operate? && HostRuns.Proper([e.op]) && Next(w, e, allowCustom) != w
    ensures Follows(Next(w, e, allowCustom), ops + [e.op], allowCustom)
  {
    var w', longer := Next(w, e, allowCustom), ops + [e.op];
    var a := Mutate(w'.tables.hosts, e.order);
    assert longer[..|ops|] == ops && [e.op][0] == e.op;
    StepKeeps(w.sys, a);
    PastOnlyGrows(w.sys, a);
    OneMoreState(ops, e.op, w.sys.past, allowCustom);
  }

  lemma {:induction false} RunFollows(events: seq<Event>, allowCustom: bool)
    requires Proper(events)
    ensures Follows(After(events, allowCustom), Effective(events, allowCustom), allowCustom)
  {
    if events == [] {
      StoreStateNow([], allowCustom);
    } else {
      var before, e := events[..|events| - 1], events[|events| - 1];
      var w, ops := After(before, allowCustom), Effective(before, allowCustom);
      RunFollows(before, allowCustom);
      if e.Operate? {
        if Next(w, e, allowCustom) != w { OperateFollows(w, ops, e, allowCustom); }
      } else {
        StepKeeps(w.sys, ChannelAction(e));
        PastOnlyGrows(w.sys, ChannelAction(e));
      }
    }
  }

  lemma StoreStatesAreWellFiled(ops: seq<HostRuns.Op>, hosts: Hosts, allowCustom: bool)
    requires HostRuns.Proper(ops) && StoreState(ops, hosts, allowCustom)
    ensures WellFiled(hosts)
  {
    var n :| 0 <= n <= |ops| && hosts == HostRuns.After(ops[..n], allowCustom).hosts;
    HostRuns.StatesAgree(ops[..n], allowCustom);
    forall uid | uid in hosts ensures hosts[uid].hostUid == uid {
      assert HostRuns.HostOk(HostRuns.After(ops[..n], allowCustom), uid);
    }
  }

  /**
   Whatever a watcher receives, in every interleaving of operations, broadcasts, subscriptions and
   receipts, is the complete host list, ascending by uid, of the store after some first part of
   the operations that took effect.
   */
  lemma EveryDeliveryIsACompleteList(events: seq<Event>, i: nat, allowCustom: bool)
    requires Proper(events) && i < |After(events, allowCustom).sys.received|
    ensures var hosts := After(events, allowCustom).sys.received[i].list;
      && StoreState(Effective(events, allowCustom), hosts, allowCustom)
      && CompleteAndSorted(ListHosts(hosts), hosts)
  {
    var s, ops := After(events, allowCustom).sys, Effective(events, allowCustom);
    RunFollows(events, allowCustom);
    var hosts := s.received[i].list;
    var k :| 0 <= k < |s.past| && s.past[k] == hosts;
    StoreStatesAreWellFiled(ops, hosts, allowCustom);
    ListIsCompleteAndSorted(hosts);
  }
}
