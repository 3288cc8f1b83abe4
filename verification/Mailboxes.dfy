/**
 Watchers of the host store: each has a channel of capacity one. A mutation takes the list
 to send under the lock and sends it after releasing the lock, so broadcasts interleave with
 each other, with receivers and with later mutations.
 */
module Mailboxes {
  import opened Outcomes
  import opened Text
  import opened HostTypes

  type Hosts = map<string, HostSnapshot>
  type Listing = seq<HostSnapshot>

  /** The complete host list in ascending order of uid. */
  ghost function ListHosts(hosts: Hosts): (items: Listing)
  {
    SortedKeysAre(hosts.Keys);
    Gather(hosts, SortedKeys(hosts.Keys))
  }

  function Gather(hosts: Hosts, keys: seq<string>): (items: Listing)
    requires forall k :: k in keys ==> k in hosts
    ensures |items| == |keys| && forall i :: 0 <= i < |keys| ==> items[i] == hosts[keys[i]]
  {
    seq(|keys|, i requires 0 <= i < |keys| => hosts[keys[i]])
  }

  /** Every host is filed under its own uid. */
  ghost predicate WellFiled(hosts: Hosts) {
    forall uid :: uid in hosts ==> hosts[uid].hostUid == uid
  }

  /** In order of uid; equal uids may stand in any order. */
  ghost predicate SortedByUid(items: Listing) {
    forall i, j :: 0 <= i < j < |items| ==> !Less(items[j].hostUid, items[i].hostUid)
  }

  /** Exactly the values of the map, as many as it has keys. */
  ghost predicate ListsHosts(items: Listing, hosts: Hosts, keys: set<string>)
    requires keys <= hosts.Keys
  {
    |items| == |keys| && forall h: HostSnapshot :: h in items <==> exists uid :: uid in keys && hosts[uid] == h
  }

  method InsertByUid(items: Listing, h: HostSnapshot) returns (r: Listing)
    requires SortedByUid(items)
    ensures SortedByUid(r) && |r| == |items| + 1
    ensures forall x :: x in r <==> x in items || x == h
  {
    var i := 0;
    while i < |items| && Less(items[i].hostUid, h.hostUid)
      invariant 0 <= i <= |items|
      invariant forall j :: 0 <= j < i ==> Less(items[j].hostUid, h.hostUid)
    {
      i := i + 1;
    }
    r := items[..i] + [h] + items[i..];
    assert items == items[..i] + items[i..];
    forall j | 0 <= j < i ensures !Less(h.hostUid, items[j].hostUid) {
      LessTotal(items[j].hostUid, h.hostUid);
    }
    forall j | i <= j < |items| ensures !Less(items[j].hostUid, h.hostUid) {
      if i < j { NotLessTransitive(h.hostUid, items[i].hostUid, items[j].hostUid); }
    }
  }

  lemma NotLessTransitive(a: string, b: string, c: string)
    requires !Less(b, a) && !Less(c, b)
    ensures !Less(c, a)
  {
    LessTotal(a, b);
    LessTotal(b, c);
    LessTotal(a, c);
    if Less(a, b) && Less(b, c) { LessTransitive(a, b, c); }
  }

  /**
   `listHostsLocked`: the values, gathered in whatever order the map is ranged over and sorted by
   their uids. For hosts that are filed under their own uids the result is `ListHosts`.
   */
  method CollectHosts(hosts: Hosts) returns (items: Listing)
    ensures SortedByUid(items) && ListsHosts(items, hosts, hosts.Keys)
    ensures WellFiled(hosts) ==> items == ListHosts(hosts)
  {
    items := [];
    var rest := hosts.Keys;
    while rest != {}
      invariant rest <= hosts.Keys && SortedByUid(items)
      invariant ListsHosts(items, hosts, hosts.Keys - rest)
      decreases rest
    {
      var uid :| uid in rest;
      ghost var before, done := items, hosts.Keys - rest;
      items := InsertByUid(items, hosts[uid]);
      rest := rest - {uid};
      ListsNext(before, items, hosts, done, uid);
      assert hosts.Keys - rest == done + {uid};
    }
    assert hosts.Keys - rest == hosts.Keys;
    if WellFiled(hosts) {
      SortedListing(items, hosts);
    }
  }

  lemma ListsNext(before: Listing, items: Listing, hosts: Hosts, done: set<string>, uid: string)
    requires done <= hosts.Keys && uid in hosts && uid !in done && ListsHosts(before, hosts, done)
    requires |items| == |before| + 1 && forall x :: x in items <==> x in before || x == hosts[uid]
    ensures ListsHosts(items, hosts, done + {uid})
  {
    forall h: HostSnapshot ensures h in items <==> exists u :: u in done + {uid} && hosts[u] == h {
      assert h in before <==> exists u :: u in done && hosts[u] == h;
      if h == hosts[uid] { assert uid in done + {uid}; }
      if u :| u in done && hosts[u] == h { assert u in done + {uid}; }
    }
  }

  function UidsOf(items: Listing): (uids: seq<string>)
    ensures |uids| == |items| && forall i :: 0 <= i < |items| ==> uids[i] == items[i].hostUid
  {
    seq(|items|, i requires 0 <= i < |items| => items[i].hostUid)
  }

  /** A sequence with as many elements as its set has no repetition. */
  lemma FullSizeDistinct(uids: seq<string>, i: nat, j: nat)
    requires i < j < |uids| && uids[i] == uids[j]
    ensures |Elements(uids)| < |uids|
  {
    var rest := uids[..j] + uids[j + 1..];
    assert rest[i] == uids[i];
    forall x | x in Elements(uids) ensures x in Elements(rest) {
      var k :| 0 <= k < |uids| && uids[k] == x;
      if k < j {
        assert rest[k] == x;
      } else if k > j {
        assert rest[k - 1] == x;
      }
    }
    assert Elements(uids) <= Elements(rest);
    SmallerSet(Elements(uids), Elements(rest));
    ElementsBound(rest);
  }

  lemma SmallerSet(a: set<string>, b: set<string>)
    requires a <= b
    ensures |a| <= |b|
  {
    assert b == a + (b - a);
  }

  lemma {:induction false} ElementsBound(uids: seq<string>)
    ensures |Elements(uids)| <= |uids|
  {
    if uids != [] {
      ElementsBound(uids[1..]);
      assert Elements(uids) == Elements(uids[1..]) + {uids[0]};
    }
  }

  lemma UidsAreKeys(items: Listing, hosts: Hosts)
    requires WellFiled(hosts) && ListsHosts(items, hosts, hosts.Keys)
    ensures Elements(UidsOf(items)) == hosts.Keys
    ensures forall i :: 0 <= i < |items| ==> items[i].hostUid in hosts && items[i] == hosts[items[i].hostUid]
  {
    forall i | 0 <= i < |items| ensures items[i].hostUid in hosts && items[i] == hosts[items[i].hostUid] {
      assert items[i] in items;
    }
    forall uid | uid in hosts ensures uid in Elements(UidsOf(items)) {
      assert hosts[uid] in items;
      var i :| 0 <= i < |items| && items[i] == hosts[uid];
      assert UidsOf(items)[i] == uid;
    }
  }

  lemma SortedListing(items: Listing, hosts: Hosts)
    requires WellFiled(hosts) && SortedByUid(items) && ListsHosts(items, hosts, hosts.Keys)
    ensures items == ListHosts(hosts)
  {
    var uids := UidsOf(items);
    UidsAreKeys(items, hosts);
    forall i, j | 0 <= i < j < |uids| ensures Less(uids[i], uids[j]) {
      if uids[i] == uids[j] { FullSizeDistinct(uids, i, j); }
      LessTotal(uids[i], uids[j]);
      assert !Less(items[j].hostUid, items[i].hostUid);
    }
    SortedKeysAre(hosts.Keys);
    SortedUnique(uids, SortedKeys(hosts.Keys));
  }

  ghost predicate CompleteAndSorted(items: Listing, hosts: Hosts) {
    && (forall i, j :: 0 <= i < j < |items| ==> Less(items[i].hostUid, items[j].hostUid))
    && (forall h: HostSnapshot :: h in items <==> h.hostUid in hosts && hosts[h.hostUid] == h)
  }

  /** Every host once, none else, ascending by uid. */
  lemma ListIsCompleteAndSorted(hosts: Hosts)
    requires WellFiled(hosts)
    ensures CompleteAndSorted(ListHosts(hosts), hosts)
  {
    SortedKeysAre(hosts.Keys);
    var keys := SortedKeys(hosts.Keys);
    var items := ListHosts(hosts);
    forall h: HostSnapshot | h.hostUid in hosts && hosts[h.hostUid] == h ensures h in items {
      assert h.hostUid in keys;
      var i :| 0 <= i < |keys| && keys[i] == h.hostUid;
      assert items[i] == h;
    }
  }

  // ---- The state machine ----

  /** The three non-blocking channel operations a broadcast makes on one watcher. */
  datatype Phase = TrySend | Drain | SendAgain

  datatype Broadcast = Broadcast(list: Hosts, todo: seq<nat>, phase: Phase)

  datatype Receipt = Receipt(chan: nat, list: Hosts)

  /**
   A list is carried as the store state it is the listing of. History variables: `past` has
   every store state so far, `received` every list taken out.
   */
  datatype Sys = Sys(
    hosts: Hosts, past: seq<Hosts>, watchers: set<nat>, slots: map<nat, Option<Hosts>>,
    subscribing: Option<nat>, jobs: map<nat, Broadcast>, received: seq<Receipt>)

  datatype Action =
    | Mutate(hosts: Hosts, order: seq<nat>)
    | Send(job: nat)
    | Receive(chan: nat)
    | SubscribeOpen(chan: nat)
    | SubscribeSend
    | Cancel(chan: nat)

  function Start(hosts: Hosts): Sys {
    Sys(hosts, [hosts], {}, map[], None, map[], [])
  }

  function NextPhase(b: Broadcast, full: bool): (b': Broadcast)
    requires b.todo != []
  {
    match b.phase
    case TrySend => if full then b.(phase := Drain) else Broadcast(b.list, b.todo[1..], TrySend)
    case Drain => b.(phase := SendAgain)
    case SendAgain => Broadcast(b.list, b.todo[1..], TrySend)
  }

  function NextSlot(b: Broadcast, slot: Option<Hosts>): (slot': Option<Hosts>) {
    match b.phase
    case TrySend => if slot.None? then Some(b.list) else slot
    case Drain => None
    case SendAgain => if slot.None? then Some(b.list) else slot
  }

  ghost predicate Distinct(order: seq<nat>) {
    forall i, j :: 0 <= i < j < |order| ==> order[i] != order[j]
  }

  /**
   One step; a step that is not possible in a state leaves it unchanged. A mutation's broadcast
   goes by the number of store states before it, to the watchers in some order.
   */
  ghost function Apply(s: Sys, a: Action): (s': Sys) {
    match a
    case Mutate(hosts, order) =>
      if s.subscribing.Some? || Elements(order) != s.watchers || !Distinct(order) then s
      else s.(hosts := hosts, past := s.past + [hosts],
              jobs := s.jobs[|s.past| := Broadcast(hosts, order, TrySend)])
    case Send(job) =>
      if job !in s.jobs then s
      else
        var b := s.jobs[job];
        if b.todo == [] then s.(jobs := s.jobs - {job})
        else if b.todo[0] !in s.slots then s
        else
          var chan := b.todo[0];
          s.(slots := s.slots[chan := NextSlot(b, s.slots[chan])],
             jobs := s.jobs[job := NextPhase(b, s.slots[chan].Some?)])
    case Receive(chan) =>
      if chan !in s.slots || s.slots[chan].None? then s
      else s.(slots := s.slots[chan := None], received := s.received + [Receipt(chan, s.slots[chan].value)])
    case SubscribeOpen(chan) =>
      if s.subscribing.Some? || chan in s.slots then s
      else s.(watchers := s.watchers + {chan}, slots := s.slots[chan := None], subscribing := Some(chan))
    case SubscribeSend =>
      if s.subscribing.None? || s.subscribing.value !in s.slots || s.slots[s.subscribing.value].Some? then s
      else s.(slots := s.slots[s.subscribing.value := Some(s.hosts)], subscribing := None)
    case Cancel(chan) =>
      if s.subscribing.Some? then s else s.(watchers := s.watchers - {chan})
  }

  ghost function Run(s: Sys, actions: seq<Action>): (s': Sys)
    decreases |actions|
  {
    if actions == [] then s else Run(Apply(s, actions[0]), actions[1..])
  }

  // ---- Every list is a past state; nothing blocks ----

  ghost predicate SlotsKnown(slots: map<nat, Option<Hosts>>, past: seq<Hosts>) {
    forall chan :: chan in slots && slots[chan].Some? ==> slots[chan].value in past
  }

  /** A broadcast goes by the number of the store state that it carries. */
  ghost predicate JobsKnown(jobs: map<nat, Broadcast>, past: seq<Hosts>) {
    forall j :: j in jobs ==> j < |past| && jobs[j].list == past[j]
  }

  ghost predicate ReceivedKnown(received: seq<Receipt>, past: seq<Hosts>) {
    forall i :: 0 <= i < |received| ==> received[i].list in past
  }

  /** A channel being set up is empty and no broadcast knows it yet. */
  ghost predicate SubscriberAlone(subscribing: Option<nat>, slots: map<nat, Option<Hosts>>, jobs: map<nat, Broadcast>) {
    subscribing.Some? ==>
      && subscribing.value in slots && slots[subscribing.value] == None
      && forall j :: j in jobs ==> subscribing.value !in jobs[j].todo
  }

  ghost predicate ChannelsExist(watchers: set<nat>, slots: map<nat, Option<Hosts>>, jobs: map<nat, Broadcast>) {
    && watchers <= slots.Keys
    && forall j :: j in jobs ==> Elements(jobs[j].todo) <= slots.Keys && Distinct(jobs[j].todo)
  }

  ghost predicate Inv(s: Sys) {
    && s.past != [] && s.hosts == s.past[|s.past| - 1]
    && SlotsKnown(s.slots, s.past) && JobsKnown(s.jobs, s.past) && ReceivedKnown(s.received, s.past)
    && SubscriberAlone(s.subscribing, s.slots, s.jobs) && ChannelsExist(s.watchers, s.slots, s.jobs)
  }

  lemma MutateKeeps(s: Sys, a: Action)
    requires Inv(s) && a.Mutate?
    ensures Inv(Apply(s, a))
  {
    assert forall h :: h in s.past ==> h in s.past + [a.hosts];
    assert a.hosts in s.past + [a.hosts];
  }

  lemma SendSlots(b: Broadcast, slots: map<nat, Option<Hosts>>, chan: nat, past: seq<Hosts>)
    requires SlotsKnown(slots, past) && b.list in past && chan in slots
    ensures SlotsKnown(slots[chan := NextSlot(b, slots[chan])], past)
  {
  }

  lemma SendTodo(b: Broadcast, full: bool)
    requires b.todo != []
    ensures b.todo[0] in Elements(b.todo)
    ensures Elements(NextPhase(b, full).todo) <= Elements(b.todo)
    ensures Distinct(b.todo) ==> Distinct(NextPhase(b, full).todo)
    ensures NextPhase(b, full).list == b.list
  {
    assert Elements(b.todo[1..]) <= Elements(b.todo);
  }

  lemma SendKeeps(s: Sys, job: nat)
    requires Inv(s)
    ensures Inv(Apply(s, Send(job)))
  {
    if job in s.jobs && s.jobs[job].todo != [] && s.jobs[job].todo[0] in s.slots {
      var b := s.jobs[job];
      var chan := b.todo[0];
      SendTodo(b, s.slots[chan].Some?);
      SendSlots(b, s.slots, chan, s.past);
    }
  }

  lemma SubscribeKeeps(s: Sys, chan: nat)
    requires Inv(s)
    ensures Inv(Apply(s, SubscribeOpen(chan)))
  {
    if s.subscribing.None? && chan !in s.slots {
      forall j | j in s.jobs ensures chan !in s.jobs[j].todo {
        assert chan !in Elements(s.jobs[j].todo);
      }
    }
  }

  lemma StepKeeps(s: Sys, a: Action)
    requires Inv(s)
    ensures Inv(Apply(s, a))
  {
    match a
    case Mutate(_, _) => MutateKeeps(s, a);
    case Send(job) => SendKeeps(s, job);
    case SubscribeOpen(chan) => SubscribeKeeps(s, chan);
    case _ =>
  }

  lemma {:induction false} RunKeeps(s: Sys, actions: seq<Action>)
    requires Inv(s)
    ensures Inv(Run(s, actions))
    decreases |actions|
  {
    if actions != [] {
      StepKeeps(s, actions[0]);
      RunKeeps(Apply(s, actions[0]), actions[1..]);
    }
  }

  /** Whatever a watcher takes out of its channel is the complete sorted list of some past store state. */
  lemma EveryDeliveryIsAPastState(hosts: Hosts, actions: seq<Action>, i: nat)
    requires i < |Run(Start(hosts), actions).received|
    ensures var s := Run(Start(hosts), actions); s.received[i].list in s.past
  {
    RunKeeps(Start(hosts), actions);
  }

  /** Channel operations a broadcast still has to make at most. */
  function StepsLeft(b: Broadcast): (n: int) {
    3 * |b.todo| - (match b.phase case TrySend => 0 case Drain => 1 case SendAgain => 2)
  }

  ghost predicate SendProgresses(s: Sys, j: nat)
    requires j in s.jobs
  {
    var s' := Apply(s, Send(j));
    j in s'.jobs && StepsLeft(s'.jobs[j]) < StepsLeft(s.jobs[j])
  }

  ghost predicate SubscribeCompletes(s: Sys)
    requires s.subscribing.Some?
  {
    var s' := Apply(s, SubscribeSend);
    && s'.subscribing.None?
    && s.subscribing.value in s'.slots && s'.slots[s.subscribing.value] == Some(s.hosts)
  }

  /**
   Nothing ever waits: in every reachable state each broadcast step makes progress, at most
   three per watcher and whatever the others do, and a new subscriber's channel is free for
   its first list.
   */
  lemma NothingBlocks(hosts: Hosts, actions: seq<Action>)
    ensures var s := Run(Start(hosts), actions);
      && (forall j :: j in s.jobs && s.jobs[j].todo != [] ==> SendProgresses(s, j))
      && (s.subscribing.Some? ==> SubscribeCompletes(s))
  {
    RunKeeps(Start(hosts), actions);
    var s := Run(Start(hosts), actions);
    forall j | j in s.jobs && s.jobs[j].todo != [] ensures SendProgresses(s, j) {
      SendTodo(s.jobs[j], false);
    }
  }

  // ---- Delivery ----

  /** The channel a broadcast is working on. */
  ghost predicate WorksOn(s: Sys, job: nat, chan: nat) {
    job in s.jobs && s.jobs[job].todo != [] && s.jobs[job].todo[0] == chan
  }

  /** In this run no other broadcast touches the channel. */
  ghost predicate Undisturbed(s: Sys, actions: seq<Action>, job: nat, chan: nat)
    decreases |actions|
  {
    actions != [] ==>
      && (actions[0].Send? && actions[0].job != job ==> !WorksOn(s, actions[0].job, chan))
      && Undisturbed(Apply(s, actions[0]), actions[1..], job, chan)
  }

  /** Receipt `i` is of this list and the last one from this channel. */
  ghost predicate LastReceived(received: seq<Receipt>, chan: nat, list: Hosts, i: int) {
    && 0 <= i < |received| && received[i] == Receipt(chan, list)
    && forall k :: i < k < |received| ==> received[k].chan != chan
  }

  /**
   What the watcher has last: the list waits in the channel, or the channel is empty and the list
   was the last one taken from it, since the log had length `from`.
   */
  ghost predicate HasLast(s: Sys, chan: nat, list: Hosts, from: nat) {
    chan in s.slots &&
    match s.slots[chan]
    case Some(waiting) => waiting == list
    case None => exists i :: from <= i && LastReceived(s.received, chan, list, i)
  }

  /** `job` has the channel next on its list and, if it is about to send again, has emptied it. */
  ghost predicate OnItsWay(s: Sys, job: nat, chan: nat, list: Hosts) {
    && WorksOn(s, job, chan) && chan in s.slots && s.jobs[job].list == list
    && (s.jobs[job].phase == SendAgain ==> s.slots[chan] == None)
    && s.subscribing != Some(chan)
  }

  /** `job` has finished with the channel, which is no longer being set up. */
  ghost predicate Past(s: Sys, job: nat, chan: nat) {
    job < |s.past| && (job in s.jobs ==> chan !in s.jobs[job].todo) && s.subscribing != Some(chan)
  }

  lemma OnItsWayStep(s: Sys, a: Action, job: nat, chan: nat, list: Hosts, from: nat)
    requires Inv(s) && OnItsWay(s, job, chan, list) && from <= |s.received|
    requires a.Send? && a.job != job ==> !WorksOn(s, a.job, chan)
    ensures var s' := Apply(s, a);
      OnItsWay(s', job, chan, list) || (Past(s', job, chan) && HasLast(s', chan, list, from))
  {
    if a == Send(job) {
      var b := s.jobs[job];
      assert Distinct(b.todo);
      if b.phase != Drain && s.slots[chan].None? {
        assert Apply(s, a).jobs[job].todo == b.todo[1..];
      }
    }
  }

  lemma PastStep(s: Sys, a: Action, job: nat, chan: nat)
    requires JobsKnown(s.jobs, s.past) && Past(s, job, chan) && chan in s.slots
    ensures Past(Apply(s, a), job, chan)
  {
    if a == Send(job) && job in s.jobs && s.jobs[job].todo != [] {
      assert forall c :: c in s.jobs[job].todo[1..] ==> c in s.jobs[job].todo;
    }
  }

  lemma ReceiveKeepsLast(received: seq<Receipt>, r: Receipt, chan: nat, list: Hosts)
    ensures r == Receipt(chan, list) ==> LastReceived(received + [r], chan, list, |received|)
    ensures r.chan != chan ==> forall i :: LastReceived(received, chan, list, i) ==> LastReceived(received + [r], chan, list, i)
  {
  }

  /** It stays what the watcher has last, as long as no other broadcast touches the channel. */
  lemma HasLastStep(s: Sys, a: Action, job: nat, chan: nat, list: Hosts, from: nat)
    requires HasLast(s, chan, list, from) && Past(s, job, chan) && from <= |s.received|
    requires a.Send? && a.job != job ==> !WorksOn(s, a.job, chan)
    ensures HasLast(Apply(s, a), chan, list, from)
  {
    if a.Receive? && a.chan in s.slots && s.slots[a.chan].Some? {
      ReceiveKeepsLast(s.received, Receipt(a.chan, s.slots[a.chan].value), chan, list);
    } else if a == Send(job) && job in s.jobs && s.jobs[job].todo != [] {
      assert s.jobs[job].todo[0] in s.jobs[job].todo;
    }
  }

  lemma {:induction false} UndisturbedRun(s: Sys, actions: seq<Action>, job: nat, chan: nat, list: Hosts, from: nat)
    requires Inv(s) && from <= |s.received| && Undisturbed(s, actions, job, chan)
    requires OnItsWay(s, job, chan, list) || (Past(s, job, chan) && HasLast(s, chan, list, from))
    ensures var s' := Run(s, actions);
      OnItsWay(s', job, chan, list) || (Past(s', job, chan) && HasLast(s', chan, list, from))
    decreases |actions|
  {
    if actions != [] {
      var a := actions[0];
      StepKeeps(s, a);
      if OnItsWay(s, job, chan, list) {
        OnItsWayStep(s, a, job, chan, list, from);
      } else {
        HasLastStep(s, a, job, chan, list, from);
        PastStep(s, a, job, chan);
      }
      UndisturbedRun(Apply(s, a), actions[1..], job, chan, list, from);
    }
  }

  /**
   A broadcast that no other broadcast overlaps on a channel delivers: when it has moved on, its
   list is in the channel, or was the last one received there since it began.
   */
  lemma UndisturbedBroadcastDelivers(s: Sys, actions: seq<Action>, job: nat, chan: nat)
    requires Inv(s) && WorksOn(s, job, chan) && s.jobs[job].phase == TrySend
    requires Undisturbed(s, actions, job, chan) && !WorksOn(Run(s, actions), job, chan)
    ensures HasLast(Run(s, actions), chan, s.jobs[job].list, |s.received|)
  {
    assert chan in Elements(s.jobs[job].todo);
    UndisturbedRun(s, actions, job, chan, s.jobs[job].list, |s.received|);
  }

  // ---- Who decides what a watcher has ----

  /** A step that puts a list into the channel: which store state it puts there. */
  function Deposit(s: Sys, a: Action, chan: nat): (state: Option<nat>) {
    if chan !in s.slots || s.slots[chan].Some? || s.past == [] then None
    else
      match a
      case Send(job) =>
        if job in s.jobs && s.jobs[job].todo != [] && s.jobs[job].todo[0] == chan && s.jobs[job].phase != Drain
        then Some(job) else None
      case SubscribeSend => if s.subscribing == Some(chan) then Some(|s.past| - 1) else None
      case _ => None
  }

  function Later(last: Option<nat>, next: Option<nat>): Option<nat> {
    if next.Some? then next else last
  }

  /** The number of the store state that was put into the channel last, over a whole run. */
  ghost function LastDeposit(s: Sys, actions: seq<Action>, chan: nat, last: Option<nat>): (state: Option<nat>)
    decreases |actions|
  {
    if actions == [] then last
    else LastDeposit(Apply(s, actions[0]), actions[1..], chan, Later(last, Deposit(s, actions[0], chan)))
  }

  /** Some broadcast has emptied the channel and is about to send again. */
  ghost predicate Refilling(s: Sys, chan: nat) {
    exists job :: WorksOn(s, job, chan) && s.jobs[job].phase == SendAgain
  }

  ghost predicate NoneReceived(received: seq<Receipt>, chan: nat) {
    forall i :: 0 <= i < |received| ==> received[i].chan != chan
  }

  /** The state put in last is what waits in the channel or was taken from it last. */
  ghost predicate Tracks(s: Sys, chan: nat, last: Option<nat>) {
    && (last.Some? ==> last.value < |s.past|)
    && (last.None? ==> NoneReceived(s.received, chan) && (chan in s.slots ==> s.slots[chan] == None))
    && (last.Some? ==> chan in s.slots && (HasLast(s, chan, s.past[last.value], 0) || EmptyMeanwhile(s, chan)))
  }

  ghost predicate EmptyMeanwhile(s: Sys, chan: nat) {
    chan in s.slots && s.slots[chan] == None && Refilling(s, chan)
  }

  lemma DepositTracks(s: Sys, a: Action, chan: nat)
    requires Inv(s) && Deposit(s, a, chan).Some?
    ensures Tracks(Apply(s, a), chan, Deposit(s, a, chan))
  {
  }

  lemma RefillingStays(s: Sys, a: Action, chan: nat, job: nat)
    requires JobsKnown(s.jobs, s.past) && WorksOn(s, job, chan) && s.jobs[job].phase == SendAgain && a != Send(job)
    ensures Refilling(Apply(s, a), chan)
  {
    assert WorksOn(Apply(s, a), job, chan);
  }

  lemma RefillDeposits(s: Sys, chan: nat, job: nat)
    requires Inv(s) && WorksOn(s, job, chan) && s.jobs[job].phase == SendAgain && EmptyMeanwhile(s, chan)
    ensures Deposit(s, Send(job), chan) == Some(job)
  {
  }

  lemma EmptyStays(s: Sys, a: Action, chan: nat)
    requires Inv(s) && EmptyMeanwhile(s, chan) && Deposit(s, a, chan).None?
    ensures EmptyMeanwhile(Apply(s, a), chan)
  {
    var job :| WorksOn(s, job, chan) && s.jobs[job].phase == SendAgain;
    if a == Send(job) {
      RefillDeposits(s, chan, job);
    } else {
      RefillingStays(s, a, chan, job);
    }
  }

  /** The only steps that empty a channel are a receipt, and a drain by a broadcast that sends again. */
  lemma FullStays(s: Sys, a: Action, chan: nat, list: Hosts)
    requires Inv(s) && chan in s.slots && s.slots[chan] == Some(list)
    ensures HasLast(Apply(s, a), chan, list, 0) || EmptyMeanwhile(Apply(s, a), chan)
  {
    var s' := Apply(s, a);
    if a == Receive(chan) {
      ReceiveKeepsLast(s.received, Receipt(chan, list), chan, list);
    } else if a.Send? && WorksOn(s, a.job, chan) && s.jobs[a.job].phase == Drain {
      assert WorksOn(s', a.job, chan) && s'.jobs[a.job].phase == SendAgain;
    }
  }

  lemma TakenStays(s: Sys, a: Action, chan: nat, list: Hosts, i: int)
    requires Inv(s) && chan in s.slots && s.slots[chan] == None && LastReceived(s.received, chan, list, i)
    requires Deposit(s, a, chan).None?
    ensures HasLast(Apply(s, a), chan, list, 0) || EmptyMeanwhile(Apply(s, a), chan)
  {
    var s' := Apply(s, a);
    if a.Receive? && a.chan in s.slots && s.slots[a.chan].Some? {
      ReceiveKeepsLast(s.received, Receipt(a.chan, s.slots[a.chan].value), chan, list);
    } else {
      assert s'.received == s.received;
    }
  }

  lemma NoDepositTracks(s: Sys, a: Action, chan: nat, last: Option<nat>)
    requires Inv(s) && Tracks(s, chan, last) && Deposit(s, a, chan).None?
    ensures Tracks(Apply(s, a), chan, last)
  {
    if last.Some? {
      var list := s.past[last.value];
      assert Apply(s, a).past[last.value] == list;
      if EmptyMeanwhile(s, chan) {
        EmptyStays(s, a, chan);
      } else if s.slots[chan].Some? {
        FullStays(s, a, chan, list);
      } else {
        var i :| 0 <= i && LastReceived(s.received, chan, list, i);
        TakenStays(s, a, chan, list, i);
      }
    }
  }

  lemma {:induction false} RunTracks(s: Sys, actions: seq<Action>, chan: nat, last: Option<nat>)
    requires Inv(s) && Tracks(s, chan, last)
    ensures Tracks(Run(s, actions), chan, LastDeposit(s, actions, chan, last))
    decreases |actions|
  {
    if actions != [] {
      var a := actions[0];
      StepKeeps(s, a);
      if Deposit(s, a, chan).Some? {
        DepositTracks(s, a, chan);
      } else {
        NoDepositTracks(s, a, chan, last);
      }
      RunTracks(Apply(s, a), actions[1..], chan, Later(last, Deposit(s, a, chan)));
    }
  }

  /**
   In every run, however broadcasts overlap or overtake one another, what a watcher has is the
   state that was put into its channel last; only while a broadcast stands between emptying the
   channel and sending again can the channel be empty without that state having been received.
   */
  lemma LastDepositDecides(hosts: Hosts, actions: seq<Action>, chan: nat)
    ensures var s, last := Run(Start(hosts), actions), LastDeposit(Start(hosts), actions, chan, None);
      && (last.None? ==> NoneReceived(s.received, chan) && (chan in s.slots ==> s.slots[chan] == None))
      && (last.Some? ==> last.value < |s.past|
                         && (HasLast(s, chan, s.past[last.value], 0) || EmptyMeanwhile(s, chan)))
  {
    RunTracks(Start(hosts), actions, chan, None);
  }

  lemma OnlyOneLast(s: Sys, chan: nat, a: Hosts, b: Hosts, from: nat)
    requires HasLast(s, chan, a, from) && HasLast(s, chan, b, from)
    ensures a == b
  {
    if s.slots[chan].None? {
      var i :| from <= i && LastReceived(s.received, chan, a, i);
      var j :| from <= j && LastReceived(s.received, chan, b, j);
      assert i == j;
    }
  }

  lemma NoLastWithoutReceipt(s: Sys, chan: nat, list: Hosts)
    requires NoneReceived(s.received, chan) && (chan in s.slots ==> s.slots[chan] == None)
    ensures !HasLast(s, chan, list, 0)
  {
  }

  /**
   So in every run the watcher has the newest list if and only if the last state put into its
   channel is the current one: whoever loses the race for the last deposit, by overlapping or by
   coming late, decides nothing. (Not while a broadcast has just emptied the channel to refill it.)
   */
  lemma NewestExactlyWhenCurrent(hosts: Hosts, actions: seq<Action>, chan: nat)
    requires !EmptyMeanwhile(Run(Start(hosts), actions), chan)
    ensures var s, last := Run(Start(hosts), actions), LastDeposit(Start(hosts), actions, chan, None);
      HasLast(s, chan, s.hosts, 0) <==> last.Some? && last.value < |s.past| && s.past[last.value] == s.hosts
  {
    var s, last := Run(Start(hosts), actions), LastDeposit(Start(hosts), actions, chan, None);
    LastDepositDecides(hosts, actions, chan);
    if last.None? {
      NoLastWithoutReceipt(s, chan, s.hosts);
    } else if HasLast(s, chan, s.hosts, 0) {
      OnlyOneLast(s, chan, s.past[last.value], s.hosts, 0);
    }
  }

  /** In particular when the latest broadcast, or a later subscription, was the last to put its list in. */
  lemma LatestDepositIsNewest(hosts: Hosts, actions: seq<Action>, chan: nat)
    requires !EmptyMeanwhile(Run(Start(hosts), actions), chan)
    requires LastDeposit(Start(hosts), actions, chan, None) == Some(|Run(Start(hosts), actions).past| - 1)
    ensures HasLast(Run(Start(hosts), actions), chan, Run(Start(hosts), actions).hosts, 0)
  {
    RunKeeps(Start(hosts), actions);
    NewestExactlyWhenCurrent(hosts, actions, chan);
  }

  // ---- What overlap and overtaking can do ----

  lemma {:induction false} RunSnoc(s: Sys, actions: seq<Action>, a: Action)
    ensures Run(s, actions + [a]) == Apply(Run(s, actions), a)
    decreases |actions|
  {
    if actions == [] {
      assert actions + [a] == [a];
      assert Run(s, [a]) == Run(Apply(s, a), []);
    } else {
      RunSnoc(Apply(s, actions[0]), actions[1..], a);
      assert (actions + [a])[1..] == actions[1..] + [a];
    }
  }

  /** One watcher, its slot, and two broadcasts of successive store states. */
  function TwoBroadcasts(h: seq<Hosts>, slot: Option<Hosts>, older: Broadcast, newer: Broadcast): (s: Sys)
    requires |h| == 3
  {
    Sys(h[2], h, {0}, map[0 := slot], None, map[1 := older, 2 := newer], [])
  }

  ghost predicate Reachable(s: Sys) {
    exists hosts, actions :: s == Run(Start(hosts), actions)
  }

  lemma ReachableStep(s: Sys, a: Action)
    requires Reachable(s)
    ensures Reachable(Apply(s, a))
  {
    var hosts, actions :| s == Run(Start(hosts), actions);
    RunSnoc(Start(hosts), actions, a);
  }

  /** A watcher has subscribed and its first list waits in the channel. */
  lemma SubscriptionBegins(hosts: Hosts)
    ensures Reachable(Sys(hosts, [hosts], {0}, map[0 := Some(hosts)], None, map[], []))
  {
    var s0 := Start(hosts);
    assert s0 == Run(s0, []);
    ReachableStep(s0, SubscribeOpen(0));
    var s1 := Sys(hosts, [hosts], {0}, map[0 := None], Some(0), map[], []);
    assert s1 == Apply(s0, SubscribeOpen(0));
    ReachableStep(s1, SubscribeSend);
    assert Sys(hosts, [hosts], {0}, map[0 := Some(hosts)], None, map[], []) == Apply(s1, SubscribeSend);
  }

  /** A mutation while one watcher is there. */
  lemma MutationBegins(s: Sys, hosts: Hosts)
    requires Reachable(s) && s.watchers == {0} && s.subscribing == None
    ensures Reachable(s.(hosts := hosts, past := s.past + [hosts], jobs := s.jobs[|s.past| := Broadcast(hosts, [0], TrySend)]))
  {
    assert Elements([0]) == {0};
    ReachableStep(s, Mutate(hosts, [0]));
  }

  /** Two mutations can both be under way, the first list still waiting in the channel. */
  lemma TwoBroadcastsBegin(h: seq<Hosts>)
    requires |h| == 3
    ensures Reachable(TwoBroadcasts(h, Some(h[0]), Broadcast(h[1], [0], TrySend), Broadcast(h[2], [0], TrySend)))
  {
    SubscriptionBegins(h[0]);
    var s := Sys(h[0], [h[0]], {0}, map[0 := Some(h[0])], None, map[], []);
    MutationBegins(s, h[1]);
    var b1, b2 := Broadcast(h[1], [0], TrySend), Broadcast(h[2], [0], TrySend);
    var s' := Sys(h[1], [h[0], h[1]], {0}, map[0 := Some(h[0])], None, map[1 := b1], []);
    assert s' == s.(hosts := h[1], past := s.past + [h[1]], jobs := s.jobs[1 := b1]);
    MutationBegins(s', h[2]);
    assert [h[0], h[1]] + [h[2]] == h;
    assert map[1 := b1][2 := b2] == map[1 := b1, 2 := b2];
  }

  lemma OlderSends(h: seq<Hosts>, slot: Option<Hosts>, older: Broadcast, newer: Broadcast)
    requires |h| == 3 && older.todo == [0] && Reachable(TwoBroadcasts(h, slot, older, newer))
    ensures var s' := TwoBroadcasts(h, NextSlot(older, slot), NextPhase(older, slot.Some?), newer);
      Reachable(s') && Apply(TwoBroadcasts(h, slot, older, newer), Send(1)) == s'
  {
    ReachableStep(TwoBroadcasts(h, slot, older, newer), Send(1));
    assert Apply(TwoBroadcasts(h, slot, older, newer), Send(1))
        == TwoBroadcasts(h, NextSlot(older, slot), NextPhase(older, slot.Some?), newer);
  }

  lemma NewerSends(h: seq<Hosts>, slot: Option<Hosts>, older: Broadcast, newer: Broadcast)
    requires |h| == 3 && newer.todo == [0] && Reachable(TwoBroadcasts(h, slot, older, newer))
    ensures Reachable(TwoBroadcasts(h, NextSlot(newer, slot), older, NextPhase(newer, slot.Some?)))
  {
    ReachableStep(TwoBroadcasts(h, slot, older, newer), Send(2));
    assert Apply(TwoBroadcasts(h, slot, older, newer), Send(2))
        == TwoBroadcasts(h, NextSlot(newer, slot), older, NextPhase(newer, slot.Some?));
  }

  /** The watcher is left with the older list and never gets to see the newer one. */
  ghost predicate NewerLost(h: seq<Hosts>)
    requires |h| == 3
  {
    var s := TwoBroadcasts(h, Some(h[1]), Broadcast(h[1], [], TrySend), Broadcast(h[2], [], TrySend));
    Reachable(s) && s.hosts == h[2] && s.received == [] && s.slots[0] == Some(h[1])
  }

  /** If broadcasts overlap on a channel, the newer list can be dropped. */
  lemma OverlapCanDropTheNewerList(h: seq<Hosts>)
    requires |h| == 3 && h[1] != h[2]
    ensures NewerLost(h)
  {
    var b1, b2 := Broadcast(h[1], [0], TrySend), Broadcast(h[2], [0], TrySend);
    assert b1.todo[1..] == [] && b2.todo[1..] == [];
    TwoBroadcastsBegin(h);
    NewerSends(h, Some(h[0]), b1, b2);
    NewerSends(h, Some(h[0]), b1, b2.(phase := Drain));
    OlderSends(h, None, b1, b2.(phase := SendAgain));
    NewerSends(h, Some(h[1]), Broadcast(h[1], [], TrySend), b2.(phase := SendAgain));
  }

  /**
   Even without overlap the newest list can be lost: the newer broadcast is over and its list in
   the channel when the older one begins, takes it out unseen and leaves its own.
   */
  lemma LateBroadcastCanReplaceTheNewerList(h: seq<Hosts>)
    requires |h| == 3 && h[1] != h[2]
    ensures var older, done := Broadcast(h[1], [0], TrySend), Broadcast(h[2], [], TrySend);
      var s := TwoBroadcasts(h, Some(h[2]), older, done);
      && Reachable(s)
      && Run(s, [Send(1), Send(1), Send(1)]) == TwoBroadcasts(h, Some(h[1]), Broadcast(h[1], [], TrySend), done)
    ensures NewerLost(h)
  {
    var b1, b2 := Broadcast(h[1], [0], TrySend), Broadcast(h[2], [0], TrySend);
    var done := Broadcast(h[2], [], TrySend);
    assert b1.todo[1..] == [] && b2.todo[1..] == [];
    TwoBroadcastsBegin(h);
    NewerSends(h, Some(h[0]), b1, b2);
    NewerSends(h, Some(h[0]), b1, b2.(phase := Drain));
    NewerSends(h, None, b1, b2.(phase := SendAgain));
    OlderSends(h, Some(h[2]), b1, done);
    OlderSends(h, Some(h[2]), b1.(phase := Drain), done);
    OlderSends(h, None, b1.(phase := SendAgain), done);
    var s := TwoBroadcasts(h, Some(h[2]), b1, done);
    RunSnoc(s, [], Send(1));
    RunSnoc(s, [Send(1)], Send(1));
    RunSnoc(s, [Send(1), Send(1)], Send(1));
    assert [] + [Send(1)] == [Send(1)];
    assert [Send(1)] + [Send(1)] == [Send(1), Send(1)];
    assert [Send(1), Send(1)] + [Send(1)] == [Send(1), Send(1), Send(1)];
  }
}
