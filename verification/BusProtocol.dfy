/** Safety and progress of `publish_sync` over every interleaving of the bus task and the
    subscriber tasks (src/events.rs). */
module BusProtocol {
  import opened Text
  import opened Collections
  import opened Events
  import opened EventBus

  // ----- What a dispatch does -----

  /** The interested synchronous subscribers, in dispatch order. */
  function SyncTargets(subscribers: map<nat, Subscriber>, order: seq<nat>, e: Event): seq<nat> {
    if order == [] then []
    else
      (if Wants(subscribers, order[0], e) && subscribers[order[0]].subscriptionType == SyncType then [order[0]] else [])
      + SyncTargets(subscribers, order[1..], e)
  }

  /** Every channel keeps its state but for one delivery of the event to each interested
      subscriber with room. */
  ghost predicate Delivered(before: seq<Channel>, after: seq<Channel>, subscribers: map<nat, Subscriber>,
                            order: seq<nat>, e: Event) {
    && |after| == |before|
    && (forall i :: 0 <= i < |before| ==>
          if i in order && Wants(subscribers, i, e) && HasRoom(before[i])
          then |after[i].queue| == |before[i].queue| + 1
               && after[i] == before[i].(queue := before[i].queue + [after[i].queue[|before[i].queue|]])
               && after[i].queue[|before[i].queue|].event == e
          else after[i] == before[i])
  }

  /** The acknowledgments after a dispatch: the old ones, then one for each interested
      synchronous subscriber, queued with the event or already dropped as the send failed. */
  ghost predicate AcksMade(before: seq<Ack>, after: Heap, targets: seq<nat>) {
    && before <= after.acks && |after.acks| == |before| + |targets|
    && (forall a :: |before| <= a < |after.acks| ==>
          && after.acks[a].owner == targets[a - |before|] < |after.channels|
          && (after.acks[a].state == Pending ==> Carries(after.channels[after.acks[a].owner], a)))
  }

  /** The acknowledgments to await are the new ones, in order. */
  ghost predicate AwaitedMade(h: Heap, after: Heap, targets: seq<nat>) {
    && h.awaited <= after.awaited && |after.awaited| == |h.awaited| + |targets|
    && (forall j :: |h.awaited| <= j < |after.awaited| ==> after.awaited[j] == |h.acks| + j - |h.awaited|)
  }

  lemma {:induction false} DispatchDelivers(h: Heap, subscribers: map<nat, Subscriber>, order: seq<nat>, e: Event,
                                            sync: bool)
    requires forall i :: i in subscribers ==> i < |h.channels|
    requires Distinct(order)
    ensures Delivered(h.channels, Dispatch(h, subscribers, order, e, sync).channels, subscribers, order, e)
    decreases |order|
  {
    if order != [] {
      DistinctHead(order);
      var next := if Wants(subscribers, order[0], e) then SendTo(h, subscribers, order[0], e, sync) else h;
      DispatchDelivers(next, subscribers, order[1..], e, sync);
      SendDelivers(h, subscribers, order[0], e, sync);
      SentFirst(h.channels, next.channels, Dispatch(next, subscribers, order[1..], e, sync).channels, subscribers,
                order, e);
    }
  }

  /** The channels after one send, or none. */
  ghost predicate Sent(before: seq<Channel>, after: seq<Channel>, i: nat, wanted: bool, e: Event) {
    |after| == |before| && forall j :: 0 <= j < |before| ==>
      if j == i && wanted && HasRoom(before[j])
      then |after[j].queue| == |before[j].queue| + 1
           && after[j] == before[j].(queue := before[j].queue + [after[j].queue[|before[j].queue|]])
           && after[j].queue[|before[j].queue|].event == e
      else after[j] == before[j]
  }

  lemma SendDelivers(h: Heap, subscribers: map<nat, Subscriber>, i: nat, e: Event, sync: bool)
    requires forall j :: j in subscribers ==> j < |h.channels|
    ensures var next := if Wants(subscribers, i, e) then SendTo(h, subscribers, i, e, sync) else h;
      Sent(h.channels, next.channels, i, Wants(subscribers, i, e), e)
  {
  }

  lemma SentFirst(before: seq<Channel>, next: seq<Channel>, after: seq<Channel>, subscribers: map<nat, Subscriber>,
                  order: seq<nat>, e: Event)
    requires order != [] && Distinct(order)
    requires Sent(before, next, order[0], Wants(subscribers, order[0], e), e)
    requires Delivered(next, after, subscribers, order[1..], e)
    ensures Delivered(before, after, subscribers, order, e)
  {
    DistinctHead(order);
  }

  /** Queues only grow in a dispatch, so what they carry stays carried. */
  lemma {:induction false} DispatchKeepsCarried(h: Heap, subscribers: map<nat, Subscriber>, order: seq<nat>, e: Event,
                                                sync: bool,
                                                i: nat, ack: nat)
    requires forall j :: j in subscribers ==> j < |h.channels|
    requires i < |h.channels| && Carries(h.channels[i], ack)
    ensures var after := Dispatch(h, subscribers, order, e, sync);
      |after.channels| == |h.channels| && Carries(after.channels[i], ack)
    decreases |order|
  {
    if order != [] {
      var next := if Wants(subscribers, order[0], e) then SendTo(h, subscribers, order[0], e, sync) else h;
      SendKeepsCarried(h, next, i, ack);
      DispatchKeepsCarried(next, subscribers, order[1..], e, sync, i, ack);
    }
  }

  lemma SendKeepsCarried(h: Heap, next: Heap, i: nat, ack: nat)
    requires i < |h.channels| == |next.channels| && Carries(h.channels[i], ack)
    requires next.channels[i].held == h.channels[i].held && next.channels[i].open == h.channels[i].open
    requires h.channels[i].queue <= next.channels[i].queue
    ensures Carries(next.channels[i], ack)
  {
    if ack !in h.channels[i].held {
      var k :| 0 <= k < |h.channels[i].queue| && h.channels[i].queue[k].Sync? && h.channels[i].queue[k].ack == ack;
      assert next.channels[i].queue[k] == h.channels[i].queue[k];
    }
  }

  lemma {:induction false} DispatchLength(h: Heap, subscribers: map<nat, Subscriber>, order: seq<nat>, e: Event)
    requires forall i :: i in subscribers ==> i < |h.channels|
    ensures |Dispatch(h, subscribers, order, e, true).channels| == |h.channels|
    decreases |order|
  {
    if order != [] {
      var next := if Wants(subscribers, order[0], e) then SendTo(h, subscribers, order[0], e, true) else h;
      DispatchLength(next, subscribers, order[1..], e);
    }
  }

  /** The first handle of a dispatch is queued, or dropped, and then kept as it is. */
  lemma FirstHandle(h: Heap, subscribers: map<nat, Subscriber>, order: seq<nat>, e: Event)
    requires forall i :: i in subscribers ==> i < |h.channels|
    requires order != [] && Wants(subscribers, order[0], e) && subscribers[order[0]].subscriptionType == SyncType
    ensures var next := SendTo(h, subscribers, order[0], e, true);
      var after := Dispatch(next, subscribers, order[1..], e, true);
      && |after.channels| == |h.channels| && next.acks == h.acks + [next.acks[|h.acks|]]
      && next.awaited == h.awaited + [|h.acks|]
      && next.acks[|h.acks|].owner == order[0]
      && (next.acks[|h.acks|].state == Pending ==> Carries(after.channels[order[0]], |h.acks|))
  {
    var i := order[0];
    var next := SendTo(h, subscribers, i, e, true);
    DispatchLength(next, subscribers, order[1..], e);
    if next.acks[|h.acks|].state == Pending {
      assert next.channels[i].queue[|h.channels[i].queue|] == Sync(e, |h.acks|);
      DispatchKeepsCarried(next, subscribers, order[1..], e, true, i, |h.acks|);
    }
  }

  lemma {:induction false} DispatchMakesAcks(h: Heap, subscribers: map<nat, Subscriber>, order: seq<nat>, e: Event)
    requires forall i :: i in subscribers ==> i < |h.channels|
    ensures AcksMade(h.acks, Dispatch(h, subscribers, order, e, true), SyncTargets(subscribers, order, e))
    decreases |order|
  {
    if order != [] {
      var next := if Wants(subscribers, order[0], e) then SendTo(h, subscribers, order[0], e, true) else h;
      var after, rest := Dispatch(next, subscribers, order[1..], e, true), SyncTargets(subscribers, order[1..], e);
      assert Dispatch(h, subscribers, order, e, true) == after;
      DispatchMakesAcks(next, subscribers, order[1..], e);
      if Wants(subscribers, order[0], e) && subscribers[order[0]].subscriptionType == SyncType {
        assert SyncTargets(subscribers, order, e) == [order[0]] + rest;
        FirstHandle(h, subscribers, order, e);
        AcksExtend(h, next, after, order[0], rest);
      } else {
        assert SyncTargets(subscribers, order, e) == [] + rest == rest && next.acks == h.acks;
      }
    }
  }

  lemma AcksExtend(h: Heap, next: Heap, after: Heap, i: nat, rest: seq<nat>)
    requires |next.acks| == |h.acks| + 1 && h.acks <= next.acks && AcksMade(next.acks, after, rest)
    requires next.acks[|h.acks|].owner == i < |after.channels|
    requires next.acks[|h.acks|].state == Pending ==> Carries(after.channels[i], |h.acks|)
    ensures AcksMade(h.acks, after, [i] + rest)
  {
    var targets := [i] + rest;
    forall a | |h.acks| <= a < |after.acks|
      ensures after.acks[a].owner == targets[a - |h.acks|] < |after.channels|
      ensures after.acks[a].state == Pending ==> Carries(after.channels[after.acks[a].owner], a)
    {
      assert a == |h.acks| ==> after.acks[a] == next.acks[a];
      assert a > |h.acks| ==> targets[a - |h.acks|] == rest[a - |next.acks|];
    }
  }

  lemma {:induction false} DispatchMakesAwaited(h: Heap, subscribers: map<nat, Subscriber>, order: seq<nat>, e: Event)
    requires forall i :: i in subscribers ==> i < |h.channels|
    ensures AwaitedMade(h, Dispatch(h, subscribers, order, e, true), SyncTargets(subscribers, order, e))
    decreases |order|
  {
    if order != [] {
      var next := if Wants(subscribers, order[0], e) then SendTo(h, subscribers, order[0], e, true) else h;
      DispatchMakesAwaited(next, subscribers, order[1..], e);
    }
  }

  lemma {:induction false} DispatchAsyncMakesNone(h: Heap, subscribers: map<nat, Subscriber>, order: seq<nat>, e: Event)
    requires forall i :: i in subscribers ==> i < |h.channels|
    ensures var after := Dispatch(h, subscribers, order, e, false);
      after.acks == h.acks && after.awaited == h.awaited
    decreases |order|
  {
    if order != [] {
      var next := if Wants(subscribers, order[0], e) then SendTo(h, subscribers, order[0], e, false) else h;
      DispatchAsyncMakesNone(next, subscribers, order[1..], e);
    }
  }

  lemma {:induction false} DispatchKeepsNumbered(h: Heap, subscribers: map<nat, Subscriber>, order: seq<nat>,
                                                 e: Event, sync: bool)
    requires forall i :: i in subscribers ==> i < |h.channels|
    requires Numbered(h.channels, |h.acks|)
    ensures var after := Dispatch(h, subscribers, order, e, sync); Numbered(after.channels, |after.acks|)
    decreases |order|
  {
    if order != [] {
      var next := if Wants(subscribers, order[0], e) then SendTo(h, subscribers, order[0], e, sync) else h;
      DispatchKeepsNumbered(next, subscribers, order[1..], e, sync);
    }
  }

  // ----- The invariant, action by action -----

  /** Handles made before the dispatch are still where they were. */
  lemma DispatchKeepsLocated(h: Heap, subscribers: map<nat, Subscriber>, order: seq<nat>, e: Event, sync: bool)
    requires forall i :: i in subscribers ==> i < |h.channels|
    requires Located(h.channels, h.acks)
    ensures var after := Dispatch(h, subscribers, order, e, sync);
      && h.acks <= after.acks
      && Located(after.channels, after.acks)
  {
    var after := Dispatch(h, subscribers, order, e, sync);
    if sync {
      DispatchMakesAcks(h, subscribers, order, e);
    } else {
      DispatchAsyncMakesNone(h, subscribers, order, e);
    }
    forall a | 0 <= a < |after.acks| && after.acks[a].state == Pending
      ensures after.acks[a].owner < |after.channels| && Carries(after.channels[after.acks[a].owner], a)
    {
      if a < |h.acks| {
        assert after.acks[a] == h.acks[a];
        DispatchKeepsCarried(h, subscribers, order, e, sync, h.acks[a].owner, a);
      }
    }
  }

  lemma TakeKeepsValid(s: Bus, order: seq<nat>)
    requires Valid(s) && Enabled(s, Take(order))
    ensures Valid(Do(s, Take(order)))
  {
    var h := Heap(s.channels, s.acks, []);
    match s.pending[0].command
    case Publish(e) =>
      DispatchDelivers(h, s.subscribers, order, e, false);
      DispatchKeepsNumbered(h, s.subscribers, order, e, false);
      DispatchKeepsLocated(h, s.subscribers, order, e, false);
    case PublishSync(e) =>
      DispatchDelivers(h, s.subscribers, order, e, true);
      DispatchKeepsNumbered(h, s.subscribers, order, e, true);
      DispatchKeepsLocated(h, s.subscribers, order, e, true);
      DispatchMakesAcks(h, s.subscribers, order, e);
      DispatchMakesAwaited(h, s.subscribers, order, e);
    case Subscribe(_) =>
    case Unsubscribe(_) =>
  }

  lemma ReceiveKeepsValid(s: Bus, i: nat)
    requires Valid(s) && Enabled(s, Receive(i))
    ensures Valid(Do(s, Receive(i)))
  {
    var s' := Do(s, Receive(i));
    var c, c' := s.channels[i], s'.channels[i];
    forall a | 0 <= a < |s.acks| && s.acks[a].state == Pending
      ensures s.acks[a].owner < |s'.channels| && Carries(s'.channels[s.acks[a].owner], a)
    {
      if s.acks[a].owner == i && a !in c.held {
        var k :| 0 <= k < |c.queue| && c.queue[k].Sync? && c.queue[k].ack == a;
        if k > 0 {
          assert c'.queue[k - 1] == c.queue[k];
        }
      }
    }
  }

  lemma ResolveKeepsValid(s: Bus, i: nat, ack: nat, state: AckState)
    requires Valid(s) && i < |s.channels| && ack < |s.acks| && state != Pending
    ensures Valid(Resolve(s, i, ack, state))
  {
    var s' := Resolve(s, i, ack, state);
    forall a | 0 <= a < |s'.acks| && s'.acks[a].state == Pending
      ensures s'.acks[a].owner < |s'.channels| && Carries(s'.channels[s'.acks[a].owner], a)
    {
      assert s.acks[a] == s'.acks[a] && a != ack;
      var c := s.channels[s.acks[a].owner];
      assert s'.channels[s.acks[a].owner].queue == c.queue;
    }
  }

  lemma CloseKeepsValid(s: Bus, i: nat)
    requires Valid(s) && Enabled(s, Close(i))
    ensures Valid(Do(s, Close(i)))
  {
    var s' := Do(s, Close(i));
    forall a | 0 <= a < |s'.acks| && s'.acks[a].state == Pending
      ensures s'.acks[a].owner < |s'.channels| && Carries(s'.channels[s'.acks[a].owner], a)
    {
      assert s'.acks[a] == s.acks[a];
      if s.acks[a].owner == i {
        assert a in s.channels[i].held;
      }
    }
  }

  lemma StepKeepsValid(s: Bus, act: Action)
    requires Valid(s) && Enabled(s, act)
    ensures Valid(Do(s, act))
  {
    match act
    case Take(order) => TakeKeepsValid(s, order);
    case Receive(i) => ReceiveKeepsValid(s, i);
    case Acknowledge(i, ack) => ResolveKeepsValid(s, i, ack, Acknowledged);
    case DropHandle(i, ack) => ResolveKeepsValid(s, i, ack, Dropped);
    case Close(i) => CloseKeepsValid(s, i);
    case Submit(_) =>
    case CallBus(_, _) =>
    case AwaitNext =>
    case ReplySync =>
  }

  // ----- Runs -----

  /** A run is any sequence of enabled steps; the invariant comes with it. */
  ghost predicate CanRun(s: Bus, acts: seq<Action>)
    requires Valid(s)
    decreases |acts|
  {
    acts == [] ||
    (Enabled(s, acts[0]) && (StepKeepsValid(s, acts[0]); CanRun(Do(s, acts[0]), acts[1..])))
  }

  lemma RunStep(s: Bus, acts: seq<Action>)
    requires Valid(s) && CanRun(s, acts) && acts != []
    ensures Enabled(s, acts[0]) && Valid(Do(s, acts[0])) && CanRun(Do(s, acts[0]), acts[1..])
    ensures Run(s, acts) == Run(Do(s, acts[0]), acts[1..])
  {
    StepKeepsValid(s, acts[0]);
  }

  ghost function Run(s: Bus, acts: seq<Action>): (final: Bus)
    requires Valid(s) && CanRun(s, acts)
    ensures Valid(final)
    decreases |acts|
  {
    if acts == [] then s
    else
      StepKeepsValid(s, acts[0]);
      Run(Do(s, acts[0]), acts[1..])
  }

  // ----- Safety -----

  /** Every new handle is pending, in the queue with its event, if the subscriber's receiver is open
      with fewer than 100 deliveries waiting, and is dropped at once otherwise. */
  ghost predicate HandlesMade(h: Heap, after: Heap, order: seq<nat>, e: Event) {
    && h.acks <= after.acks && |after.channels| == |h.channels|
    && forall a :: |h.acks| <= a < |after.acks| ==> HandleMade(h.channels, after, order, e, a)
  }

  ghost predicate HandleMade(before: seq<Channel>, after: Heap, order: seq<nat>, e: Event, a: nat)
    requires a < |after.acks| && |after.channels| == |before|
  {
    var i := after.acks[a].owner;
    && i in order && i < |before|
    && var c, sent := before[i], after.channels[i].queue;
       if c.open && |c.queue| < 100 then
         after.acks[a].state == Pending && |c.queue| < |sent| && sent[|c.queue|] == Sync(e, a)
       else after.acks[a].state == Dropped
  }

  lemma FirstHandleMade(h: Heap, subscribers: map<nat, Subscriber>, order: seq<nat>, e: Event)
    requires forall i :: i in subscribers ==> i < |h.channels|
    requires order != [] && Distinct(order) && Wants(subscribers, order[0], e)
    ensures var next := SendTo(h, subscribers, order[0], e, true);
      var after := Dispatch(next, subscribers, order[1..], e, true);
      next.acks <= after.acks ==>
        |after.channels| == |h.channels|
        && forall a :: |h.acks| <= a < |next.acks| ==> HandleMade(h.channels, after, order, e, a)
  {
    var next := SendTo(h, subscribers, order[0], e, true);
    var after := Dispatch(next, subscribers, order[1..], e, true);
    DistinctHead(order);
    DispatchDelivers(next, subscribers, order[1..], e, true);
    assert after.channels[order[0]] == next.channels[order[0]];
    if next.acks <= after.acks && |next.acks| > |h.acks| {
      assert after.acks[|h.acks|] == next.acks[|h.acks|];
    }
  }

  lemma {:induction false} DispatchMakesHandles(h: Heap, subscribers: map<nat, Subscriber>, order: seq<nat>, e: Event)
    requires forall i :: i in subscribers ==> i < |h.channels|
    requires Distinct(order)
    ensures HandlesMade(h, Dispatch(h, subscribers, order, e, true), order, e)
    decreases |order|
  {
    if order != [] {
      DistinctHead(order);
      var next := if Wants(subscribers, order[0], e) then SendTo(h, subscribers, order[0], e, true) else h;
      var after := Dispatch(next, subscribers, order[1..], e, true);
      DispatchMakesHandles(next, subscribers, order[1..], e);
      if Wants(subscribers, order[0], e) {
        FirstHandleMade(h, subscribers, order, e);
      }
      forall a | |next.acks| <= a < |after.acks|
        ensures HandleMade(h.channels, after, order, e, a)
      {
        assert HandleMade(next.channels, after, order[1..], e, a);
      }
    }
  }

  /** What a synchronous publish waits for: one handle per interested synchronous subscriber, in that
      subscriber's queue unless there was no room. */
  lemma PublishSyncAwaitsAll(s: Bus, order: seq<nat>)
    requires Valid(s) && Enabled(s, Take(order)) && s.pending[0].command.PublishSync?
    ensures var s', e := Do(s, Take(order)), s.pending[0].command.event;
      var targets := SyncTargets(s.subscribers, order, e);
      && s'.phase.Awaiting? && s'.phase.next == 0 && |s'.phase.acks| == |targets|
      && (forall k :: 0 <= k < |targets| ==>
            s'.phase.acks[k] == |s.acks| + k < |s'.acks| && s'.acks[s'.phase.acks[k]].owner == targets[k])
      && (forall i :: i in targets <==>
            i in s.subscribers && Kind(e) in s.subscribers[i].kinds && s.subscribers[i].subscriptionType == SyncType)
      && HandlesMade(Heap(s.channels, s.acks, []), Heap(s'.channels, s'.acks, s'.phase.acks), order, e)
  {
    var e := s.pending[0].command.event;
    var h := Heap(s.channels, s.acks, []);
    DispatchMakesHandles(h, s.subscribers, order, e);
    DispatchMakesAcks(h, s.subscribers, order, e);
    DispatchMakesAwaited(h, s.subscribers, order, e);
    SyncTargetsAreAll(s.subscribers, order, e);
  }

  lemma {:induction false} SyncTargetsAreAll(subscribers: map<nat, Subscriber>, order: seq<nat>, e: Event)
    ensures forall i :: i in SyncTargets(subscribers, order, e)
              <==> i in order && Wants(subscribers, i, e) && subscribers[i].subscriptionType == SyncType
  {
    if order != [] {
      SyncTargetsAreAll(subscribers, order[1..], e);
      assert forall i :: i in order <==> i == order[0] || i in order[1..];
    }
  }

  // ----- Commands are executed in the order they were given -----

  /** The commands given to the bus in a run, and those it executed. */
  function Given(acts: seq<Action>): seq<Command> {
    if acts == [] then []
    else (match acts[0] case Submit(command) => [command] case CallBus(_, command) => [command] case _ => [])
         + Given(acts[1..])
  }

  ghost function Executed(s: Bus, acts: seq<Action>): seq<Command>
    requires Valid(s) && CanRun(s, acts)
    decreases |acts|
  {
    if acts == [] then []
    else
      StepKeepsValid(s, acts[0]);
      (if acts[0].Take? then [s.pending[0].command] else []) + Executed(Do(s, acts[0]), acts[1..])
  }

  function Waiting(pending: seq<Request>): seq<Command> {
    seq(|pending|, k requires 0 <= k < |pending| => pending[k].command)
  }

  lemma StepKeepsCommands(s: Bus, act: Action)
    requires Valid(s) && Enabled(s, act)
    ensures Waiting(s.pending) + Given([act])
         == (if act.Take? then [s.pending[0].command] else []) + Waiting(Do(s, act).pending)
  {
    assert [act][1..] == [] && Given([]) == [];
    match act
    case Submit(command) => assert Given([act]) == [command];
    case CallBus(_, command) => assert Given([act]) == [command];
    case Take(order) =>
      assert Do(s, act).pending == s.pending[1..];
      assert Waiting(s.pending) == [s.pending[0].command] + Waiting(s.pending[1..]);
    case _ => assert Given([act]) == [] && Do(s, act).pending == s.pending;
  }

  lemma Chained<T>(w: seq<T>, g: seq<T>, t: seq<T>, w': seq<T>, rest: seq<T>, x: seq<T>, final: seq<T>)
    requires w + g == t + w' && w' + rest == x + final
    ensures w + (g + rest) == (t + x) + final
  {
    assert w + (g + rest) == (w + g) + rest == t + (w' + rest) == t + (x + final);
  }

  /** Commands wait in the order they were given and are executed in that order, none left out. */
  lemma {:induction false} CommandsAreTakenInOrder(s: Bus, acts: seq<Action>)
    requires Valid(s) && CanRun(s, acts)
    ensures Waiting(s.pending) + Given(acts) == Executed(s, acts) + Waiting(Run(s, acts).pending)
    decreases |acts|
  {
    if acts == [] {
      assert Waiting(s.pending) + [] == [] + Waiting(s.pending);
    } else {
      RunStep(s, acts);
      var next, first := Do(s, acts[0]), Given([acts[0]]);
      var taken := if acts[0].Take? then [s.pending[0].command] else [];
      StepKeepsCommands(s, acts[0]);
      CommandsAreTakenInOrder(next, acts[1..]);
      assert [acts[0]][1..] == [] && Given(acts) == first + Given(acts[1..]);
      Chained(Waiting(s.pending), first, taken, Waiting(next.pending), Given(acts[1..]), Executed(next, acts[1..]),
              Waiting(Run(next, acts[1..]).pending));
    }
  }

  // ----- A task waits for the bus exactly while the bus has its command -----

  function AsSeq(caller: Option<nat>): seq<nat> {
    match caller case None => [] case Some(i) => [i]
  }

  function CallersOf(pending: seq<Request>): seq<nat> {
    if pending == [] then [] else AsSeq(pending[0].caller) + CallersOf(pending[1..])
  }

  /** The callers of the command being executed and of those waiting. */
  function CallersAtBus(s: Bus): seq<nat> {
    (if s.phase.Awaiting? then AsSeq(s.phase.caller) else []) + CallersOf(s.pending)
  }

  ghost predicate BlockedExactly(s: Bus) {
    Distinct(CallersAtBus(s)) && forall i: nat :: i in s.blocked <==> i in CallersAtBus(s)
  }

  lemma {:induction false} CallersSnoc(pending: seq<Request>, request: Request)
    ensures CallersOf(pending + [request]) == CallersOf(pending) + AsSeq(request.caller)
  {
    if pending == [] {
      assert [] + [request] == [request] && [request][1..] == [];
    } else {
      assert (pending + [request])[1..] == pending[1..] + [request];
      CallersSnoc(pending[1..], request);
    }
  }

  lemma SubmitKeepsBlocked(s: Bus, request: Request)
    requires BlockedExactly(s) && (request.caller.Some? ==> request.caller.value !in s.blocked)
    ensures BlockedExactly(s.(pending := s.pending + [request], blocked := s.blocked + Callers(request.caller)))
  {
    var s' := s.(pending := s.pending + [request], blocked := s.blocked + Callers(request.caller));
    CallersSnoc(s.pending, request);
    var awaiting := if s.phase.Awaiting? then AsSeq(s.phase.caller) else [];
    assert awaiting + (CallersOf(s.pending) + AsSeq(request.caller)) == CallersAtBus(s) + AsSeq(request.caller);
    if request.caller.Some? {
      DistinctSnoc(CallersAtBus(s), request.caller.value);
    } else {
      assert CallersAtBus(s') == CallersAtBus(s);
    }
  }

  /** The first caller is done: it no longer waits. */
  lemma FirstReplied(callers: seq<nat>, caller: Option<nat>, rest: seq<nat>, blocked: set<nat>)
    requires callers == AsSeq(caller) + rest && Distinct(callers)
    requires forall i: nat :: i in blocked <==> i in callers
    ensures Distinct(rest) && forall i: nat :: i in blocked - Callers(caller) <==> i in rest
  {
    if caller.Some? {
      DistinctHead(callers);
      assert callers[1..] == rest;
    } else {
      assert callers == rest;
    }
  }

  lemma StepKeepsBlocked(s: Bus, act: Action)
    requires Valid(s) && Enabled(s, act) && BlockedExactly(s)
    ensures BlockedExactly(Do(s, act))
  {
    match act
    case Submit(command) =>
      SubmitKeepsBlocked(s, Request(command, None));
      assert s.blocked + {} == s.blocked;
    case CallBus(i, command) => SubmitKeepsBlocked(s, Request(command, Some(i)));
    case Take(order) =>
      FirstReplied(CallersAtBus(s), s.pending[0].caller, CallersOf(s.pending[1..]), s.blocked);
      TakenKeepsBlocked(s, order);
    case ReplySync => FirstReplied(CallersAtBus(s), s.phase.caller, CallersOf(s.pending), s.blocked);
    case _ => assert CallersAtBus(Do(s, act)) == CallersAtBus(s);
  }

  lemma TakenKeepsBlocked(s: Bus, order: seq<nat>)
    requires Valid(s) && Enabled(s, Take(order)) && BlockedExactly(s)
    requires var rest := CallersOf(s.pending[1..]);
      Distinct(rest) && forall i: nat :: i in s.blocked - Callers(s.pending[0].caller) <==> i in rest
    ensures BlockedExactly(Do(s, Take(order)))
  {
    var s' := Do(s, Take(order));
    if s.pending[0].command.PublishSync? {
      assert CallersAtBus(s') == CallersAtBus(s);
    } else {
      assert CallersAtBus(s') == CallersOf(s.pending[1..]);
    }
  }

  /** Over every run, a subscriber task that called the bus waits exactly until the reply: as long as
      its command is among those waiting or is the publication being awaited. */
  lemma {:induction false} WaitsExactlyForItsReply(s: Bus, acts: seq<Action>)
    requires Valid(s) && CanRun(s, acts) && BlockedExactly(s)
    ensures BlockedExactly(INITIAL) && BlockedExactly(Run(s, acts))
    decreases |acts|
  {
    if acts != [] {
      RunStep(s, acts);
      StepKeepsBlocked(s, acts[0]);
      WaitsExactlyForItsReply(Do(s, acts[0]), acts[1..]);
    }
  }

  // ----- What an acknowledgment says -----

  predicate IsAcknowledged(s: Bus, ack: nat) {
    ack < |s.acks| && s.acks[ack].state == Acknowledged
  }

  lemma TakeAcknowledgesNothing(s: Bus, order: seq<nat>, ack: nat)
    requires Valid(s) && Enabled(s, Take(order))
    ensures IsAcknowledged(Do(s, Take(order)), ack) ==> IsAcknowledged(s, ack)
  {
    var h := Heap(s.channels, s.acks, []);
    match s.pending[0].command
    case Publish(e) => DispatchAsyncMakesNone(h, s.subscribers, order, e);
    case PublishSync(e) =>
      DispatchMakesHandles(h, s.subscribers, order, e);
      var after := Dispatch(h, s.subscribers, order, e, true);
      assert |h.acks| <= ack < |after.acks| ==> HandleMade(h.channels, after, order, e, ack);
    case _ =>
  }

  lemma StepAcknowledges(s: Bus, act: Action, ack: nat)
    requires Valid(s) && Enabled(s, act)
    ensures act.Acknowledge? ==> IsAcknowledged(Do(s, act), act.ack)
    ensures IsAcknowledged(Do(s, act), ack) ==>
              IsAcknowledged(s, ack) || (act.Acknowledge? && act.ack == ack && Free(s, act.i))
  {
    if act.Take? {
      TakeAcknowledgesNothing(s, act.order, ack);
    }
  }

  /** Over every run a handle counts as acknowledged only if a subscriber acknowledged it: a failed
      send, a dropped handle and a closed receiver never count. */
  lemma {:induction false} AcknowledgedIsAcknowledged(s: Bus, acts: seq<Action>, ack: nat)
    requires Valid(s) && CanRun(s, acts) && IsAcknowledged(Run(s, acts), ack)
    ensures IsAcknowledged(s, ack) || exists i :: Acknowledge(i, ack) in acts
    decreases |acts|
  {
    if acts != [] {
      RunStep(s, acts);
      AcknowledgedIsAcknowledged(Do(s, acts[0]), acts[1..], ack);
      StepAcknowledges(s, acts[0], ack);
      if exists i :: Acknowledge(i, ack) in acts[1..] {
        var i :| Acknowledge(i, ack) in acts[1..];
        assert Acknowledge(i, ack) in acts;
      } else if !IsAcknowledged(s, ack) {
        assert acts[0] == Acknowledge(acts[0].i, ack) && acts[0] in acts;
      }
    }
  }

  /** What one channel has been given. */
  function Stream(c: Channel): seq<Delivery> {
    c.taken + c.queue
  }

  /** While the bus awaits acknowledgments nothing but the reply ends the wait: no command is
      taken, no subscription changes, nothing is delivered, and what is resolved stays resolved. */
  lemma AwaitingFrame(s: Bus, act: Action)
    requires Valid(s) && s.phase.Awaiting? && Enabled(s, act) && !act.ReplySync?
    ensures var s' := Do(s, act);
      && s'.phase.Awaiting? && s'.phase.acks == s.phase.acks && s'.phase.caller == s.phase.caller
      && s'.phase.next >= s.phase.next
      && s'.subscribers == s.subscribers && s.pending <= s'.pending && |s'.channels| == |s.channels|
      && |s'.acks| == |s.acks|
      && (forall a :: 0 <= a < |s.acks| ==>
            s'.acks[a].owner == s.acks[a].owner && (s.acks[a].state != Pending ==> s'.acks[a].state != Pending))
      && (forall i :: 0 <= i < |s.channels| ==> Stream(s'.channels[i]) <= Stream(s.channels[i]))
  {
    if act.Receive? {
      var c := s.channels[act.i];
      assert c.queue == [c.queue[0]] + c.queue[1..];
      assert Stream(Do(s, act).channels[act.i]) == Stream(c);
    }
  }

  predicate NoReply(acts: seq<Action>) {
    forall act :: act in acts ==> !act.ReplySync?
  }

  /** The protocol's safety: however the subscribers' steps interleave, when the reply is sent
      every handle made for the event is acknowledged or dropped, and meanwhile the bus took no
      other command. */
  lemma {:induction false} ReplyMeansAllResolved(s: Bus, acts: seq<Action>)
    requires Valid(s) && s.phase.Awaiting? && CanRun(s, acts) && NoReply(acts)
    requires Enabled(Run(s, acts), ReplySync)
    ensures var final := Run(s, acts);
      && (forall j :: 0 <= j < |s.phase.acks| ==>
            s.phase.acks[j] < |final.acks| && final.acks[s.phase.acks[j]].state != Pending)
      && s.pending <= final.pending && final.subscribers == s.subscribers
    decreases |acts|
  {
    if acts != [] {
      assert acts[0] in acts && forall act :: act in acts[1..] ==> act in acts;
      RunStep(s, acts);
      AwaitingFrame(s, acts[0]);
      ReplyMeansAllResolved(Do(s, acts[0]), acts[1..]);
    }
  }

  // ----- Progress -----

  function Weight(c: Channel): nat {
    2 * |c.queue| + |c.held| + (if c.open then 1 else 0)
  }

  function Load(channels: seq<Channel>): nat {
    if channels == [] then 0 else Weight(channels[0]) + Load(channels[1..])
  }

  lemma {:induction false} LoadUpdate(channels: seq<Channel>, i: nat, c: Channel)
    requires i < |channels|
    ensures Load(channels[i := c]) + Weight(channels[i]) == Load(channels) + Weight(c)
  {
    if i == 0 {
      assert channels[0 := c][1..] == channels[1..];
    } else {
      assert channels[i := c][1..] == channels[1..][i - 1 := c];
      LoadUpdate(channels[1..], i - 1, c);
    }
  }

  /** The work left: handles still queued or held, open receivers, handles not yet awaited. */
  function Measure(s: Bus): nat
    requires s.phase.Awaiting? && s.phase.next <= |s.phase.acks|
  {
    Load(s.channels) + (|s.phase.acks| - s.phase.next)
  }

  /** Steps that come from outside the protocol: requests to the bus. */
  predicate IsRequest(act: Action) {
    act.Submit? || act.CallBus?
  }

  /** Every step of the bus or of a subscriber during the wait uses up some of the work left,
      and a request adds none. */
  lemma WaitingStepsDecrease(s: Bus, act: Action)
    requires Valid(s) && s.phase.Awaiting? && Enabled(s, act) && !act.ReplySync? && Valid(Do(s, act))
    ensures Do(s, act).phase.Awaiting?
    ensures if IsRequest(act) then Measure(Do(s, act)) == Measure(s) else Measure(Do(s, act)) < Measure(s)
  {
    var s' := Do(s, act);
    match act
    case Receive(i) => LoadUpdate(s.channels, i, s'.channels[i]);
    case Acknowledge(i, ack) => LoadUpdate(s.channels, i, s'.channels[i]);
    case DropHandle(i, ack) => LoadUpdate(s.channels, i, s'.channels[i]);
    case Close(i) => LoadUpdate(s.channels, i, s'.channels[i]);
    case Submit(_) =>
    case CallBus(_, _) =>
    case AwaitNext =>
  }

  function CountSteps(acts: seq<Action>): nat {
    if acts == [] then 0 else (if IsRequest(acts[0]) then 0 else 1) + CountSteps(acts[1..])
  }

  /** So a wait is finite: it has at most `Measure` steps, however they interleave. */
  lemma {:induction false} WaitIsBounded(s: Bus, acts: seq<Action>)
    requires Valid(s) && s.phase.Awaiting? && CanRun(s, acts) && NoReply(acts)
    ensures CountSteps(acts) <= Measure(s)
    decreases |acts|
  {
    if acts != [] {
      assert acts[0] in acts && forall act :: act in acts[1..] ==> act in acts;
      RunStep(s, acts);
      WaitingStepsDecrease(s, acts[0]);
      WaitIsBounded(Do(s, acts[0]), acts[1..]);
    }
  }

  /** An unresolved handle the bus still awaits is owned by a task that itself waits for the bus. */
  ghost predicate Deadlocked(s: Bus)
    requires Valid(s)
  {
    && s.phase.Awaiting?
    && (exists j :: s.phase.next <= j < |s.phase.acks|
         && s.acks[s.phase.acks[j]].state == Pending && s.acks[s.phase.acks[j]].owner in s.blocked)
  }

  /** A handle's owner is the only task that can resolve it. */
  ghost predicate Owned(channels: seq<Channel>, acks: seq<Ack>) {
    && (forall i, k :: 0 <= i < |channels| && 0 <= k < |channels[i].queue| && channels[i].queue[k].Sync? ==>
          channels[i].queue[k].ack < |acks| && acks[channels[i].queue[k].ack].owner == i)
    && (forall i :: 0 <= i < |channels| ==> Holds(channels[i].held, acks, i))
  }

  predicate Holds(held: set<nat>, acks: seq<Ack>, i: nat) {
    forall a :: a in held ==> a < |acks| && acks[a].owner == i
  }

  lemma SendKeepsOwners(h: Heap, subscribers: map<nat, Subscriber>, i: nat, e: Event, sync: bool)
    requires Wants(subscribers, i, e) && i < |h.channels| && Owned(h.channels, h.acks)
    ensures var next := SendTo(h, subscribers, i, e, sync); Owned(next.channels, next.acks)
  {
    var next := SendTo(h, subscribers, i, e, sync);
    assert h.acks <= next.acks;
    forall j, k | 0 <= j < |next.channels| && 0 <= k < |next.channels[j].queue| && next.channels[j].queue[k].Sync?
      ensures next.channels[j].queue[k].ack < |next.acks| && next.acks[next.channels[j].queue[k].ack].owner == j
    {
      if k < |h.channels[j].queue| {
        assert next.channels[j].queue[k] == h.channels[j].queue[k];
      }
    }
    forall j | 0 <= j < |next.channels|
      ensures Holds(next.channels[j].held, next.acks, j)
    {
      assert Holds(h.channels[j].held, h.acks, j);
    }
  }

  lemma {:induction false} DispatchKeepsOwners(h: Heap, subscribers: map<nat, Subscriber>, order: seq<nat>, e: Event,
                                               sync: bool)
    requires forall i :: i in subscribers ==> i < |h.channels|
    requires Owned(h.channels, h.acks)
    ensures var after := Dispatch(h, subscribers, order, e, sync); Owned(after.channels, after.acks)
    decreases |order|
  {
    if order != [] {
      var next := if Wants(subscribers, order[0], e) then SendTo(h, subscribers, order[0], e, sync) else h;
      if Wants(subscribers, order[0], e) {
        SendKeepsOwners(h, subscribers, order[0], e, sync);
      }
      DispatchKeepsOwners(next, subscribers, order[1..], e, sync);
    }
  }

  lemma TakeKeepsOwners(s: Bus, order: seq<nat>)
    requires Valid(s) && Owned(s.channels, s.acks) && Enabled(s, Take(order))
    ensures Owned(Do(s, Take(order)).channels, Do(s, Take(order)).acks)
  {
    match s.pending[0].command
    case Publish(e) => DispatchKeepsOwners(Heap(s.channels, s.acks, []), s.subscribers, order, e, false);
    case PublishSync(e) => DispatchKeepsOwners(Heap(s.channels, s.acks, []), s.subscribers, order, e, true);
    case Subscribe(_) =>
    case Unsubscribe(_) =>
  }

  lemma ReceiveKeepsOwners(s: Bus, i: nat)
    requires Valid(s) && Owned(s.channels, s.acks) && Enabled(s, Receive(i))
    ensures Owned(Do(s, Receive(i)).channels, Do(s, Receive(i)).acks)
  {
    var s' := Do(s, Receive(i));
    assert forall k :: 0 <= k < |s'.channels[i].queue| ==> s'.channels[i].queue[k] == s.channels[i].queue[k + 1];
    assert Holds(s.channels[i].held, s.acks, i);
  }

  lemma ResolveKeepsOwners(s: Bus, i: nat, ack: nat, state: AckState)
    requires i < |s.channels| && ack < |s.acks| && Owned(s.channels, s.acks)
    ensures Owned(Resolve(s, i, ack, state).channels, Resolve(s, i, ack, state).acks)
  {
    var s' := Resolve(s, i, ack, state);
    forall j | 0 <= j < |s'.channels|
      ensures Holds(s'.channels[j].held, s'.acks, j)
    {
      assert Holds(s.channels[j].held, s.acks, j);
    }
    assert forall j :: 0 <= j < |s.channels| ==> s'.channels[j].queue == s.channels[j].queue;
  }

  lemma CloseKeepsOwners(s: Bus, i: nat)
    requires Valid(s) && Owned(s.channels, s.acks) && Enabled(s, Close(i))
    ensures Owned(Do(s, Close(i)).channels, Do(s, Close(i)).acks)
  {
    var s' := Do(s, Close(i));
    forall j | 0 <= j < |s'.channels|
      ensures Holds(s'.channels[j].held, s'.acks, j)
    {
      assert Holds(s.channels[j].held, s.acks, j);
    }
  }

  lemma StepKeepsOwners(s: Bus, act: Action)
    requires Valid(s) && Owned(s.channels, s.acks) && Enabled(s, act)
    ensures Owned(Do(s, act).channels, Do(s, act).acks)
  {
    match act
    case Take(order) => TakeKeepsOwners(s, order);
    case Receive(i) => ReceiveKeepsOwners(s, i);
    case Acknowledge(i, ack) => ResolveKeepsOwners(s, i, ack, Acknowledged);
    case DropHandle(i, ack) => ResolveKeepsOwners(s, i, ack, Dropped);
    case Close(i) => CloseKeepsOwners(s, i);
    case Submit(_) =>
    case CallBus(_, _) =>
    case AwaitNext =>
    case ReplySync =>
  }

  /** From the start, every state of every run satisfies the invariants; so a run is just a
      sequence of enabled steps. */
  lemma {:induction false} RunKeepsValid(s: Bus, acts: seq<Action>)
    requires Valid(s) && Owned(s.channels, s.acks) && CanRun(s, acts)
    ensures Valid(INITIAL) && Owned(INITIAL.channels, INITIAL.acks)
    ensures Valid(Run(s, acts)) && Owned(Run(s, acts).channels, Run(s, acts).acks)
    decreases |acts|
  {
    if acts != [] {
      RunStep(s, acts);
      StepKeepsOwners(s, acts[0]);
      RunKeepsValid(Do(s, acts[0]), acts[1..]);
    }
  }

  /** A subscriber that calls the bus before acknowledging stops it for good. */
  lemma DeadlockIsPermanent(s: Bus, act: Action)
    requires Valid(s) && Owned(s.channels, s.acks) && Deadlocked(s) && Enabled(s, act)
    ensures Valid(Do(s, act)) && Deadlocked(Do(s, act)) && Owned(Do(s, act).channels, Do(s, act).acks)
  {
    StepKeepsValid(s, act);
    StepKeepsOwners(s, act);
    var j :| s.phase.next <= j < |s.phase.acks|
      && s.acks[s.phase.acks[j]].state == Pending && s.acks[s.phase.acks[j]].owner in s.blocked;
    AwaitingFrame(s, act);
    var s', a := Do(s, act), s.phase.acks[j];
    assert s'.acks[a] == s.acks[a];
    assert j != s.phase.next || !act.AwaitNext?;
    assert s'.phase.next <= j;
  }

  /** A subscriber step that brings the first unresolved handle closer to its resolution. */
  lemma SomeStepEnabled(s: Bus) returns (act: Action)
    requires Valid(s) && s.phase.Awaiting? && !Deadlocked(s)
    ensures Enabled(s, act) && !IsRequest(act)
  {
    if s.phase.next == |s.phase.acks| {
      act := ReplySync;
    } else {
      var a := s.phase.acks[s.phase.next];
      if s.acks[a].state != Pending {
        act := AwaitNext;
      } else {
        var owner := s.acks[a].owner;
        assert Carries(s.channels[owner], a) && owner !in s.blocked;
        act := if a in s.channels[owner].held then Acknowledge(owner, a) else Receive(owner);
      }
    }
  }

  /** The wait can be brought to its reply whenever no awaited handle is owned by a task that
      is itself waiting for the bus; no subscriber needs the bus for that. */
  lemma {:induction false} WaitCanEnd(s: Bus) returns (acts: seq<Action>)
    requires Valid(s) && s.phase.Awaiting? && !Deadlocked(s)
    ensures CanRun(s, acts) && NoReply(acts) && Enabled(Run(s, acts), ReplySync)
    decreases Measure(s)
  {
    var act := SomeStepEnabled(s);
    if act.ReplySync? {
      acts := [];
    } else {
      StepKeepsValid(s, act);
      AwaitingFrame(s, act);
      WaitingStepsDecrease(s, act);
      var s' := Do(s, act);
      assert s'.blocked == s.blocked;
      assert !Deadlocked(s');
      var rest := WaitCanEnd(s');
      acts := [act] + rest;
      assert acts[1..] == rest;
      assert forall x :: x in acts ==> x == act || x in rest;
    }
  }

  lemma {:induction false} DeadlockNeverReplies(s: Bus, acts: seq<Action>)
    requires Valid(s) && Owned(s.channels, s.acks) && Deadlocked(s) && CanRun(s, acts)
    ensures Valid(Run(s, acts)) && Deadlocked(Run(s, acts)) && !Enabled(Run(s, acts), ReplySync)
    decreases |acts|
  {
    if acts != [] {
      RunStep(s, acts);
      DeadlockIsPermanent(s, acts[0]);
      DeadlockNeverReplies(Do(s, acts[0]), acts[1..]);
    }
  }

  ghost predicate CanEnd(s: Bus)
    requires Valid(s)
  {
    exists acts: seq<Action> :: CanRun(s, acts) && NoReply(acts) && Enabled(Run(s, acts), ReplySync)
  }

  /** When a synchronous publish can end, exactly: unless a task that owns an awaited,
      unresolved handle is itself waiting for the bus. */
  lemma WaitCanEndExactly(s: Bus)
    requires Valid(s) && Owned(s.channels, s.acks) && s.phase.Awaiting?
    ensures CanEnd(s) <==> !Deadlocked(s)
  {
    if Deadlocked(s) {
      forall acts: seq<Action> | CanRun(s, acts)
        ensures !Enabled(Run(s, acts), ReplySync)
      {
        DeadlockNeverReplies(s, acts);
      }
    } else {
      var acts := WaitCanEnd(s);
    }
  }

  // ----- A deadlock that happens -----

  ghost predicate CanDeadlock(s: Bus)
    requires Valid(s)
  {
    exists acts :: CanRun(s, acts) && Deadlocked(Run(s, acts))
  }

  lemma StepTowardsDeadlock(s: Bus, act: Action)
    requires Valid(s) && Enabled(s, act) && Valid(Do(s, act)) && CanDeadlock(Do(s, act))
    ensures CanDeadlock(s)
  {
    var rest :| CanRun(Do(s, act), rest) && Deadlocked(Run(Do(s, act), rest));
    var acts := [act] + rest;
    assert acts[1..] == rest;
    assert CanRun(s, acts) && Run(s, acts) == Run(Do(s, act), rest);
  }

  /** The bus with one synchronous subscriber for the kinds of an event. */
  function WithSubscriber(subscriber: Subscriber): Bus {
    Bus(map[0 := subscriber], [Channel([], [], {}, true)], [], Idle, [], {})
  }

  lemma SubscribesFirst(subscriber: Subscriber)
    ensures Valid(INITIAL) && Enabled(INITIAL, Submit(Subscribe(subscriber)))
    ensures var asked := Do(INITIAL, Submit(Subscribe(subscriber)));
      && Valid(asked) && Enabled(asked, Take([])) && Do(asked, Take([])) == WithSubscriber(subscriber)
  {
    var asked := Do(INITIAL, Submit(Subscribe(subscriber)));
    assert asked == INITIAL.(pending := [Request(Subscribe(subscriber), None)]);
    TakesSubscription(asked, subscriber);
  }

  lemma TakesSubscription(s: Bus, subscriber: Subscriber)
    requires Valid(s) && s == INITIAL.(pending := [Request(Subscribe(subscriber), None)])
    ensures Enabled(s, Take([])) && Do(s, Take([])) == WithSubscriber(subscriber)
  {
    assert s.pending[1..] == [] && [] + [Channel([], [], {}, true)] == [Channel([], [], {}, true)];
    assert map[][0 := subscriber] == map[0 := subscriber];
  }

  /** What a publish to that subscriber leaves the bus waiting for. */
  function WaitingFor(subscriber: Subscriber, e: Event): Bus {
    Bus(map[0 := subscriber], [Channel([], [Sync(e, 0)], {}, true)], [Ack(0, Pending)], Awaiting([0], 0, None), [], {})
  }

  lemma PublishesSecond(subscriber: Subscriber, e: Event)
    requires Kind(e) in subscriber.kinds && subscriber.subscriptionType == SyncType
    ensures Valid(WithSubscriber(subscriber)) && Enabled(WithSubscriber(subscriber), Submit(PublishSync(e)))
    ensures var asked := Do(WithSubscriber(subscriber), Submit(PublishSync(e)));
      && Valid(asked) && Enabled(asked, Take([0])) && Do(asked, Take([0])) == WaitingFor(subscriber, e)
  {
    var s := WithSubscriber(subscriber);
    var asked := Do(s, Submit(PublishSync(e)));
    assert asked.pending == [Request(PublishSync(e), None)] && asked.pending[1..] == [];
    DispatchToOne(subscriber, e);
  }

  lemma DispatchToOne(subscriber: Subscriber, e: Event)
    requires Kind(e) in subscriber.kinds && subscriber.subscriptionType == SyncType
    ensures Dispatch(Heap([Channel([], [], {}, true)], [], []), map[0 := subscriber], [0], e, true)
         == Heap([Channel([], [Sync(e, 0)], {}, true)], [Ack(0, Pending)], [0])
  {
    var h := Heap([Channel([], [], {}, true)], [], []);
    var next := SendTo(h, map[0 := subscriber], 0, e, true);
    assert [0][1..] == [] && [] + [Sync(e, 0)] == [Sync(e, 0)];
    assert next.channels == [Channel([], [Sync(e, 0)], {}, true)];
    assert next.acks == [Ack(0, Pending)] && next.awaited == [0];
    assert Dispatch(next, map[0 := subscriber], [], e, true) == next;
  }

  /** A subscriber that holds the awaited handle and calls the bus. */
  lemma CallDeadlocks(subscriber: Subscriber, e: Event, command: Command)
    ensures Valid(WaitingFor(subscriber, e)) && CanDeadlock(WaitingFor(subscriber, e))
  {
    var waiting, call := WaitingFor(subscriber, e), CallBus(0, command);
    assert Carries(waiting.channels[0], 0) by {
      assert waiting.channels[0].queue[0] == Sync(e, 0);
    }
    assert Valid(waiting) && Enabled(waiting, call);
    StepKeepsValid(waiting, call);
    var s := Do(waiting, call);
    assert s.phase.acks[0] == 0 && s.acks[0] == Ack(0, Pending) && 0 in s.blocked;
    assert CanRun(s, []) && Deadlocked(Run(s, []));
    StepTowardsDeadlock(waiting, call);
  }

  /** There is a run into a deadlock: a synchronous subscriber is sent an event and, before it
      acknowledges, calls the bus. */
  lemma DeadlockIsReachable(subscriber: Subscriber, e: Event, command: Command)
    requires Kind(e) in subscriber.kinds && subscriber.subscriptionType == SyncType
    ensures Valid(INITIAL) && CanDeadlock(INITIAL)
  {
    SubscribesFirst(subscriber);
    PublishesSecond(subscriber, e);
    CallDeadlocks(subscriber, e, command);
    StepTowardsDeadlock(Do(WithSubscriber(subscriber), Submit(PublishSync(e))), Take([0]));
    StepTowardsDeadlock(WithSubscriber(subscriber), Submit(PublishSync(e)));
    StepTowardsDeadlock(Do(INITIAL, Submit(Subscribe(subscriber))), Take([]));
    StepTowardsDeadlock(INITIAL, Submit(Subscribe(subscriber)));
  }
}
