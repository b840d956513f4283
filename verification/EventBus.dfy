/** The event bus (src/events.rs) as a machine of small steps: the bus task takes one command
    at a time and, for a synchronous publish, awaits the acknowledgments one by one; every
    subscriber task receives from its bounded channel, acknowledges, drops handles, closes
    its receiver, or calls the bus and waits for the reply. */
module EventBus {
  import opened Text
  import opened Collections
  import opened Events

  datatype SubscriptionType = AsyncType | SyncType

  datatype Subscriber = Subscriber(kinds: seq<EventKind>, subscriptionType: SubscriptionType)

  /** `EventDelivery`; an acknowledgment channel is named by its index. */
  datatype Delivery = Async(event: Event) | Sync(event: Event, ack: nat)

  /** A subscriber's channel: what it took out, what waits, the handles it holds unresolved. */
  datatype Channel = Channel(taken: seq<Delivery>, queue: seq<Delivery>, held: set<nat>, open: bool)

  datatype AckState = Pending | Acknowledged | Dropped

  datatype Ack = Ack(owner: nat, state: AckState)

  datatype Command =
    | Publish(event: Event)
    | PublishSync(event: Event)
    | Subscribe(subscriber: Subscriber)
    | Unsubscribe(id: nat)

  /** The subscriber task waiting for the reply, if the caller is one. */
  datatype Request = Request(command: Command, caller: Option<nat>)

  /** What the bus task is doing; `next` is the first acknowledgment not yet awaited. */
  datatype Phase = Idle | Awaiting(acks: seq<nat>, next: nat, caller: Option<nat>)

  datatype Bus = Bus(
    subscribers: map<nat, Subscriber>,
    channels: seq<Channel>,
    acks: seq<Ack>,
    phase: Phase,
    pending: seq<Request>,
    blocked: set<nat>)

  const INITIAL := Bus(map[], [], [], Idle, [], {})

  // ----- Dispatch -----

  predicate HasRoom(c: Channel) {
    Accepts(c.open, |c.queue|)
  }

  predicate Wants(subscribers: map<nat, Subscriber>, i: nat, e: Event) {
    i in subscribers && Kind(e) in subscribers[i].kinds
  }

  /** The delivery for subscriber `i`, given the index a new acknowledgment would get. */
  function DeliveryFor(subscribers: map<nat, Subscriber>, i: nat, e: Event, sync: bool, ack: nat): Delivery
    requires i in subscribers
  {
    if sync && subscribers[i].subscriptionType == SyncType then Sync(e, ack) else Async(e)
  }

  /** The heap a dispatch works on: channels, acknowledgments, and those this publish awaits. */
  datatype Heap = Heap(channels: seq<Channel>, acks: seq<Ack>, awaited: seq<nat>)

  /** One `try_send`. A delivery that cannot be sent is dropped, and its handle with it. */
  function SendTo(h: Heap, subscribers: map<nat, Subscriber>, i: nat, e: Event, sync: bool): Heap
    requires Wants(subscribers, i, e) && i < |h.channels|
  {
    var c := h.channels[i];
    var d := DeliveryFor(subscribers, i, e, sync, |h.acks|);
    Heap(if HasRoom(c) then h.channels[i := c.(queue := c.queue + [d])] else h.channels,
         if d.Sync? then h.acks + [Ack(i, if HasRoom(c) then Pending else Dropped)] else h.acks,
         if d.Sync? then h.awaited + [|h.acks|] else h.awaited)
  }

  /** The loop over the subscribers, in the order the hash map yields them. */
  function Dispatch(h: Heap, subscribers: map<nat, Subscriber>, order: seq<nat>, e: Event, sync: bool): Heap
    requires forall i :: i in subscribers ==> i < |h.channels|
    decreases |order|
  {
    if order == [] then h
    else if Wants(subscribers, order[0], e) then
      Dispatch(SendTo(h, subscribers, order[0], e, sync), subscribers, order[1..], e, sync)
    else Dispatch(h, subscribers, order[1..], e, sync)
  }

  /** The state the bus task owns, with the two publish handlers as loops. */
  class BusTask {
    var subscribers: map<nat, Subscriber>
    var channels: seq<Channel>
    var acks: seq<Ack>

    ghost predicate Valid()
      reads this
    {
      forall i :: i in subscribers ==> i < |channels|
    }

    constructor ()
      ensures Valid() && subscribers == map[] && channels == [] && acks == []
    {
      subscribers, channels, acks := map[], [], [];
    }

    method AddSubscriber(subscriber: Subscriber) returns (id: nat)
      requires Valid()
      modifies this
      ensures Valid() && id == |old(channels)| && acks == old(acks)
      ensures subscribers == old(subscribers)[id := subscriber]
      ensures channels == old(channels) + [Channel([], [], {}, true)]
    {
      id := |channels|;
      subscribers := subscribers[id := subscriber];
      channels := channels + [Channel([], [], {}, true)];
    }

    method RemoveSubscriber(id: nat)
      requires Valid()
      modifies this
      ensures Valid() && subscribers == old(subscribers) - {id}
      ensures channels == old(channels) && acks == old(acks)
    {
      subscribers := subscribers - {id};
    }

    /** `handle_publish_async`: no delivery carries a handle. */
    method HandlePublishAsync(e: Event, order: seq<nat>)
      requires Valid()
      modifies this
      ensures Valid() && subscribers == old(subscribers)
      ensures Heap(channels, acks, []) == Dispatch(Heap(old(channels), old(acks), []), subscribers, order, e, false)
    {
      assert order[0..] == order;
      for k := 0 to |order|
        invariant Valid() && subscribers == old(subscribers)
        invariant Dispatch(Heap(channels, acks, []), subscribers, order[k..], e, false)
               == Dispatch(Heap(old(channels), old(acks), []), subscribers, order, e, false)
      {
        assert order[k..][0] == order[k] && order[k..][1..] == order[k + 1..];
        var i := order[k];
        if i in subscribers && Kind(e) in subscribers[i].kinds {
          if HasRoom(channels[i]) {
            channels := channels[i := channels[i].(queue := channels[i].queue + [Async(e)])];
          }
        }
      }
    }

    /** The sending half of `handle_publish_sync`; the receivers to await are returned. */
    method HandlePublishSync(e: Event, order: seq<nat>) returns (awaited: seq<nat>)
      requires Valid()
      modifies this
      ensures Valid() && subscribers == old(subscribers)
      ensures Heap(channels, acks, awaited) == Dispatch(Heap(old(channels), old(acks), []), subscribers, order, e, true)
    {
      awaited := [];
      assert order[0..] == order;
      for k := 0 to |order|
        invariant Valid() && subscribers == old(subscribers)
        invariant Dispatch(Heap(channels, acks, awaited), subscribers, order[k..], e, true)
               == Dispatch(Heap(old(channels), old(acks), []), subscribers, order, e, true)
      {
        assert order[k..][0] == order[k] && order[k..][1..] == order[k + 1..];
        var i := order[k];
        if i in subscribers && Kind(e) in subscribers[i].kinds {
          var delivery := Async(e);
          var room := HasRoom(channels[i]);
          if subscribers[i].subscriptionType == SyncType {
            delivery := Sync(e, |acks|);
            awaited := awaited + [|acks|];
            acks := acks + [Ack(i, if room then Pending else Dropped)];
          }
          if room {
            channels := channels[i := channels[i].(queue := channels[i].queue + [delivery])];
          }
        }
      }
    }
  }

  // ----- Steps -----

  datatype Action =
    | Submit(command: Command)
    | CallBus(i: nat, command: Command)
    | Take(order: seq<nat>)
    | AwaitNext
    | ReplySync
    | Receive(i: nat)
    | Acknowledge(i: nat, ack: nat)
    | DropHandle(i: nat, ack: nat)
    | Close(i: nat)

  predicate Resolved(s: Bus, ack: nat)
    requires ack < |s.acks|
  {
    s.acks[ack].state != Pending
  }

  /** A subscriber task that can act: it exists and is not waiting for the bus. Each subscription
      is its own task; a task with two receivers would block both when it calls the bus. */
  predicate Free(s: Bus, i: nat) {
    i < |s.channels| && i !in s.blocked
  }

  ghost predicate Enabled(s: Bus, act: Action) {
    match act
    case Submit(_) => true
    case CallBus(i, _) => Free(s, i)
    case Take(order) => s.phase.Idle? && s.pending != [] && Enumerates(order, s.subscribers.Keys)
    case AwaitNext => s.phase.Awaiting? && s.phase.next < |s.phase.acks|
                      && s.phase.acks[s.phase.next] < |s.acks| && Resolved(s, s.phase.acks[s.phase.next])
    case ReplySync => s.phase.Awaiting? && s.phase.next == |s.phase.acks|
    case Receive(i) => Free(s, i) && s.channels[i].open && s.channels[i].queue != []
    case Acknowledge(i, ack) => Free(s, i) && ack in s.channels[i].held && ack < |s.acks|
    case DropHandle(i, ack) => Free(s, i) && ack in s.channels[i].held && ack < |s.acks|
    case Close(i) => Free(s, i) && s.channels[i].open
  }

  function Callers(caller: Option<nat>): set<nat> {
    match caller case None => {} case Some(i) => {i}
  }

  /** Dropping a receiver drops the queued deliveries, and with them their handles. */
  function DropQueued(acks: seq<Ack>, queue: seq<Delivery>): seq<Ack> {
    seq(|acks|, a requires 0 <= a < |acks| =>
      if acks[a].state == Pending && (exists k :: 0 <= k < |queue| && queue[k].Sync? && queue[k].ack == a)
      then acks[a].(state := Dropped) else acks[a])
  }

  function Resolve(s: Bus, i: nat, ack: nat, state: AckState): Bus
    requires i < |s.channels| && ack < |s.acks|
  {
    s.(acks := s.acks[ack := s.acks[ack].(state := state)],
       channels := s.channels[i := s.channels[i].(held := s.channels[i].held - {ack})])
  }

  function Execute(s: Bus, request: Request, order: seq<nat>): Bus
    requires forall i :: i in s.subscribers ==> i < |s.channels|
  {
    var replied := s.(blocked := s.blocked - Callers(request.caller));
    match request.command
    case Subscribe(subscriber) =>
      replied.(subscribers := s.subscribers[|s.channels| := subscriber],
               channels := s.channels + [Channel([], [], {}, true)])
    case Unsubscribe(id) => replied.(subscribers := s.subscribers - {id})
    case Publish(e) =>
      var h := Dispatch(Heap(s.channels, s.acks, []), s.subscribers, order, e, false);
      replied.(channels := h.channels, acks := h.acks)
    case PublishSync(e) =>
      var h := Dispatch(Heap(s.channels, s.acks, []), s.subscribers, order, e, true);
      s.(channels := h.channels, acks := h.acks, phase := Awaiting(h.awaited, 0, request.caller))
  }

  ghost function Do(s: Bus, act: Action): Bus
    requires Valid(s) && Enabled(s, act)
  {
    match act
    case Submit(command) => s.(pending := s.pending + [Request(command, None)])
    case CallBus(i, command) => s.(pending := s.pending + [Request(command, Some(i))], blocked := s.blocked + {i})
    case Take(order) => Execute(s.(pending := s.pending[1..]), s.pending[0], order)
    case AwaitNext => s.(phase := s.phase.(next := s.phase.next + 1))
    case ReplySync => s.(phase := Idle, blocked := s.blocked - Callers(s.phase.caller))
    case Receive(i) =>
      var c := s.channels[i];
      var d := c.queue[0];
      var held := if d.Sync? then c.held + {d.ack} else c.held;
      s.(channels := s.channels[i := Channel(c.taken + [d], c.queue[1..], held, true)])
    case Acknowledge(i, ack) => Resolve(s, i, ack, Acknowledged)
    case DropHandle(i, ack) => Resolve(s, i, ack, Dropped)
    case Close(i) =>
      var c := s.channels[i];
      s.(acks := DropQueued(s.acks, c.queue), channels := s.channels[i := c.(queue := [], open := false)])
  }

  // ----- The invariant -----

  predicate Carries(c: Channel, ack: nat) {
    ack in c.held || (c.open && exists k :: 0 <= k < |c.queue| && c.queue[k].Sync? && c.queue[k].ack == ack)
  }

  /** Handles are numbered below `n`. */
  ghost predicate Numbered(channels: seq<Channel>, n: nat) {
    && (forall i, k :: 0 <= i < |channels| && 0 <= k < |channels[i].queue| && channels[i].queue[k].Sync? ==>
          channels[i].queue[k].ack < n)
    && (forall i, a :: 0 <= i < |channels| && a in channels[i].held ==> a < n)
  }

  /** An unresolved handle is in its owner's queue or hands. */
  ghost predicate Located(channels: seq<Channel>, acks: seq<Ack>) {
    forall a :: 0 <= a < |acks| && acks[a].state == Pending ==>
      acks[a].owner < |channels| && Carries(channels[acks[a].owner], a)
  }

  /** What has been awaited is resolved. */
  ghost predicate AwaitedInOrder(phase: Phase, acks: seq<Ack>) {
    phase.Awaiting? ==>
      && phase.next <= |phase.acks|
      && (forall j :: 0 <= j < |phase.acks| ==> phase.acks[j] < |acks|)
      && (forall j :: 0 <= j < phase.next ==> acks[phase.acks[j]].state != Pending)
  }

  ghost predicate Valid(s: Bus) {
    && (forall i :: i in s.subscribers ==> i < |s.channels|)
    && Numbered(s.channels, |s.acks|)
    && Located(s.channels, s.acks)
    && AwaitedInOrder(s.phase, s.acks)
  }
}
