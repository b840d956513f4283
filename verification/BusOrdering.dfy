/** Order and completeness of what the event bus delivers, over every run (src/events.rs). */
module BusOrdering {
  import opened Text
  import opened Collections
  import opened Events
  import opened EventBus
  import BusProtocol

  // ----- The publication log -----

  datatype Entry = Subscribed(id: nat, kinds: seq<EventKind>) | Unsubscribed(id: nat) | Published(event: Event)

  /** The kinds subscriber `i` is subscribed to at the end of the log. */
  function KindsOf(log: seq<Entry>, i: nat): Option<seq<EventKind>> {
    if log == [] then None
    else match log[|log| - 1]
      case Subscribed(id, kinds) => if id == i then Some(kinds) else KindsOf(log[..|log| - 1], i)
      case Unsubscribed(id) => if id == i then None else KindsOf(log[..|log| - 1], i)
      case Published(_) => KindsOf(log[..|log| - 1], i)
  }

  /** The events of its kinds published while it was subscribed, in publication order. */
  function Due(log: seq<Entry>, i: nat): seq<Event> {
    if log == [] then []
    else
      var earlier := log[..|log| - 1];
      match log[|log| - 1]
      case Published(e) => (match KindsOf(earlier, i)
                            case Some(kinds) => if Kind(e) in kinds then Due(earlier, i) + [e] else Due(earlier, i)
                            case None => Due(earlier, i))
      case _ => Due(earlier, i)
  }

  predicate Subsequence(s: seq<Event>, t: seq<Event>) {
    s == [] || (t != [] && (Subsequence(s, t[..|t| - 1])
                            || (s[|s| - 1] == t[|t| - 1] && Subsequence(s[..|s| - 1], t[..|t| - 1]))))
  }

  // ----- Runs with their log -----

  /** `lost` holds the subscribers that missed a delivery: a send to them failed, or they
      dropped their receiver with deliveries waiting. */
  datatype Traced = Traced(bus: Bus, log: seq<Entry>, lost: set<nat>)

  const START := Traced(INITIAL, [], {})

  function Entries(s: Bus, request: Request): seq<Entry> {
    match request.command
    case Publish(e) => [Published(e)]
    case PublishSync(e) => [Published(e)]
    case Subscribe(subscriber) => [Subscribed(|s.channels|, subscriber.kinds)]
    case Unsubscribe(id) => [Unsubscribed(id)]
  }

  function Missed(s: Bus, e: Event): set<nat>
    requires forall i :: i in s.subscribers ==> i < |s.channels|
  {
    set i | i in s.subscribers && Kind(e) in s.subscribers[i].kinds
            && !(s.channels[i].open && |s.channels[i].queue| < 100)
  }

  function Losses(s: Bus, act: Action): set<nat>
    requires forall i :: i in s.subscribers ==> i < |s.channels|
    requires act.Take? ==> s.pending != []
    requires act.Close? ==> act.i < |s.channels|
  {
    match act
    case Take(_) => (match s.pending[0].command
                     case Publish(e) => Missed(s, e)
                     case PublishSync(e) => Missed(s, e)
                     case _ => {})
    case Close(i) => if s.channels[i].queue == [] then {} else {i}
    case _ => {}
  }

  ghost function Next(t: Traced, act: Action): Traced
    requires Valid(t.bus) && Enabled(t.bus, act)
  {
    Traced(Do(t.bus, act),
           if act.Take? then t.log + Entries(t.bus, t.bus.pending[0]) else t.log,
           t.lost + Losses(t.bus, act))
  }

  ghost function RunTraced(t: Traced, acts: seq<Action>): Traced
    requires Valid(t.bus) && BusProtocol.CanRun(t.bus, acts)
    decreases |acts|
  {
    if acts == [] then t
    else
      BusProtocol.StepKeepsValid(t.bus, acts[0]);
      RunTraced(Next(t, acts[0]), acts[1..])
  }

  function EventsOf(stream: seq<Delivery>): (r: seq<Event>)
    ensures |r| == |stream|
  {
    seq(|stream|, k requires 0 <= k < |stream| => stream[k].event)
  }

  /** Received plus queued. */
  function Given(c: Channel): seq<Event> {
    EventsOf(BusProtocol.Stream(c))
  }

  /** The log and the subscriber table agree. */
  ghost predicate LogAgrees(t: Traced) {
    forall i: nat :: KindsOf(t.log, i) == if i in t.bus.subscribers then Some(t.bus.subscribers[i].kinds) else None
  }

  /** What a subscriber was given: some of what it was due, in order; all of it exactly
      if nothing was lost. */
  ghost predicate InOrder(given: seq<Event>, due: seq<Event>, lost: bool) {
    Subsequence(given, due) && (if lost then |given| < |due| else given == due)
  }

  ghost predicate Ordered(t: Traced) {
    && (forall i: nat :: i >= |t.bus.channels| ==> i !in t.bus.subscribers && Due(t.log, i) == [] && i !in t.lost)
    && (forall i: nat :: i < |t.bus.channels| ==> InOrder(Given(t.bus.channels[i]), Due(t.log, i), i in t.lost))
  }

  ghost predicate Good(t: Traced) {
    Valid(t.bus) && LogAgrees(t) && Ordered(t)
  }

  // ----- Subsequences -----

  lemma {:induction false} SubsequenceInit(s: seq<Event>, t: seq<Event>)
    requires s != [] && Subsequence(s, t)
    ensures Subsequence(s[..|s| - 1], t)
  {
    var t' := t[..|t| - 1];
    if Subsequence(s, t') {
      SubsequenceInit(s, t');
    }
  }

  lemma {:induction false} SubsequencePrefix(p: seq<Event>, s: seq<Event>, t: seq<Event>)
    requires p <= s && Subsequence(s, t)
    ensures Subsequence(p, t)
    decreases |s|
  {
    if |p| == |s| {
      assert p == s;
    } else {
      SubsequenceInit(s, t);
      SubsequencePrefix(p, s[..|s| - 1], t);
    }
  }

  lemma InOrderExtends(given: seq<Event>, due: seq<Event>, lost: bool, e: Event, delivered: bool)
    requires InOrder(given, due, lost)
    ensures InOrder(if delivered then given + [e] else given, due + [e], lost || !delivered)
  {
    assert (due + [e])[..|due + [e]| - 1] == due;
    if delivered {
      assert (given + [e])[..|given + [e]| - 1] == given;
    }
  }

  // ----- The invariant, step by step -----

  lemma GivenGrows(c: Channel, c': Channel)
    requires |c'.queue| == |c.queue| + 1 && c' == c.(queue := c.queue + [c'.queue[|c.queue|]])
    ensures Given(c') == Given(c) + [c'.queue[|c.queue|].event]
  {
    assert BusProtocol.Stream(c') == BusProtocol.Stream(c) + [c'.queue[|c.queue|]];
  }

  lemma DueExtends(log: seq<Entry>, entry: Entry, i: nat)
    ensures (log + [entry])[..|log + [entry]| - 1] == log && (log + [entry])[|log + [entry]| - 1] == entry
  {
  }

  lemma PublishKeepsChannel(t: Traced, t': Traced, order: seq<nat>, e: Event, i: nat)
    requires Good(t) && i < |t.bus.channels| && Enumerates(order, t.bus.subscribers.Keys)
    requires t'.log == t.log + [Published(e)] && t'.lost == t.lost + Missed(t.bus, e)
    requires BusProtocol.Delivered(t.bus.channels, t'.bus.channels, t.bus.subscribers, order, e)
    ensures InOrder(Given(t'.bus.channels[i]), Due(t'.log, i), i in t'.lost)
  {
    DueExtends(t.log, Published(e), i);
    var c, c' := t.bus.channels[i], t'.bus.channels[i];
    assert KindsOf(t.log, i) == if i in t.bus.subscribers then Some(t.bus.subscribers[i].kinds) else None;
    if Wants(t.bus.subscribers, i, e) {
      assert i in order;
      assert Due(t'.log, i) == Due(t.log, i) + [e];
      InOrderExtends(Given(c), Due(t.log, i), i in t.lost, e, HasRoom(c));
      if HasRoom(c) {
        GivenGrows(c, c');
      }
    }
  }

  lemma PublishKeepsGood(t: Traced, t': Traced, order: seq<nat>, e: Event)
    requires Good(t) && Valid(t'.bus) && Enumerates(order, t.bus.subscribers.Keys)
    requires t'.log == t.log + [Published(e)] && t'.lost == t.lost + Missed(t.bus, e)
    requires t'.bus.subscribers == t.bus.subscribers
    requires BusProtocol.Delivered(t.bus.channels, t'.bus.channels, t.bus.subscribers, order, e)
    ensures Good(t')
  {
    forall i: nat
      ensures KindsOf(t'.log, i) == KindsOf(t.log, i)
      ensures i !in t.bus.subscribers ==> Due(t'.log, i) == Due(t.log, i)
    {
      DueExtends(t.log, Published(e), i);
      assert KindsOf(t.log, i) == if i in t.bus.subscribers then Some(t.bus.subscribers[i].kinds) else None;
    }
    forall i: nat | i < |t.bus.channels|
      ensures InOrder(Given(t'.bus.channels[i]), Due(t'.log, i), i in t'.lost)
    {
      PublishKeepsChannel(t, t', order, e, i);
    }
  }

  lemma SubscriptionKeepsGood(t: Traced, t': Traced, entry: Entry)
    requires Good(t) && Valid(t'.bus) && !entry.Published?
    requires t'.log == t.log + [entry] && t'.lost == t.lost
    requires match entry
      case Subscribed(id, kinds) =>
        && id == |t.bus.channels| && t'.bus.channels == t.bus.channels + [Channel([], [], {}, true)]
        && (exists subscriber: Subscriber ::
              subscriber.kinds == kinds && t'.bus.subscribers == t.bus.subscribers[id := subscriber])
      case Unsubscribed(id) => t'.bus.channels == t.bus.channels && t'.bus.subscribers == t.bus.subscribers - {id}
    ensures Good(t')
  {
    forall i: nat
      ensures Due(t'.log, i) == Due(t.log, i)
      ensures KindsOf(t'.log, i) == if i in t'.bus.subscribers then Some(t'.bus.subscribers[i].kinds) else None
    {
      DueExtends(t.log, entry, i);
      assert KindsOf(t.log, i) == if i in t.bus.subscribers then Some(t.bus.subscribers[i].kinds) else None;
    }
    forall i: nat | i < |t'.bus.channels|
      ensures InOrder(Given(t'.bus.channels[i]), Due(t'.log, i), i in t'.lost)
    {
      if i < |t.bus.channels| {
        assert t'.bus.channels[i] == t.bus.channels[i];
      }
    }
  }

  /** Steps of one subscriber: its stream stays, or is cut when its receiver is dropped. */
  lemma ChannelStepKeepsGood(t: Traced, t': Traced)
    requires Good(t) && Valid(t'.bus)
    requires t'.log == t.log && t'.bus.subscribers == t.bus.subscribers && |t'.bus.channels| == |t.bus.channels|
    requires t.lost <= t'.lost && forall i :: i in t'.lost ==> i < |t'.bus.channels|
    requires forall i: nat :: i < |t.bus.channels| ==>
               && BusProtocol.Stream(t'.bus.channels[i]) <= BusProtocol.Stream(t.bus.channels[i])
               && (if i in t'.lost && i !in t.lost
                   then |BusProtocol.Stream(t'.bus.channels[i])| < |BusProtocol.Stream(t.bus.channels[i])|
                   else i !in t'.lost ==>
                     BusProtocol.Stream(t'.bus.channels[i]) == BusProtocol.Stream(t.bus.channels[i]))
    ensures Good(t')
  {
    forall i: nat | i < |t'.bus.channels|
      ensures InOrder(Given(t'.bus.channels[i]), Due(t'.log, i), i in t'.lost)
    {
      SubsequencePrefix(Given(t'.bus.channels[i]), Given(t.bus.channels[i]), Due(t.log, i));
    }
  }

  lemma TakeKeepsGood(t: Traced, order: seq<nat>)
    requires Good(t) && Enabled(t.bus, Take(order)) && Valid(Do(t.bus, Take(order)))
    ensures Good(Next(t, Take(order)))
  {
    var t' := Next(t, Take(order));
    var h := Heap(t.bus.channels, t.bus.acks, []);
    match t.bus.pending[0].command
    case Publish(e) =>
      BusProtocol.DispatchDelivers(h, t.bus.subscribers, order, e, false);
      PublishKeepsGood(t, t', order, e);
    case PublishSync(e) =>
      BusProtocol.DispatchDelivers(h, t.bus.subscribers, order, e, true);
      PublishKeepsGood(t, t', order, e);
    case Subscribe(subscriber) =>
      SubscriptionKeepsGood(t, t', Subscribed(|t.bus.channels|, subscriber.kinds));
    case Unsubscribe(id) =>
      SubscriptionKeepsGood(t, t', Unsubscribed(id));
  }

  lemma ReceiveKeepsGood(t: Traced, i: nat)
    requires Good(t) && Enabled(t.bus, Receive(i)) && Valid(Do(t.bus, Receive(i)))
    ensures Good(Next(t, Receive(i)))
  {
    var t' := Next(t, Receive(i));
    var c := t.bus.channels[i];
    assert c.queue == [c.queue[0]] + c.queue[1..];
    assert BusProtocol.Stream(t'.bus.channels[i]) == BusProtocol.Stream(c);
    ChannelStepKeepsGood(t, t');
  }

  lemma CloseKeepsGood(t: Traced, i: nat)
    requires Good(t) && Enabled(t.bus, Close(i)) && Valid(Do(t.bus, Close(i)))
    ensures Good(Next(t, Close(i)))
  {
    ChannelStepKeepsGood(t, Next(t, Close(i)));
  }

  lemma ResolveKeepsGood(t: Traced, act: Action)
    requires Good(t) && Enabled(t.bus, act) && Valid(Do(t.bus, act))
    requires act.Acknowledge? || act.DropHandle?
    ensures Good(Next(t, act))
  {
    ChannelStepKeepsGood(t, Next(t, act));
  }

  lemma StepKeepsGood(t: Traced, act: Action)
    requires Good(t) && Enabled(t.bus, act)
    ensures Good(Next(t, act))
  {
    BusProtocol.StepKeepsValid(t.bus, act);
    match act
    case Take(order) => TakeKeepsGood(t, order);
    case Receive(i) => ReceiveKeepsGood(t, i);
    case Close(i) => CloseKeepsGood(t, i);
    case Acknowledge(_, _) => ResolveKeepsGood(t, act);
    case DropHandle(_, _) => ResolveKeepsGood(t, act);
    case Submit(_) =>
    case CallBus(_, _) =>
    case AwaitNext =>
    case ReplySync =>
  }

  lemma {:induction false} RunKeepsGood(t: Traced, acts: seq<Action>)
    requires Good(t) && BusProtocol.CanRun(t.bus, acts)
    ensures Good(RunTraced(t, acts)) && RunTraced(t, acts).bus == BusProtocol.Run(t.bus, acts)
    decreases |acts|
  {
    if acts != [] {
      StepKeepsGood(t, acts[0]);
      RunKeepsGood(Next(t, acts[0]), acts[1..]);
    }
  }

  /** Bus ordering, for every run: a subscriber has been given a subsequence, in publication
      order, of the events of its kinds published while it was subscribed, and exactly those
      events if and only if no send to it failed and it never dropped waiting deliveries. */
  lemma DeliveriesAreInOrder(acts: seq<Action>, i: nat)
    requires BusProtocol.CanRun(INITIAL, acts) && i < |BusProtocol.Run(INITIAL, acts).channels|
    ensures var t := RunTraced(START, acts);
      && t.bus == BusProtocol.Run(INITIAL, acts)
      && Subsequence(Given(t.bus.channels[i]), Due(t.log, i))
      && Subsequence(EventsOf(t.bus.channels[i].taken), Due(t.log, i))
      && (i !in t.lost <==> Given(t.bus.channels[i]) == Due(t.log, i))
  {
    RunKeepsGood(START, acts);
    var t := RunTraced(START, acts);
    var c := t.bus.channels[i];
    assert InOrder(Given(c), Due(t.log, i), i in t.lost);
    assert EventsOf(c.taken) <= Given(c);
    SubsequencePrefix(EventsOf(c.taken), Given(c), Due(t.log, i));
  }
}
