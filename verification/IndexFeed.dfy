/** The event bus in front of the index: what the listener's index holds, told from what was
    published (src/events.rs, src/index/indexer.rs). */
module IndexFeed {
  import opened Text
  import opened Maildir
  import opened Events
  import Registry
  import opened EventBus
  import BusProtocol
  import BusOrdering
  import opened IndexBackend
  import opened Indexer

  function Commands(commands: seq<Registry.Command>): seq<Input> {
    seq(|commands|, k requires 0 <= k < |commands| => Input.Command(commands[k]))
  }

  /** The deliveries a listener handles from the k-th on, each with the id drawn for it and after
      the registry's commands that came before it. */
  function InputsFrom(k: nat, events: seq<Event>, ids: nat -> MessageId, before: nat -> seq<Registry.Command>)
    : seq<Input>
    decreases |events|
  {
    if events == [] then []
    else Commands(before(k)) + [Deliver(events[0], ids(k))] + InputsFrom(k + 1, events[1..], ids, before)
  }

  function Start(registry: Registry.Registry): IndexState {
    IndexState(map[], map[], registry)
  }

  /** The index of the listener that reads channel `i`. */
  function IndexOf(bus: Bus, i: nat, registry: Registry.Registry, ids: nat -> MessageId,
                   before: nat -> seq<Registry.Command>): IndexState
    requires i < |bus.channels|
  {
    Run(Start(registry), InputsFrom(0, BusOrdering.EventsOf(bus.channels[i].taken), ids, before))
  }

  /** Over every interleaving of the bus and its subscribers, with any registry commands between
      the deliveries: once a listener that lost nothing has drained its queue, its index is what
      the events published for it make of the empty index; and if those events are plain, it shows
      exactly the map they stand for. */
  lemma DrainedIndexIsWhatWasPublished(acts: seq<Action>, i: nat, registry: Registry.Registry, ids: nat -> MessageId,
                                       before: nat -> seq<Registry.Command>)
    requires BusProtocol.CanRun(INITIAL, acts) && i < |BusProtocol.Run(INITIAL, acts).channels|
    requires BusProtocol.Run(INITIAL, acts).channels[i].queue == []
    requires i !in BusOrdering.RunTraced(BusOrdering.START, acts).lost
    ensures var due := BusOrdering.Due(BusOrdering.RunTraced(BusOrdering.START, acts).log, i);
      var inputs := InputsFrom(0, due, ids, before);
      var index := IndexOf(BusProtocol.Run(INITIAL, acts), i, registry, ids, before);
      && index == Run(Start(registry), inputs)
      && (PlainRun(Start(registry), inputs) ==>
            forall m :: Lookup(index, m) == LookupIn(AbstractInputs(map[], Start(registry), inputs), m))
  {
    BusOrdering.DeliveriesAreInOrder(acts, i);
    var t := BusOrdering.RunTraced(BusOrdering.START, acts);
    var c := t.bus.channels[i];
    assert BusProtocol.Stream(c) == c.taken;
    var inputs := InputsFrom(0, BusOrdering.Due(t.log, i), ids, before);
    if PlainRun(Start(registry), inputs) {
      PlainRunsRefine(registry, inputs);
      IndexRefinesMap(Start(registry), map[], inputs);
    }
  }

  function LookupIn(a: Abstract, m: Message): Option<Data> {
    if m in a then Some(a[m]) else None
  }

  // ----- What the listener subscribes to -----

  const SUBSCRIBED := {KindMessageCreated, KindMessageModified, KindMessageDeleted, KindMailboxDeleted}

  predicate Changes(kind: EventKind, s: IndexState, e: Event, newId: MessageId) {
    Kind(e) == kind && HandleEvent(s, e, newId) != s
  }

  /** Some event of the kind changes some index. */
  ghost predicate Matters(kind: EventKind) {
    exists s, e, newId :: Changes(kind, s, e, newId)
  }

  lemma CreationMatters(s: IndexState, username: string, mailbox: string, path: string, newId: MessageId, meta: Meta)
    requires (username, mailbox) in s.registry.mailboxes && path !in s.mapping
    ensures Matters(KindMessageCreated)
  {
    var e := MessageCreated(username, mailbox, "", path, [], false, meta);
    assert path in HandleEvent(s, e, newId).mapping;
    assert Changes(KindMessageCreated, s, e, newId);
  }

  /** Three events about an indexed message each change the index. */
  lemma MessagesMatter(s: IndexState, username: string, mailbox: string, uniqueId: string, id: MessageId)
    requires KeyString(username, mailbox, uniqueId) in s.mapping
    requires s.mapping[KeyString(username, mailbox, uniqueId)] == id && id in s.backend
    requires InMailbox(s.backend[id], username, mailbox)
    ensures Matters(KindMessageModified) && Matters(KindMessageDeleted) && Matters(KindMailboxDeleted)
  {
    var flags := s.backend[id].metadata.flags + [Seen];
    var modified := MessageModified(username, mailbox, uniqueId, flags);
    assert |HandleEvent(s, modified, id).backend[id].metadata.flags| != |s.backend[id].metadata.flags|;
    assert Changes(KindMessageModified, s, modified, id);
    var deleted := MessageDeleted(username, mailbox, uniqueId);
    assert id !in HandleEvent(s, deleted, id).backend;
    assert Changes(KindMessageDeleted, s, deleted, id);
    var dropped := MailboxDeleted(username, mailbox);
    assert id !in HandleEvent(s, dropped, id).backend;
    assert Changes(KindMailboxDeleted, s, dropped, id);
  }

  lemma CreatedMatters()
    ensures Matters(KindMessageCreated)
  {
    var registry := Registry.EMPTY.(mailboxes := map[("", "") := Registry.NewInfo("", "", 1)]);
    CreationMatters(Start(registry), "", "", "", MessageId(""), Meta("", "", "", "", 0));
  }

  lemma OthersMatter()
    ensures Matters(KindMessageModified) && Matters(KindMessageDeleted) && Matters(KindMailboxDeleted)
  {
    var id, key := MessageId(""), KeyString("", "", "");
    var entry := Entry(IndexedMessage(id, 1, "", [], Meta("", "", "", "", 0)), "", "");
    MessagesMatter(IndexState(map[key := id], map[id := entry], Registry.EMPTY), "", "", "", id);
  }

  lemma SubscribedMatter(kind: EventKind)
    requires kind in SUBSCRIBED
    ensures Matters(kind)
  {
    if kind == KindMessageCreated {
      CreatedMatters();
    } else {
      OthersMatter();
    }
  }

  lemma OthersDoNot(kind: EventKind)
    requires kind !in SUBSCRIBED
    ensures !Matters(kind)
  {
    forall s, e, newId
      ensures !Changes(kind, s, e, newId)
    {
      if Kind(e) == kind {
        UnsubscribedAreIdle(s, e, newId);
      }
    }
  }

  /** The listener subscribes to exactly the kinds of events that can change its index. */
  lemma SubscribedKindsMatterExactly(kind: EventKind)
    ensures Matters(kind) <==> kind in SUBSCRIBED
  {
    if kind in SUBSCRIBED {
      SubscribedMatter(kind);
    } else {
      OthersDoNot(kind);
    }
  }

  lemma UnsubscribedAreIdle(s: IndexState, e: Event, newId: MessageId)
    requires Kind(e) !in SUBSCRIBED
    ensures HandleEvent(s, e, newId) == s
  {
  }

  function Subscribed(inputs: seq<(Event, MessageId)>): seq<(Event, MessageId)> {
    if inputs == [] then []
    else (if Kind(inputs[0].0) in SUBSCRIBED then [inputs[0]] else []) + Subscribed(inputs[1..])
  }

  /** The index of the subscribed events is the index of all events. */
  lemma {:induction false} SubscriptionMissesNothing(s: IndexState, inputs: seq<(Event, MessageId)>)
    ensures RunEvents(s, Subscribed(inputs)) == RunEvents(s, inputs)
    decreases |inputs|
  {
    if inputs != [] {
      var (e, newId) := inputs[0];
      var rest := Subscribed(inputs[1..]);
      SubscriptionMissesNothing(HandleEvent(s, e, newId), inputs[1..]);
      if Kind(e) in SUBSCRIBED {
        assert ([inputs[0]] + rest)[1..] == rest;
      } else {
        UnsubscribedAreIdle(s, e, newId);
        assert [] + rest == rest;
      }
    }
  }
}
