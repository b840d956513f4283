/** UIDs inside the index: messages take them from the registry while mailboxes come and go
    (src/index/indexer.rs, src/mailboxes/impl/memory.rs). */
module IndexUids {
  import opened Collections
  import opened Events
  import Registry
  import opened IndexBackend
  import opened Indexer

  /** Messages of one mailbox have different UIDs, all below the UID it hands out next. */
  ghost predicate UidsSound(s: IndexState) {
    && PathsByIds(s.backend)
    && UidsDistinct(s.backend)
    && (forall id :: id in s.backend ==> s.backend[id].metadata.uid >= 1)
    && (forall id :: id in s.backend && MailboxOf(s.backend[id]) in s.registry.mailboxes ==>
          s.backend[id].metadata.uid < s.registry.mailboxes[MailboxOf(s.backend[id])].nextUid)
    && (forall key :: key in s.registry.mailboxes ==> s.registry.mailboxes[key].nextUid >= 1)
  }

  function MailboxOf(entry: Entry): Registry.MailboxKey {
    (entry.username, entry.metadata.mailbox)
  }

  /** Nothing of a former mailbox of this name is left in the index. */
  predicate Forgotten(s: IndexState, key: Registry.MailboxKey) {
    forall id :: id in s.backend ==> MailboxOf(s.backend[id]) != key
  }

  /** The counter the input draws from is not exhausted, and nobody sets it by hand. */
  predicate CountersFit(s: IndexState, input: Input) {
    match input
    case Deliver(e, newId) =>
      IsUuid(newId) && newId !in s.backend
      && (e.MessageCreated? ==> Registry.Regular(s.registry, Registry.GetNextUid(e.username, e.mailbox)))
    case Command(cmd) =>
      !cmd.UpdateNextUid?
      && (cmd.GetNextUid? ==> Registry.Regular(s.registry, cmd))
  }

  /** A mailbox name is created only after its previous messages were forgotten. */
  predicate CreatesForgotten(s: IndexState, input: Input) {
    input.Command? && input.cmd.Create? && (input.cmd.username, input.cmd.name) !in s.registry.mailboxes ==>
      Forgotten(s, (input.cmd.username, input.cmd.name))
  }

  /** A new entry with the next UID, the counter moving past it. */
  lemma AddIsSound(s: IndexState, s': IndexState, key: Registry.MailboxKey, id: MessageId, entry: Entry)
    requires UidsSound(s) && key in s.registry.mailboxes && id !in s.backend
    requires s'.backend == s.backend[id := entry] && s'.registry.mailboxes.Keys == s.registry.mailboxes.Keys
    requires forall k :: k in s.registry.mailboxes && k != key ==> s'.registry.mailboxes[k] == s.registry.mailboxes[k]
    requires s'.registry.mailboxes[key].nextUid == s.registry.mailboxes[key].nextUid + 1
    requires MailboxOf(entry) == key && entry.metadata.uid == s.registry.mailboxes[key].nextUid
    requires PathsByIds(s'.backend)
    ensures UidsSound(s')
  {
    forall i, j | i in s'.backend && j in s'.backend && s'.backend[i].username == s'.backend[j].username
                  && s'.backend[i].metadata.mailbox == s'.backend[j].metadata.mailbox
                  && s'.backend[i].metadata.uid == s'.backend[j].metadata.uid
      ensures i == j
    {
      assert i != id ==> MailboxOf(s.backend[i]) == MailboxOf(s'.backend[j]);
      assert j != id ==> MailboxOf(s.backend[j]) == MailboxOf(s'.backend[i]);
    }
  }

  /** What handling a created message of a registered mailbox does. */
  ghost predicate TakesNextUid(s: IndexState, s': IndexState, key: Registry.MailboxKey, newId: MessageId) {
    && key in s.registry.mailboxes && newId in s'.backend && s'.backend == s.backend[newId := s'.backend[newId]]
    && MailboxOf(s'.backend[newId]) == key
    && s'.backend[newId].metadata.uid == s.registry.mailboxes[key].nextUid
    && s'.registry.mailboxes.Keys == s.registry.mailboxes.Keys
    && (forall k :: k in s.registry.mailboxes && k != key ==> s'.registry.mailboxes[k] == s.registry.mailboxes[k])
    && s'.registry.mailboxes[key].nextUid == s.registry.mailboxes[key].nextUid + 1
  }

  lemma CreatedMessageIsSound(s: IndexState, e: Event, newId: MessageId)
    requires UidsSound(s) && e.MessageCreated? && CountersFit(s, Deliver(e, newId))
    ensures UidsSound(HandleEvent(s, e, newId))
  {
    if (e.username, e.mailbox) in s.registry.mailboxes {
      CreatedMessageEffect(s, e, newId);
      CreatedKeepsPaths(s, e, newId);
      AddedMessageIsSound(s, HandleEvent(s, e, newId), (e.username, e.mailbox), newId);
    } else {
      UnregisteredIsSkipped(s, e, newId);
    }
  }

  lemma UnregisteredIsSkipped(s: IndexState, e: Event, newId: MessageId)
    requires e.MessageCreated? && (e.username, e.mailbox) !in s.registry.mailboxes
    ensures HandleEvent(s, e, newId) == s
  {
  }

  lemma AddedMessageIsSound(s: IndexState, s': IndexState, key: Registry.MailboxKey, newId: MessageId)
    requires UidsSound(s) && newId !in s.backend && TakesNextUid(s, s', key, newId) && PathsByIds(s'.backend)
    ensures UidsSound(s')
  {
    AddIsSound(s, s', key, newId, s'.backend[newId]);
  }

  lemma CreatedKeepsPaths(s: IndexState, e: Event, newId: MessageId)
    requires PathsByIds(s.backend) && IsUuid(newId) && e.MessageCreated?
    ensures PathsByIds(HandleEvent(s, e, newId).backend)
  {
    var key := (e.username, e.mailbox);
    if key in s.registry.mailboxes {
      var message := IndexedMessage(newId, s.registry.mailboxes[key].nextUid, e.mailbox, e.flags, e.meta);
      OperationsKeepPaths(s.backend, e.username, e.mailbox, message, newId, e.flags);
    }
  }

  lemma CreatedMessageEffect(s: IndexState, e: Event, newId: MessageId)
    requires e.MessageCreated? && (e.username, e.mailbox) in s.registry.mailboxes
    requires Registry.Regular(s.registry, Registry.GetNextUid(e.username, e.mailbox))
    ensures TakesNextUid(s, HandleEvent(s, e, newId), (e.username, e.mailbox), newId)
  {
  }

  /** Entries may go or change flags, but keep their id, path, mailbox and UID. */
  predicate Retains(b: Messages, b': Messages) {
    forall id :: id in b' ==>
      id in b && b'[id].path == b[id].path && MailboxOf(b'[id]) == MailboxOf(b[id])
      && b'[id].metadata.uid == b[id].metadata.uid && b'[id].metadata.id == b[id].metadata.id
  }

  lemma RetainingIsSound(s: IndexState, s': IndexState)
    requires UidsSound(s) && s'.registry == s.registry && Retains(s.backend, s'.backend)
    ensures UidsSound(s')
  {
    RetainingKeepsDistinct(s.backend, s'.backend);
    forall id | id in s'.backend
      ensures s'.backend[id].metadata.uid >= 1
      ensures MailboxOf(s'.backend[id]) in s.registry.mailboxes ==>
                s'.backend[id].metadata.uid < s.registry.mailboxes[MailboxOf(s'.backend[id])].nextUid
    {
      assert id in s.backend && MailboxOf(s'.backend[id]) == MailboxOf(s.backend[id]);
    }
  }

  lemma RetainingKeepsDistinct(b: Messages, b': Messages)
    requires PathsByIds(b) && UidsDistinct(b) && Retains(b, b')
    ensures PathsByIds(b') && UidsDistinct(b')
  {
    forall i, j | i in b' && j in b' && b'[i].username == b'[j].username
                  && b'[i].metadata.mailbox == b'[j].metadata.mailbox && b'[i].metadata.uid == b'[j].metadata.uid
      ensures i == j
    {
      assert MailboxOf(b[i]) == MailboxOf(b[j]);
    }
  }

  lemma OtherEventsRetain(s: IndexState, e: Event, newId: MessageId)
    requires !e.MessageCreated?
    ensures Retains(s.backend, HandleEvent(s, e, newId).backend) && HandleEvent(s, e, newId).registry == s.registry
  {
  }

  /** A created mailbox starts from UID 1, so its name must have no messages left. */
  lemma CreationIsSound(s: IndexState, cmd: Registry.Command)
    requires UidsSound(s) && cmd.Create? && (cmd.username, cmd.name) !in s.registry.mailboxes
    ensures UidsSound(Step(s, Command(cmd))) <==> Forgotten(s, (cmd.username, cmd.name))
  {
    var s', key := Step(s, Command(cmd)), (cmd.username, cmd.name);
    CreatedCounter(s.registry, cmd);
    if Forgotten(s, key) {
      ForgottenIsSound(s, s', key);
    } else {
      LeftoverIsUnsound(s, s', key);
    }
  }

  lemma ForgottenIsSound(s: IndexState, s': IndexState, key: Registry.MailboxKey)
    requires UidsSound(s) && Forgotten(s, key) && s'.backend == s.backend
    requires key in s'.registry.mailboxes && s'.registry.mailboxes[key].nextUid == 1
    requires forall k :: k in s'.registry.mailboxes && k != key ==>
               k in s.registry.mailboxes && s'.registry.mailboxes[k] == s.registry.mailboxes[k]
    ensures UidsSound(s')
  {
    forall id | id in s'.backend && MailboxOf(s'.backend[id]) in s'.registry.mailboxes
      ensures s'.backend[id].metadata.uid < s'.registry.mailboxes[MailboxOf(s'.backend[id])].nextUid
    {
      assert MailboxOf(s.backend[id]) != key;
    }
  }

  lemma LeftoverIsUnsound(s: IndexState, s': IndexState, key: Registry.MailboxKey)
    requires UidsSound(s) && !Forgotten(s, key) && s'.backend == s.backend
    requires key in s'.registry.mailboxes && s'.registry.mailboxes[key].nextUid == 1
    ensures !UidsSound(s')
  {
    var id :| id in s.backend && MailboxOf(s.backend[id]) == key;
    assert s'.backend[id].metadata.uid >= s'.registry.mailboxes[MailboxOf(s'.backend[id])].nextUid;
  }

  lemma CreatedCounter(r: Registry.Registry, cmd: Registry.Command)
    requires cmd.Create? && (cmd.username, cmd.name) !in r.mailboxes
    ensures var after, key := Registry.Step(r, cmd).0, (cmd.username, cmd.name);
      && key in after.mailboxes && after.mailboxes[key].nextUid == 1
      && (forall k :: k in after.mailboxes && k != key ==> k in r.mailboxes && after.mailboxes[k] == r.mailboxes[k])
  {
  }

  /** Other registry commands only raise counters and remove mailboxes. */
  lemma OtherCommandsAreSound(s: IndexState, cmd: Registry.Command)
    requires UidsSound(s) && CountersFit(s, Command(cmd))
    requires cmd.Create? ==> (cmd.username, cmd.name) in s.registry.mailboxes
    ensures UidsSound(Step(s, Command(cmd)))
  {
    CountersRise(s.registry, cmd);
    RaisedIsSound(s, Step(s, Command(cmd)));
  }

  predicate Raised(r: Registry.Registry, r': Registry.Registry) {
    forall key :: key in r'.mailboxes ==> key in r.mailboxes && r.mailboxes[key].nextUid <= r'.mailboxes[key].nextUid
  }

  lemma CountersRise(r: Registry.Registry, cmd: Registry.Command)
    requires !cmd.UpdateNextUid? && (cmd.GetNextUid? ==> Registry.Regular(r, cmd))
    requires cmd.Create? ==> (cmd.username, cmd.name) in r.mailboxes
    ensures Raised(r, Registry.Step(r, cmd).0)
  {
  }

  lemma RaisedIsSound(s: IndexState, s': IndexState)
    requires UidsSound(s) && s'.backend == s.backend && Raised(s.registry, s'.registry)
    ensures UidsSound(s')
  {
  }

  /** Every input keeps UIDs sound, except that creating a mailbox does so exactly when the
      messages of its previous life have been forgotten. */
  lemma StepKeepsUidsSound(s: IndexState, input: Input)
    requires UidsSound(s) && CountersFit(s, input)
    ensures UidsSound(Step(s, input)) <==> CreatesForgotten(s, input)
  {
    match input
    case Deliver(e, newId) =>
      if e.MessageCreated? {
        CreatedMessageIsSound(s, e, newId);
      } else {
        OtherEventsRetain(s, e, newId);
        RetainingIsSound(s, HandleEvent(s, e, newId));
      }
    case Command(cmd) =>
      if cmd.Create? && (cmd.username, cmd.name) !in s.registry.mailboxes {
        CreationIsSound(s, cmd);
      } else {
        OtherCommandsAreSound(s, cmd);
      }
  }

  predicate SoundRun(s: IndexState, inputs: seq<Input>)
    decreases |inputs|
  {
    inputs == [] ||
    (CountersFit(s, inputs[0]) && CreatesForgotten(s, inputs[0]) && SoundRun(Step(s, inputs[0]), inputs[1..]))
  }

  lemma {:induction false} RunKeepsUidsSound(s: IndexState, inputs: seq<Input>)
    requires UidsSound(s) && SoundRun(s, inputs)
    ensures UidsSound(Run(s, inputs))
    decreases |inputs|
  {
    if inputs != [] {
      StepKeepsUidsSound(s, inputs[0]);
      RunKeepsUidsSound(Step(s, inputs[0]), inputs[1..]);
    }
  }

  /** Over every such run a UID names at most one message of a mailbox, so the lookup by UID
      does not depend on the iteration order of the hash map. */
  lemma UidLookupIsDetermined(inputs: seq<Input>, o1: seq<MessageId>, o2: seq<MessageId>,
                              username: string, mailbox: string, uid: Registry.U32)
    requires SoundRun(EMPTY, inputs)
    requires Enumerates(o1, Run(EMPTY, inputs).backend.Keys) && Enumerates(o2, Run(EMPTY, inputs).backend.Keys)
    ensures FirstWithUid(Run(EMPTY, inputs).backend, o1, username, mailbox, uid)
         == FirstWithUid(Run(EMPTY, inputs).backend, o2, username, mailbox, uid)
  {
    RunKeepsUidsSound(EMPTY, inputs);
    LookupByUidIsDetermined(Run(EMPTY, inputs).backend);
  }

  // ----- A mailbox that is created again too early -----

  /** Created messages of one mailbox, each with an id of its own. */
  predicate Deliveries(s: IndexState, key: Registry.MailboxKey, inputs: seq<Input>) {
    && (forall k :: 0 <= k < |inputs| ==>
          && inputs[k].Deliver? && inputs[k].event.MessageCreated? && inputs[k].newId !in s.backend
          && (inputs[k].event.username, inputs[k].event.mailbox) == key)
    && (forall j, k :: 0 <= j < k < |inputs| && inputs[j].Deliver? && inputs[k].Deliver? ==>
          inputs[j].newId != inputs[k].newId)
  }

  /** No message of the mailbox has a UID from `n` up to, not including, `end`. */
  predicate RangeFree(b: Messages, key: Registry.MailboxKey, n: int, end: int) {
    forall id :: id in b && MailboxOf(b[id]) == key ==> !(n <= b[id].metadata.uid < end)
  }

  lemma AddedUid(b: Messages, id: MessageId, entry: Entry, end: int)
    requires id !in b && entry.metadata.uid < end
    ensures UidsDistinct(b[id := entry]) && RangeFree(b[id := entry], MailboxOf(entry), entry.metadata.uid + 1, end)
       <==> UidsDistinct(b) && RangeFree(b, MailboxOf(entry), entry.metadata.uid, end)
  {
    var b', key := b[id := entry], MailboxOf(entry);
    assert b'[id] == entry && forall i :: i in b ==> i in b' && b'[i] == b[i];
    if UidsDistinct(b) && RangeFree(b, key, entry.metadata.uid, end) {
      forall i, j | i in b' && j in b' && b'[i].username == b'[j].username
                    && b'[i].metadata.mailbox == b'[j].metadata.mailbox && b'[i].metadata.uid == b'[j].metadata.uid
        ensures i == j
      {
        assert i != id ==> MailboxOf(b[i]) == MailboxOf(b'[j]);
        assert j != id ==> MailboxOf(b[j]) == MailboxOf(b'[i]);
      }
    }
    if UidsDistinct(b') && RangeFree(b', key, entry.metadata.uid + 1, end) {
      forall i | i in b && MailboxOf(b[i]) == key
        ensures !(entry.metadata.uid <= b[i].metadata.uid < end)
      {
        assert b'[i].metadata.uid != entry.metadata.uid;
      }
    }
  }

  /** Delivering k messages keeps the UIDs of the index distinct if and only if they were and no
      message of the mailbox has one of the next k UIDs. */
  lemma {:induction false} DeliveriesCollideExactly(s: IndexState, key: Registry.MailboxKey, inputs: seq<Input>)
    requires key in s.registry.mailboxes && Deliveries(s, key, inputs)
    requires s.registry.mailboxes[key].nextUid + |inputs| < Registry.U32_LIMIT
    ensures var n := s.registry.mailboxes[key].nextUid;
      UidsDistinct(Run(s, inputs).backend) <==> UidsDistinct(s.backend) && RangeFree(s.backend, key, n, n + |inputs|)
    decreases |inputs|
  {
    if inputs != [] {
      var e, newId, next := inputs[0].event, inputs[0].newId, Step(s, inputs[0]);
      var n := s.registry.mailboxes[key].nextUid;
      CreatedMessageEffect(s, e, newId);
      assert forall k :: 0 <= k < |inputs| - 1 ==> inputs[1..][k] == inputs[k + 1];
      DeliveriesCollideExactly(next, key, inputs[1..]);
      AddedUid(s.backend, newId, next.backend[newId], n + |inputs|);
    }
  }

  /** Creating a mailbox again while messages of its former life are in the index: k deliveries
      keep UIDs distinct if and only if every UID left over exceeds k. */
  lemma RecreationCollidesExactly(s: IndexState, username: string, name: string, inputs: seq<Input>)
    requires UidsSound(s) && (username, name) !in s.registry.mailboxes
    requires Deliveries(s, (username, name), inputs) && 1 + |inputs| < Registry.U32_LIMIT
    ensures UidsDistinct(Run(Step(s, Command(Registry.Create(username, name))), inputs).backend)
       <==> forall id :: id in s.backend && MailboxOf(s.backend[id]) == (username, name) ==>
              s.backend[id].metadata.uid > |inputs|
  {
    CreatedStartsAtOne(s, username, name);
    DeliveriesCollideExactly(Step(s, Command(Registry.Create(username, name))), (username, name), inputs);
    RangeFromOne(s.backend, (username, name), |inputs|);
  }

  lemma CreatedStartsAtOne(s: IndexState, username: string, name: string)
    requires (username, name) !in s.registry.mailboxes
    ensures var s' := Step(s, Command(Registry.Create(username, name)));
      && s'.backend == s.backend
      && (username, name) in s'.registry.mailboxes && s'.registry.mailboxes[(username, name)].nextUid == 1
  {
    CreatedCounter(s.registry, Registry.Create(username, name));
  }

  lemma RangeFromOne(b: Messages, key: Registry.MailboxKey, k: nat)
    requires forall id :: id in b ==> b[id].metadata.uid >= 1
    ensures RangeFree(b, key, 1, 1 + k) <==> forall id :: id in b && MailboxOf(b[id]) == key ==> b[id].metadata.uid > k
  {
  }

  /** And it does happen: deleting and creating a mailbox between two deliveries, with no event
      that makes the index forget, leaves two messages with one UID. */
  lemma RecreatedMailboxCollides(username: string, name: string, e: Event, f: Event, id: MessageId, other: MessageId)
    requires e.MessageCreated? && (e.username, e.mailbox) == (username, name)
    requires f.MessageCreated? && (f.username, f.mailbox) == (username, name) && id != other
    ensures var create, delete := Command(Registry.Create(username, name)), Command(Registry.Delete(username, name));
      !UidsDistinct(Run(EMPTY, [create, Deliver(e, id), delete, create, Deliver(f, other)]).backend)
  {
    var create, delete := Command(Registry.Create(username, name)), Command(Registry.Delete(username, name));
    var inputs := [create, Deliver(e, id), delete, create, Deliver(f, other)];
    var s1 := Step(EMPTY, create);
    var s2 := Step(s1, Deliver(e, id));
    CreatedStartsAtOne(EMPTY, username, name);
    CreatedMessageEffect(s1, e, id);
    LeftoverCollides(s2, username, name, id, f, other);
    OneStep(EMPTY, create, inputs[1..]);
    OneStep(s1, Deliver(e, id), inputs[2..]);
    OneStep(s2, delete, inputs[3..]);
    OneStep(Step(s2, delete), create, inputs[4..]);
    assert inputs == [create] + inputs[1..] && inputs[1..] == [Deliver(e, id)] + inputs[2..];
    assert inputs[2..] == [delete] + inputs[3..] && inputs[3..] == [create] + inputs[4..];
  }

  lemma LeftoverCollides(s: IndexState, username: string, name: string, id: MessageId, f: Event, other: MessageId)
    requires id in s.backend && s.backend[id].metadata.uid == 1 && MailboxOf(s.backend[id]) == (username, name)
    requires f.MessageCreated? && (f.username, f.mailbox) == (username, name) && other !in s.backend
    ensures var deleted := Step(s, Command(Registry.Delete(username, name)));
      !UidsDistinct(Run(Step(deleted, Command(Registry.Create(username, name))), [Deliver(f, other)]).backend)
  {
    var deleted := Step(s, Command(Registry.Delete(username, name)));
    assert deleted.backend == s.backend && (username, name) !in deleted.registry.mailboxes;
    CreatedStartsAtOne(deleted, username, name);
    var created := Step(deleted, Command(Registry.Create(username, name)));
    DeliveriesCollideExactly(created, (username, name), [Deliver(f, other)]);
  }

  lemma OneStep(s: IndexState, input: Input, rest: seq<Input>)
    ensures Run(s, [input] + rest) == Run(Step(s, input), rest)
  {
    assert ([input] + rest)[1..] == rest;
  }
}
