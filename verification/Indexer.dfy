/** The event listener of the index (src/index/indexer.rs): a key → message-id mapping on
    top of the id → entry backend, fed by events, with UIDs from the registry. The three maps
    are shown to refine one map from (user, mailbox, unique id) to message data. */
module Indexer {
  import opened Text
  import opened Maildir
  import opened Events
  import Registry
  import opened IndexBackend

  datatype IndexState =
    IndexState(mapping: map<string, MessageId>, backend: Messages, registry: Registry.Registry)

  const EMPTY := IndexState(map[], map[], Registry.EMPTY)

  /** `format!("{}/{}/{}", username, mailbox, unique_id)`. */
  function KeyString(username: string, mailbox: string, uniqueId: string): string {
    username + "/" + mailbox + "/" + uniqueId
  }

  function MailboxPrefix(username: string, mailbox: string): string {
    username + "/" + mailbox + "/"
  }

  // ----- One event -----

  /** Handling one delivery. `newId` is the id that `MessageId::new` would draw. */
  function HandleEvent(s: IndexState, e: Event, newId: MessageId): IndexState {
    match e
    case MessageCreated(username, mailbox, _, path, flags, _, meta) =>
      var (registry, reply) := Registry.Step(s.registry, Registry.GetNextUid(username, mailbox));
      if reply.GotUid? then
        IndexState(s.mapping[path := newId],
                   Add(s.backend, username, mailbox, IndexedMessage(newId, reply.uid, mailbox, flags, meta)),
                   registry)
      else s.(registry := registry)
    case MessageModified(username, mailbox, uniqueId, flags) =>
      var key := KeyString(username, mailbox, uniqueId);
      if key in s.mapping then s.(backend := SetFlags(s.backend, s.mapping[key], flags)) else s
    case MessageDeleted(username, mailbox, uniqueId) =>
      var key := KeyString(username, mailbox, uniqueId);
      if key in s.mapping then s.(mapping := s.mapping - {key}, backend := s.backend - {s.mapping[key]}) else s
    case MailboxDeleted(username, mailbox) =>
      s.(backend := DropMailbox(s.backend, username, mailbox),
         mapping := map k | k in s.mapping && !(MailboxPrefix(username, mailbox) <= k) :: s.mapping[k])
    case _ => s
  }

  /** The listener task, with the backend and the registry it shares. */
  class Listener {
    var mapping: map<string, MessageId>
    const backend: InMemoryBackend
    const mailboxes: Registry.MailboxState

    function State(): IndexState
      reads this, backend, mailboxes
    {
      IndexState(mapping, backend.messages, mailboxes.State())
    }

    constructor (backend: InMemoryBackend, mailboxes: Registry.MailboxState)
      ensures this.backend == backend && this.mailboxes == mailboxes && mapping == map[]
    {
      this.backend, this.mailboxes, mapping := backend, mailboxes, map[];
    }

    method Handle(e: Event, newId: MessageId)
      modifies this, backend, mailboxes
      ensures State() == HandleEvent(old(State()), e, newId)
    {
      match e
      case MessageCreated(username, mailbox, _, path, flags, _, meta) =>
        var reply := mailboxes.NextUid(username, mailbox);
        if !reply.GotUid? { return; }
        var message := IndexedMessage(newId, reply.uid, mailbox, flags, meta);
        var _ := backend.AddMessage(username, mailbox, message);
        mapping := mapping[path := newId];
      case MessageModified(username, mailbox, uniqueId, flags) =>
        var key := KeyString(username, mailbox, uniqueId);
        if key !in mapping { return; }
        var _ := backend.UpdateFlags(mapping[key], flags);
      case MessageDeleted(username, mailbox, uniqueId) =>
        var key := KeyString(username, mailbox, uniqueId);
        if key !in mapping { return; }
        var id := mapping[key];
        mapping := mapping - {key};
        var _ := backend.DeleteMessage(id);
      case MailboxDeleted(username, mailbox) =>
        backend.RemoveMessagesForMailbox(username, mailbox);
        var prefix := MailboxPrefix(username, mailbox);
        mapping := map k | k in mapping && !(prefix <= k) :: mapping[k];
      case MailboxCreated(_, _) =>
      case MailboxRenamed(_, _, _) =>
    }

    /** `event_listener`: one delivery after the other. */
    method EventLoop(inputs: seq<(Event, MessageId)>)
      modifies this, backend, mailboxes
      ensures State() == RunEvents(old(State()), inputs)
    {
      assert inputs[0..] == inputs;
      for i := 0 to |inputs|
        invariant RunEvents(old(State()), inputs) == RunEvents(State(), inputs[i..])
      {
        assert inputs[i..][0] == inputs[i] && inputs[i..][1..] == inputs[i + 1..];
        Handle(inputs[i].0, inputs[i].1);
      }
    }
  }

  function RunEvents(s: IndexState, inputs: seq<(Event, MessageId)>): IndexState
    decreases |inputs|
  {
    if inputs == [] then s else RunEvents(HandleEvent(s, inputs[0].0, inputs[0].1), inputs[1..])
  }

  // ----- The abstract index -----

  /** Which message: user, mailbox and the unique id of its file. */
  datatype Message = Message(username: string, mailbox: string, uniqueId: string)

  datatype Data = Data(uid: Registry.U32, flags: seq<MessageFlag>, meta: Meta)

  type Abstract = map<Message, Data>

  function KeyOf(m: Message): string {
    KeyString(m.username, m.mailbox, m.uniqueId)
  }

  /** What an event means for the abstract index. */
  function AbstractEvent(a: Abstract, registry: Registry.Registry, e: Event): Abstract {
    match e
    case MessageCreated(username, mailbox, uniqueId, _, flags, _, meta) =>
      if (username, mailbox) in registry.mailboxes then
        a[Message(username, mailbox, uniqueId) := Data(registry.mailboxes[(username, mailbox)].nextUid, flags, meta)]
      else a
    case MessageModified(username, mailbox, uniqueId, flags) =>
      var m := Message(username, mailbox, uniqueId);
      if m in a then a[m := a[m].(flags := flags)] else a
    case MessageDeleted(username, mailbox, uniqueId) => a - {Message(username, mailbox, uniqueId)}
    case MailboxDeleted(username, mailbox) =>
      map m | m in a && !(m.username == username && m.mailbox == mailbox) :: a[m]
    case _ => a
  }

  predicate Shows(entry: Entry, m: Message, d: Data) {
    entry.username == m.username && entry.metadata.mailbox == m.mailbox
    && entry.metadata.uid == d.uid && entry.metadata.flags == d.flags && entry.metadata.meta == d.meta
  }

  /** How one map is stored as two: `rows` undoes `key` and `owners` undoes `mapping`. */
  ghost predicate JoinedBy(mapping: map<string, MessageId>, backend: Messages, a: Abstract, key: Message -> string,
                           rows: map<string, Message>, owners: map<MessageId, string>) {
    && rows.Keys == mapping.Keys && owners.Keys == backend.Keys
    && (forall m :: m in a ==> key(m) in rows && rows[key(m)] == m)
    && (forall k :: k in rows ==> rows[k] in a && key(rows[k]) == k)
    && (forall k :: k in mapping ==> mapping[k] in owners && owners[mapping[k]] == k)
    && (forall id :: id in owners ==> owners[id] in mapping && mapping[owners[id]] == id)
    && (forall k :: k in mapping ==> Shows(backend[mapping[k]], rows[k], a[rows[k]]))
  }

  ghost predicate Joined(mapping: map<string, MessageId>, backend: Messages, a: Abstract, key: Message -> string) {
    exists rows, owners :: JoinedBy(mapping, backend, a, key, rows, owners)
  }

  /** The simulation relation: the mapping is a bijection between the keys of the abstract
      index and the ids of the backend, and the entries show the abstract data. */
  ghost predicate Refines(s: IndexState, a: Abstract) {
    Joined(s.mapping, s.backend, a, KeyOf)
  }

  lemma JoinedByInsert(mapping: map<string, MessageId>, backend: Messages, a: Abstract, key: Message -> string,
                       rows: map<string, Message>, owners: map<MessageId, string>,
                       m: Message, d: Data, id: MessageId, entry: Entry)
    requires JoinedBy(mapping, backend, a, key, rows, owners)
    requires id !in backend && Shows(entry, m, d) && key(m) !in mapping
    ensures JoinedBy(mapping[key(m) := id], backend[id := entry], a[m := d], key,
                     rows[key(m) := m], owners[id := key(m)])
  {
    var name := key(m);
    var mapping', backend', a' := mapping[name := id], backend[id := entry], a[m := d];
    var rows', owners' := rows[name := m], owners[id := name];
    assert m !in a;
    forall n | n in a'
      ensures key(n) in rows' && rows'[key(n)] == n
    {
      assert n == m || n in a;
    }
    forall k | k in rows'
      ensures rows'[k] in a' && key(rows'[k]) == k
    {
      assert k == name || k in rows;
    }
    forall k | k in mapping'
      ensures mapping'[k] in owners' && owners'[mapping'[k]] == k
      ensures Shows(backend'[mapping'[k]], rows'[k], a'[rows'[k]])
    {
      assert k == name || (k in mapping && mapping[k] in owners && mapping[k] != id && rows[k] in a && rows[k] != m);
    }
    forall i | i in owners'
      ensures owners'[i] in mapping' && mapping'[owners'[i]] == i
    {
      assert i == id || (i in owners && owners[i] in mapping && owners[i] != name);
    }
  }

  lemma JoinedInsert(mapping: map<string, MessageId>, backend: Messages, a: Abstract, key: Message -> string,
                     m: Message, d: Data, id: MessageId, entry: Entry)
    requires Joined(mapping, backend, a, key)
    requires id !in backend && Shows(entry, m, d) && key(m) !in mapping
    ensures Joined(mapping[key(m) := id], backend[id := entry], a[m := d], key)
  {
    var rows, owners :| JoinedBy(mapping, backend, a, key, rows, owners);
    JoinedByInsert(mapping, backend, a, key, rows, owners, m, d, id, entry);
  }

  lemma JoinedUpdate(mapping: map<string, MessageId>, backend: Messages, a: Abstract, key: Message -> string,
                     m: Message, d: Data, entry: Entry)
    requires Joined(mapping, backend, a, key) && m in a && Shows(entry, m, d)
    ensures key(m) in mapping && Joined(mapping, backend[mapping[key(m)] := entry], a[m := d], key)
  {
    var rows, owners :| JoinedBy(mapping, backend, a, key, rows, owners);
    assert JoinedBy(mapping, backend[mapping[key(m)] := entry], a[m := d], key, rows, owners);
  }

  function Restrict<K, V>(m: map<K, V>, keys: set<K>): (r: map<K, V>)
    ensures r.Keys == m.Keys * keys && forall k :: k in r ==> r[k] == m[k]
  {
    map k | k in m && k in keys :: m[k]
  }

  /** The three maps after some messages were dropped from each. */
  ghost predicate Filtered(mapping: map<string, MessageId>, backend: Messages, a: Abstract, key: Message -> string,
                           mapping': map<string, MessageId>, backend': Messages, a': Abstract) {
    && a'.Keys <= a.Keys && (forall m :: m in a' ==> a'[m] == a[m])
    && mapping'.Keys <= mapping.Keys && (forall k :: k in mapping' ==> mapping'[k] == mapping[k])
    && backend'.Keys <= backend.Keys && (forall id :: id in backend' ==> backend'[id] == backend[id])
    && (forall m :: m in a && key(m) in mapping ==>
          (m in a' <==> key(m) in mapping') && (m in a' <==> mapping[key(m)] in backend'))
  }

  /** Dropping the same messages from all three maps keeps them joined. */
  lemma JoinedFilter(mapping: map<string, MessageId>, backend: Messages, a: Abstract, key: Message -> string,
                     mapping': map<string, MessageId>, backend': Messages, a': Abstract)
    requires Joined(mapping, backend, a, key) && Filtered(mapping, backend, a, key, mapping', backend', a')
    ensures Joined(mapping', backend', a', key)
  {
    var rows, owners :| JoinedBy(mapping, backend, a, key, rows, owners);
    JoinedByFilter(mapping, backend, a, key, rows, owners, mapping', backend', a');
  }

  lemma JoinedByFilter(mapping: map<string, MessageId>, backend: Messages, a: Abstract, key: Message -> string,
                       rows: map<string, Message>, owners: map<MessageId, string>,
                       mapping': map<string, MessageId>, backend': Messages, a': Abstract)
    requires JoinedBy(mapping, backend, a, key, rows, owners)
    requires Filtered(mapping, backend, a, key, mapping', backend', a')
    ensures JoinedBy(mapping', backend', a', key, Restrict(rows, mapping'.Keys), Restrict(owners, backend'.Keys))
  {
    FilteredRows(mapping, backend, a, key, rows, owners, mapping', backend', a');
    FilteredOwners(mapping, backend, a, key, rows, owners, mapping', backend', a');
    JoinedByRestricted(mapping, backend, a, key, rows, owners, mapping', backend', a',
                       Restrict(rows, mapping'.Keys), Restrict(owners, backend'.Keys));
  }

  lemma JoinedByRestricted(mapping: map<string, MessageId>, backend: Messages, a: Abstract, key: Message -> string,
                           rows: map<string, Message>, owners: map<MessageId, string>,
                           mapping': map<string, MessageId>, backend': Messages, a': Abstract,
                           rows': map<string, Message>, owners': map<MessageId, string>)
    requires JoinedBy(mapping, backend, a, key, rows, owners)
    requires mapping'.Keys <= mapping.Keys && (forall k :: k in mapping' ==> mapping'[k] == mapping[k])
    requires forall m :: m in a' ==> m in a && a'[m] == a[m]
    requires forall id :: id in backend' ==> id in backend && backend'[id] == backend[id]
    requires rows'.Keys == mapping'.Keys && (forall k :: k in rows' ==> k in rows && rows'[k] == rows[k])
    requires owners'.Keys == backend'.Keys && (forall id :: id in owners' ==> id in owners && owners'[id] == owners[id])
    requires forall m :: m in a' ==> key(m) in mapping' && rows[key(m)] == m
    requires forall k :: k in mapping' ==> rows[k] in a' && key(rows[k]) == k
    requires forall k :: k in mapping' ==> mapping'[k] in backend' && owners[mapping'[k]] == k
    requires forall id :: id in backend' ==> owners[id] in mapping' && mapping'[owners[id]] == id
    ensures JoinedBy(mapping', backend', a', key, rows', owners')
  {
    forall k | k in mapping'
      ensures Shows(backend'[mapping'[k]], rows'[k], a'[rows'[k]])
    {
      assert Shows(backend[mapping[k]], rows[k], a[rows[k]]);
    }
  }

  lemma FilteredRows(mapping: map<string, MessageId>, backend: Messages, a: Abstract, key: Message -> string,
                     rows: map<string, Message>, owners: map<MessageId, string>,
                     mapping': map<string, MessageId>, backend': Messages, a': Abstract)
    requires JoinedBy(mapping, backend, a, key, rows, owners)
    requires Filtered(mapping, backend, a, key, mapping', backend', a')
    ensures mapping'.Keys <= rows.Keys
    ensures forall m :: m in a' ==> key(m) in mapping' && rows[key(m)] == m
    ensures forall k :: k in mapping' ==> rows[k] in a' && key(rows[k]) == k
  {
    forall m | m in a'
      ensures key(m) in mapping' && rows[key(m)] == m
    {
      assert m in a && key(m) in rows;
    }
    forall k | k in mapping'
      ensures rows[k] in a' && key(rows[k]) == k
    {
      assert k in rows && rows[k] in a;
    }
  }

  lemma FilteredOwners(mapping: map<string, MessageId>, backend: Messages, a: Abstract, key: Message -> string,
                       rows: map<string, Message>, owners: map<MessageId, string>,
                       mapping': map<string, MessageId>, backend': Messages, a': Abstract)
    requires JoinedBy(mapping, backend, a, key, rows, owners)
    requires Filtered(mapping, backend, a, key, mapping', backend', a')
    ensures backend'.Keys <= owners.Keys
    ensures forall k :: k in mapping' ==> mapping'[k] in backend' && owners[mapping'[k]] == k
    ensures forall id :: id in backend' ==> owners[id] in mapping' && mapping'[owners[id]] == id
  {
    forall k | k in mapping'
      ensures mapping'[k] in backend' && owners[mapping'[k]] == k
    {
      assert k in rows && key(rows[k]) == k;
    }
    forall id | id in backend'
      ensures owners[id] in mapping' && mapping'[owners[id]] == id
    {
      var k := owners[id];
      assert k in rows && mapping[k] == id && key(rows[k]) == k;
    }
  }

  lemma JoinedRemove(mapping: map<string, MessageId>, backend: Messages, a: Abstract, key: Message -> string,
                     m: Message)
    requires Joined(mapping, backend, a, key) && m in a && key(m) in mapping
    ensures Joined(mapping - {key(m)}, backend - {mapping[key(m)]}, a - {m}, key)
  {
    var rows, owners :| JoinedBy(mapping, backend, a, key, rows, owners);
    JoinedByRemove(mapping, backend, a, key, rows, owners, m);
  }

  lemma JoinedByRemove(mapping: map<string, MessageId>, backend: Messages, a: Abstract, key: Message -> string,
                       rows: map<string, Message>, owners: map<MessageId, string>, m: Message)
    requires JoinedBy(mapping, backend, a, key, rows, owners) && m in a
    ensures JoinedBy(mapping - {key(m)}, backend - {mapping[key(m)]}, a - {m}, key,
                     rows - {key(m)}, owners - {mapping[key(m)]})
  {
    var name, id := key(m), mapping[key(m)];
    var mapping', owners' := mapping - {name}, owners - {id};
    forall k | k in mapping'
      ensures mapping'[k] in owners' && owners'[mapping'[k]] == k
    {
      assert k in mapping && mapping[k] in owners && owners[mapping[k]] == k;
    }
  }

  /** What the join says about names and messages. */
  lemma JoinedNames(mapping: map<string, MessageId>, backend: Messages, a: Abstract, key: Message -> string)
    requires Joined(mapping, backend, a, key)
    ensures forall m :: m in a ==>
      key(m) in mapping && mapping[key(m)] in backend && Shows(backend[mapping[key(m)]], m, a[m])
    ensures forall k :: k in mapping ==> exists m :: m in a && key(m) == k
    ensures forall m, n :: m in a && n in a && key(m) == key(n) ==> m == n
  {
    var rows, owners :| JoinedBy(mapping, backend, a, key, rows, owners);
    forall k | k in mapping
      ensures exists m :: m in a && key(m) == k
    {
      assert rows[k] in a && key(rows[k]) == k;
    }
  }

  /** What the join says about names and ids. */
  lemma JoinedIds(mapping: map<string, MessageId>, backend: Messages, a: Abstract, key: Message -> string)
    requires Joined(mapping, backend, a, key)
    ensures forall k, l :: k in mapping && l in mapping && mapping[k] == mapping[l] ==> k == l
    ensures forall k :: k in mapping ==> mapping[k] in backend
    ensures forall id :: id in backend ==> exists k :: k in mapping && mapping[k] == id
  {
    var rows, owners :| JoinedBy(mapping, backend, a, key, rows, owners);
    forall id | id in backend
      ensures exists k :: k in mapping && mapping[k] == id
    {
      assert owners[id] in mapping && mapping[owners[id]] == id;
    }
  }

  /** An id no name leads to breaks the join, whatever the abstract map. */
  lemma OrphanBreaksJoin(mapping: map<string, MessageId>, backend: Messages, a: Abstract, key: Message -> string,
                         id: MessageId)
    requires id in backend && forall k :: k in mapping ==> mapping[k] != id
    ensures !Joined(mapping, backend, a, key)
  {
    if Joined(mapping, backend, a, key) {
      JoinedIds(mapping, backend, a, key);
    }
  }

  lemma OrphanBreaksRefinement(s: IndexState, id: MessageId)
    requires id in s.backend && forall k :: k in s.mapping ==> s.mapping[k] != id
    ensures forall a :: !Refines(s, a)
  {
    forall a
      ensures !Refines(s, a)
    {
      OrphanBreaksJoin(s.mapping, s.backend, a, KeyOf, id);
    }
  }

  // ----- Keys and prefixes -----

  predicate SlashFree(s: string) {
    '/' !in s
  }

  lemma FirstSlash(s: string, i: nat, j: nat)
    requires i < |s| && j < |s| && s[i] == '/' && s[j] == '/' && '/' !in s[..i] && '/' !in s[..j]
    ensures i == j
  {
  }

  lemma FieldDelimited(a: string, b: string, x: string, y: string)
    requires SlashFree(a) && SlashFree(b)
    requires a + "/" + x == b + "/" + y
    ensures a == b && x == y
  {
    var s := a + "/" + x;
    assert s[|a|] == '/' && (b + "/" + y)[|b|] == '/';
    assert s[..|a|] == a && s[..|b|] == b;
    FirstSlash(s, |a|, |b|);
    assert s[|a| + 1..] == x && s[|b| + 1..] == y;
  }

  /** Slash-free user and mailbox names make the string keys injective. */
  lemma KeysInjective(m: Message, n: Message)
    requires SlashFree(m.username) && SlashFree(m.mailbox) && SlashFree(n.username) && SlashFree(n.mailbox)
    requires KeyOf(m) == KeyOf(n)
    ensures m == n
  {
    assert KeyOf(m) == m.username + "/" + (m.mailbox + "/" + m.uniqueId);
    assert KeyOf(n) == n.username + "/" + (n.mailbox + "/" + n.uniqueId);
    FieldDelimited(m.username, n.username, m.mailbox + "/" + m.uniqueId, n.mailbox + "/" + n.uniqueId);
    FieldDelimited(m.mailbox, n.mailbox, m.uniqueId, n.uniqueId);
  }

  /** For slash-free names, string prefix and field equality select the same messages. */
  lemma PrefixIsMailbox(m: Message, username: string, mailbox: string)
    requires SlashFree(m.username) && SlashFree(m.mailbox) && SlashFree(username) && SlashFree(mailbox)
    ensures MailboxPrefix(username, mailbox) <= KeyOf(m) <==> m.username == username && m.mailbox == mailbox
  {
    var prefix := MailboxPrefix(username, mailbox);
    if prefix <= KeyOf(m) {
      var n := Message(username, mailbox, KeyOf(m)[|prefix|..]);
      assert KeyOf(n) == prefix + n.uniqueId == KeyOf(m);
      KeysInjective(m, n);
    }
    if m.username == username && m.mailbox == mailbox {
      assert KeyOf(m) == prefix + m.uniqueId;
    }
  }

  // ----- The refinement, one event at a time -----

  /** What an event must satisfy, given what is in the index: its key names no other tracked
      message; a created message is new; a deleted mailbox's prefix covers no other mailbox. */
  ghost predicate Unambiguous(a: Abstract, registry: Registry.Registry, e: Event) {
    match e
    case MessageCreated(username, mailbox, uniqueId, path, _, _, _) =>
      path == KeyString(username, mailbox, uniqueId)
      && ((username, mailbox) in registry.mailboxes ==> forall m :: m in a ==> KeyOf(m) != path)
    case MessageModified(username, mailbox, uniqueId, _) =>
      forall m :: m in a && KeyOf(m) == KeyString(username, mailbox, uniqueId) ==>
        m == Message(username, mailbox, uniqueId)
    case MessageDeleted(username, mailbox, uniqueId) =>
      forall m :: m in a && KeyOf(m) == KeyString(username, mailbox, uniqueId) ==>
        m == Message(username, mailbox, uniqueId)
    case MailboxDeleted(username, mailbox) => PrefixExact(a, username, mailbox)
    case _ => true
  }

  ghost predicate PrefixExact(a: Abstract, username: string, mailbox: string) {
    forall m :: m in a && MailboxPrefix(username, mailbox) <= KeyOf(m) ==>
      m.username == username && m.mailbox == mailbox
  }

  lemma CreatedRefines(s: IndexState, a: Abstract, e: Event, newId: MessageId)
    requires Refines(s, a) && e.MessageCreated? && Unambiguous(a, s.registry, e) && newId !in s.backend
    ensures Refines(HandleEvent(s, e, newId), AbstractEvent(a, s.registry, e))
  {
    JoinedNames(s.mapping, s.backend, a, KeyOf);
    if (e.username, e.mailbox) in s.registry.mailboxes {
      var m := Message(e.username, e.mailbox, e.uniqueId);
      var d := AbstractEvent(a, s.registry, e)[m];
      JoinedInsert(s.mapping, s.backend, a, KeyOf, m, d, newId, HandleEvent(s, e, newId).backend[newId]);
    }
  }

  lemma ModifiedRefines(s: IndexState, a: Abstract, e: Event, newId: MessageId)
    requires Refines(s, a) && e.MessageModified? && Unambiguous(a, s.registry, e)
    ensures Refines(HandleEvent(s, e, newId), AbstractEvent(a, s.registry, e))
  {
    var m := Message(e.username, e.mailbox, e.uniqueId);
    JoinedNames(s.mapping, s.backend, a, KeyOf);
    assert KeyOf(m) in s.mapping <==> m in a;
    if m in a {
      var id := s.mapping[KeyOf(m)];
      JoinedUpdate(s.mapping, s.backend, a, KeyOf, m, a[m].(flags := e.flags), SetFlags(s.backend, id, e.flags)[id]);
    }
  }

  lemma DeletedRefines(s: IndexState, a: Abstract, e: Event, newId: MessageId)
    requires Refines(s, a) && e.MessageDeleted? && Unambiguous(a, s.registry, e)
    ensures Refines(HandleEvent(s, e, newId), AbstractEvent(a, s.registry, e))
  {
    var m := Message(e.username, e.mailbox, e.uniqueId);
    var s', a' := HandleEvent(s, e, newId), AbstractEvent(a, s.registry, e);
    JoinedNames(s.mapping, s.backend, a, KeyOf);
    assert KeyOf(m) in s.mapping <==> m in a;
    if m in a {
      JoinedRemove(s.mapping, s.backend, a, KeyOf, m);
    } else {
      assert a' == a;
    }
  }

  lemma MailboxDeletedRefines(s: IndexState, a: Abstract, e: Event, newId: MessageId)
    requires Refines(s, a) && e.MailboxDeleted? && Unambiguous(a, s.registry, e)
    ensures Refines(HandleEvent(s, e, newId), AbstractEvent(a, s.registry, e))
  {
    var s', a' := HandleEvent(s, e, newId), AbstractEvent(a, s.registry, e);
    JoinedNames(s.mapping, s.backend, a, KeyOf);
    forall m | m in a
      ensures MailboxPrefix(e.username, e.mailbox) <= KeyOf(m) <==> m.username == e.username && m.mailbox == e.mailbox
    {
      if m.username == e.username && m.mailbox == e.mailbox {
        assert KeyOf(m) == MailboxPrefix(e.username, e.mailbox) + m.uniqueId;
      }
    }
    JoinedFilter(s.mapping, s.backend, a, KeyOf, s'.mapping, s'.backend, a');
  }

  /** Every unambiguous event does to the three maps what it means for the one abstract map. */
  lemma EventRefines(s: IndexState, a: Abstract, e: Event, newId: MessageId)
    requires Refines(s, a) && Unambiguous(a, s.registry, e) && newId !in s.backend
    ensures Refines(HandleEvent(s, e, newId), AbstractEvent(a, s.registry, e))
  {
    match e
    case MessageCreated(_, _, _, _, _, _, _) => CreatedRefines(s, a, e, newId);
    case MessageModified(_, _, _, _) => ModifiedRefines(s, a, e, newId);
    case MessageDeleted(_, _, _) => DeletedRefines(s, a, e, newId);
    case MailboxDeleted(_, _) => MailboxDeletedRefines(s, a, e, newId);
    case MailboxCreated(_, _) =>
    case MailboxRenamed(_, _, _) =>
  }

  /** Deleting a mailbox leaves a consistent index exactly when its prefix covers no message
      of another mailbox; otherwise the other mailbox's message stays in the backend with
      nothing pointing to it. */
  lemma MailboxDeletionGuardIsExact(s: IndexState, a: Abstract, username: string, mailbox: string, newId: MessageId)
    requires Refines(s, a) && newId !in s.backend
    ensures (exists a' :: Refines(HandleEvent(s, MailboxDeleted(username, mailbox), newId), a'))
       <==> PrefixExact(a, username, mailbox)
  {
    var e := MailboxDeleted(username, mailbox);
    if PrefixExact(a, username, mailbox) {
      EventRefines(s, a, e, newId);
    } else {
      var m :| m in a && MailboxPrefix(username, mailbox) <= KeyOf(m)
               && !(m.username == username && m.mailbox == mailbox);
      DeletionOrphans(s, a, username, mailbox, newId, m);
    }
  }

  lemma DeletionOrphans(s: IndexState, a: Abstract, username: string, mailbox: string, newId: MessageId, m: Message)
    requires Refines(s, a) && m in a
    requires MailboxPrefix(username, mailbox) <= KeyOf(m) && !(m.username == username && m.mailbox == mailbox)
    ensures forall a' :: !Refines(HandleEvent(s, MailboxDeleted(username, mailbox), newId), a')
  {
    var s' := HandleEvent(s, MailboxDeleted(username, mailbox), newId);
    JoinedNames(s.mapping, s.backend, a, KeyOf);
    JoinedIds(s.mapping, s.backend, a, KeyOf);
    var id := s.mapping[KeyOf(m)];
    assert id in s'.backend && KeyOf(m) !in s'.mapping;
    OrphanBreaksRefinement(s', id);
  }

  /** The failing family is real: mailbox names of a hierarchy contain the delimiter. Deleting the
      parent after a delivery to the child leaves the child's message with nothing pointing to it. */
  lemma HierarchicalNamesAreAmbiguous(username: string, parent: string, child: string, uniqueId: string,
                                      flags: seq<MessageFlag>, meta: Meta, id: MessageId, other: MessageId)
    ensures var mailbox := parent + "/" + child;
      var registry := Registry.Step(Registry.EMPTY, Registry.Create(username, mailbox)).0;
      var key := KeyString(username, mailbox, uniqueId);
      var s := RunEvents(IndexState(map[], map[], registry),
                         [(MessageCreated(username, mailbox, uniqueId, key, flags, true, meta), id),
                          (MailboxDeleted(username, parent), other)]);
      id in s.backend && s.mapping == map[]
  {
    var mailbox := parent + "/" + child;
    var key := KeyString(username, mailbox, uniqueId);
    var e, d := MessageCreated(username, mailbox, uniqueId, key, flags, true, meta), MailboxDeleted(username, parent);
    var s0 := IndexState(map[], map[], Registry.Step(Registry.EMPTY, Registry.Create(username, mailbox)).0);
    var s1 := HandleEvent(s0, e, id);
    assert key == MailboxPrefix(username, parent) + (child + "/" + uniqueId);
    assert s1.mapping == map[key := id] && id in s1.backend && s1.backend[id].metadata.mailbox == mailbox != parent;
    assert [(e, id), (d, other)][1..] == [(d, other)] && [(d, other)][1..] == [];
    assert RunEvents(s1, [(d, other)]) == HandleEvent(s1, d, other);
  }

  /** Creating a live key again orphans the older message, and no later index is consistent;
      for a registered mailbox the guard on creation is exact. */
  lemma CreationGuardIsExact(s: IndexState, a: Abstract, e: Event, newId: MessageId)
    requires Refines(s, a) && newId !in s.backend && e.MessageCreated?
    requires e.path == KeyString(e.username, e.mailbox, e.uniqueId)
    requires (e.username, e.mailbox) in s.registry.mailboxes
    ensures (exists a' :: Refines(HandleEvent(s, e, newId), a')) <==> e.path !in s.mapping
  {
    if e.path !in s.mapping {
      JoinedNames(s.mapping, s.backend, a, KeyOf);
      EventRefines(s, a, e, newId);
    } else {
      CreationOrphans(s, a, e, newId);
    }
  }

  lemma CreationOrphans(s: IndexState, a: Abstract, e: Event, newId: MessageId)
    requires Refines(s, a) && newId !in s.backend && e.MessageCreated?
    requires (e.username, e.mailbox) in s.registry.mailboxes && e.path in s.mapping
    ensures forall a' :: !Refines(HandleEvent(s, e, newId), a')
  {
    JoinedIds(s.mapping, s.backend, a, KeyOf);
    CreatedEffect(s, e, newId);
    OrphanBreaksRefinement(HandleEvent(s, e, newId), s.mapping[e.path]);
  }

  lemma CreatedEffect(s: IndexState, e: Event, newId: MessageId)
    requires e.MessageCreated? && (e.username, e.mailbox) in s.registry.mailboxes
    ensures HandleEvent(s, e, newId).mapping == s.mapping[e.path := newId]
    ensures HandleEvent(s, e, newId).backend.Keys == s.backend.Keys + {newId}
  {
  }

  // ----- Runs -----

  function AbstractRun(a: Abstract, s: IndexState, inputs: seq<(Event, MessageId)>): Abstract
    decreases |inputs|
  {
    if inputs == [] then a
    else AbstractRun(AbstractEvent(a, s.registry, inputs[0].0), HandleEvent(s, inputs[0].0, inputs[0].1), inputs[1..])
  }

  /** What reaches the index and its registry: deliveries to the listener, and the registry's own
      commands between them. */
  datatype Input = Deliver(event: Event, newId: MessageId) | Command(cmd: Registry.Command)

  function Step(s: IndexState, input: Input): IndexState {
    match input
    case Deliver(e, newId) => HandleEvent(s, e, newId)
    case Command(cmd) => s.(registry := Registry.Step(s.registry, cmd).0)
  }

  function Run(s: IndexState, inputs: seq<Input>): IndexState
    decreases |inputs|
  {
    if inputs == [] then s else Run(Step(s, inputs[0]), inputs[1..])
  }

  /** What an input means for the abstract index; the registry's commands mean nothing for it. */
  function AbstractStep(a: Abstract, registry: Registry.Registry, input: Input): Abstract {
    match input case Deliver(e, _) => AbstractEvent(a, registry, e) case Command(_) => a
  }

  function AbstractInputs(a: Abstract, s: IndexState, inputs: seq<Input>): Abstract
    decreases |inputs|
  {
    if inputs == [] then a else AbstractInputs(AbstractStep(a, s.registry, inputs[0]), Step(s, inputs[0]), inputs[1..])
  }

  /** Every event is unambiguous when it arrives, and every drawn id is new. */
  ghost predicate UnambiguousRun(a: Abstract, s: IndexState, inputs: seq<Input>)
    decreases |inputs|
  {
    inputs == [] ||
    ((inputs[0].Deliver? ==> Unambiguous(a, s.registry, inputs[0].event) && inputs[0].newId !in s.backend)
     && UnambiguousRun(AbstractStep(a, s.registry, inputs[0]), Step(s, inputs[0]), inputs[1..]))
  }

  lemma InputRefines(s: IndexState, a: Abstract, input: Input)
    requires Refines(s, a)
    requires input.Deliver? ==> Unambiguous(a, s.registry, input.event) && input.newId !in s.backend
    ensures Refines(Step(s, input), AbstractStep(a, s.registry, input))
  {
    if input.Deliver? {
      EventRefines(s, a, input.event, input.newId);
    }
  }

  /** Looking a message up through both concrete maps. */
  function Lookup(s: IndexState, m: Message): Option<Data> {
    if KeyOf(m) in s.mapping && s.mapping[KeyOf(m)] in s.backend
       && InMailbox(s.backend[s.mapping[KeyOf(m)]], m.username, m.mailbox)
    then
      var metadata := s.backend[s.mapping[KeyOf(m)]].metadata;
      Some(Data(metadata.uid, metadata.flags, metadata.meta))
    else None
  }

  /** The index refines a simple map over every run of events, mailboxes coming and going in
      between: lookups agree with it, the mapping stays injective, and its values are exactly the
      backend's ids. */
  lemma {:induction false} IndexRefinesMap(s: IndexState, a: Abstract, inputs: seq<Input>)
    requires Refines(s, a) && UnambiguousRun(a, s, inputs)
    ensures var s', a' := Run(s, inputs), AbstractInputs(a, s, inputs);
      && Refines(s', a')
      && (forall m :: m in a' ==> Lookup(s', m) == Some(a'[m]))
      && (forall m :: m !in a' ==> Lookup(s', m) == None)
      && (forall k, l :: k in s'.mapping && l in s'.mapping && s'.mapping[k] == s'.mapping[l] ==> k == l)
      && s'.mapping.Values == s'.backend.Keys
    decreases |inputs|
  {
    if inputs == [] {
      RefinementObservations(s, a);
    } else {
      InputRefines(s, a, inputs[0]);
      IndexRefinesMap(Step(s, inputs[0]), AbstractStep(a, s.registry, inputs[0]), inputs[1..]);
    }
  }

  lemma RefinementObservations(s: IndexState, a: Abstract)
    requires Refines(s, a)
    ensures forall m :: m in a ==> Lookup(s, m) == Some(a[m])
    ensures forall m :: m !in a ==> Lookup(s, m) == None
    ensures forall k, l :: k in s.mapping && l in s.mapping && s.mapping[k] == s.mapping[l] ==> k == l
    ensures s.mapping.Values == s.backend.Keys
  {
    JoinedIds(s.mapping, s.backend, a, KeyOf);
    JoinedNames(s.mapping, s.backend, a, KeyOf);
    forall m | m !in a && KeyOf(m) in s.mapping
      ensures !InMailbox(s.backend[s.mapping[KeyOf(m)]], m.username, m.mailbox)
    {
      var n :| n in a && KeyOf(n) == KeyOf(m);
      SameMailboxKeys(m, n);
    }
  }

  /** Two maps stored in the same index hold the same messages. */
  lemma JoinedIncludes(s: IndexState, a: Abstract, b: Abstract)
    requires Refines(s, a) && Refines(s, b)
    ensures forall m :: m in a ==> m in b && b[m] == a[m]
  {
    JoinedNames(s.mapping, s.backend, a, KeyOf);
    JoinedNames(s.mapping, s.backend, b, KeyOf);
    forall m | m in a
      ensures m in b && b[m] == a[m]
    {
      var n :| n in b && KeyOf(n) == KeyOf(m);
      assert Shows(s.backend[s.mapping[KeyOf(m)]], m, a[m]) && Shows(s.backend[s.mapping[KeyOf(n)]], n, b[n]);
      SameMailboxKeys(m, n);
    }
  }

  /** The index determines the map it stores. */
  lemma RefinesDetermines(s: IndexState, a: Abstract, b: Abstract)
    requires Refines(s, a) && Refines(s, b)
    ensures a == b
  {
    JoinedIncludes(s, a, b);
    JoinedIncludes(s, b, a);
  }

  lemma SameMailboxKeys(m: Message, n: Message)
    requires KeyOf(m) == KeyOf(n)
    ensures m.username == n.username && m.mailbox == n.mailbox ==> m == n
  {
    var prefix := MailboxPrefix(m.username, m.mailbox);
    assert KeyOf(m) == prefix + m.uniqueId && KeyOf(m)[|prefix|..] == m.uniqueId;
    if m.username == n.username && m.mailbox == n.mailbox {
      assert KeyOf(n) == prefix + n.uniqueId;
    }
  }

  // ----- What a caller can check -----

  /** The components of a parsed path are free of the delimiter. */
  predicate SlashFreeEvent(e: Event) {
    match e
    case MessageCreated(username, mailbox, uniqueId, path, _, _, _) =>
      SlashFree(username) && SlashFree(mailbox) && path == KeyString(username, mailbox, uniqueId)
    case MessageModified(username, mailbox, _, _) => SlashFree(username) && SlashFree(mailbox)
    case MessageDeleted(username, mailbox, _) => SlashFree(username) && SlashFree(mailbox)
    case MailboxDeleted(username, mailbox) => SlashFree(username) && SlashFree(mailbox)
    case _ => true
  }

  predicate SlashFreeIndex(a: Abstract) {
    forall m :: m in a ==> SlashFree(m.username) && SlashFree(m.mailbox)
  }

  /** Slash-free names and a new unique id are enough for an event to be unambiguous. */
  lemma SlashFreeIsUnambiguous(a: Abstract, registry: Registry.Registry, e: Event)
    requires SlashFreeIndex(a) && SlashFreeEvent(e)
    requires e.MessageCreated? && (e.username, e.mailbox) in registry.mailboxes ==>
               Message(e.username, e.mailbox, e.uniqueId) !in a
    ensures Unambiguous(a, registry, e)
    ensures SlashFreeIndex(AbstractEvent(a, registry, e))
  {
    forall m | m in a
      ensures !e.MailboxCreated? && !e.MailboxRenamed? && !e.MailboxDeleted? ==>
              (KeyOf(m) == KeyString(e.username, e.mailbox, e.uniqueId) ==>
                 m == Message(e.username, e.mailbox, e.uniqueId))
      ensures e.MailboxDeleted? ==>
              (MailboxPrefix(e.username, e.mailbox) <= KeyOf(m) <==> m.username == e.username && m.mailbox == e.mailbox)
    {
      match e
      case MailboxDeleted(username, mailbox) => PrefixIsMailbox(m, username, mailbox);
      case MailboxCreated(_, _) =>
      case MailboxRenamed(_, _, _) =>
      case _ =>
        var n := Message(e.username, e.mailbox, e.uniqueId);
        if KeyOf(m) == KeyOf(n) {
          KeysInjective(m, n);
        }
    }
  }

  /** A delivery with slash-free names that creates no live key, its drawn id being new. */
  predicate Plain(s: IndexState, e: Event, newId: MessageId) {
    SlashFreeEvent(e) && newId !in s.backend
    && (e.MessageCreated? && (e.username, e.mailbox) in s.registry.mailboxes ==> e.path !in s.mapping)
  }

  predicate PlainRun(s: IndexState, inputs: seq<Input>)
    decreases |inputs|
  {
    inputs == [] ||
    ((inputs[0].Deliver? ==> Plain(s, inputs[0].event, inputs[0].newId)) && PlainRun(Step(s, inputs[0]), inputs[1..]))
  }

  /** From an empty index over any registry, fresh keys and slash-free names are all that the
      refinement of `IndexRefinesMap` needs. */
  lemma PlainRunsRefine(registry: Registry.Registry, inputs: seq<Input>)
    requires PlainRun(IndexState(map[], map[], registry), inputs)
    ensures Refines(IndexState(map[], map[], registry), map[])
    ensures UnambiguousRun(map[], IndexState(map[], map[], registry), inputs)
  {
    assert JoinedBy(map[], map[], map[], KeyOf, map[], map[]);
    PlainRunsAreUnambiguous(IndexState(map[], map[], registry), map[], inputs);
  }

  lemma PlainIsUnambiguous(s: IndexState, a: Abstract, e: Event, newId: MessageId)
    requires Refines(s, a) && SlashFreeIndex(a) && Plain(s, e, newId)
    ensures Unambiguous(a, s.registry, e) && SlashFreeIndex(AbstractEvent(a, s.registry, e))
  {
    JoinedNames(s.mapping, s.backend, a, KeyOf);
    if e.MessageCreated? && (e.username, e.mailbox) in s.registry.mailboxes {
      assert KeyOf(Message(e.username, e.mailbox, e.uniqueId)) == e.path;
    }
    SlashFreeIsUnambiguous(a, s.registry, e);
  }

  lemma {:induction false} PlainRunsAreUnambiguous(s: IndexState, a: Abstract, inputs: seq<Input>)
    requires Refines(s, a) && SlashFreeIndex(a) && PlainRun(s, inputs)
    ensures UnambiguousRun(a, s, inputs)
    decreases |inputs|
  {
    if inputs != [] {
      if inputs[0].Deliver? {
        PlainIsUnambiguous(s, a, inputs[0].event, inputs[0].newId);
      }
      InputRefines(s, a, inputs[0]);
      PlainRunsAreUnambiguous(Step(s, inputs[0]), AbstractStep(a, s.registry, inputs[0]), inputs[1..]);
    }
  }

  /** A live key created again happens: two deliveries of one message leave the first one's entry
      with nothing pointing to it, whatever the map is said to be. */
  lemma LiveKeyIsCreatedAgain(registry: Registry.Registry, e: Event, id: MessageId, other: MessageId)
    requires e.MessageCreated? && e.path == KeyString(e.username, e.mailbox, e.uniqueId)
    requires (e.username, e.mailbox) in registry.mailboxes && id != other
    ensures forall a :: !Refines(Run(IndexState(map[], map[], registry), [Deliver(e, id), Deliver(e, other)]), a)
  {
    var s0 := IndexState(map[], map[], registry);
    var s1 := HandleEvent(s0, e, id);
    CreatedEffect(s0, e, id);
    CreatedEffect(s1, e, other);
    assert [Deliver(e, id), Deliver(e, other)][1..] == [Deliver(e, other)] && [Deliver(e, other)][1..] == [];
    assert Run(s1, [Deliver(e, other)]) == HandleEvent(s1, e, other);
    OrphanBreaksRefinement(HandleEvent(s1, e, other), id);
  }

  lemma StepKeepsRooted(s: IndexState, input: Input)
    requires Rooted(s.backend)
    ensures Rooted(Step(s, input).backend)
  {
    match input
    case Command(_) =>
    case Deliver(e, newId) =>
      match e
      case MessageCreated(username, mailbox, _, _, flags, _, meta) =>
        var reply := Registry.Step(s.registry, Registry.GetNextUid(username, mailbox)).1;
        if reply.GotUid? {
          AddKeepsRooted(s.backend, username, IndexedMessage(newId, reply.uid, mailbox, flags, meta));
        }
      case _ =>
  }

  /** Whatever events and registry commands come, every entry's path lies in the directory that the
      registry gives the entry's own mailbox. */
  lemma {:induction false} PathsLieInTheirMailbox(s: IndexState, inputs: seq<Input>)
    requires Rooted(s.backend)
    ensures Rooted(Run(s, inputs).backend)
    decreases |inputs|
  {
    if inputs != [] {
      StepKeepsRooted(s, inputs[0]);
      PathsLieInTheirMailbox(Step(s, inputs[0]), inputs[1..]);
    }
  }
}
