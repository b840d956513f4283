/** The in-memory index backend (src/index/impl/inmemory.rs): entries by message id, lookup
    by UID, and search. */
module IndexBackend {
  import opened Text
  import opened Collections
  import opened Maildir
  import opened Events
  import opened Registry

  /** A message id and its text form. */
  datatype MessageId = MessageId(text: string)

  /** The text of a hyphenated UUID has 36 characters. */
  predicate IsUuid(id: MessageId) {
    |id.text| == 36
  }

  datatype IndexedMessage =
    IndexedMessage(id: MessageId, uid: U32, mailbox: string, flags: seq<MessageFlag>, meta: Meta)

  datatype Entry = Entry(metadata: IndexedMessage, path: string, username: string)

  type Messages = map<MessageId, Entry>

  function MessagePath(username: string, mailbox: string, id: MessageId): string {
    username + "/" + mailbox + "/" + id.text + ".eml"
  }

  datatype BackendReply = Changed | NotFound

  // ----- Operations -----

  function Add(b: Messages, username: string, mailbox: string, message: IndexedMessage): Messages {
    b[message.id := Entry(message, MessagePath(username, mailbox, message.id), username)]
  }

  function SetFlags(b: Messages, id: MessageId, flags: seq<MessageFlag>): Messages {
    if id in b then b[id := b[id].(metadata := b[id].metadata.(flags := flags))] else b
  }

  predicate InMailbox(entry: Entry, username: string, mailbox: string) {
    entry.username == username && entry.metadata.mailbox == mailbox
  }

  function DropMailbox(b: Messages, username: string, mailbox: string): Messages {
    map id | id in b && !InMailbox(b[id], username, mailbox) :: b[id]
  }

  class InMemoryBackend {
    var messages: Messages

    constructor ()
      ensures messages == map[]
    {
      messages := map[];
    }

    method AddMessage(username: string, mailbox: string, message: IndexedMessage) returns (path: string)
      modifies this
      ensures messages == Add(old(messages), username, mailbox, message)
      ensures path == MessagePath(username, mailbox, message.id)
    {
      path := MessagePath(username, mailbox, message.id);
      messages := messages[message.id := Entry(message, path, username)];
    }

    method UpdateFlags(id: MessageId, flags: seq<MessageFlag>) returns (reply: BackendReply)
      modifies this
      ensures messages == SetFlags(old(messages), id, flags)
      ensures reply == if id in old(messages) then Changed else NotFound
    {
      if id !in messages { return NotFound; }
      var entry := messages[id];
      messages := messages[id := entry.(metadata := entry.metadata.(flags := flags))];
      reply := Changed;
    }

    method DeleteMessage(id: MessageId) returns (reply: BackendReply)
      modifies this
      ensures messages == old(messages) - {id}
      ensures reply == if id in old(messages) then Changed else NotFound
    {
      reply := if id in messages then Changed else NotFound;
      messages := messages - {id};
    }

    method RemoveMessagesForMailbox(username: string, mailbox: string)
      modifies this
      ensures messages == DropMailbox(old(messages), username, mailbox)
    {
      messages := map id | id in messages && !InMailbox(messages[id], username, mailbox) :: messages[id];
    }

    /** The first entry with the UID, in whatever order the hash map yields its values. */
    method GetMessagePathByUid(username: string, mailbox: string, uid: U32, order: seq<MessageId>)
      returns (path: Option<string>)
      requires Enumerates(order, messages.Keys)
      ensures path == FirstWithUid(messages, order, username, mailbox, uid)
    {
      assert order[0..] == order;
      for i := 0 to |order|
        invariant FirstWithUid(messages, order, username, mailbox, uid)
               == FirstWithUid(messages, order[i..], username, mailbox, uid)
      {
        assert order[i..][0] == order[i] && order[i..][1..] == order[i + 1..];
        assert order[i] in order;
        var entry := messages[order[i]];
        if InMailbox(entry, username, mailbox) && entry.metadata.uid == uid {
          return Some(entry.path);
        }
      }
      assert order[|order|..] == [];
      path := None;
    }
  }

  /** Paths tell messages apart: a path ends with its message's id. */
  predicate PathsByIds(b: Messages) {
    forall id :: id in b ==> IsUuid(id) && b[id].metadata.id == id && EndsWith(b[id].path, id.text + ".eml")
  }

  lemma PathsDistinct(b: Messages, i: MessageId, j: MessageId)
    requires PathsByIds(b) && i in b && j in b && b[i].path == b[j].path
    ensures i == j
  {
    var path := b[i].path;
    assert |i.text + ".eml"| == 40 == |j.text + ".eml"|;
    assert path[|path| - 40..] == i.text + ".eml" == j.text + ".eml";
    assert (i.text + ".eml")[..36] == i.text && (j.text + ".eml")[..36] == j.text;
  }

  /** Every backend operation keeps entries under their own id and path, even an add whose
      message names another mailbox than the one it is filed under. */
  lemma OperationsKeepPaths(b: Messages, username: string, mailbox: string, message: IndexedMessage,
                            id: MessageId, flags: seq<MessageFlag>)
    requires PathsByIds(b) && IsUuid(message.id)
    ensures PathsByIds(Add(b, username, mailbox, message))
    ensures PathsByIds(SetFlags(b, id, flags))
    ensures PathsByIds(b - {id})
    ensures PathsByIds(DropMailbox(b, username, mailbox))
  {
    var path := MessagePath(username, mailbox, message.id);
    assert path == username + "/" + mailbox + "/" + (message.id.text + ".eml");
    assert path[|path| - 40..] == message.id.text + ".eml";
  }

  // ----- Iteration order -----

  function FirstWithUid(b: Messages, order: seq<MessageId>, username: string, mailbox: string, uid: U32): Option<string>
    requires forall id :: id in order ==> id in b
    decreases |order|
  {
    if order == [] then None
    else
      assert order[0] in order && forall id :: id in order[1..] ==> id in order;
      var entry := b[order[0]];
      if InMailbox(entry, username, mailbox) && entry.metadata.uid == uid then Some(entry.path)
      else FirstWithUid(b, order[1..], username, mailbox, uid)
  }

  predicate HasUid(entry: Entry, username: string, mailbox: string, uid: U32) {
    InMailbox(entry, username, mailbox) && entry.metadata.uid == uid
  }

  lemma {:induction false} FirstWithUidFinds(b: Messages, order: seq<MessageId>, username: string, mailbox: string,
                                             uid: U32)
    requires forall id :: id in order ==> id in b
    ensures var found := FirstWithUid(b, order, username, mailbox, uid);
      match found
      case None => forall id :: id in order ==> !HasUid(b[id], username, mailbox, uid)
      case Some(path) => exists id :: id in order && HasUid(b[id], username, mailbox, uid) && b[id].path == path
    decreases |order|
  {
    if order != [] {
      assert order == [order[0]] + order[1..];
      assert order[0] in order && forall id :: id in order[1..] ==> id in order;
      FirstWithUidFinds(b, order[1..], username, mailbox, uid);
    }
  }

  /** No two messages of one mailbox share a UID. */
  predicate UidsDistinct(b: Messages) {
    forall i, j :: i in b && j in b && b[i].username == b[j].username
                   && b[i].metadata.mailbox == b[j].metadata.mailbox && b[i].metadata.uid == b[j].metadata.uid
                   ==> i == j
  }

  /** An enumeration of the ids that starts with a chosen one. */
  lemma {:induction false} OrderStartingWith(b: Messages, ids: set<MessageId>,
                                             first: MessageId) returns (order: seq<MessageId>)
    requires ids <= b.Keys && first in ids
    ensures order != [] && order[0] == first
    ensures forall id :: id in order <==> id in ids
    ensures Distinct(order)
    decreases |ids|
  {
    var rest := ids - {first};
    if rest == {} {
      assert forall id :: id in ids ==> id == first;
      order := [first];
    } else {
      var next :| next in rest;
      var tail := OrderStartingWith(b, rest, next);
      order := [first] + tail;
      forall i, j | 0 <= i < j < |order|
        ensures order[i] != order[j]
      {
        if i == 0 {
          assert order[j] == tail[j - 1] && tail[j - 1] in tail;
        }
      }
    }
  }

  /** Lookup by UID gives the same answer in every iteration order of the hash map if and
      only if no two messages of one mailbox share a UID. */
  lemma LookupByUidIsDetermined(b: Messages)
    requires PathsByIds(b)
    ensures (forall o1, o2, username, mailbox, uid: U32 :: Enumerates(o1, b.Keys) && Enumerates(o2, b.Keys) ==>
               FirstWithUid(b, o1, username, mailbox, uid) == FirstWithUid(b, o2, username, mailbox, uid))
       <==> UidsDistinct(b)
  {
    if UidsDistinct(b) {
      forall o1, o2, username, mailbox, uid: U32 | Enumerates(o1, b.Keys) && Enumerates(o2, b.Keys)
        ensures FirstWithUid(b, o1, username, mailbox, uid) == FirstWithUid(b, o2, username, mailbox, uid)
      {
        FirstWithUidFinds(b, o1, username, mailbox, uid);
        FirstWithUidFinds(b, o2, username, mailbox, uid);
      }
    } else {
      var i, j :| i in b && j in b && b[i].username == b[j].username
                  && b[i].metadata.mailbox == b[j].metadata.mailbox && b[i].metadata.uid == b[j].metadata.uid && i != j;
      var o1 := OrderStartingWith(b, b.Keys, i);
      var o2 := OrderStartingWith(b, b.Keys, j);
      var username, mailbox, uid := b[i].username, b[i].metadata.mailbox, b[i].metadata.uid;
      assert Enumerates(o1, b.Keys) && Enumerates(o2, b.Keys);
      assert FirstWithUid(b, o1, username, mailbox, uid) == Some(b[i].path);
      assert FirstWithUid(b, o2, username, mailbox, uid) == Some(b[j].path);
      if b[i].path == b[j].path {
        PathsDistinct(b, i, j);
      }
    }
  }

  // ----- Search -----

  datatype SearchQuery =
    | All
    | Text(text: string) | From(text: string) | To(text: string) | Subject(text: string) | Body(text: string)
    | Uid(uids: seq<U32>)
    | Sequence(numbers: seq<U32>)
    | IsSeen | Unseen | IsFlagged | Unflagged | IsDeleted | Undeleted
    | And(left: SearchQuery, right: SearchQuery)
    | Or(left: SearchQuery, right: SearchQuery)
    | Not(query: SearchQuery)

  predicate MatchesQuery(m: IndexedMessage, query: SearchQuery) {
    match query
    case All => true
    case From(s) => Contains(m.meta.from, s)
    case To(s) => Contains(m.meta.to, s)
    case Subject(s) => Contains(m.meta.subject, s)
    case Body(s) => Contains(m.meta.bodyPreview, s)
    case Text(s) =>
      Contains(m.meta.from, s) || Contains(m.meta.to, s)
      || Contains(m.meta.subject, s) || Contains(m.meta.bodyPreview, s)
    case Uid(uids) => m.uid in uids
    case Sequence(_) => false
    case IsSeen => Seen in m.flags
    case Unseen => Seen !in m.flags
    case IsFlagged => Flagged in m.flags
    case Unflagged => Flagged !in m.flags
    case IsDeleted => Deleted in m.flags
    case Undeleted => Deleted !in m.flags
    case And(q1, q2) => MatchesQuery(m, q1) && MatchesQuery(m, q2)
    case Or(q1, q2) => MatchesQuery(m, q1) || MatchesQuery(m, q2)
    case Not(q) => !MatchesQuery(m, q)
  }

  predicate Selected(entry: Entry, username: string, mailbox: string, query: SearchQuery) {
    InMailbox(entry, username, mailbox) && MatchesQuery(entry.metadata, query)
  }

  /** `search`, over the entries in iteration order. */
  function Search(b: Messages, order: seq<MessageId>, username: string, mailbox: string,
                  query: SearchQuery): seq<string>
    requires forall id :: id in order ==> id in b
    decreases |order|
  {
    if order == [] then []
    else
      assert order[0] in order && forall id :: id in order[1..] ==> id in order;
      (if Selected(b[order[0]], username, mailbox, query) then [b[order[0]].path] else [])
      + Search(b, order[1..], username, mailbox, query)
  }

  /** `list_message_paths`. */
  function ListMessagePaths(b: Messages, order: seq<MessageId>, username: string, mailbox: string): seq<string>
    requires forall id :: id in order ==> id in b
    decreases |order|
  {
    if order == [] then []
    else
      assert order[0] in order && forall id :: id in order[1..] ==> id in order;
      (if InMailbox(b[order[0]], username, mailbox) then [b[order[0]].path] else [])
      + ListMessagePaths(b, order[1..], username, mailbox)
  }

  /** The selected entry with a given path, among some ids. */
  ghost predicate SelectedPath(b: Messages, ids: seq<MessageId>, username: string, mailbox: string, query: SearchQuery,
                               path: string)
    requires forall id :: id in ids ==> id in b
  {
    exists id :: id in ids && Selected(b[id], username, mailbox, query) && b[id].path == path
  }

  lemma {:induction false} SearchFindsPath(b: Messages, order: seq<MessageId>, username: string, mailbox: string,
                                           query: SearchQuery, path: string)
    requires forall id :: id in order ==> id in b
    ensures path in Search(b, order, username, mailbox, query)
       <==> SelectedPath(b, order, username, mailbox, query, path)
    decreases |order|
  {
    if order != [] {
      var id, rest := order[0], order[1..];
      assert order == [id] + rest && id in order && forall i :: i in rest ==> i in order;
      SearchFindsPath(b, rest, username, mailbox, query, path);
    }
  }

  /** A path found among some ids is not that of another entry. */
  lemma FoundElsewhere(b: Messages, rest: seq<MessageId>, username: string, mailbox: string, query: SearchQuery,
                       id: MessageId)
    requires PathsByIds(b) && id in b && id !in rest && forall i :: i in rest ==> i in b
    ensures b[id].path !in Search(b, rest, username, mailbox, query)
  {
    SearchFindsPath(b, rest, username, mailbox, query, b[id].path);
    if SelectedPath(b, rest, username, mailbox, query, b[id].path) {
      var other :| other in rest && Selected(b[other], username, mailbox, query) && b[other].path == b[id].path;
      PathsDistinct(b, id, other);
    }
  }

  lemma {:induction false} SearchHasNoDuplicates(b: Messages, order: seq<MessageId>, username: string, mailbox: string,
                                                 query: SearchQuery)
    requires PathsByIds(b)
    requires forall id :: id in order ==> id in b
    requires Distinct(order)
    ensures Distinct(Search(b, order, username, mailbox, query))
    decreases |order|
  {
    if order != [] {
      var id, rest := order[0], order[1..];
      assert id in order && forall i :: i in rest ==> i in order;
      SearchHasNoDuplicates(b, rest, username, mailbox, query);
      FoundElsewhere(b, rest, username, mailbox, query, id);
    }
  }

  /** A search returns the paths of exactly the selected entries, none twice. */
  lemma SearchFinds(b: Messages, order: seq<MessageId>, username: string, mailbox: string, query: SearchQuery)
    requires PathsByIds(b)
    requires forall id :: id in order ==> id in b
    requires Distinct(order)
    ensures forall path :: path in Search(b, order, username, mailbox, query)
              <==> SelectedPath(b, order, username, mailbox, query, path)
    ensures Distinct(Search(b, order, username, mailbox, query))
  {
    forall path
      ensures path in Search(b, order, username, mailbox, query)
         <==> SelectedPath(b, order, username, mailbox, query, path)
    {
      SearchFindsPath(b, order, username, mailbox, query, path);
    }
    SearchHasNoDuplicates(b, order, username, mailbox, query);
  }

  lemma {:induction false} ListIsSearchAll(b: Messages, order: seq<MessageId>, username: string, mailbox: string)
    requires forall id :: id in order ==> id in b
    ensures ListMessagePaths(b, order, username, mailbox) == Search(b, order, username, mailbox, All)
    decreases |order|
  {
    if order != [] {
      assert order[0] in order && forall id :: id in order[1..] ==> id in order;
      ListIsSearchAll(b, order[1..], username, mailbox);
    }
  }

  /** The set of paths a search returns. */
  function Found(b: Messages, order: seq<MessageId>, username: string, mailbox: string, query: SearchQuery): set<string>
    requires forall id :: id in order ==> id in b
  {
    set path | path in Search(b, order, username, mailbox, query)
  }

  /** The entry with a given path; there is at most one. */
  ghost function EntryAt(b: Messages, path: string): Option<Entry> {
    if exists id :: id in b && b[id].path == path then
      var id :| id in b && b[id].path == path;
      Some(b[id])
    else None
  }

  /** The entry at a path, whichever of those with the path is picked: there is only one. */
  lemma EntryAtIs(b: Messages, id: MessageId)
    requires PathsByIds(b) && id in b
    ensures EntryAt(b, b[id].path) == Some(b[id])
  {
    var path := b[id].path;
    var other :| other in b && b[other].path == path && EntryAt(b, path) == Some(b[other]);
    PathsDistinct(b, id, other);
  }

  /** A path is found by a query exactly when it names an entry the query selects. */
  lemma FoundIffSelected(b: Messages, order: seq<MessageId>, username: string, mailbox: string, query: SearchQuery,
                         path: string)
    requires PathsByIds(b) && Enumerates(order, b.Keys)
    ensures path in Found(b, order, username, mailbox, query)
       <==> EntryAt(b, path).Some? && Selected(EntryAt(b, path).value, username, mailbox, query)
  {
    SearchFindsPath(b, order, username, mailbox, query, path);
    forall id | id in b && b[id].path == path
      ensures EntryAt(b, path) == Some(b[id])
    {
      EntryAtIs(b, id);
    }
  }

  lemma SearchAnd(b: Messages, order: seq<MessageId>, username: string, mailbox: string, q1: SearchQuery,
                  q2: SearchQuery)
    requires PathsByIds(b) && Enumerates(order, b.Keys)
    ensures Found(b, order, username, mailbox, And(q1, q2))
         == Found(b, order, username, mailbox, q1) * Found(b, order, username, mailbox, q2)
  {
    forall path
      ensures path in Found(b, order, username, mailbox, And(q1, q2))
         <==> path in Found(b, order, username, mailbox, q1) * Found(b, order, username, mailbox, q2)
    {
      FoundIffSelected(b, order, username, mailbox, q1, path);
      FoundIffSelected(b, order, username, mailbox, q2, path);
      FoundIffSelected(b, order, username, mailbox, And(q1, q2), path);
    }
  }

  lemma SearchOr(b: Messages, order: seq<MessageId>, username: string, mailbox: string, q1: SearchQuery,
                 q2: SearchQuery)
    requires PathsByIds(b) && Enumerates(order, b.Keys)
    ensures Found(b, order, username, mailbox, Or(q1, q2))
         == Found(b, order, username, mailbox, q1) + Found(b, order, username, mailbox, q2)
  {
    forall path
      ensures path in Found(b, order, username, mailbox, Or(q1, q2))
         <==> path in Found(b, order, username, mailbox, q1) + Found(b, order, username, mailbox, q2)
    {
      FoundIffSelected(b, order, username, mailbox, q1, path);
      FoundIffSelected(b, order, username, mailbox, q2, path);
      FoundIffSelected(b, order, username, mailbox, Or(q1, q2), path);
    }
  }

  lemma SearchNot(b: Messages, order: seq<MessageId>, username: string, mailbox: string, q1: SearchQuery)
    requires PathsByIds(b) && Enumerates(order, b.Keys)
    ensures Found(b, order, username, mailbox, Not(q1))
         == Found(b, order, username, mailbox, All) - Found(b, order, username, mailbox, q1)
  {
    forall path
      ensures path in Found(b, order, username, mailbox, Not(q1))
         <==> path in Found(b, order, username, mailbox, All) - Found(b, order, username, mailbox, q1)
    {
      FoundIffSelected(b, order, username, mailbox, q1, path);
      FoundIffSelected(b, order, username, mailbox, All, path);
      FoundIffSelected(b, order, username, mailbox, Not(q1), path);
    }
  }

  /** Search is a set algebra over the listed messages: And, Or and Not are intersection,
      union and complement within the mailbox. */
  lemma SearchAlgebra(b: Messages, order: seq<MessageId>, username: string, mailbox: string, q1: SearchQuery,
                      q2: SearchQuery)
    requires PathsByIds(b) && Enumerates(order, b.Keys)
    ensures Found(b, order, username, mailbox, And(q1, q2))
         == Found(b, order, username, mailbox, q1) * Found(b, order, username, mailbox, q2)
    ensures Found(b, order, username, mailbox, Or(q1, q2))
         == Found(b, order, username, mailbox, q1) + Found(b, order, username, mailbox, q2)
    ensures Found(b, order, username, mailbox, Not(q1))
         == (set path | path in ListMessagePaths(b, order, username, mailbox)) - Found(b, order, username, mailbox, q1)
  {
    SearchAnd(b, order, username, mailbox, q1, q2);
    SearchOr(b, order, username, mailbox, q1, q2);
    SearchNot(b, order, username, mailbox, q1);
    ListIsSearchAll(b, order, username, mailbox);
  }

  /** The negative flag queries are the complements of the positive ones. */
  lemma NegativeFlagQueries(b: Messages, order: seq<MessageId>, username: string, mailbox: string)
    requires PathsByIds(b) && Enumerates(order, b.Keys)
    ensures Found(b, order, username, mailbox, Unseen) == Found(b, order, username, mailbox, Not(IsSeen))
    ensures Found(b, order, username, mailbox, Unflagged) == Found(b, order, username, mailbox, Not(IsFlagged))
    ensures Found(b, order, username, mailbox, Undeleted) == Found(b, order, username, mailbox, Not(IsDeleted))
  {
    SameMatches(b, order, username, mailbox, Unseen, Not(IsSeen));
    SameMatches(b, order, username, mailbox, Unflagged, Not(IsFlagged));
    SameMatches(b, order, username, mailbox, Undeleted, Not(IsDeleted));
  }

  lemma SameMatches(b: Messages, order: seq<MessageId>, username: string, mailbox: string, p: SearchQuery,
                    q: SearchQuery)
    requires PathsByIds(b) && Enumerates(order, b.Keys)
    requires forall m :: MatchesQuery(m, p) <==> MatchesQuery(m, q)
    ensures Found(b, order, username, mailbox, p) == Found(b, order, username, mailbox, q)
  {
    forall path
      ensures path in Found(b, order, username, mailbox, p) <==> path in Found(b, order, username, mailbox, q)
    {
      FoundIffSelected(b, order, username, mailbox, p, path);
      FoundIffSelected(b, order, username, mailbox, q, path);
    }
  }

  // ----- What each query finds, told from the entries' own fields -----

  /** The path is that of an entry of the mailbox that passes the test. */
  ghost predicate IsPathOf(b: Messages, username: string, mailbox: string, test: Entry -> bool, path: string) {
    exists id :: id in b && b[id].username == username && b[id].metadata.mailbox == mailbox && test(b[id])
                 && b[id].path == path
  }

  /** The query finds exactly the paths of the mailbox's entries that pass the test. */
  ghost predicate Finds(b: Messages, order: seq<MessageId>, username: string, mailbox: string, query: SearchQuery,
                        test: Entry -> bool)
    requires forall id :: id in order ==> id in b
  {
    forall path :: path in Search(b, order, username, mailbox, query) <==> IsPathOf(b, username, mailbox, test, path)
  }

  lemma TestFinds(b: Messages, order: seq<MessageId>, username: string, mailbox: string, query: SearchQuery,
                  test: Entry -> bool)
    requires Enumerates(order, b.Keys)
    requires forall e: Entry :: MatchesQuery(e.metadata, query) <==> test(e)
    ensures Finds(b, order, username, mailbox, query, test)
  {
    forall path
      ensures path in Search(b, order, username, mailbox, query) <==> IsPathOf(b, username, mailbox, test, path)
    {
      SearchFindsPath(b, order, username, mailbox, query, path);
    }
  }

  /** The header queries look in the header they name, TEXT in all four. */
  lemma HeaderQueries(b: Messages, order: seq<MessageId>, username: string, mailbox: string, s: string)
    requires Enumerates(order, b.Keys)
    ensures Finds(b, order, username, mailbox, From(s), (e: Entry) => Contains(e.metadata.meta.from, s))
    ensures Finds(b, order, username, mailbox, To(s), (e: Entry) => Contains(e.metadata.meta.to, s))
    ensures Finds(b, order, username, mailbox, Subject(s), (e: Entry) => Contains(e.metadata.meta.subject, s))
    ensures Finds(b, order, username, mailbox, Body(s), (e: Entry) => Contains(e.metadata.meta.bodyPreview, s))
    ensures Found(b, order, username, mailbox, Text(s))
         == Found(b, order, username, mailbox, From(s)) + Found(b, order, username, mailbox, To(s))
            + Found(b, order, username, mailbox, Subject(s)) + Found(b, order, username, mailbox, Body(s))
  {
    TestFinds(b, order, username, mailbox, From(s), (e: Entry) => Contains(e.metadata.meta.from, s));
    TestFinds(b, order, username, mailbox, To(s), (e: Entry) => Contains(e.metadata.meta.to, s));
    TestFinds(b, order, username, mailbox, Subject(s), (e: Entry) => Contains(e.metadata.meta.subject, s));
    TestFinds(b, order, username, mailbox, Body(s), (e: Entry) => Contains(e.metadata.meta.bodyPreview, s));
    TextQuery(b, order, username, mailbox, s);
  }

  lemma TextQuery(b: Messages, order: seq<MessageId>, username: string, mailbox: string, s: string)
    requires Enumerates(order, b.Keys)
    ensures Found(b, order, username, mailbox, Text(s))
         == Found(b, order, username, mailbox, From(s)) + Found(b, order, username, mailbox, To(s))
            + Found(b, order, username, mailbox, Subject(s)) + Found(b, order, username, mailbox, Body(s))
  {
    forall path
      ensures path in Found(b, order, username, mailbox, Text(s))
         <==> path in Found(b, order, username, mailbox, From(s)) || path in Found(b, order, username, mailbox, To(s))
              || path in Found(b, order, username, mailbox, Subject(s))
              || path in Found(b, order, username, mailbox, Body(s))
    {
      SearchFindsPath(b, order, username, mailbox, Text(s), path);
      SearchFindsPath(b, order, username, mailbox, From(s), path);
      SearchFindsPath(b, order, username, mailbox, To(s), path);
      SearchFindsPath(b, order, username, mailbox, Subject(s), path);
      SearchFindsPath(b, order, username, mailbox, Body(s), path);
    }
  }

  /** ALL finds the whole mailbox, a flag query the entries with the flag, and a query by sequence
      numbers nothing. */
  lemma FlagQueries(b: Messages, order: seq<MessageId>, username: string, mailbox: string, numbers: seq<U32>)
    requires Enumerates(order, b.Keys)
    ensures Finds(b, order, username, mailbox, All, (e: Entry) => true)
    ensures Finds(b, order, username, mailbox, IsSeen, (e: Entry) => Seen in e.metadata.flags)
    ensures Finds(b, order, username, mailbox, IsFlagged, (e: Entry) => Flagged in e.metadata.flags)
    ensures Finds(b, order, username, mailbox, IsDeleted, (e: Entry) => Deleted in e.metadata.flags)
    ensures Search(b, order, username, mailbox, Sequence(numbers)) == []
  {
    TestFinds(b, order, username, mailbox, All, (e: Entry) => true);
    TestFinds(b, order, username, mailbox, IsSeen, (e: Entry) => Seen in e.metadata.flags);
    TestFinds(b, order, username, mailbox, IsFlagged, (e: Entry) => Flagged in e.metadata.flags);
    TestFinds(b, order, username, mailbox, IsDeleted, (e: Entry) => Deleted in e.metadata.flags);
    SequenceFindsNothing(b, order, username, mailbox, numbers);
  }

  lemma {:induction false} SequenceFindsNothing(b: Messages, order: seq<MessageId>, username: string, mailbox: string,
                                                numbers: seq<U32>)
    requires forall id :: id in order ==> id in b
    ensures Search(b, order, username, mailbox, Sequence(numbers)) == []
    decreases |order|
  {
    if order != [] {
      assert forall id :: id in order[1..] ==> id in order;
      SequenceFindsNothing(b, order[1..], username, mailbox, numbers);
    }
  }

  /** A query by UIDs finds the entries with one of them, among them what a lookup by such a UID
      answers; it finds nothing exactly if no such lookup does. */
  lemma UidQuery(b: Messages, order: seq<MessageId>, username: string, mailbox: string, uids: seq<U32>)
    requires Enumerates(order, b.Keys)
    ensures Finds(b, order, username, mailbox, Uid(uids), (e: Entry) => e.metadata.uid in uids)
    ensures forall uid :: uid in uids && FirstWithUid(b, order, username, mailbox, uid).Some? ==>
      FirstWithUid(b, order, username, mailbox, uid).value in Search(b, order, username, mailbox, Uid(uids))
    ensures Search(b, order, username, mailbox, Uid(uids)) == []
       <==> forall uid :: uid in uids ==> FirstWithUid(b, order, username, mailbox, uid) == None
  {
    TestFinds(b, order, username, mailbox, Uid(uids), (e: Entry) => e.metadata.uid in uids);
    var found := Search(b, order, username, mailbox, Uid(uids));
    forall uid | uid in uids && FirstWithUid(b, order, username, mailbox, uid).Some?
      ensures FirstWithUid(b, order, username, mailbox, uid).value in found
    {
      FirstWithUidFinds(b, order, username, mailbox, uid);
      SearchFindsPath(b, order, username, mailbox, Uid(uids), FirstWithUid(b, order, username, mailbox, uid).value);
    }
    if found != [] {
      SearchFindsPath(b, order, username, mailbox, Uid(uids), found[0]);
      var id :| id in order && Selected(b[id], username, mailbox, Uid(uids)) && b[id].path == found[0];
      FirstWithUidFinds(b, order, username, mailbox, b[id].metadata.uid);
    }
  }

  lemma SetFlagsKeeps(b: Messages, id: MessageId, flags: seq<MessageFlag>)
    requires PathsByIds(b) && id in b
    ensures var after := SetFlags(b, id, flags);
      && after.Keys == b.Keys && PathsByIds(after)
      && after[id] == b[id].(metadata := b[id].metadata.(flags := flags))
  {
  }

  lemma UpdatedIsFound(b: Messages, order: seq<MessageId>, id: MessageId, flags: seq<MessageFlag>, query: SearchQuery)
    requires PathsByIds(b) && id in b && Enumerates(order, b.Keys)
    ensures var after, e := SetFlags(b, id, flags), b[id];
      Enumerates(order, after.Keys)
      && (e.path in Found(after, order, e.username, e.metadata.mailbox, query)
          <==> MatchesQuery(e.metadata.(flags := flags), query))
  {
    var after, e := SetFlags(b, id, flags), b[id];
    SetFlagsKeeps(b, id, flags);
    EntryAtIs(after, id);
    FoundIffSelected(after, order, e.username, e.metadata.mailbox, query, e.path);
  }

  /** After a flag update the flag queries find the message exactly by the flags given. */
  lemma UpdatedFlagsAreFound(b: Messages, order: seq<MessageId>, id: MessageId, flags: seq<MessageFlag>)
    requires PathsByIds(b) && id in b && Enumerates(order, b.Keys)
    ensures var after, e := SetFlags(b, id, flags), b[id];
      && (e.path in Found(after, order, e.username, e.metadata.mailbox, IsSeen) <==> Seen in flags)
      && (e.path in Found(after, order, e.username, e.metadata.mailbox, IsFlagged) <==> Flagged in flags)
      && (e.path in Found(after, order, e.username, e.metadata.mailbox, IsDeleted) <==> Deleted in flags)
  {
    UpdatedIsFound(b, order, id, flags, IsSeen);
    UpdatedIsFound(b, order, id, flags, IsFlagged);
    UpdatedIsFound(b, order, id, flags, IsDeleted);
  }

  // ----- Paths lie in the mailbox's directory -----

  /** Every entry's path is its id below the directory the registry gives its mailbox. */
  ghost predicate Rooted(b: Messages) {
    forall id ::
      id in b ==> b[id].path == NewInfo(b[id].username, b[id].metadata.mailbox, 0).rootPath + ("/" + id.text + ".eml")
  }

  /** Every backend operation keeps it, an add if the message is filed under its own mailbox. */
  lemma OperationsKeepRooted(b: Messages, username: string, message: IndexedMessage, mailbox: string, id: MessageId,
                             flags: seq<MessageFlag>)
    requires Rooted(b)
    ensures Rooted(Add(b, username, message.mailbox, message))
    ensures Rooted(SetFlags(b, id, flags))
    ensures Rooted(b - {id})
    ensures Rooted(DropMailbox(b, username, mailbox))
  {
    AddKeepsRooted(b, username, message);
  }

  lemma AddKeepsRooted(b: Messages, username: string, message: IndexedMessage)
    requires Rooted(b)
    ensures Rooted(Add(b, username, message.mailbox, message))
  {
    assert MessagePath(username, message.mailbox, message.id)
        == username + "/" + message.mailbox + ("/" + message.id.text + ".eml");
  }
}
