/** The mailbox registry (src/mailboxes/impl/memory.rs): UID validity, UID allocation and
    LIST. The standard for UIDs is section 2.3.1.1 of RFC 3501. */
module Registry {
  import opened Text
  import opened Collections
  import opened ListPattern

  const U32_LIMIT := 0x1_0000_0000

  type U32 = x: int | 0 <= x < U32_LIMIT witness 0

  /** `+ 1` on a `u32`, which wraps around in a release build. */
  function Succ(x: U32): U32 {
    (x + 1) % U32_LIMIT
  }

  type MailboxKey = (string, string)

  datatype MailboxId = MailboxId(username: string, name: string)

  datatype MailboxInfo = MailboxInfo(
    id: MailboxId,
    uidValidity: U32,
    nextUid: U32,
    rootPath: string,
    messageCount: U32,
    unseenCount: U32,
    recentCount: U32)

  datatype Registry = Registry(
    mailboxes: map<MailboxKey, MailboxInfo>,
    idToKey: map<MailboxId, MailboxKey>,
    nextUidValidity: U32)

  const EMPTY := Registry(map[], map[], 1)

  datatype Command =
    | Create(username: string, name: string)
    | Delete(username: string, name: string)
    | GetNextUid(username: string, name: string)
    | UpdateNextUid(id: MailboxId, nextUid: U32)
    | UpdateUidValidity(id: MailboxId, uidValidity: U32)
    | UpdateCounts(id: MailboxId, messages: U32, unseen: U32, recent: U32)
    | Shutdown

  datatype Reply =
    | Info(info: MailboxInfo)
    | GotUid(uid: U32)
    | Done
    | MailboxExists(name: string)
    | MailboxNotFound(name: string)

  // ----- One command -----

  function NewInfo(username: string, name: string, uidValidity: U32): MailboxInfo {
    MailboxInfo(MailboxId(username, name), uidValidity, 1, username + "/" + name, 0, 0, 0)
  }

  function Step(r: Registry, cmd: Command): (Registry, Reply) {
    match cmd
    case Create(username, name) =>
      var key := (username, name);
      if key in r.mailboxes then (r, MailboxExists(name))
      else
        var info := NewInfo(username, name, r.nextUidValidity);
        (Registry(r.mailboxes[key := info], r.idToKey[info.id := key], Succ(r.nextUidValidity)), Info(info))
    case Delete(username, name) =>
      var key := (username, name);
      if key in r.mailboxes then
        (Registry(r.mailboxes - {key}, r.idToKey - {r.mailboxes[key].id}, r.nextUidValidity), Done)
      else (r, MailboxNotFound(name))
    case GetNextUid(username, name) =>
      var key := (username, name);
      if key in r.mailboxes then
        var info := r.mailboxes[key];
        (r.(mailboxes := r.mailboxes[key := info.(nextUid := Succ(info.nextUid))]), GotUid(info.nextUid))
      else (r, MailboxNotFound(name))
    case UpdateNextUid(id, nextUid) => Amend(r, id, (info: MailboxInfo) => info.(nextUid := nextUid))
    case UpdateUidValidity(id, v) => Amend(r, id, (info: MailboxInfo) => info.(uidValidity := v))
    case UpdateCounts(id, m, u, c) =>
      Amend(r, id, (info: MailboxInfo) => info.(messageCount := m, unseenCount := u, recentCount := c))
    case Shutdown => (r, Done)
  }

  /** The updates that go through the reverse map. */
  function Amend(r: Registry, id: MailboxId, change: MailboxInfo -> MailboxInfo): (Registry, Reply) {
    if id in r.idToKey && r.idToKey[id] in r.mailboxes then
      var key := r.idToKey[id];
      (r.(mailboxes := r.mailboxes[key := change(r.mailboxes[key])]), Done)
    else (r, MailboxNotFound(id.name))
  }

  function Run(r: Registry, cmds: seq<Command>): (Registry, seq<Reply>)
    decreases |cmds|
  {
    if cmds == [] then (r, [])
    else if cmds[0].Shutdown? then (r, [Done])
    else
      var (after, reply) := Step(r, cmds[0]);
      var (final, replies) := Run(after, cmds[1..]);
      (final, [reply] + replies)
  }

  /** Every command up to and including the first Shutdown is answered once, failed or not. */
  function Taken(cmds: seq<Command>): nat {
    if cmds == [] then 0 else if cmds[0].Shutdown? then 1 else 1 + Taken(cmds[1..])
  }

  lemma {:induction false} EveryCommandIsAnswered(r: Registry, cmds: seq<Command>)
    ensures |Run(r, cmds).1| == Taken(cmds)
    decreases |cmds|
  {
    if cmds != [] && !cmds[0].Shutdown? {
      EveryCommandIsAnswered(Step(r, cmds[0]).0, cmds[1..]);
    }
  }

  /** The loop goes on from the registry it has, whatever it answered so far. */
  lemma {:induction false} LoopGoesOn(r: Registry, a: seq<Command>, b: seq<Command>)
    requires forall cmd :: cmd in a ==> !cmd.Shutdown?
    ensures var first := Run(r, a);
      Run(r, a + b) == (Run(first.0, b).0, first.1 + Run(first.0, b).1)
    decreases |a|
  {
    if a == [] {
      assert a + b == b && [] + Run(r, b).1 == Run(r, b).1;
    } else {
      assert (a + b)[1..] == a[1..] + b && a[0] in a;
      var (after, reply) := Step(r, a[0]);
      LoopGoesOn(after, a[1..], b);
      var rest := Run(after, a[1..]);
      assert [reply] + (rest.1 + Run(rest.0, b).1) == ([reply] + rest.1) + Run(rest.0, b).1;
    }
  }

  // ----- The registry object -----

  class MailboxState {
    var mailboxes: map<MailboxKey, MailboxInfo>
    var idToKey: map<MailboxId, MailboxKey>
    var nextUidValidity: U32

    function State(): Registry
      reads this
    {
      Registry(mailboxes, idToKey, nextUidValidity)
    }

    constructor ()
      ensures State() == EMPTY
    {
      mailboxes, idToKey, nextUidValidity := map[], map[], 1;
    }

    method CreateMailbox(username: string, name: string) returns (reply: Reply)
      modifies this
      ensures (State(), reply) == Step(old(State()), Create(username, name))
    {
      var key := (username, name);
      if key in mailboxes { return MailboxExists(name); }
      var uidValidity := nextUidValidity;
      nextUidValidity := Succ(nextUidValidity);
      var info := NewInfo(username, name, uidValidity);
      idToKey := idToKey[info.id := key];
      mailboxes := mailboxes[key := info];
      reply := Info(info);
    }

    method DeleteMailbox(username: string, name: string) returns (reply: Reply)
      modifies this
      ensures (State(), reply) == Step(old(State()), Delete(username, name))
    {
      var key := (username, name);
      if key !in mailboxes { return MailboxNotFound(name); }
      var info := mailboxes[key];
      mailboxes := mailboxes - {key};
      idToKey := idToKey - {info.id};
      reply := Done;
    }

    method NextUid(username: string, name: string) returns (reply: Reply)
      modifies this
      ensures (State(), reply) == Step(old(State()), GetNextUid(username, name))
    {
      var key := (username, name);
      if key !in mailboxes { return MailboxNotFound(name); }
      var info := mailboxes[key];
      mailboxes := mailboxes[key := info.(nextUid := Succ(info.nextUid))];
      reply := GotUid(info.nextUid);
    }

    /** `update_next_uid`, `update_uid_validity` and `update_counts`. */
    method AmendMailbox(id: MailboxId, change: MailboxInfo -> MailboxInfo) returns (reply: Reply)
      modifies this
      ensures (State(), reply) == Amend(old(State()), id, change)
    {
      if id in idToKey {
        var key := idToKey[id];
        if key in mailboxes {
          mailboxes := mailboxes[key := change(mailboxes[key])];
          return Done;
        }
      }
      reply := MailboxNotFound(id.name);
    }

    method Execute(cmd: Command) returns (reply: Reply)
      modifies this
      ensures (State(), reply) == Step(old(State()), cmd)
    {
      match cmd
      case Create(username, name) => reply := CreateMailbox(username, name);
      case Delete(username, name) => reply := DeleteMailbox(username, name);
      case GetNextUid(username, name) => reply := NextUid(username, name);
      case UpdateNextUid(id, nextUid) =>
        reply := AmendMailbox(id, (info: MailboxInfo) => info.(nextUid := nextUid));
      case UpdateUidValidity(id, v) =>
        reply := AmendMailbox(id, (info: MailboxInfo) => info.(uidValidity := v));
      case UpdateCounts(id, m, u, c) =>
        reply := AmendMailbox(id, (info: MailboxInfo) => info.(messageCount := m, unseenCount := u, recentCount := c));
      case Shutdown => reply := Done;
    }

    /** The writer loop: commands in channel order until Shutdown. */
    method WriterLoop(cmds: seq<Command>) returns (replies: seq<Reply>)
      modifies this
      ensures (State(), replies) == Run(old(State()), cmds)
    {
      replies := [];
      var i := 0;
      assert cmds[0..] == cmds;
      assert forall rest: seq<Reply> :: [] + rest == rest;
      while i < |cmds|
        invariant 0 <= i <= |cmds|
        invariant var rest := Run(State(), cmds[i..]);
          Run(old(State()), cmds) == (rest.0, replies + rest.1)
      {
        assert cmds[i..][0] == cmds[i] && cmds[i..][1..] == cmds[i + 1..];
        assert forall rest: seq<Reply>, reply :: replies + ([reply] + rest) == (replies + [reply]) + rest;
        if cmds[i].Shutdown? {
          replies := replies + [Done];
          return;
        }
        var reply := Execute(cmds[i]);
        replies := replies + [reply];
        i := i + 1;
      }
      assert cmds[i..] == [] && replies + [] == replies;
    }
  }

  /** `mailboxes` and `idToKey` are inverse to each other. */
  ghost predicate Inverse(r: Registry) {
    && (forall key :: key in r.mailboxes ==>
          r.mailboxes[key].id == MailboxId(key.0, key.1) && r.mailboxes[key].id in r.idToKey
          && r.idToKey[r.mailboxes[key].id] == key)
    && (forall id :: id in r.idToKey ==> r.idToKey[id] in r.mailboxes && r.mailboxes[r.idToKey[id]].id == id)
  }

  // ----- LIST -----

  /** The mailbox is listed: it is the user's and the filter accepts its name. */
  predicate Listed(r: Registry, key: MailboxKey, username: string, filter: MailboxFilter) {
    key in r.mailboxes && key.0 == username && FilterAccepts(filter, r.mailboxes[key].id.name)
  }

  /** `list_mailboxes`: the user's mailboxes that the filter accepts, in the order the map yields
      them. */
  function ListMailboxes(r: Registry, order: seq<MailboxKey>, username: string, filter: MailboxFilter)
    : seq<MailboxInfo>
  {
    if order == [] then []
    else
      (if Listed(r, order[0], username, filter) then [r.mailboxes[order[0]]] else [])
      + ListMailboxes(r, order[1..], username, filter)
  }

  /** A listing holds just the listed mailboxes of the order. */
  lemma {:induction false} ListedExactly(r: Registry, order: seq<MailboxKey>, username: string, filter: MailboxFilter,
                                         info: MailboxInfo)
    requires Inverse(r)
    ensures info in ListMailboxes(r, order, username, filter)
       <==> exists key :: key in order && Listed(r, key, username, filter) && r.mailboxes[key] == info
  {
    if order != [] {
      ListedExactly(r, order[1..], username, filter, info);
      assert forall key :: key in order <==> key == order[0] || key in order[1..];
    }
  }

  predicate NamesOnce(infos: seq<MailboxInfo>) {
    forall i, j :: 0 <= i < j < |infos| ==> infos[i].id.name != infos[j].id.name
  }

  lemma NamesOnceCons(info: MailboxInfo, rest: seq<MailboxInfo>)
    requires NamesOnce(rest) && forall other :: other in rest ==> other.id.name != info.id.name
    ensures NamesOnce([info] + rest)
  {
    var infos := [info] + rest;
    forall i, j | 0 <= i < j < |infos|
      ensures infos[i].id.name != infos[j].id.name
    {
      assert infos[j] == rest[j - 1] && rest[j - 1] in rest;
      assert i > 0 ==> infos[i] == rest[i - 1];
    }
  }

  /** No name is listed twice. */
  lemma {:induction false} ListsNamesOnce(r: Registry, order: seq<MailboxKey>, username: string, filter: MailboxFilter)
    requires Inverse(r) && Distinct(order)
    ensures NamesOnce(ListMailboxes(r, order, username, filter))
  {
    if order != [] {
      var key, rest := order[0], ListMailboxes(r, order[1..], username, filter);
      DistinctHead(order);
      ListsNamesOnce(r, order[1..], username, filter);
      if Listed(r, key, username, filter) {
        forall other | other in rest
          ensures other.id.name != r.mailboxes[key].id.name
        {
          ListedExactly(r, order[1..], username, filter, other);
          var k :| k in order[1..] && Listed(r, k, username, filter) && r.mailboxes[k] == other;
          assert k != key;
        }
        NamesOnceCons(r.mailboxes[key], rest);
      } else {
        assert [] + rest == rest;
      }
    }
  }

  predicate ListsName(infos: seq<MailboxInfo>, name: string) {
    exists info :: info in infos && info.id.name == name
  }

  /** A LIST reports exactly the user's mailboxes whose names match the pattern in the sense
      of section 6.3.8 of RFC 3501, INBOX being matched in any case. */
  lemma ListReportsMatches(r: Registry, order: seq<MailboxKey>, username: string, pattern: string, name: string)
    requires Inverse(r) && Enumerates(order, r.mailboxes.Keys)
    requires '\n' !in name || !NewlineSensitive(pattern)
    ensures ListsName(ListMailboxes(r, order, username, PatternToFilter(pattern)), name)
       <==> (username, name) in r.mailboxes && (Wildcard(pattern, name) || (IsInbox(pattern) && IsInbox(name)))
  {
    CompiledFilterMeaning(pattern, name);
    var filter := PatternToFilter(pattern);
    var infos := ListMailboxes(r, order, username, filter);
    if ListsName(infos, name) {
      var info :| info in infos && info.id.name == name;
      ListedExactly(r, order, username, filter, info);
    }
    if Listed(r, (username, name), username, filter) {
      ListedExactly(r, order, username, filter, r.mailboxes[(username, name)]);
    }
  }

  // ----- Invariants -----

  lemma AmendKeepsInverse(r: Registry, id: MailboxId, change: MailboxInfo -> MailboxInfo)
    requires Inverse(r) && forall info :: change(info).id == info.id
    ensures Inverse(Amend(r, id, change).0)
  {
  }

  /** The command is answered `Done` for an existing mailbox, whose entry alone changes, to `info`;
      for another it is refused without effect. */
  predicate Amends(r: Registry, cmd: Command, key: MailboxKey, info: MailboxInfo) {
    Step(r, cmd) == if key in r.mailboxes then (r.(mailboxes := r.mailboxes[key := info]), Done)
                    else (r, MailboxNotFound(key.1))
  }

  /** Each update changes the fields it names of the mailbox it names, found through the reverse map. */
  lemma UpdatesChangeOneMailbox(r: Registry, username: string, name: string, x: U32, m: U32, u: U32, c: U32)
    requires Inverse(r)
    ensures var key, id := (username, name), MailboxId(username, name);
      var info := if key in r.mailboxes then r.mailboxes[key] else NewInfo(username, name, 0);
      && Amends(r, UpdateNextUid(id, x), key,
                MailboxInfo(info.id, info.uidValidity, x, info.rootPath, info.messageCount, info.unseenCount,
                            info.recentCount))
      && Amends(r, UpdateUidValidity(id, x), key,
                MailboxInfo(info.id, x, info.nextUid, info.rootPath, info.messageCount, info.unseenCount,
                            info.recentCount))
      && Amends(r, UpdateCounts(id, m, u, c), key,
                MailboxInfo(info.id, info.uidValidity, info.nextUid, info.rootPath, m, u, c))
  {
    var key, id := (username, name), MailboxId(username, name);
    assert key in r.mailboxes ==> r.mailboxes[key].id == id;
    assert id in r.idToKey ==> r.mailboxes[r.idToKey[id]].id == id;
  }

  lemma DeleteKeepsInverse(r: Registry, username: string, name: string)
    requires Inverse(r)
    ensures Inverse(Step(r, Delete(username, name)).0)
  {
    var after := Step(r, Delete(username, name)).0;
    forall id | id in after.idToKey
      ensures after.idToKey[id] in after.mailboxes && after.mailboxes[after.idToKey[id]].id == id
    {
      assert r.mailboxes[r.idToKey[id]].id == id;
    }
  }

  /** Every command, in any state of the counters, keeps the two maps inverse. */
  lemma StepKeepsInverse(r: Registry, cmd: Command)
    requires Inverse(r)
    ensures Inverse(Step(r, cmd).0)
  {
    match cmd
    case Delete(username, name) => DeleteKeepsInverse(r, username, name);
    case UpdateNextUid(id, nextUid) =>
      AmendKeepsInverse(r, id, (info: MailboxInfo) => info.(nextUid := nextUid));
    case UpdateUidValidity(id, v) =>
      AmendKeepsInverse(r, id, (info: MailboxInfo) => info.(uidValidity := v));
    case UpdateCounts(id, m, u, c) =>
      AmendKeepsInverse(r, id, (info: MailboxInfo) => info.(messageCount := m, unseenCount := u, recentCount := c));
    case Create(_, _) =>
    case GetNextUid(_, _) =>
    case Shutdown =>
  }

  // ----- Runs within the counters -----

  /** The guard on the counters: the command neither exhausts one nor overwrites one. */
  predicate Regular(r: Registry, cmd: Command) {
    match cmd
    case Create(_, _) => r.nextUidValidity + 1 < U32_LIMIT
    case GetNextUid(username, name) =>
      (username, name) in r.mailboxes ==> r.mailboxes[(username, name)].nextUid + 1 < U32_LIMIT
    case UpdateNextUid(_, _) => false
    case UpdateUidValidity(_, _) => false
    case _ => true
  }

  predicate RegularRun(r: Registry, cmds: seq<Command>)
    decreases |cmds|
  {
    cmds == [] || cmds[0].Shutdown? || (Regular(r, cmds[0]) && RegularRun(Step(r, cmds[0]).0, cmds[1..]))
  }
}
