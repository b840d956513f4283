/** The state loop of one mailbox handle (src/mailbox.rs): UID ↔ path maps and the
    notification subscribers of IDLE sessions. */
module MailboxHandle {
  import opened Text
  import opened Collections
  import opened Registry

  // ----- UIDs and paths -----

  datatype Uids = Uids(uidNext: U32, uidToPath: map<U32, string>, pathToUid: map<string, U32>)

  const NO_UIDS := Uids(1, map[], map[])

  datatype UidCommand =
    | AssignUid(path: string)
    | RemoveMessage(uid: U32)
    | UpdatePath(uid: U32, newPath: string)

  datatype UidReply = Assigned(uid: U32) | Ok | AlreadyAssigned | NotFound

  function UidStep(s: Uids, cmd: UidCommand): (Uids, UidReply) {
    match cmd
    case AssignUid(path) =>
      if path in s.pathToUid then (s, AlreadyAssigned)
      else
        (Uids(Succ(s.uidNext), s.uidToPath[s.uidNext := path], s.pathToUid[path := s.uidNext]), Assigned(s.uidNext))
    case RemoveMessage(uid) =>
      if uid in s.uidToPath then
        (s.(uidToPath := s.uidToPath - {uid}, pathToUid := s.pathToUid - {s.uidToPath[uid]}), Ok)
      else (s, NotFound)
    case UpdatePath(uid, newPath) =>
      if uid in s.uidToPath then
        (s.(uidToPath := s.uidToPath[uid := newPath],
            pathToUid := (s.pathToUid - {s.uidToPath[uid]})[newPath := uid]), Ok)
      else (s, NotFound)
  }

  // ----- Notifications -----

  datatype Notification = MessageAdded(uid: U32) | MessageExpunged(uid: U32) | FlagsChanged(uid: U32)

  /** A bounded channel as the receiver sees it: what it took out, what waits, and whether it still listens. */
  datatype Channel = Channel(received: seq<Notification>, queue: seq<Notification>, open: bool)

  predicate HasRoom(c: Channel) {
    Accepts(c.open, |c.queue|)
  }

  /** All channels ever handed out, and the indices still in the loop's subscriber list. */
  datatype Hub = Hub(channels: seq<Channel>, listed: seq<nat>)

  const NO_SUBSCRIBERS := Hub([], [])

  /** One `try_send` to each listed subscriber; those that fail leave the list. */
  function Broadcast(h: Hub, todo: seq<nat>, n: Notification): Hub
    requires forall i :: i in todo ==> i < |h.channels|
    decreases |todo|
  {
    if todo == [] then h
    else
      var i := todo[0];
      assert i in todo;
      var c := h.channels[i];
      assert forall j :: j in todo[1..] ==> j in todo;
      if HasRoom(c) then
        Broadcast(Hub(h.channels[i := c.(queue := c.queue + [n])], h.listed + [i]), todo[1..], n)
      else Broadcast(h, todo[1..], n)
  }

  /** The loop's own commands, and what a receiver does to its end of the channel. */
  datatype HubEvent = Subscribe | Notify(notification: Notification) | Receive(i: nat) | Close(i: nat)

  predicate Valid(h: Hub) {
    forall i :: i in h.listed ==> i < |h.channels|
  }

  function HubStep(h: Hub, e: HubEvent): Hub
    requires Valid(h)
  {
    match e
    case Subscribe => Hub(h.channels + [Channel([], [], true)], h.listed + [|h.channels|])
    case Notify(n) => Broadcast(h.(listed := []), h.listed, n)
    case Receive(i) =>
      if i < |h.channels| && h.channels[i].open && h.channels[i].queue != [] then
        var c := h.channels[i];
        h.(channels := h.channels[i := Channel(c.received + [c.queue[0]], c.queue[1..], true)])
      else h
    case Close(i) =>
      if i < |h.channels| then h.(channels := h.channels[i := h.channels[i].(open := false)]) else h
  }

  // ----- The loop object -----

  datatype Snapshot = Snapshot(uidNext: U32, messageCount: nat)

  class MailboxLoop {
    var uidNext: U32
    var uidToPath: map<U32, string>
    var pathToUid: map<string, U32>
    var subscribers: seq<nat>
    var channels: seq<Channel>

    function UidState(): Uids
      reads this
    {
      Uids(uidNext, uidToPath, pathToUid)
    }

    function HubState(): Hub
      reads this
    {
      Hub(channels, subscribers)
    }

    constructor ()
      ensures UidState() == NO_UIDS && HubState() == NO_SUBSCRIBERS
    {
      uidNext, uidToPath, pathToUid := 1, map[], map[];
      subscribers, channels := [], [];
    }

    method AssignUid(path: string) returns (reply: UidReply)
      modifies this
      ensures (UidState(), reply) == UidStep(old(UidState()), UidCommand.AssignUid(path))
      ensures HubState() == old(HubState())
    {
      if path in pathToUid { return AlreadyAssigned; }
      var uid := uidNext;
      uidToPath := uidToPath[uid := path];
      pathToUid := pathToUid[path := uid];
      uidNext := Succ(uidNext);
      reply := Assigned(uid);
    }

    method GetPath(uid: U32) returns (path: Option<string>)
      ensures path == if uid in uidToPath then Some(uidToPath[uid]) else None
    {
      path := if uid in uidToPath then Some(uidToPath[uid]) else None;
    }

    /** The reverse lookup; under the bijection it is a search of the forward map. */
    method GetUid(path: string) returns (uid: Option<U32>)
      ensures uid == if path in pathToUid then Some(pathToUid[path]) else None
      ensures Bijective(UidState()) ==>
        match uid
        case Some(u) => u in uidToPath && uidToPath[u] == path
        case None => forall u :: u in uidToPath ==> uidToPath[u] != path
    {
      uid := if path in pathToUid then Some(pathToUid[path]) else None;
      assert Bijective(UidState()) && path !in pathToUid ==> forall u :: u in uidToPath ==> uidToPath[u] in pathToUid;
    }

    method RemoveMessage(uid: U32) returns (reply: UidReply)
      modifies this
      ensures (UidState(), reply) == UidStep(old(UidState()), UidCommand.RemoveMessage(uid))
      ensures HubState() == old(HubState())
    {
      if uid !in uidToPath { return NotFound; }
      var path := uidToPath[uid];
      uidToPath := uidToPath - {uid};
      pathToUid := pathToUid - {path};
      reply := Ok;
    }

    method UpdatePath(uid: U32, newPath: string) returns (reply: UidReply)
      modifies this
      ensures (UidState(), reply) == UidStep(old(UidState()), UidCommand.UpdatePath(uid, newPath))
      ensures HubState() == old(HubState())
    {
      if uid !in uidToPath { return NotFound; }
      pathToUid := pathToUid - {uidToPath[uid]};
      uidToPath := uidToPath[uid := newPath];
      pathToUid := pathToUid[newPath := uid];
      reply := Ok;
    }

    method GetState() returns (snapshot: Snapshot)
      ensures snapshot == Snapshot(uidNext, |uidToPath|)
    {
      snapshot := Snapshot(uidNext, |uidToPath|);
    }

    method Subscribe() returns (receiver: nat)
      requires Valid(HubState())
      modifies this
      ensures HubState() == HubStep(old(HubState()), HubEvent.Subscribe) && receiver == |old(channels)|
      ensures UidState() == old(UidState())
    {
      receiver := |channels|;
      channels := channels + [Channel([], [], true)];
      subscribers := subscribers + [receiver];
    }

    /** `subscribers.retain(|sub| sub.try_send(..).is_ok())`. */
    method Notify(n: Notification)
      requires Valid(HubState())
      modifies this
      ensures HubState() == HubStep(old(HubState()), HubEvent.Notify(n))
      ensures UidState() == old(UidState())
    {
      var all := subscribers;
      subscribers := [];
      assert all[0..] == all;
      for k := 0 to |all|
        invariant |channels| == |old(channels)|
        invariant forall i :: i in all ==> i < |channels|
        invariant forall i :: i in all[k..] ==> i in all
        invariant Broadcast(HubState(), all[k..], n) == Broadcast(Hub(old(channels), []), all, n)
        invariant UidState() == old(UidState())
      {
        var i := all[k];
        assert i in all;
        assert all[k..][0] == i && all[k..][1..] == all[k + 1..];
        if HasRoom(channels[i]) {
          channels := channels[i := channels[i].(queue := channels[i].queue + [n])];
          subscribers := subscribers + [i];
        }
      }
    }
  }

  // ----- The two maps -----

  /** Every path that has a UID is that UID's path. */
  ghost predicate OneWay(s: Uids) {
    && (forall p :: p in s.pathToUid ==> s.pathToUid[p] in s.uidToPath && s.uidToPath[s.pathToUid[p]] == p)
    && (forall u :: u in s.uidToPath ==> u < s.uidNext)
  }

  /** The two maps are inverse to each other. */
  ghost predicate Bijective(s: Uids) {
    && (forall p :: p in s.pathToUid ==> s.pathToUid[p] in s.uidToPath && s.uidToPath[s.pathToUid[p]] == p)
    && (forall u :: u in s.uidToPath ==> s.uidToPath[u] in s.pathToUid && s.pathToUid[s.uidToPath[u]] == u)
  }

  /** The 32-bit counter is not exhausted by this command. */
  predicate InRange(s: Uids, cmd: UidCommand) {
    cmd.AssignUid? && cmd.path !in s.pathToUid ==> s.uidNext + 1 < U32_LIMIT
  }

  /** The update moves the message to a path no other message holds. */
  predicate TargetFree(s: Uids, cmd: UidCommand) {
    cmd.UpdatePath? && cmd.uid in s.uidToPath ==>
      cmd.newPath !in s.pathToUid || s.pathToUid[cmd.newPath] == cmd.uid
  }

  /** The one-way inverse survives every command, whatever paths are given. */
  lemma StepKeepsOneWay(s: Uids, cmd: UidCommand)
    requires OneWay(s) && InRange(s, cmd)
    ensures OneWay(UidStep(s, cmd).0)
  {
  }

  /** `update_path` does not look at who holds the new path. The bijection survives a command
      exactly when the new path is free or already this message's own. */
  lemma StepKeepsBijection(s: Uids, cmd: UidCommand)
    requires OneWay(s) && Bijective(s) && InRange(s, cmd)
    ensures Bijective(UidStep(s, cmd).0) <==> TargetFree(s, cmd)
  {
    var after := UidStep(s, cmd).0;
    if !TargetFree(s, cmd) {
      var holder := s.pathToUid[cmd.newPath];
      assert after.uidToPath[holder] == cmd.newPath && after.pathToUid[cmd.newPath] == cmd.uid;
    }
  }

  function UidRun(s: Uids, cmds: seq<UidCommand>): Uids
    decreases |cmds|
  {
    if cmds == [] then s else UidRun(UidStep(s, cmds[0]).0, cmds[1..])
  }

  /** The UIDs assigned over a run, in order. */
  function AssignedLog(s: Uids, cmds: seq<UidCommand>): seq<U32>
    decreases |cmds|
  {
    if cmds == [] then []
    else
      var (after, reply) := UidStep(s, cmds[0]);
      (if reply.Assigned? then [reply.uid] else []) + AssignedLog(after, cmds[1..])
  }

  predicate InRangeRun(s: Uids, cmds: seq<UidCommand>)
    decreases |cmds|
  {
    cmds == [] || (InRange(s, cmds[0]) && InRangeRun(UidStep(s, cmds[0]).0, cmds[1..]))
  }

  predicate TargetFreeRun(s: Uids, cmds: seq<UidCommand>)
    decreases |cmds|
  {
    cmds == [] || (TargetFree(s, cmds[0]) && TargetFreeRun(UidStep(s, cmds[0]).0, cmds[1..]))
  }

  /** Over every run the UIDs assigned are consecutive, hence strictly increasing and never
      reused after a removal; the one-way inverse always holds, and the bijection does when
      no update takes another message's path. */
  lemma {:induction false} RunKeepsMaps(s: Uids, cmds: seq<UidCommand>)
    requires OneWay(s) && InRangeRun(s, cmds)
    ensures OneWay(UidRun(s, cmds))
    ensures Bijective(s) && TargetFreeRun(s, cmds) ==> Bijective(UidRun(s, cmds))
    ensures forall i :: 0 <= i < |AssignedLog(s, cmds)| ==> AssignedLog(s, cmds)[i] == s.uidNext + i
    ensures UidRun(s, cmds).uidNext == s.uidNext + |AssignedLog(s, cmds)|
    decreases |cmds|
  {
    if cmds != [] {
      StepKeepsOneWay(s, cmds[0]);
      if Bijective(s) {
        StepKeepsBijection(s, cmds[0]);
      }
      RunKeepsMaps(UidStep(s, cmds[0]).0, cmds[1..]);
    }
  }

  // ----- What became of every UID -----

  /** What the loop was asked and granted, told by its answers. */
  datatype Did = Gave(uid: U32, path: string) | Took(uid: U32) | Moved(uid: U32, path: string)

  function Granted(cmd: UidCommand, reply: UidReply): seq<Did> {
    match cmd
    case AssignUid(path) => if reply.Assigned? then [Gave(reply.uid, path)] else []
    case RemoveMessage(uid) => if reply == Ok then [Took(uid)] else []
    case UpdatePath(uid, newPath) => if reply == Ok then [Moved(uid, newPath)] else []
  }

  function History(s: Uids, cmds: seq<UidCommand>): seq<Did>
    decreases |cmds|
  {
    if cmds == [] then []
    else
      var (after, reply) := UidStep(s, cmds[0]);
      Granted(cmds[0], reply) + History(after, cmds[1..])
  }

  /** The path last given to a UID, unless it was taken away since. */
  function LastPath(log: seq<Did>, uid: U32): Option<string> {
    if log == [] then None
    else
      var last := log[|log| - 1];
      if last.uid != uid then LastPath(log[..|log| - 1], uid)
      else if last.Took? then None
      else Some(last.path)
  }

  function Gains(log: seq<Did>): int {
    if log == [] then 0
    else
      Gains(log[..|log| - 1]) + (match log[|log| - 1] case Gave(_, _) => 1 case Took(_) => -1 case Moved(_, _) => 0)
  }

  /** The forward map is what the history says: who has which path, and how many there are. */
  ghost predicate Recorded(s: Uids, log: seq<Did>) {
    && (forall uid: U32 :: LastPath(log, uid) == if uid in s.uidToPath then Some(s.uidToPath[uid]) else None)
    && |s.uidToPath| == Gains(log)
  }

  lemma LastPathSnoc(log: seq<Did>, did: Did, uid: U32)
    ensures LastPath(log + [did], uid)
         == if did.uid != uid then LastPath(log, uid) else if did.Took? then None else Some(did.path)
    ensures Gains(log + [did]) == Gains(log) + (match did case Gave(_, _) => 1 case Took(_) => -1 case Moved(_, _) => 0)
  {
    assert (log + [did])[..|log + [did]| - 1] == log;
  }

  lemma MapSizes(m: map<U32, string>, uid: U32, path: string)
    ensures |m[uid := path]| == |m| + (if uid in m then 0 else 1)
    ensures |m - {uid}| == |m| - (if uid in m then 1 else 0)
  {
    assert m[uid := path].Keys == m.Keys + {uid} && (m - {uid}).Keys == m.Keys - {uid};
    assert |m.Keys| == |m| && |m[uid := path].Keys| == |m[uid := path]| && |(m - {uid}).Keys| == |m - {uid}|;
  }

  /** Commands are granted exactly when they should be. */
  lemma GrantedExactly(s: Uids, cmd: UidCommand)
    ensures (Granted(cmd, UidStep(s, cmd).1) != [])
       <==> (match cmd case AssignUid(path) => path !in s.pathToUid case _ => cmd.uid in s.uidToPath)
  {
  }

  lemma DidIsRecorded(s: Uids, s': Uids, log: seq<Did>, did: Did)
    requires Recorded(s, log) && (did.Gave? <==> did.uid !in s.uidToPath)
    requires s'.uidToPath == if did.Took? then s.uidToPath - {did.uid} else s.uidToPath[did.uid := did.path]
    ensures Recorded(s', log + [did])
  {
    forall uid: U32
      ensures LastPath(log + [did], uid) == if uid in s'.uidToPath then Some(s'.uidToPath[uid]) else None
    {
      LastPathSnoc(log, did, uid);
    }
    LastPathSnoc(log, did, did.uid);
    MapSizes(s.uidToPath, did.uid, if did.Took? then "" else did.path);
  }

  lemma StepIsRecorded(s: Uids, log: seq<Did>, cmd: UidCommand)
    requires Recorded(s, log) && OneWay(s) && InRange(s, cmd)
    ensures Recorded(UidStep(s, cmd).0, log + Granted(cmd, UidStep(s, cmd).1))
  {
    var s', granted := UidStep(s, cmd).0, Granted(cmd, UidStep(s, cmd).1);
    if granted == [] {
      assert log + granted == log;
    } else {
      DidIsRecorded(s, s', log, granted[0]);
      assert granted == [granted[0]];
    }
  }

  /** Over every run, a UID has a path exactly if it was assigned and not removed since, and the
      path is the one last given to it; the messages counted are those assigned less those removed. */
  lemma {:induction false} RunIsRecorded(s: Uids, log: seq<Did>, cmds: seq<UidCommand>)
    requires Recorded(s, log) && OneWay(s) && InRangeRun(s, cmds)
    ensures Recorded(UidRun(s, cmds), log + History(s, cmds))
    decreases |cmds|
  {
    if cmds == [] {
      assert log + [] == log;
    } else {
      var (after, reply) := UidStep(s, cmds[0]);
      StepIsRecorded(s, log, cmds[0]);
      StepKeepsOneWay(s, cmds[0]);
      RunIsRecorded(after, log + Granted(cmds[0], reply), cmds[1..]);
      assert (log + Granted(cmds[0], reply)) + History(after, cmds[1..]) == log + History(s, cmds);
    }
  }

  /** And so from the start: the maps tell the history, in both directions while no update takes
      another message's path. */
  lemma MapsTellTheHistory(cmds: seq<UidCommand>)
    requires InRangeRun(NO_UIDS, cmds)
    ensures var s, log := UidRun(NO_UIDS, cmds), History(NO_UIDS, cmds);
      && Recorded(s, log)
      && (TargetFreeRun(NO_UIDS, cmds) ==>
            forall path: string, uid: U32 ::
              (path in s.pathToUid && s.pathToUid[path] == uid) <==> LastPath(log, uid) == Some(path))
  {
    var log := History(NO_UIDS, cmds);
    assert [] + log == log;
    assert Recorded(NO_UIDS, []);
    RunIsRecorded(NO_UIDS, [], cmds);
    RunKeepsMaps(NO_UIDS, cmds);
    if TargetFreeRun(NO_UIDS, cmds) {
      BijectiveTells(UidRun(NO_UIDS, cmds), log);
    }
  }

  lemma BijectiveTells(s: Uids, log: seq<Did>)
    requires Recorded(s, log) && Bijective(s)
    ensures forall path: string, uid: U32 ::
      (path in s.pathToUid && s.pathToUid[path] == uid) <==> LastPath(log, uid) == Some(path)
  {
    forall path: string, uid: U32
      ensures (path in s.pathToUid && s.pathToUid[path] == uid) <==> LastPath(log, uid) == Some(path)
    {
      assert LastPath(log, uid) == if uid in s.uidToPath then Some(s.uidToPath[uid]) else None;
    }
  }

  /** After a removal neither map knows the UID or its path, and every other entry is as before. */
  lemma RemovalIsExact(s: Uids, uid: U32)
    requires Bijective(s) && uid in s.uidToPath
    ensures var (after, reply) := UidStep(s, RemoveMessage(uid));
      && reply == Ok && after.uidNext == s.uidNext
      && uid !in after.uidToPath && s.uidToPath[uid] !in after.pathToUid
      && (forall u: U32 :: u != uid ==> (u in after.uidToPath <==> u in s.uidToPath))
      && (forall u: U32 :: u != uid && u in s.uidToPath ==> after.uidToPath[u] == s.uidToPath[u])
      && (forall p: string :: p != s.uidToPath[uid] ==> (p in after.pathToUid <==> p in s.pathToUid))
      && (forall p: string :: p != s.uidToPath[uid] && p in s.pathToUid ==> after.pathToUid[p] == s.pathToUid[p])
  {
  }

  /** A taken path happens: moving one message to another's path leaves two UIDs with one path. */
  lemma TakenPathIsReachable(path: string, other: string)
    requires path != other
    ensures !Bijective(UidRun(NO_UIDS, [AssignUid(path), AssignUid(other), UpdatePath(1, other)]))
  {
    var s1 := UidStep(NO_UIDS, AssignUid(path)).0;
    var s2 := UidStep(s1, AssignUid(other)).0;
    var cmds := [AssignUid(path), AssignUid(other), UpdatePath(1, other)];
    assert s2.uidToPath == map[1 := path, 2 := other] && s2.pathToUid == map[path := 1, other := 2];
    var s3 := UidStep(s2, UpdatePath(1, other)).0;
    assert s3.uidToPath[1] == other && s3.uidToPath[2] == other;
    assert cmds[1..][0] == cmds[1] && cmds[1..][1..] == [cmds[2]] && [cmds[2]][1..] == [];
    assert UidRun(s2, [cmds[2]]) == s3;
  }

  // ----- What subscribers see -----

  /** A hub with its history: everything sent so far, and where in it each channel began. */
  datatype Traced = Traced(hub: Hub, sent: seq<Notification>, since: seq<nat>)

  function TracedStep(t: Traced, e: HubEvent): Traced
    requires Valid(t.hub)
  {
    Traced(HubStep(t.hub, e),
           if e.Notify? then t.sent + [e.notification] else t.sent,
           if e.Subscribe? then t.since + [|t.sent|] else t.since)
  }

  /** What a subscriber has taken out of its channel or still can. */
  function Stream(c: Channel): seq<Notification> {
    c.received + c.queue
  }

  /** Each stream is a prefix of what was sent since the subscription, and the whole of it
      exactly for the subscribers still in the list. */
  ghost predicate GapFree(t: Traced) {
    && Valid(t.hub) && |t.since| == |t.hub.channels|
    && Distinct(t.hub.listed)
    && (forall i :: 0 <= i < |t.since| ==>
          t.since[i] <= |t.sent|
          && Stream(t.hub.channels[i]) <= t.sent[t.since[i]..]
          && (i in t.hub.listed <==> Stream(t.hub.channels[i]) == t.sent[t.since[i]..]))
  }

  /** One `try_send` of a broadcast. */
  function Send(h: Hub, i: nat, n: Notification): Hub
    requires i < |h.channels|
  {
    var c := h.channels[i];
    if HasRoom(c) then Hub(h.channels[i := c.(queue := c.queue + [n])], h.listed + [i]) else h
  }

  /** What one broadcast does to every channel. */
  lemma {:induction false} BroadcastDelivers(h: Hub, todo: seq<nat>, n: Notification)
    requires forall i :: i in todo ==> i < |h.channels|
    requires Distinct(todo)
    ensures var after := Broadcast(h, todo, n);
      && |after.channels| == |h.channels|
      && (forall i :: 0 <= i < |h.channels| ==>
            after.channels[i] == if i in todo && HasRoom(h.channels[i])
                                 then h.channels[i].(queue := h.channels[i].queue + [n]) else h.channels[i])
    decreases |todo|
  {
    if todo != [] {
      DistinctHead(todo);
      BroadcastDelivers(Send(h, todo[0], n), todo[1..], n);
    }
  }

  /** What one broadcast does to the list. */
  lemma {:induction false} BroadcastKeepsListed(h: Hub, todo: seq<nat>, n: Notification)
    requires forall i :: i in todo ==> i < |h.channels|
    requires Distinct(todo)
    requires forall i :: i in h.listed ==> i !in todo
    requires Distinct(h.listed)
    ensures var after := Broadcast(h, todo, n);
      && Distinct(after.listed)
      && (forall i :: i in after.listed <==> i in h.listed || (i in todo && HasRoom(h.channels[i])))
    decreases |todo|
  {
    if todo != [] {
      DistinctHead(todo);
      assert forall k :: 0 <= k < |h.listed| ==> h.listed[k] in h.listed;
      BroadcastKeepsListed(Send(h, todo[0], n), todo[1..], n);
    }
  }

  /** A broadcast reaches exactly the subscribers to do that have room, once, and exactly they
      join the list. */
  lemma BroadcastEffect(h: Hub, todo: seq<nat>, n: Notification)
    requires forall i :: i in todo ==> i < |h.channels|
    requires Distinct(todo)
    requires forall i :: i in h.listed ==> i !in todo
    requires Distinct(h.listed)
    ensures var after := Broadcast(h, todo, n);
      && |after.channels| == |h.channels|
      && Distinct(after.listed)
      && (forall i :: i in after.listed <==>
            i in h.listed || (i in todo && h.channels[i].open && |h.channels[i].queue| < 100))
      && (forall i :: 0 <= i < |h.channels| ==>
            after.channels[i] == if i in todo && h.channels[i].open && |h.channels[i].queue| < 100
                                 then h.channels[i].(queue := h.channels[i].queue + [n]) else h.channels[i])
  {
    BroadcastDelivers(h, todo, n);
    BroadcastKeepsListed(h, todo, n);
  }

  lemma NotifyKeepsGapFree(t: Traced, n: Notification)
    requires GapFree(t)
    ensures GapFree(TracedStep(t, Notify(n)))
  {
    var h, after := t.hub, TracedStep(t, Notify(n));
    BroadcastEffect(h.(listed := []), h.listed, n);
    forall i | 0 <= i < |t.since|
      ensures Stream(after.hub.channels[i]) <= after.sent[t.since[i]..]
      ensures i in after.hub.listed <==> Stream(after.hub.channels[i]) == after.sent[t.since[i]..]
    {
      var c := h.channels[i];
      assert after.sent[t.since[i]..] == t.sent[t.since[i]..] + [n];
      assert c.received + (c.queue + [n]) == Stream(c) + [n];
    }
  }

  lemma ReceiverKeepsGapFree(t: Traced, e: HubEvent)
    requires GapFree(t) && !e.Notify?
    ensures GapFree(TracedStep(t, e))
  {
    var after := TracedStep(t, e);
    if e.Receive? && after.hub != t.hub {
      var c := t.hub.channels[e.i];
      assert Stream(after.hub.channels[e.i]) == Stream(c);
    }
    if e.Subscribe? {
      assert t.sent[|t.sent|..] == [];
      assert forall k :: 0 <= k < |t.hub.listed| ==> t.hub.listed[k] in t.hub.listed;
    }
  }

  function TracedRun(t: Traced, events: seq<HubEvent>): Traced
    requires GapFree(t)
    decreases |events|
  {
    if events == [] then t
    else
      assert GapFree(TracedStep(t, events[0])) by {
        if events[0].Notify? {
          NotifyKeepsGapFree(t, events[0].notification);
        } else {
          ReceiverKeepsGapFree(t, events[0]);
        }
      }
      TracedRun(TracedStep(t, events[0]), events[1..])
  }

  /** Over every interleaving of the loop and its receivers, no subscriber ever sees a gap:
      it has a prefix of what was sent since it subscribed, and all of it if and only if it
      is still in the list, because one failed send drops it for good. */
  lemma {:induction false} NotificationsAreGapFree(t: Traced, events: seq<HubEvent>)
    requires GapFree(t)
    ensures GapFree(TracedRun(t, events))
    ensures t.sent <= TracedRun(t, events).sent && t.since <= TracedRun(t, events).since
    ensures forall i :: 0 <= i < |t.since| && i in TracedRun(t, events).hub.listed ==> i in t.hub.listed
    decreases |events|
  {
    if events != [] {
      var next := TracedStep(t, events[0]);
      if events[0].Notify? {
        NotifyKeepsGapFree(t, events[0].notification);
        BroadcastEffect(t.hub.(listed := []), t.hub.listed, events[0].notification);
      } else {
        ReceiverKeepsGapFree(t, events[0]);
      }
      NotificationsAreGapFree(next, events[1..]);
    }
  }

  lemma StartsGapFree()
    ensures GapFree(Traced(NO_SUBSCRIBERS, [], [])) && OneWay(NO_UIDS) && Bijective(NO_UIDS)
  {
  }
}
