/** What the registry hands out over whole runs: UIDs and UID validities, never twice the same.
    The standard is section 2.3.1.1 of RFC 3501. */
module UidHistory {
  import opened Collections
  import opened Registry

  // ----- Histories -----

  datatype Issue = Issue(key: MailboxKey, uidValidity: U32, uid: U32)

  /** What one command hands out. */
  function Issued(r: Registry, cmd: Command): seq<Issue> {
    if cmd.GetNextUid? && (cmd.username, cmd.name) in r.mailboxes then
      var info := r.mailboxes[(cmd.username, cmd.name)];
      [Issue((cmd.username, cmd.name), info.uidValidity, info.nextUid)]
    else []
  }

  function IssueLog(r: Registry, cmds: seq<Command>): seq<Issue>
    decreases |cmds|
  {
    if cmds == [] || cmds[0].Shutdown? then []
    else Issued(r, cmds[0]) + IssueLog(Step(r, cmds[0]).0, cmds[1..])
  }

  /** The validities given to created mailboxes, in order of creation. */
  function ValidityLog(r: Registry, cmds: seq<Command>): seq<U32>
    decreases |cmds|
  {
    if cmds == [] || cmds[0].Shutdown? then []
    else
      var (after, reply) := Step(r, cmds[0]);
      (if reply.Info? then [reply.info.uidValidity] else []) + ValidityLog(after, cmds[1..])
  }

  /** The UIDs issued for one mailbox under one validity, in order. */
  function UidsOf(log: seq<Issue>, key: MailboxKey, uidValidity: U32): seq<U32> {
    if log == [] then []
    else (if log[0].key == key && log[0].uidValidity == uidValidity then [log[0].uid] else [])
         + UidsOf(log[1..], key, uidValidity)
  }

  lemma {:induction false} UidsOfConcat(a: seq<Issue>, b: seq<Issue>, key: MailboxKey, v: U32)
    ensures UidsOf(a + b, key, v) == UidsOf(a, key, v) + UidsOf(b, key, v)
  {
    if a == [] {
      assert a + b == b;
    } else {
      assert (a + b)[1..] == a[1..] + b;
      UidsOfConcat(a[1..], b, key, v);
    }
  }

  /** 1, 2, 3, … without gaps. */
  predicate CountsUp(uids: seq<U32>) {
    forall i :: 0 <= i < |uids| ==> uids[i] == i + 1
  }

  /** Every counter stands one past the number of UIDs issued under its validity. */
  ghost predicate Counted(mailboxes: map<MailboxKey, MailboxInfo>, log: seq<Issue>) {
    forall key :: key in mailboxes ==> |UidsOf(log, key, mailboxes[key].uidValidity)| + 1 == mailboxes[key].nextUid
  }

  /** The registry agrees with everything issued so far. */
  ghost predicate Consistent(r: Registry, log: seq<Issue>) {
    && Inverse(r)
    && (forall key :: key in r.mailboxes ==> r.mailboxes[key].uidValidity < r.nextUidValidity)
    && Counted(r.mailboxes, log)
    && (forall e :: e in log ==> e.uidValidity < r.nextUidValidity && e.uid + 1 < U32_LIMIT)
    && (forall key, v :: CountsUp(UidsOf(log, key, v)))
  }

  lemma {:induction false} NothingIssuedYet(log: seq<Issue>, key: MailboxKey, v: U32)
    requires forall e :: e in log ==> e.uidValidity < v
    ensures UidsOf(log, key, v) == []
  {
    if log != [] {
      assert log[0] in log;
      NothingIssuedYet(log[1..], key, v);
    }
  }

  lemma UidsOfOne(log: seq<Issue>, e: Issue, key: MailboxKey, v: U32)
    ensures UidsOf(log + [e], key, v)
         == UidsOf(log, key, v) + (if key == e.key && v == e.uidValidity then [e.uid] else [])
  {
    UidsOfConcat(log, [e], key, v);
    assert [e][1..] == [];
  }

  lemma AppendNextUid(log: seq<Issue>, e: Issue)
    requires forall key, v :: CountsUp(UidsOf(log, key, v))
    requires |UidsOf(log, e.key, e.uidValidity)| + 1 == e.uid
    ensures forall key, v :: CountsUp(UidsOf(log + [e], key, v))
  {
    forall key, v
      ensures CountsUp(UidsOf(log + [e], key, v))
    {
      UidsOfOne(log, e, key, v);
      assert CountsUp(UidsOf(log, key, v));
    }
  }

  lemma CountedAfterIssue(before: map<MailboxKey, MailboxInfo>, log: seq<Issue>, e: Issue)
    requires Counted(before, log) && e.key in before && e.uid + 1 < U32_LIMIT
    requires e.uidValidity == before[e.key].uidValidity && e.uid == before[e.key].nextUid
    ensures Counted(before[e.key := before[e.key].(nextUid := Succ(e.uid))], log + [e])
  {
    var after := before[e.key := before[e.key].(nextUid := Succ(e.uid))];
    forall key | key in after
      ensures |UidsOf(log + [e], key, after[key].uidValidity)| + 1 == after[key].nextUid
    {
      UidsOfOne(log, e, key, before[key].uidValidity);
    }
  }

  /** Handing out the next UID extends one mailbox's sequence by its next number. */
  lemma IssueKeepsConsistent(r: Registry, log: seq<Issue>, username: string, name: string)
    requires Consistent(r, log) && Regular(r, GetNextUid(username, name)) && (username, name) in r.mailboxes
    ensures var cmd := GetNextUid(username, name);
      Consistent(Step(r, cmd).0, log + Issued(r, cmd))
  {
    var cmd, info := GetNextUid(username, name), r.mailboxes[(username, name)];
    var e := Issue((username, name), info.uidValidity, info.nextUid);
    StepKeepsInverse(r, cmd);
    assert Issued(r, cmd) == [e];
    IssuedIsConsistent(r, Step(r, cmd).0, log, e);
  }

  lemma IssuedIsConsistent(r: Registry, r': Registry, log: seq<Issue>, e: Issue)
    requires Consistent(r, log) && Inverse(r') && e.key in r.mailboxes && e.uid + 1 < U32_LIMIT
    requires e.uidValidity == r.mailboxes[e.key].uidValidity && e.uid == r.mailboxes[e.key].nextUid
    requires r'.mailboxes == r.mailboxes[e.key := r.mailboxes[e.key].(nextUid := Succ(e.uid))]
    requires r'.nextUidValidity == r.nextUidValidity
    ensures Consistent(r', log + [e])
  {
    CountedAfterIssue(r.mailboxes, log, e);
    AppendNextUid(log, e);
  }

  /** A created mailbox has a validity under which nothing was issued. */
  lemma CreateKeepsConsistent(r: Registry, log: seq<Issue>, username: string, name: string)
    requires Consistent(r, log) && Regular(r, Create(username, name)) && (username, name) !in r.mailboxes
    ensures Consistent(Step(r, Create(username, name)).0, log)
  {
    StepKeepsInverse(r, Create(username, name));
    NothingIssuedYet(log, (username, name), r.nextUidValidity);
  }

  lemma StepKeepsConsistent(r: Registry, log: seq<Issue>, cmd: Command)
    requires Consistent(r, log) && Regular(r, cmd)
    ensures Consistent(Step(r, cmd).0, log + Issued(r, cmd))
  {
    assert log + [] == log;
    match cmd
    case Create(username, name) =>
      if (username, name) !in r.mailboxes {
        CreateKeepsConsistent(r, log, username, name);
      }
    case GetNextUid(username, name) =>
      if (username, name) in r.mailboxes {
        IssueKeepsConsistent(r, log, username, name);
      }
    case Delete(_, _) =>
      StepKeepsInverse(r, cmd);
    case UpdateCounts(_, _, _, _) =>
      StepKeepsInverse(r, cmd);
    case Shutdown =>
  }

  lemma IssueLogSplits(r: Registry, log: seq<Issue>, cmds: seq<Command>)
    requires cmds != [] && !cmds[0].Shutdown?
    ensures (log + Issued(r, cmds[0])) + IssueLog(Step(r, cmds[0]).0, cmds[1..]) == log + IssueLog(r, cmds)
  {
    Associative(log, Issued(r, cmds[0]), IssueLog(Step(r, cmds[0]).0, cmds[1..]));
  }

  lemma Associative(a: seq<Issue>, b: seq<Issue>, c: seq<Issue>)
    ensures (a + b) + c == a + (b + c)
  {
  }

  lemma {:induction false} RunKeepsConsistent(r: Registry, log: seq<Issue>, cmds: seq<Command>)
    requires Consistent(r, log) && RegularRun(r, cmds)
    ensures Consistent(Run(r, cmds).0, log + IssueLog(r, cmds))
    decreases |cmds|
  {
    if cmds == [] || cmds[0].Shutdown? {
      assert log + [] == log;
    } else {
      StepKeepsConsistent(r, log, cmds[0]);
      var after := Step(r, cmds[0]).0;
      RunKeepsConsistent(after, log + Issued(r, cmds[0]), cmds[1..]);
      IssueLogSplits(r, log, cmds);
    }
  }

  // ----- Never reissued -----

  /** The mailbox's counter is past everything issued under its validity. */
  predicate Past(info: MailboxInfo, key: MailboxKey, log: seq<Issue>) {
    forall e :: e in log && e.key == key && e.uidValidity == info.uidValidity ==> e.uid < info.nextUid
  }

  /** Nothing was issued twice so far, and validities and UIDs are within the counters. */
  ghost predicate Bounded(r: Registry, log: seq<Issue>) {
    && Inverse(r) && Distinct(log)
    && (forall key :: key in r.mailboxes ==> r.mailboxes[key].uidValidity < r.nextUidValidity)
    && (forall e :: e in log ==> e.uidValidity < r.nextUidValidity && e.uid + 1 < U32_LIMIT)
  }

  ghost predicate AllPast(r: Registry, log: seq<Issue>) {
    forall key :: key in r.mailboxes ==> Past(r.mailboxes[key], key, log)
  }

  ghost predicate Ahead(r: Registry, log: seq<Issue>) {
    Bounded(r, log) && AllPast(r, log)
  }

  /** The guard on a command, given what was issued: it exhausts no counter, and what it sets by
      hand is past the issues under the mailbox's validity. */
  predicate Safe(r: Registry, log: seq<Issue>, cmd: Command) {
    match cmd
    case UpdateNextUid(id, nextUid) =>
      id in r.idToKey && r.idToKey[id] in r.mailboxes ==>
        Past(r.mailboxes[r.idToKey[id]].(nextUid := nextUid), r.idToKey[id], log)
    case UpdateUidValidity(id, v) =>
      id in r.idToKey && r.idToKey[id] in r.mailboxes ==>
        v < r.nextUidValidity && Past(r.mailboxes[r.idToKey[id]].(uidValidity := v), r.idToKey[id], log)
    case _ => Regular(r, cmd)
  }

  predicate SafeRun(r: Registry, log: seq<Issue>, cmds: seq<Command>)
    decreases |cmds|
  {
    cmds == [] || cmds[0].Shutdown?
    || (Safe(r, log, cmds[0]) && SafeRun(Step(r, cmds[0]).0, log + Issued(r, cmds[0]), cmds[1..]))
  }

  /** Replacing a mailbox's entry by one that is past the same issues. */
  lemma ReplacedEntry(r: Registry, r': Registry, log: seq<Issue>, key: MailboxKey, info: MailboxInfo)
    requires Ahead(r, log) && Inverse(r') && r'.mailboxes == r.mailboxes[key := info]
    requires r'.nextUidValidity >= r.nextUidValidity && info.uidValidity < r'.nextUidValidity
    requires Past(info, key, log)
    ensures Ahead(r', log)
  {
  }

  lemma AmendKeepsAhead(r: Registry, log: seq<Issue>, id: MailboxId, change: MailboxInfo -> MailboxInfo)
    requires Ahead(r, log) && forall info :: change(info).id == info.id
    requires id in r.idToKey ==>
      var key := r.idToKey[id];
      var info := change(r.mailboxes[key]);
      info.uidValidity < r.nextUidValidity && Past(info, key, log)
    ensures Ahead(Amend(r, id, change).0, log)
  {
    AmendKeepsInverse(r, id, change);
    if id in r.idToKey {
      var key := r.idToKey[id];
      ReplacedEntry(r, Amend(r, id, change).0, log, key, change(r.mailboxes[key]));
    }
  }

  lemma IssueKeepsAhead(r: Registry, log: seq<Issue>, username: string, name: string)
    requires Ahead(r, log) && (username, name) in r.mailboxes && Regular(r, GetNextUid(username, name))
    ensures var cmd := GetNextUid(username, name);
      Ahead(Step(r, cmd).0, log + Issued(r, cmd))
  {
    var cmd, key := GetNextUid(username, name), (username, name);
    StepKeepsInverse(r, cmd);
    var info, after, e := r.mailboxes[key], Step(r, cmd).0, Issued(r, cmd)[0];
    assert log + Issued(r, cmd) == log + [e];
    DistinctSnoc(log, e);
    assert Past(info, key, log);
    forall k | k in after.mailboxes
      ensures Past(after.mailboxes[k], k, log + [e])
    {
      assert Past(r.mailboxes[k], k, log);
    }
  }

  lemma StepKeepsAhead(r: Registry, log: seq<Issue>, cmd: Command)
    requires Ahead(r, log) && Safe(r, log, cmd)
    ensures Ahead(Step(r, cmd).0, log + Issued(r, cmd))
  {
    assert log + [] == log;
    match cmd
    case Create(username, name) =>
      if (username, name) !in r.mailboxes {
        StepKeepsInverse(r, cmd);
        ReplacedEntry(r, Step(r, cmd).0, log, (username, name), NewInfo(username, name, r.nextUidValidity));
      }
    case GetNextUid(username, name) =>
      if (username, name) in r.mailboxes {
        IssueKeepsAhead(r, log, username, name);
      }
    case Delete(_, _) =>
      StepKeepsInverse(r, cmd);
    case UpdateNextUid(id, nextUid) =>
      AmendKeepsAhead(r, log, id, (info: MailboxInfo) => info.(nextUid := nextUid));
    case UpdateUidValidity(id, v) =>
      AmendKeepsAhead(r, log, id, (info: MailboxInfo) => info.(uidValidity := v));
    case UpdateCounts(id, m, u, c) =>
      AmendKeepsAhead(r, log, id, (info: MailboxInfo) => info.(messageCount := m, unseenCount := u, recentCount := c));
    case Shutdown =>
  }

  lemma {:induction false} RunKeepsAhead(r: Registry, log: seq<Issue>, cmds: seq<Command>)
    requires Ahead(r, log) && SafeRun(r, log, cmds)
    ensures Ahead(Run(r, cmds).0, log + IssueLog(r, cmds))
    decreases |cmds|
  {
    if cmds == [] || cmds[0].Shutdown? {
      assert log + [] == log;
    } else {
      StepKeepsAhead(r, log, cmds[0]);
      RunKeepsAhead(Step(r, cmds[0]).0, log + Issued(r, cmds[0]), cmds[1..]);
      IssueLogSplits(r, log, cmds);
    }
  }

  lemma {:induction false} RegularRunsAreSafe(r: Registry, log: seq<Issue>, cmds: seq<Command>)
    requires RegularRun(r, cmds)
    ensures SafeRun(r, log, cmds)
    decreases |cmds|
  {
    if cmds != [] && !cmds[0].Shutdown? {
      RegularRunsAreSafe(Step(r, cmds[0]).0, log + Issued(r, cmds[0]), cmds[1..]);
    }
  }

  /** No (mailbox, validity, uid) is ever handed out twice, over every run of the registry from
      its start whose hand updates are safe; and without hand updates the UIDs under each validity
      are 1, 2, 3, … without gaps. */
  lemma UidsAreNeverReissued(cmds: seq<Command>)
    requires SafeRun(EMPTY, [], cmds)
    ensures Inverse(Run(EMPTY, cmds).0)
    ensures Distinct(IssueLog(EMPTY, cmds))
    ensures RegularRun(EMPTY, cmds) ==> forall key, v :: CountsUp(UidsOf(IssueLog(EMPTY, cmds), key, v))
  {
    var log := IssueLog(EMPTY, cmds);
    assert [] + log == log;
    RunKeepsAhead(EMPTY, [], cmds);
    if RegularRun(EMPTY, cmds) {
      RunKeepsConsistent(EMPTY, [], cmds);
    }
  }

  predicate CreationFits(r: Registry, cmds: seq<Command>)
    decreases |cmds|
  {
    cmds == [] || cmds[0].Shutdown?
    || ((cmds[0].Create? ==> r.nextUidValidity + 1 < U32_LIMIT) && CreationFits(Step(r, cmds[0]).0, cmds[1..]))
  }

  /** Every creation gets a strictly larger validity than all creations before it, whatever is set
      by hand, so a re-created mailbox never repeats one it was created with. */
  lemma {:induction false} ValiditiesIncrease(r: Registry, cmds: seq<Command>)
    requires CreationFits(r, cmds)
    ensures forall i :: 0 <= i < |ValidityLog(r, cmds)| ==> ValidityLog(r, cmds)[i] == r.nextUidValidity + i
    decreases |cmds|
  {
    if cmds != [] && !cmds[0].Shutdown? {
      ValiditiesIncrease(Step(r, cmds[0]).0, cmds[1..]);
    }
  }

  // ----- A guard that does not look at the history -----

  /** Hand updates that lower nothing; a validity is raised no further than those given out. */
  predicate Raising(r: Registry, cmd: Command) {
    match cmd
    case UpdateNextUid(id, nextUid) =>
      id in r.idToKey && r.idToKey[id] in r.mailboxes ==> r.mailboxes[r.idToKey[id]].nextUid <= nextUid
    case UpdateUidValidity(id, v) =>
      id in r.idToKey && r.idToKey[id] in r.mailboxes ==>
        r.mailboxes[r.idToKey[id]].uidValidity <= v < r.nextUidValidity
    case _ => Regular(r, cmd)
  }

  predicate RaisingRun(r: Registry, cmds: seq<Command>)
    decreases |cmds|
  {
    cmds == [] || cmds[0].Shutdown? || (Raising(r, cmds[0]) && RaisingRun(Step(r, cmds[0]).0, cmds[1..]))
  }

  /** A mailbox's validity is the newest it ever issued under. */
  ghost predicate Newest(r: Registry, log: seq<Issue>) {
    forall e :: e in log && e.key in r.mailboxes ==> e.uidValidity <= r.mailboxes[e.key].uidValidity
  }

  lemma RaisingIsSafe(r: Registry, log: seq<Issue>, cmd: Command)
    requires Ahead(r, log) && Newest(r, log) && Raising(r, cmd)
    ensures Safe(r, log, cmd)
  {
    if cmd.UpdateNextUid? || cmd.UpdateUidValidity? {
      if cmd.id in r.idToKey {
        var key := r.idToKey[cmd.id];
        assert Past(r.mailboxes[key], key, log);
      }
    }
  }

  lemma RaisingKeepsNewest(r: Registry, log: seq<Issue>, cmd: Command)
    requires Bounded(r, log) && Newest(r, log) && Raising(r, cmd)
    ensures Newest(Step(r, cmd).0, log + Issued(r, cmd))
  {
  }

  /** Runs that only raise are safe, and so never reissue. */
  lemma {:induction false} RaisingRunsAreSafe(r: Registry, log: seq<Issue>, cmds: seq<Command>)
    requires Ahead(r, log) && Newest(r, log) && RaisingRun(r, cmds)
    ensures SafeRun(r, log, cmds)
    decreases |cmds|
  {
    if cmds != [] && !cmds[0].Shutdown? {
      RaisingIsSafe(r, log, cmds[0]);
      StepKeepsAhead(r, log, cmds[0]);
      RaisingKeepsNewest(r, log, cmds[0]);
      RaisingRunsAreSafe(Step(r, cmds[0]).0, log + Issued(r, cmds[0]), cmds[1..]);
    }
  }

  // ----- Where the guarantee ends -----

  function Repeat(cmd: Command, n: nat): (cmds: seq<Command>)
    ensures |cmds| == n
  {
    if n == 0 then [] else [cmd] + Repeat(cmd, n - 1)
  }

  predicate RepeatedLog(log: seq<Issue>, key: MailboxKey, info: MailboxInfo, n: nat) {
    && |log| == n
    && forall i {:trigger log[i]} :: 0 <= i < n ==>
         log[i] == Issue(key, info.uidValidity, (info.nextUid + i) % U32_LIMIT)
  }

  lemma SuccWraps(u: U32, i: nat)
    ensures (Succ(u) + i) % U32_LIMIT == (u + (i + 1)) % U32_LIMIT
  {
  }

  lemma RepeatedLogExtends(rest: seq<Issue>, key: MailboxKey, info: MailboxInfo, n: nat)
    requires RepeatedLog(rest, key, info.(nextUid := Succ(info.nextUid)), n)
    ensures RepeatedLog([Issue(key, info.uidValidity, info.nextUid)] + rest, key, info, n + 1)
  {
    var log := [Issue(key, info.uidValidity, info.nextUid)] + rest;
    forall i | 0 <= i < n + 1
      ensures log[i] == Issue(key, info.uidValidity, (info.nextUid + i) % U32_LIMIT)
    {
      if i > 0 {
        assert log[i] == rest[i - 1];
        SuccWraps(info.nextUid, i - 1);
      }
    }
  }

  lemma {:induction false} RepeatedIssues(r: Registry, username: string, name: string, n: nat)
    requires (username, name) in r.mailboxes
    ensures RepeatedLog(IssueLog(r, Repeat(GetNextUid(username, name), n)), (username, name),
                        r.mailboxes[(username, name)], n)
    decreases n
  {
    if n > 0 {
      var cmd := GetNextUid(username, name);
      var cmds := Repeat(cmd, n);
      assert cmds[0] == cmd && cmds[1..] == Repeat(cmd, n - 1);
      var after := Step(r, cmd).0;
      RepeatedIssues(after, username, name, n - 1);
      RepeatedLogExtends(IssueLog(after, cmds[1..]), (username, name), r.mailboxes[(username, name)], n - 1);
    }
  }

  /** Drawing `n` UIDs from one mailbox repeats none exactly as long as the 32-bit counter
      has not gone full circle. */
  lemma CounterExhaustion(r: Registry, username: string, name: string, n: nat)
    requires (username, name) in r.mailboxes
    ensures Distinct(IssueLog(r, Repeat(GetNextUid(username, name), n))) <==> n <= 0x1_0000_0000
  {
    RepeatedIssues(r, username, name, n);
    RepeatedLogDistinct(IssueLog(r, Repeat(GetNextUid(username, name), n)), (username, name),
                        r.mailboxes[(username, name)], n);
  }

  lemma RepeatedLogDistinct(log: seq<Issue>, key: MailboxKey, info: MailboxInfo, n: nat)
    requires RepeatedLog(log, key, info, n)
    ensures Distinct(log) <==> n <= U32_LIMIT
  {
    var u := info.nextUid;
    if n > U32_LIMIT {
      assert (u + U32_LIMIT) % U32_LIMIT == u % U32_LIMIT;
      assert log[0] == log[U32_LIMIT];
    } else {
      forall i, j | 0 <= i < j < n
        ensures log[i] != log[j]
      {
        WrapDistinct(u + i, u + j);
      }
    }
  }

  lemma WrapDistinct(x: nat, y: nat)
    requires x < y < x + U32_LIMIT
    ensures x % U32_LIMIT != y % U32_LIMIT
  {
  }

  // ----- Setting a counter by hand, exactly -----

  /** An issue is in the log exactly if its UID is among those of its mailbox and validity. */
  lemma {:induction false} InLogExactly(log: seq<Issue>, e: Issue)
    ensures e in log <==> e.uid in UidsOf(log, e.key, e.uidValidity)
  {
    if log != [] {
      InLogExactly(log[1..], e);
      assert e in log <==> e == log[0] || e in log[1..];
    }
  }

  lemma CountedExactly(uids: seq<U32>, uid: U32)
    requires CountsUp(uids)
    ensures uid in uids <==> 1 <= uid <= |uids|
  {
    if 1 <= uid <= |uids| {
      assert uids[uid - 1] == uid;
    }
  }

  /** Whatever happens next, short of exhausting a counter and of further hand updates, nothing is
      issued twice. */
  ghost predicate NeverReissues(r: Registry, log: seq<Issue>) {
    forall cmds :: RegularRun(r, cmds) ==> Distinct(log + IssueLog(r, cmds))
  }

  lemma AheadNeverReissues(r: Registry, log: seq<Issue>)
    requires Ahead(r, log)
    ensures NeverReissues(r, log)
  {
    forall cmds | RegularRun(r, cmds)
      ensures Distinct(log + IssueLog(r, cmds))
    {
      RegularRunsAreSafe(r, log, cmds);
      RunKeepsAhead(r, log, cmds);
    }
  }

  /** What can be reissued after a step can be reissued before it. */
  lemma StepBack(r: Registry, log: seq<Issue>, cmd: Command)
    requires Regular(r, cmd) && !cmd.Shutdown? && !NeverReissues(Step(r, cmd).0, log + Issued(r, cmd))
    ensures !NeverReissues(r, log)
  {
    var rest :| RegularRun(Step(r, cmd).0, rest)
                && !Distinct((log + Issued(r, cmd)) + IssueLog(Step(r, cmd).0, rest));
    var cmds := [cmd] + rest;
    assert cmds[1..] == rest;
    IssueLogSplits(r, log, cmds);
    assert RegularRun(r, cmds);
  }

  lemma AlreadyReissued(r: Registry, log: seq<Issue>)
    requires !Distinct(log)
    ensures !NeverReissues(r, log)
  {
    assert RegularRun(r, []) && log + IssueLog(r, []) == log;
  }

  /** An issue that the counter has still to come past is drawn again. */
  lemma {:induction false} DrawsReissue(r: Registry, log: seq<Issue>, e: Issue)
    requires e in log && e.key in r.mailboxes && e.uid + 1 < U32_LIMIT
    requires r.mailboxes[e.key].uidValidity == e.uidValidity && r.mailboxes[e.key].nextUid <= e.uid
    ensures !NeverReissues(r, log)
    decreases e.uid - r.mailboxes[e.key].nextUid
  {
    var cmd, info := GetNextUid(e.key.0, e.key.1), r.mailboxes[e.key];
    assert Issued(r, cmd) == [Issue(e.key, info.uidValidity, info.nextUid)];
    if info.nextUid == e.uid {
      DistinctSnoc(log, e);
      AlreadyReissued(Step(r, cmd).0, log + Issued(r, cmd));
    } else {
      DrawsReissue(Step(r, cmd).0, log + Issued(r, cmd), e);
    }
    StepBack(r, log, cmd);
  }

  /** A registry never reissues if and only if every mailbox's counter is past what was issued
      under its validity. */
  lemma NeverReissuesExactly(r: Registry, log: seq<Issue>)
    requires Bounded(r, log)
    ensures NeverReissues(r, log) <==> AllPast(r, log)
  {
    if AllPast(r, log) {
      AheadNeverReissues(r, log);
    } else {
      var key :| key in r.mailboxes && !Past(r.mailboxes[key], key, log);
      var e :| e in log && e.key == key && e.uidValidity == r.mailboxes[key].uidValidity
               && e.uid >= r.mailboxes[key].nextUid;
      DrawsReissue(r, log, e);
    }
  }

  /** A hand update keeps the promise if and only if it is safe; a validity not yet given out is
      the subject of `FutureValidityIsReissued`. */
  lemma HandUpdateIsExact(r: Registry, log: seq<Issue>, cmd: Command)
    requires Ahead(r, log) && (cmd.UpdateNextUid? || (cmd.UpdateUidValidity? && cmd.uidValidity < r.nextUidValidity))
    ensures NeverReissues(Step(r, cmd).0, log) <==> Safe(r, log, cmd)
  {
    StepKeepsInverse(r, cmd);
    HandUpdateKeepsBounded(r, log, cmd);
    NeverReissuesExactly(Step(r, cmd).0, log);
    HandUpdateIsPast(r, log, cmd);
  }

  lemma HandUpdateKeepsBounded(r: Registry, log: seq<Issue>, cmd: Command)
    requires Bounded(r, log) && Inverse(Step(r, cmd).0)
    requires cmd.UpdateNextUid? || (cmd.UpdateUidValidity? && cmd.uidValidity < r.nextUidValidity)
    ensures Bounded(Step(r, cmd).0, log)
  {
  }

  lemma HandUpdateIsPast(r: Registry, log: seq<Issue>, cmd: Command)
    requires Inverse(r) && AllPast(r, log)
    requires cmd.UpdateNextUid? || (cmd.UpdateUidValidity? && cmd.uidValidity < r.nextUidValidity)
    ensures AllPast(Step(r, cmd).0, log) <==> Safe(r, log, cmd)
  {
    var after := Step(r, cmd).0;
    if cmd.id in r.idToKey {
      var key := r.idToKey[cmd.id];
      assert forall k :: k in after.mailboxes && k != key ==> after.mailboxes[k] == r.mailboxes[k];
      assert AllPast(after, log) ==> Past(after.mailboxes[key], key, log);
    }
  }

  /** When UIDs count up, a counter is past them exactly if it exceeds their number or there are none. */
  lemma PastExactly(log: seq<Issue>, info: MailboxInfo, key: MailboxKey)
    requires CountsUp(UidsOf(log, key, info.uidValidity))
    ensures var n := |UidsOf(log, key, info.uidValidity)|;
      Past(info, key, log) <==> n == 0 || n < info.nextUid
  {
    var uids := UidsOf(log, key, info.uidValidity);
    forall e | e in log && e.key == key && e.uidValidity == info.uidValidity
      ensures 1 <= e.uid <= |uids|
    {
      InLogExactly(log, e);
      CountedExactly(uids, e.uid);
    }
    if |uids| > 0 {
      var last := Issue(key, info.uidValidity, uids[|uids| - 1]);
      InLogExactly(log, last);
    }
  }

  lemma ConsistentIsAhead(r: Registry, log: seq<Issue>)
    requires Consistent(r, log) && Distinct(log)
    ensures Ahead(r, log)
  {
    forall key | key in r.mailboxes
      ensures Past(r.mailboxes[key], key, log)
    {
      assert CountsUp(UidsOf(log, key, r.mailboxes[key].uidValidity));
      PastExactly(log, r.mailboxes[key], key);
    }
  }

  /** In a registry without hand updates before: setting the next UID to `n` never leads to a
      reissue if and only if `n` does not lower the counter or nothing was issued yet. */
  lemma HandSetUidIsExact(r: Registry, log: seq<Issue>, id: MailboxId, n: U32)
    requires Consistent(r, log) && Distinct(log) && id in r.idToKey
    ensures NeverReissues(Step(r, UpdateNextUid(id, n)).0, log)
       <==> n >= r.mailboxes[r.idToKey[id]].nextUid || r.mailboxes[r.idToKey[id]].nextUid == 1
  {
    var key := r.idToKey[id];
    var info := r.mailboxes[key];
    ConsistentIsAhead(r, log);
    HandUpdateIsExact(r, log, UpdateNextUid(id, n));
    assert CountsUp(UidsOf(log, key, info.uidValidity));
    PastExactly(log, info.(nextUid := n), key);
  }

  /** And setting the validity to one already given out never leads to a reissue if and only if
      fewer UIDs than the counter stands at were issued under it. */
  lemma HandSetValidityIsExact(r: Registry, log: seq<Issue>, id: MailboxId, v: U32)
    requires Consistent(r, log) && Distinct(log) && id in r.idToKey && v < r.nextUidValidity
    ensures NeverReissues(Step(r, UpdateUidValidity(id, v)).0, log)
       <==> |UidsOf(log, r.idToKey[id], v)| < r.mailboxes[r.idToKey[id]].nextUid
  {
    var key := r.idToKey[id];
    ConsistentIsAhead(r, log);
    HandUpdateIsExact(r, log, UpdateUidValidity(id, v));
    assert CountsUp(UidsOf(log, key, v));
    PastExactly(log, r.mailboxes[key].(uidValidity := v), key);
  }

  /** Deleting and creating a mailbox again and again gives it any later validity, and with it an
      issue made ahead of time. */
  lemma {:induction false} RecreationReissues(r: Registry, log: seq<Issue>, e: Issue)
    requires e in log && e.key in r.mailboxes && 1 <= e.uid && e.uid + 1 < U32_LIMIT
    requires r.nextUidValidity <= e.uidValidity && e.uidValidity + 1 < U32_LIMIT
    ensures !NeverReissues(r, log)
    decreases e.uidValidity - r.nextUidValidity
  {
    var delete, create := Delete(e.key.0, e.key.1), Create(e.key.0, e.key.1);
    var deleted := Step(r, delete).0;
    var created := Step(deleted, create).0;
    assert Issued(r, delete) == [] && Issued(deleted, create) == [] && log + [] == log;
    assert created.mailboxes[e.key] == NewInfo(e.key.0, e.key.1, r.nextUidValidity);
    if r.nextUidValidity == e.uidValidity {
      DrawsReissue(created, log, e);
    } else {
      RecreationReissues(created, log, e);
    }
    StepBack(deleted, log, create);
    StepBack(r, log, delete);
  }

  /** A validity set ahead of those given out is reissued: by the mailbox itself, re-created. */
  lemma FutureValidityIsReissued(r: Registry, log: seq<Issue>, id: MailboxId, v: U32)
    requires Inverse(r) && id in r.idToKey && r.nextUidValidity <= v && v + 1 < U32_LIMIT
    requires var n := r.mailboxes[r.idToKey[id]].nextUid; 1 <= n && n + 1 < U32_LIMIT
    ensures !NeverReissues(Step(r, UpdateUidValidity(id, v)).0, log)
  {
    var key, after := r.idToKey[id], Step(r, UpdateUidValidity(id, v)).0;
    var cmd, e := GetNextUid(key.0, key.1), Issue(key, v, r.mailboxes[key].nextUid);
    assert Issued(after, cmd) == [e];
    RecreationReissues(Step(after, cmd).0, log + [e], e);
    StepBack(after, log, cmd);
  }

  /** Lowering a counter by hand reissues a UID, so `update_next_uid` is outside the guarantee. */
  lemma LoweringNextUidReissues()
    ensures var cmds := [Create("alice", "INBOX"), GetNextUid("alice", "INBOX"),
                         UpdateNextUid(MailboxId("alice", "INBOX"), 1), GetNextUid("alice", "INBOX")];
      var log := IssueLog(EMPTY, cmds);
      |log| == 2 && log[0] == log[1]
  {
  }
}
