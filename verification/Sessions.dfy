/** Any number of sessions sharing one registry, their lines interleaved in any order. */
module Sessions {
  import opened Text
  import opened Collections
  import opened Protocol
  import opened CommandHandlers
  import opened Session
  import Registry

  /** A session and what happened in it: responses sent, tags of the lines handled, tags
      accepted, users whose LOGIN succeeded. */
  datatype Client = Client(
    connection: Connection,
    sent: seq<Response>,
    handled: seq<string>,
    accepted: seq<string>,
    logins: seq<string>)

  datatype System = System(registry: Registry.Registry, clients: seq<Client>)

  /** Other components use the registry too, but they neither create nor delete. */
  datatype Action = Connect(isTls: bool) | Handle(i: nat, line: Line) | Background(command: Registry.Command)

  predicate Enabled(s: System, act: Action) {
    match act
    case Connect(_) => true
    case Handle(i, _) => i < |s.clients| && s.clients[i].connection.open
    case Background(command) => !command.Create? && !command.Delete?
  }

  function TagOfLine(line: Line): Option<string> {
    match SplitTag(line.text) case None => None case Some((tag, _)) => Some(tag)
  }

  function AcceptedTag(c: Connection, line: Line): Option<string> {
    match TagOfLine(line)
    case None => None
    case Some(tag) => if TagError(c.tags, DEFAULT_MAX_TAG_HISTORY, tag) == None then Some(tag) else None
  }

  function LoginBy(h: Handler, args: string, line: Line): Option<string> {
    if !h.LoginHandler? then None
    else match LoginArgs(args)
      case None => None
      case Some((username, password)) =>
        if line.authenticate(username, password).Accepted? then Some(username) else None
  }

  /** The user a command logs in: it reaches the LOGIN handler with two words the
      authenticator accepts. */
  function LoginOfCommand(server: Server, command: Command, line: Line): Option<string> {
    match NameAndArgs(command)
    case None => None
    case Some((name, args)) =>
      if server.upper(name) in server.handlers then LoginBy(server.handlers[server.upper(name)], args, line) else None
  }

  function LoginOf(server: Server, c: Connection, line: Line): Option<string> {
    if AcceptedTag(c, line) == None then None
    else match ParseCommand(server.upper, SplitTag(line.text).value.1)
      case Malformed(_) => None
      case Parsed(command) => LoginOfCommand(server, command, line)
  }

  function AsSeq<T>(o: Option<T>): seq<T> {
    match o case None => [] case Some(x) => [x]
  }

  function HandleClient(server: Server, client: Client, line: Line, o: LineOutcome): Client {
    Client(o.connection,
           client.sent + o.responses,
           client.handled + AsSeq(TagOfLine(line)),
           client.accepted + AsSeq(AcceptedTag(client.connection, line)),
           client.logins + AsSeq(LoginOf(server, client.connection, line)))
  }

  function Step(server: Server, s: System, act: Action): System
    requires Enabled(s, act)
  {
    match act
    case Connect(isTls) => s.(clients := s.clients + [Client(Opened(isTls), [GREETING], [], [], [])])
    case Handle(i, line) =>
      var o := HandleLine(server, s.clients[i].connection, line, s.registry);
      System(o.registry, s.clients[i := HandleClient(server, s.clients[i], line, o)])
    case Background(command) => s.(registry := Registry.Step(s.registry, command).0)
  }

  predicate CanRun(server: Server, s: System, acts: seq<Action>)
    decreases |acts|
  {
    acts == [] || (Enabled(s, acts[0]) && CanRun(server, Step(server, s, acts[0]), acts[1..]))
  }

  function Run(server: Server, s: System, acts: seq<Action>): System
    requires CanRun(server, s, acts)
    decreases |acts|
  {
    if acts == [] then s else Run(server, Step(server, s, acts[0]), acts[1..])
  }

  // ----- One line -----

  lemma SingleTags(r: Response)
    ensures Tags([r]) == AsSeq(TagOf(r))
  {
    assert [r][1..] == [];
  }

  /** A line with a tag is answered by exactly one response with that tag, sent last; a line
      without one gets a single untagged BAD. */
  lemma LineCompletesOnce(server: Server, c: Connection, line: Line, r: Registry.Registry)
    ensures var responses := HandleLine(server, c, line, r).responses;
      match TagOfLine(line)
      case None => responses == [Bad(None, "Invalid command format")] && Tags(responses) == []
      case Some(tag) => CompletesOnce(tag, responses)
  {
    var responses := HandleLine(server, c, line, r).responses;
    if TagOfLine(line).Some? {
      var (tag, commandLine) := SplitTag(line.text).value;
      if AcceptedTag(c, line) == None {
        SingleTags(responses[0]);
      } else {
        TaggedCompletesOnce(server, c.(tags := c.tags + {tag}), tag, commandLine, line, r);
      }
    } else {
      SingleTags(responses[0]);
    }
  }

  lemma TaggedCompletesOnce(server: Server, c: Connection, tag: string, commandLine: string, line: Line,
                            r: Registry.Registry)
    ensures CompletesOnce(tag, HandleTagged(server, c, tag, commandLine, line, r).responses)
  {
    var responses := HandleTagged(server, c, tag, commandLine, line, r).responses;
    match ParseCommand(server.upper, commandLine)
    case Malformed(_) => SingleTags(responses[0]);
    case Parsed(command) =>
      if NameAndArgs(command) == None {
        SingleTags(responses[0]);
      } else {
        var (name, args) := NameAndArgs(command).value;
        DispatchCompletesOnce(server.upper, server.handlers, name, tag, args,
                              Context(c.state, line.authenticate, line.order), r);
      }
  }

  /** Only LOGIN changes the user: SELECT keeps it and the others ask for no new state. */
  lemma ExecuteProvenance(h: Handler, tag: string, args: string, c: Connection, line: Line, r: Registry.Registry)
    ensures var o := Execute(h, tag, args, Context(c.state, line.authenticate, line.order), r);
      var login := LoginBy(h, args, line);
      User(Apply(c, o.update).state) == if login.Some? then login else User(c.state)
  {
  }

  lemma DispatchProvenance(server: Server, command: Command, tag: string, c: Connection, line: Line,
                           r: Registry.Registry)
    requires !command.Starttls?
    ensures var o := HandleCommand(server, tag, command, Context(c.state, line.authenticate, line.order), r);
      var login := LoginOfCommand(server, command, line);
      User(Apply(c, o.update).state) == if login.Some? then login else User(c.state)
  {
    if NameAndArgs(command).Some? {
      var (name, args) := NameAndArgs(command).value;
      if server.upper(name) in server.handlers {
        ExecuteProvenance(server.handlers[server.upper(name)], tag, args, c, line, r);
      }
    }
  }

  lemma LineProvenance(server: Server, c: Connection, line: Line, r: Registry.Registry)
    ensures var login := LoginOf(server, c, line);
      User(HandleLine(server, c, line, r).connection.state) == if login.Some? then login else User(c.state)
  {
    if AcceptedTag(c, line).Some? {
      var (tag, commandLine) := SplitTag(line.text).value;
      match ParseCommand(server.upper, commandLine)
      case Malformed(_) =>
      case Parsed(command) =>
        if !command.Starttls? {
          DispatchProvenance(server, command, tag, c.(tags := c.tags + {tag}), line, r);
        }
    }
  }

  predicate IsStarttls(server: Server, c: Connection, line: Line) {
    AcceptedTag(c, line).Some? && ParseCommand(server.upper, SplitTag(line.text).value.1) == Parsed(Starttls)
  }

  /** A connection becomes encrypted by a STARTTLS that completes with OK, and by nothing else;
      such a STARTTLS needs a plain connection and an acceptor. */
  lemma LineTls(server: Server, c: Connection, line: Line, r: Registry.Registry)
    ensures var o := HandleLine(server, c, line, r);
      && o.connection.isTls == (c.isTls || (IsStarttls(server, c, line) && Succeeded(o.responses)))
      && (IsStarttls(server, c, line) ==>
            (Succeeded(o.responses) <==> !c.isTls && server.acceptor)
            && o.registry == r && o.connection.state == c.state && o.connection.open == c.open)
  {
    if AcceptedTag(c, line).Some? && !IsStarttls(server, c, line) {
      match ParseCommand(server.upper, SplitTag(line.text).value.1)
      case Malformed(_) =>
      case Parsed(command) => assert !command.Starttls?;
    }
  }

  /** The line's command is served by the LOGOUT handler. */
  predicate IsLogout(server: Server, c: Connection, line: Line) {
    AcceptedTag(c, line).Some? && AsksLogout(server, SplitTag(line.text).value.1)
  }

  /** LOGOUT, which needs no login, says goodbye, completes and ends the loop. Nothing else ends it. */
  lemma LineCloses(server: Server, c: Connection, line: Line, r: Registry.Registry)
    ensures HandleLine(server, c, line, r).connection.open <==> c.open && !IsLogout(server, c, line)
    ensures IsLogout(server, c, line) ==>
      var tag := AcceptedTag(c, line).value;
      HandleLine(server, c, line, r) == LineOutcome(c.(tags := c.tags + {tag}, open := false), r,
                                                    [Bye("Logging out"), Ok(Some(tag), "LOGOUT completed")])
  {
    if AcceptedTag(c, line).Some? {
      TaggedCloses(server, c.(tags := c.tags + {AcceptedTag(c, line).value}), AcceptedTag(c, line).value,
                   SplitTag(line.text).value.1, line, r);
    }
  }

  predicate AsksLogout(server: Server, commandLine: string) {
    match ParseCommand(server.upper, commandLine)
    case Malformed(_) => false
    case Parsed(command) =>
      NameAndArgs(command).Some?
      && var name := server.upper(NameAndArgs(command).value.0);
         name in server.handlers && server.handlers[name].LogoutHandler?
  }

  lemma TaggedCloses(server: Server, c: Connection, tag: string, commandLine: string, line: Line, r: Registry.Registry)
    ensures var o := HandleTagged(server, c, tag, commandLine, line, r);
      && (o.connection.open <==> c.open && !AsksLogout(server, commandLine))
      && (AsksLogout(server, commandLine) ==>
            o == LineOutcome(c.(open := false), r, [Bye("Logging out"), Ok(Some(tag), "LOGOUT completed")]))
  {
    match ParseCommand(server.upper, commandLine)
    case Malformed(_) =>
    case Parsed(command) =>
      if NameAndArgs(command).Some? {
        CommandCloses(server, c, tag, command, line, r);
        EndsCloses(c, HandleCommand(server, tag, command, Context(c.state, line.authenticate, line.order), r), tag, r,
                   AsksLogout(server, commandLine));
      }
  }

  lemma EndsCloses(c: Connection, o: Outcome, tag: string, r: Registry.Registry, logout: bool)
    requires Ends(o, tag, r, logout)
    ensures Apply(c, o.update).open <==> c.open && !logout
    ensures logout ==> Apply(c, o.update) == c.(open := false)
    ensures logout ==> o.registry == r && o.responses == [Bye("Logging out"), Ok(Some(tag), "LOGOUT completed")]
  {
  }

  lemma CommandIsDispatched(server: Server, tag: string, command: Command, ctx: Context, r: Registry.Registry)
    requires NameAndArgs(command).Some?
    ensures var (name, args) := NameAndArgs(command).value;
      HandleCommand(server, tag, command, ctx, r) == Dispatch(server.upper, server.handlers, name, tag, args, ctx, r)
  {
  }

  /** The call ends the session, and says so, exactly if `logout`. */
  predicate Ends(o: Outcome, tag: string, r: Registry.Registry, logout: bool) {
    && (o.update == Some(LoggedOut) <==> logout)
    && (logout ==> o.registry == r && o.responses == [Bye("Logging out"), Ok(Some(tag), "LOGOUT completed")])
  }

  lemma OnlyLogoutEnds(h: Handler, tag: string, args: string, ctx: Context, r: Registry.Registry)
    ensures Ends(Execute(h, tag, args, ctx, r), tag, r, h.LogoutHandler?)
  {
  }

  lemma CommandCloses(server: Server, c: Connection, tag: string, command: Command, line: Line, r: Registry.Registry)
    requires NameAndArgs(command).Some?
    ensures var name := server.upper(NameAndArgs(command).value.0);
      Ends(HandleCommand(server, tag, command, Context(c.state, line.authenticate, line.order), r), tag, r,
           name in server.handlers && server.handlers[name].LogoutHandler?)
  {
    var (name, args) := NameAndArgs(command).value;
    var ctx := Context(c.state, line.authenticate, line.order);
    CommandIsDispatched(server, tag, command, ctx, r);
    if server.upper(name) in server.handlers {
      OnlyLogoutEnds(server.handlers[server.upper(name)], tag, args, ctx, r);
    }
  }

  lemma LineTags(server: Server, c: Connection, line: Line, r: Registry.Registry)
    ensures HandleLine(server, c, line, r).connection.tags
         == c.tags + (match AcceptedTag(c, line) case None => {} case Some(tag) => {tag})
  {
  }

  lemma TaggedFailureHasNoEffect(server: Server, c: Connection, tag: string, commandLine: string, line: Line,
                                 r: Registry.Registry)
    requires !Succeeded(HandleTagged(server, c, tag, commandLine, line, r).responses)
    ensures HandleTagged(server, c, tag, commandLine, line, r).registry == r
    ensures HandleTagged(server, c, tag, commandLine, line, r).connection == c
  {
    match ParseCommand(server.upper, commandLine)
    case Malformed(_) =>
    case Parsed(command) =>
      if NameAndArgs(command).Some? {
        var (name, args) := NameAndArgs(command).value;
        FailureHasNoEffect(server.upper, server.handlers, name, tag, args,
                           Context(c.state, line.authenticate, line.order), r);
      }
  }

  /** A line that does not complete with OK changes neither the session's state nor the
      registry; all it can do is use up its tag. */
  lemma LineFailureHasNoEffect(server: Server, c: Connection, line: Line, r: Registry.Registry)
    requires !Succeeded(HandleLine(server, c, line, r).responses)
    ensures var o := HandleLine(server, c, line, r);
      o.registry == r && o.connection == c.(tags := o.connection.tags)
  {
    if AcceptedTag(c, line).Some? {
      var (tag, commandLine) := SplitTag(line.text).value;
      TaggedFailureHasNoEffect(server, c.(tags := c.tags + {tag}), tag, commandLine, line, r);
    }
  }

  lemma LineFrame(server: Server, c: Connection, line: Line, r: Registry.Registry)
    ensures OwnEntriesOnly(r, HandleLine(server, c, line, r).registry, User(c.state))
  {
    SameEntries(r, User(c.state));
    if AcceptedTag(c, line).Some? {
      var (tag, commandLine) := SplitTag(line.text).value;
      match ParseCommand(server.upper, commandLine)
      case Malformed(_) =>
      case Parsed(command) =>
        if NameAndArgs(command).Some? {
          var (name, args) := NameAndArgs(command).value;
          DispatchFrame(server.upper, server.handlers, name, tag, args,
                        Context(c.state, line.authenticate, line.order), r);
        }
    }
  }

  // ----- Whole runs -----

  function Latest(logins: seq<string>): Option<string> {
    if logins == [] then None else Some(logins[|logins| - 1])
  }

  ghost predicate TagsKept(client: Client) {
    && Distinct(client.accepted)
    && (forall tag :: tag in client.accepted <==> tag in client.connection.tags)
    && |client.accepted| == |client.connection.tags| <= DEFAULT_MAX_TAG_HISTORY
  }

  /** One completion per command, tags used once, and the user is the latest successful LOGIN. */
  ghost predicate Sound(client: Client) {
    && Tags(client.sent) == client.handled
    && TagsKept(client)
    && User(client.connection.state) == Latest(client.logins)
  }

  ghost predicate AllSound(s: System) {
    forall i :: 0 <= i < |s.clients| ==> Sound(s.clients[i])
  }

  lemma HandleKeepsTags(server: Server, client: Client, line: Line, r: Registry.Registry)
    requires TagsKept(client)
    ensures TagsKept(HandleClient(server, client, line, HandleLine(server, client.connection, line, r)))
  {
    LineTags(server, client.connection, line, r);
    if AcceptedTag(client.connection, line).Some? {
      var tag := AcceptedTag(client.connection, line).value;
      assert tag !in client.accepted;
    }
  }

  lemma HandleKeepsSound(server: Server, client: Client, line: Line, r: Registry.Registry)
    requires Sound(client)
    ensures Sound(HandleClient(server, client, line, HandleLine(server, client.connection, line, r)))
  {
    var o := HandleLine(server, client.connection, line, r);
    LineCompletesOnce(server, client.connection, line, r);
    TagsConcat(client.sent, o.responses);
    LineProvenance(server, client.connection, line, r);
    HandleKeepsTags(server, client, line, r);
  }

  lemma StepKeepsSound(server: Server, s: System, act: Action)
    requires AllSound(s) && Enabled(s, act)
    ensures AllSound(Step(server, s, act))
  {
    if act.Handle? {
      HandleKeepsSound(server, s.clients[act.i], act.line, s.registry);
    } else if act.Connect? {
      SingleTags(GREETING);
    }
  }

  // ----- Who changes the registry -----

  /** A registry entry that a session's line created or deleted. */
  datatype Change = Change(session: nat, key: Registry.MailboxKey, created: bool)

  function ChangesBy(session: nat, r: Registry.Registry, r': Registry.Registry): set<Change> {
    (set key | key in r'.mailboxes.Keys - r.mailboxes.Keys :: Change(session, key, true))
    + (set key | key in r.mailboxes.Keys - r'.mailboxes.Keys :: Change(session, key, false))
  }

  /** The changes of a whole run, each with the session whose line made it. */
  function AllChanges(server: Server, s: System, acts: seq<Action>): set<Change>
    requires CanRun(server, s, acts)
    decreases |acts|
  {
    if acts == [] then {}
    else
      var s' := Step(server, s, acts[0]);
      (if acts[0].Handle? then ChangesBy(acts[0].i, s.registry, s'.registry) else {})
      + AllChanges(server, s', acts[1..])
  }

  /** A step creates and deletes entries only for the user of its own session at that moment, the
      one of its latest successful LOGIN, deletes no INBOX and changes no other entry; steps that
      are no session's create and delete none. */
  ghost predicate OwnStep(s: System, act: Action, s': System)
    requires Enabled(s, act)
  {
    if act.Handle? then OwnEntriesOnly(s.registry, s'.registry, Latest(s.clients[act.i].logins))
    else s'.registry.mailboxes.Keys == s.registry.mailboxes.Keys
  }

  ghost predicate OwnRun(server: Server, s: System, acts: seq<Action>)
    requires CanRun(server, s, acts)
    decreases |acts|
  {
    acts == [] || (OwnStep(s, acts[0], Step(server, s, acts[0])) && OwnRun(server, Step(server, s, acts[0]), acts[1..]))
  }

  lemma StepIsOwn(server: Server, s: System, act: Action)
    requires AllSound(s) && Enabled(s, act)
    ensures OwnStep(s, act, Step(server, s, act))
  {
    if act.Handle? {
      assert Sound(s.clients[act.i]);
      LineFrame(server, s.clients[act.i].connection, act.line, s.registry);
    }
  }

  /** Sessions come and their logins grow; neither goes. */
  ghost predicate Grew(s: System, s': System) {
    |s.clients| <= |s'.clients| && forall i :: 0 <= i < |s.clients| ==> s.clients[i].logins <= s'.clients[i].logins
  }

  lemma StepGrows(server: Server, s: System, act: Action)
    requires Enabled(s, act)
    ensures Grew(s, Step(server, s, act))
  {
  }

  /** The session that made the change had logged in as the entry's user, and it was no INBOX
      that it deleted. */
  predicate OwnChange(s: System, c: Change) {
    && c.session < |s.clients| && c.key.0 in s.clients[c.session].logins
    && (!c.created ==> !IsInbox(c.key.1))
  }

  lemma StepChangesAreOwn(server: Server, s: System, act: Action)
    requires AllSound(s) && Enabled(s, act) && act.Handle?
    ensures forall c :: c in ChangesBy(act.i, s.registry, Step(server, s, act).registry) ==> OwnChange(s, c)
  {
    StepIsOwn(server, s, act);
    forall c | c in ChangesBy(act.i, s.registry, Step(server, s, act).registry)
      ensures OwnChange(s, c)
    {
      assert Latest(s.clients[act.i].logins) == Some(c.key.0);
    }
  }

  lemma OwnChangeStays(s: System, s': System, c: Change)
    requires Grew(s, s') && OwnChange(s, c)
    ensures OwnChange(s', c)
  {
    assert s.clients[c.session].logins <= s'.clients[c.session].logins;
  }

  lemma {:induction false} RunGrows(server: Server, s: System, acts: seq<Action>)
    requires CanRun(server, s, acts)
    ensures Grew(s, Run(server, s, acts))
    decreases |acts|
  {
    if acts != [] {
      var next, final := Step(server, s, acts[0]), Run(server, s, acts);
      StepGrows(server, s, acts[0]);
      RunGrows(server, next, acts[1..]);
      assert forall i :: 0 <= i < |s.clients| ==>
        s.clients[i].logins <= next.clients[i].logins <= final.clients[i].logins;
    }
  }

  lemma {:induction false} RunChangesAreOwn(server: Server, s: System, acts: seq<Action>)
    requires AllSound(s) && CanRun(server, s, acts)
    ensures forall c :: c in AllChanges(server, s, acts) ==> OwnChange(Run(server, s, acts), c)
    decreases |acts|
  {
    if acts != [] {
      var next, final := Step(server, s, acts[0]), Run(server, s, acts);
      StepKeepsSound(server, s, acts[0]);
      RunChangesAreOwn(server, next, acts[1..]);
      RunGrows(server, s, acts);
      if acts[0].Handle? {
        StepChangesAreOwn(server, s, acts[0]);
        forall c | c in ChangesBy(acts[0].i, s.registry, next.registry)
          ensures OwnChange(final, c)
        {
          OwnChangeStays(s, final, c);
        }
      }
    }
  }

  /** The change is why the entry is there at one end of the run only. */
  predicate Explains(server: Server, s: System, acts: seq<Action>, c: Change, key: Registry.MailboxKey)
    requires CanRun(server, s, acts)
  {
    c in AllChanges(server, s, acts) && c.key == key && c.created == (key !in s.registry.mailboxes)
  }

  /** Every entry present at one end of the run only was created or deleted by a session's line. */
  lemma {:induction false} DifferencesAreChanges(server: Server, s: System, acts: seq<Action>, key: Registry.MailboxKey)
    requires AllSound(s) && CanRun(server, s, acts)
    requires (key in s.registry.mailboxes) != (key in Run(server, s, acts).registry.mailboxes)
    ensures exists c :: Explains(server, s, acts, c, key)
    decreases |acts|
  {
    var next := Step(server, s, acts[0]);
    StepKeepsSound(server, s, acts[0]);
    StepIsOwn(server, s, acts[0]);
    if (key in s.registry.mailboxes) == (key in next.registry.mailboxes) {
      DifferencesAreChanges(server, next, acts[1..], key);
      var c :| Explains(server, next, acts[1..], c, key);
      assert Explains(server, s, acts, c, key);
    } else {
      var c := Change(acts[0].i, key, key !in s.registry.mailboxes);
      assert c in ChangesBy(acts[0].i, s.registry, next.registry);
      assert Explains(server, s, acts, c, key);
    }
  }

  lemma {:induction false} RunIsOwn(server: Server, s: System, acts: seq<Action>)
    requires AllSound(s) && CanRun(server, s, acts)
    ensures AllSound(Run(server, s, acts)) && OwnRun(server, s, acts)
    decreases |acts|
  {
    if acts != [] {
      StepKeepsSound(server, s, acts[0]);
      StepIsOwn(server, s, acts[0]);
      RunIsOwn(server, Step(server, s, acts[0]), acts[1..]);
    }
  }

  /** No run takes an INBOX entry away, in any letter case. */
  lemma {:induction false} InboxStays(server: Server, s: System, acts: seq<Action>, key: Registry.MailboxKey)
    requires AllSound(s) && CanRun(server, s, acts) && key in s.registry.mailboxes && IsInbox(key.1)
    ensures key in Run(server, s, acts).registry.mailboxes
    decreases |acts|
  {
    if acts != [] {
      StepKeepsSound(server, s, acts[0]);
      StepIsOwn(server, s, acts[0]);
      InboxStays(server, Step(server, s, acts[0]), acts[1..], key);
    }
  }

  /** Over every interleaving: each line with a tag is completed once, in order; the tags a
      session accepts are distinct and at most 10000; its user is that of its latest successful
      LOGIN. At every step a session creates and deletes entries of that user only, so every
      change of the run was made by a session that had logged in as the entry's user, and no
      INBOX entry ever goes. */
  lemma SessionsAreSound(server: Server, s: System, acts: seq<Action>)
    requires AllSound(s) && CanRun(server, s, acts)
    ensures AllSound(Run(server, s, acts)) && OwnRun(server, s, acts)
    ensures forall c :: c in AllChanges(server, s, acts) ==> OwnChange(Run(server, s, acts), c)
    ensures forall key :: (key in s.registry.mailboxes) != (key in Run(server, s, acts).registry.mailboxes) ==>
              exists c :: Explains(server, s, acts, c, key)
    ensures forall key :: key in s.registry.mailboxes && IsInbox(key.1) ==>
              key in Run(server, s, acts).registry.mailboxes
  {
    RunIsOwn(server, s, acts);
    RunChangesAreOwn(server, s, acts);
    forall key | (key in s.registry.mailboxes) != (key in Run(server, s, acts).registry.mailboxes)
      ensures exists c :: Explains(server, s, acts, c, key)
    {
      DifferencesAreChanges(server, s, acts, key);
    }
    forall key | key in s.registry.mailboxes && IsInbox(key.1)
      ensures key in Run(server, s, acts).registry.mailboxes
    {
      InboxStays(server, s, acts, key);
    }
  }

  /** The tags of the lines a session handles before LOGOUT. */
  function HandledTags(server: Server, c: Connection, lines: seq<Line>, r: Registry.Registry): seq<string>
    decreases |lines|
  {
    if lines == [] || !c.open then []
    else
      var o := HandleLine(server, c, lines[0], r);
      AsSeq(TagOfLine(lines[0])) + HandledTags(server, o.connection, lines[1..], o.registry)
  }

  /** The command loop of one session: its tagged responses answer its tagged lines one for
      one, in order. */
  lemma {:induction false} LoopCompletesOnce(server: Server, c: Connection, lines: seq<Line>, r: Registry.Registry)
    ensures Tags(RunLines(server, c, lines, r).responses) == HandledTags(server, c, lines, r)
    decreases |lines|
  {
    if lines != [] && c.open {
      var o := HandleLine(server, c, lines[0], r);
      LineCompletesOnce(server, c, lines[0], r);
      LoopCompletesOnce(server, o.connection, lines[1..], o.registry);
      TagsConcat(o.responses, RunLines(server, o.connection, lines[1..], o.registry).responses);
    }
  }

  /** A tag is refused exactly when this session accepted it before or accepted 10000 tags. */
  lemma TagRefusedExactly(client: Client, line: Line)
    requires Sound(client) && TagOfLine(line).Some?
    ensures AcceptedTag(client.connection, line) == None
       <==> TagOfLine(line).value in client.accepted || |client.accepted| == 10000
  {
  }

  /** Some line handled before LOGOUT was a STARTTLS that succeeded. */
  predicate Upgrades(server: Server, c: Connection, lines: seq<Line>, r: Registry.Registry)
    decreases |lines|
  {
    lines != [] && c.open
    && var o := HandleLine(server, c, lines[0], r);
       (IsStarttls(server, c, lines[0]) && Succeeded(o.responses))
       || Upgrades(server, o.connection, lines[1..], o.registry)
  }

  /** At any point of a session the connection is encrypted if and only if it was opened so or a
      STARTTLS has succeeded on it. */
  lemma {:induction false} EncryptedExactly(server: Server, c: Connection, lines: seq<Line>, r: Registry.Registry)
    ensures RunLines(server, c, lines, r).connection.isTls <==> c.isTls || Upgrades(server, c, lines, r)
    ensures Opened(true).isTls && !Opened(false).isTls
    decreases |lines|
  {
    if lines != [] && c.open {
      var o := HandleLine(server, c, lines[0], r);
      LineTls(server, c, lines[0], r);
      EncryptedExactly(server, o.connection, lines[1..], o.registry);
    }
  }
}
