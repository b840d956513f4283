/** One IMAP connection: tag history, command loop, STARTTLS (src/session.rs). */
module Session {
  import opened Text
  import opened Protocol
  import opened CommandHandlers
  import Registry

  const DEFAULT_MAX_TAG_HISTORY := 10000

  // ----- Tags -----

  /** The error `register` reports, if any. */
  function TagError(tags: set<string>, maxSize: nat, tag: string): Option<string> {
    if tag in tags then Some("Duplicate tag: " + tag)
    else if |tags| >= maxSize then Some("Maximum tag history exceeded")
    else None
  }

  class TagHistory {
    var tags: set<string>
    const maxSize: nat

    constructor (maxSize: nat)
      ensures tags == {} && this.maxSize == maxSize
    {
      this.maxSize := maxSize;
      tags := {};
    }

    method Register(tag: string) returns (error: Option<string>)
      modifies this
      ensures error == TagError(old(tags), maxSize, tag)
      ensures tags == if error == None then old(tags) + {tag} else old(tags)
      ensures |old(tags)| <= maxSize ==> |tags| <= maxSize
    {
      if tag in tags { return Some("Duplicate tag: " + tag); }
      if |tags| >= maxSize { return Some("Maximum tag history exceeded"); }
      tags := tags + {tag};
      error := None;
    }
  }

  // ----- One line -----

  /** The variables of the command loop. */
  datatype Connection = Connection(state: SessionState, tags: set<string>, isTls: bool, open: bool)

  /** What the server is configured with: `to_uppercase`, its handlers, its TLS acceptor. */
  datatype Server = Server(upper: string -> string, handlers: Table, acceptor: bool)

  /** One line as read, and the answers the environment gives while it is handled. */
  datatype Line = Line(text: string, authenticate: (string, string) -> AuthReply, order: seq<Registry.MailboxKey>)

  datatype LineOutcome = LineOutcome(connection: Connection, registry: Registry.Registry, responses: seq<Response>)

  /** `splitn(2, ' ')`, when it yields two parts. */
  function SplitTag(text: string): (parts: Option<(string, string)>)
    ensures parts == None <==> ' ' !in text
    ensures parts.Some? ==> text == parts.value.0 + " " + parts.value.1 && ' ' !in parts.value.0
  {
    if text == "" then None
    else if text[0] == ' ' then Some(("", text[1..]))
    else match SplitTag(text[1..])
      case None => None
      case Some((tag, rest)) => Some(([text[0]] + tag, rest))
  }

  function StarttlsReply(isTls: bool, acceptor: bool, tag: string): Response {
    if isTls then Bad(Some(tag), "Already using TLS")
    else if !acceptor then Bad(Some(tag), "STARTTLS not available")
    else Ok(Some(tag), "Ready for TLS handshake")
  }

  /** Command name and arguments as handed to the handler table, for the commands it serves. */
  function NameAndArgs(command: Command): Option<(string, string)> {
    match command
    case Capability => Some(("CAPABILITY", ""))
    case Noop => Some(("NOOP", ""))
    case Logout => Some(("LOGOUT", ""))
    case Login(username, password) => Some(("LOGIN", username + " " + password))
    case Select(mailbox) => Some(("SELECT", mailbox))
    case Create(mailbox) => Some(("CREATE", mailbox))
    case Delete(mailbox) => Some(("DELETE", mailbox))
    case List(reference, pattern) => Some(("LIST", reference + " " + pattern))
    case Custom(name, args) => Some((name, args))
    case _ => None
  }

  /** `handle_command_static`. */
  function HandleCommand(server: Server, tag: string, command: Command, ctx: Context, r: Registry.Registry): Outcome {
    if command.Starttls? then Outcome(None, r, [Bad(Some(tag), "STARTTLS handling error")])
    else match NameAndArgs(command)
      case None => Outcome(None, r, [Bad(Some(tag), "Command not yet implemented")])
      case Some((name, args)) => Dispatch(server.upper, server.handlers, name, tag, args, ctx, r)
  }

  /** The state change a handler asks for: LOGOUT ends the loop. */
  function Apply(c: Connection, update: Option<SessionState>): Connection {
    match update
    case None => c
    case Some(LoggedOut) => c.(open := false)
    case Some(state) => c.(state := state)
  }

  /** A line whose tag was accepted. */
  function HandleTagged(server: Server, c: Connection, tag: string, commandLine: string, line: Line,
                        r: Registry.Registry): LineOutcome {
    match ParseCommand(server.upper, commandLine)
    case Malformed(error) => LineOutcome(c, r, [Bad(Some(tag), "Parse error: Protocol error: " + error)])
    case Parsed(command) =>
      if command.Starttls? then
        var reply := StarttlsReply(c.isTls, server.acceptor, tag);
        LineOutcome(c.(isTls := c.isTls || reply.Ok?), r, [reply])
      else
        var o := HandleCommand(server, tag, command, Context(c.state, line.authenticate, line.order), r);
        LineOutcome(Apply(c, o.update), o.registry, o.responses)
  }

  /** One turn of the command loop. */
  function HandleLine(server: Server, c: Connection, line: Line, r: Registry.Registry): LineOutcome {
    match SplitTag(line.text)
    case None => LineOutcome(c, r, [Bad(None, "Invalid command format")])
    case Some((tag, commandLine)) =>
      match TagError(c.tags, DEFAULT_MAX_TAG_HISTORY, tag)
      case Some(error) => LineOutcome(c, r, [Bad(Some(tag), "Tag error: Protocol error: " + error)])
      case None => HandleTagged(server, c.(tags := c.tags + {tag}), tag, commandLine, line, r)
  }

  /** The lines of one connection in turn, until LOGOUT. */
  function RunLines(server: Server, c: Connection, lines: seq<Line>, r: Registry.Registry): LineOutcome
    decreases |lines|
  {
    if lines == [] || !c.open then LineOutcome(c, r, [])
    else
      var o := HandleLine(server, c, lines[0], r);
      var rest := RunLines(server, o.connection, lines[1..], o.registry);
      LineOutcome(rest.connection, rest.registry, o.responses + rest.responses)
  }

  /** One line is answered with all its responses, unless the loop has ended. */
  lemma RunLine(server: Server, c: Connection, line: Line, r: Registry.Registry)
    ensures RunLines(server, c, [line], r) == if c.open then HandleLine(server, c, line, r) else LineOutcome(c, r, [])
  {
    assert [line][1..] == [];
    if c.open {
      var o := HandleLine(server, c, line, r);
      assert RunLines(server, o.connection, [], o.registry).responses == [];
      assert o.responses + [] == o.responses;
    }
  }

  /** The loop goes on from the state it has, and what it sent stays sent. */
  lemma {:induction false} RunLinesGoOn(server: Server, c: Connection, a: seq<Line>, b: seq<Line>, r: Registry.Registry)
    ensures var first := RunLines(server, c, a, r);
      var rest := RunLines(server, first.connection, b, first.registry);
      RunLines(server, c, a + b, r) == LineOutcome(rest.connection, rest.registry, first.responses + rest.responses)
    decreases |a|
  {
    if a == [] || !c.open {
      assert a == [] ==> a + b == b;
      assert [] + RunLines(server, c, b, r).responses == RunLines(server, c, b, r).responses;
    } else {
      assert (a + b)[1..] == a[1..] + b;
      var o := HandleLine(server, c, a[0], r);
      RunLinesGoOn(server, o.connection, a[1..], b, o.registry);
      var first := RunLines(server, o.connection, a[1..], o.registry);
      Associative(o.responses, first.responses, RunLines(server, first.connection, b, first.registry).responses);
    }
  }

  lemma Associative(a: seq<Response>, b: seq<Response>, c: seq<Response>)
    ensures a + (b + c) == (a + b) + c
  {
  }

  const GREETING := Ok(None, "IMAP server ready")

  function Opened(isTls: bool): Connection {
    Connection(NotAuthenticated, {}, isTls, true)
  }

  // ----- The session object -----

  class Session {
    const handlers: Handlers
    const acceptor: bool
    const tagHistory: TagHistory
    const mailboxes: Registry.MailboxState
    var sessionState: SessionState
    var isTls: bool
    var open: bool

    ghost function Config(): Server
      reads this, handlers
    {
      Server(handlers.upper, handlers.handlers, acceptor)
    }

    ghost function Value(): Connection
      reads this, tagHistory
    {
      Connection(sessionState, tagHistory.tags, isTls, open)
    }

    constructor (handlers: Handlers, acceptor: bool, isTls: bool, mailboxes: Registry.MailboxState)
      ensures Value() == Opened(isTls) && fresh(tagHistory) && tagHistory.maxSize == DEFAULT_MAX_TAG_HISTORY
      ensures this.handlers == handlers && this.acceptor == acceptor && this.mailboxes == mailboxes
    {
      this.handlers, this.acceptor, this.mailboxes := handlers, acceptor, mailboxes;
      tagHistory := new TagHistory(DEFAULT_MAX_TAG_HISTORY);
      sessionState, this.isTls, open := NotAuthenticated, isTls, true;
    }

    method HandleCommandLine(tag: string, commandLine: string, line: Line) returns (responses: seq<Response>)
      modifies this, mailboxes
      ensures LineOutcome(Value(), mailboxes.State(), responses)
           == HandleTagged(Config(), old(Value()), tag, commandLine, line, old(mailboxes.State()))
    {
      match ParseCommand(handlers.upper, commandLine)
      case Malformed(error) =>
        responses := [Bad(Some(tag), "Parse error: Protocol error: " + error)];
      case Parsed(command) =>
        if command.Starttls? {
          var reply := StarttlsReply(isTls, acceptor, tag);
          responses := [reply];
          if reply.Ok? { isTls := true; }
        } else {
          match NameAndArgs(command) {
            case None =>
              responses := [Bad(Some(tag), "Command not yet implemented")];
            case Some((name, args)) =>
              var ctx := Context(sessionState, line.authenticate, line.order);
              var update;
              update, responses := handlers.Handle(name, tag, args, ctx, mailboxes);
              match update {
                case None =>
                case Some(state) =>
                  if state.LoggedOut? { open := false; } else { sessionState := state; }
              }
          }
        }
    }

    method HandleNext(line: Line) returns (responses: seq<Response>)
      requires tagHistory.maxSize == DEFAULT_MAX_TAG_HISTORY
      modifies this, tagHistory, mailboxes
      ensures LineOutcome(Value(), mailboxes.State(), responses)
           == HandleLine(Config(), old(Value()), line, old(mailboxes.State()))
    {
      match SplitTag(line.text)
      case None =>
        responses := [Bad(None, "Invalid command format")];
      case Some((tag, commandLine)) =>
        var error := tagHistory.Register(tag);
        if error.Some? {
          responses := [Bad(Some(tag), "Tag error: Protocol error: " + error.value)];
        } else {
          responses := HandleCommandLine(tag, commandLine, line);
        }
    }

    /** The command loop, from the greeting to the end of input or LOGOUT. */
    method Handle(lines: seq<Line>) returns (responses: seq<Response>)
      requires tagHistory.maxSize == DEFAULT_MAX_TAG_HISTORY
      modifies this, tagHistory, mailboxes
      ensures var run := RunLines(Config(), old(Value()), lines, old(mailboxes.State()));
        LineOutcome(Value(), mailboxes.State(), responses) == run.(responses := [GREETING] + run.responses)
    {
      responses := [GREETING];
      var i := 0;
      assert lines[0..] == lines;
      while i < |lines| && open
        invariant 0 <= i <= |lines|
        invariant handlers.handlers == old(handlers.handlers)
        invariant var rest := RunLines(Config(), Value(), lines[i..], mailboxes.State());
          var run := RunLines(Config(), old(Value()), lines, old(mailboxes.State()));
          && run.connection == rest.connection && run.registry == rest.registry
          && [GREETING] + run.responses == responses + rest.responses
      {
        assert lines[i..][0] == lines[i] && lines[i..][1..] == lines[i + 1..];
        var more := HandleNext(lines[i]);
        Associative(responses, more, RunLines(Config(), Value(), lines[i + 1..], mailboxes.State()).responses);
        responses := responses + more;
        i := i + 1;
      }
    }
  }
}
