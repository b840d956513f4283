/** The handler table with its authentication gate (src/command_handlers.rs) and the eight
    built-in handlers (src/handlers/). */
module CommandHandlers {
  import opened Text
  import opened Words
  import opened Protocol
  import opened ListPattern
  import Registry

  datatype SessionState =
    | NotAuthenticated
    | Authenticated(username: string)
    | Selected(username: string, mailbox: string)
    | LoggedOut

  datatype AuthReply = Accepted | Rejected | Failed(error: string)

  datatype Handler =
    | CapabilityHandler(isTls: bool)
    | NoopHandler
    | LogoutHandler
    | LoginHandler
    | SelectHandler
    | CreateHandler
    | DeleteHandler
    | ListHandler

  function CommandName(h: Handler): string {
    match h
    case CapabilityHandler(_) => "CAPABILITY"
    case NoopHandler => "NOOP"
    case LogoutHandler => "LOGOUT"
    case LoginHandler => "LOGIN"
    case SelectHandler => "SELECT"
    case CreateHandler => "CREATE"
    case DeleteHandler => "DELETE"
    case ListHandler => "LIST"
  }

  predicate RequiresAuth(h: Handler) {
    !h.CapabilityHandler? && !h.LogoutHandler? && !h.LoginHandler?
  }

  /** What surrounds one call: the session's state, the authenticator's answers and the order
      in which the registry's hash map is iterated. */
  datatype Context = Context(
    state: SessionState,
    authenticate: (string, string) -> AuthReply,
    order: seq<Registry.MailboxKey>)

  /** What one call does: the state change it asks for, the registry after it, what it wrote. */
  datatype Outcome = Outcome(update: Option<SessionState>, registry: Registry.Registry, responses: seq<Response>)

  function User(state: SessionState): Option<string> {
    match state
    case Authenticated(username) => Some(username)
    case Selected(username, _) => Some(username)
    case _ => None
  }

  // ----- The handlers -----

  function LoginArgs(args: string): Option<(string, string)> {
    var parts := SplitWhitespace(args);
    if |parts| == 2 then Some((parts[0], parts[1])) else None
  }

  function HandleLogin(tag: string, args: string, ctx: Context, r: Registry.Registry): Outcome {
    match LoginArgs(args)
    case None => Outcome(None, r, [Bad(Some(tag), "Invalid LOGIN syntax")])
    case Some((username, password)) =>
      match ctx.authenticate(username, password)
      case Accepted => Outcome(Some(Authenticated(username)), r, [Ok(Some(tag), "LOGIN completed")])
      case Rejected => Outcome(None, r, [No(Some(tag), "LOGIN failed: invalid credentials")])
      case Failed(error) => Outcome(None, r, [No(Some(tag), "LOGIN failed: " + error)])
  }

  function HandleSelect(tag: string, args: string, ctx: Context, r: Registry.Registry): Outcome {
    var name := Trim(args);
    if name == "" then Outcome(None, r, [Bad(Some(tag), "SELECT requires a mailbox name")])
    else match User(ctx.state)
      case None => Outcome(None, r, [No(Some(tag), "Not authenticated")])
      case Some(username) =>
        if (username, name) !in r.mailboxes then
          Outcome(None, r, [No(Some(tag), "Mailbox does not exist: " + name)])
        else
          Outcome(Some(Selected(username, name)), r, [Ok(Some(tag), "SELECT completed for " + name)])
  }

  /** `Display` of the errors the registry answers with. */
  function ErrorText(reply: Registry.Reply): Option<string> {
    match reply
    case MailboxExists(name) => Some("Mailbox already exists: " + name)
    case MailboxNotFound(name) => Some("Mailbox not found: " + name)
    case _ => None
  }

  function Completion(tag: string, verb: string, name: string, reply: Registry.Reply): Response {
    match ErrorText(reply)
    case None => Ok(Some(tag), verb + " completed for " + name)
    case Some(error) => No(Some(tag), verb + " failed: " + error)
  }

  function HandleCreate(tag: string, args: string, ctx: Context, r: Registry.Registry): Outcome {
    var name := Trim(args);
    if name == "" then Outcome(None, r, [Bad(Some(tag), "CREATE requires a mailbox name")])
    else match User(ctx.state)
      case None => Outcome(None, r, [No(Some(tag), "Not authenticated")])
      case Some(username) =>
        var (after, reply) := Registry.Step(r, Registry.Create(username, name));
        Outcome(None, after, [Completion(tag, "CREATE", name, reply)])
  }

  /** INBOX in any letter case is refused before anything else is looked at. */
  function HandleDelete(tag: string, args: string, ctx: Context, r: Registry.Registry): Outcome {
    var name := Trim(args);
    if name == "" then Outcome(None, r, [Bad(Some(tag), "DELETE requires a mailbox name")])
    else if IsInbox(name) then Outcome(None, r, [No(Some(tag), "Cannot delete INBOX")])
    else match User(ctx.state)
      case None => Outcome(None, r, [No(Some(tag), "Not authenticated")])
      case Some(username) =>
        var (after, reply) := Registry.Step(r, Registry.Delete(username, name));
        Outcome(None, after, [Completion(tag, "DELETE", name, reply)])
  }

  function ListArgs(args: string): Option<(string, string)> {
    var parts := SplitWhitespace(args);
    if |parts| == 0 then None
    else if |parts| == 1 then Some(("", parts[0]))
    else Some((parts[0], parts[1]))
  }

  /** Reference and pattern with their quotes removed, joined. */
  function EffectivePattern(reference: string, pattern: string): string {
    var cleanRef, cleanPattern := TrimQuotes(reference), TrimQuotes(pattern);
    if cleanRef != "" then cleanRef + cleanPattern else cleanPattern
  }

  function ListLine(name: string): Response {
    Untagged("LIST () \"/\" \"" + name + "\"")
  }

  /** One untagged response per listed mailbox. */
  function ListLines(infos: seq<Registry.MailboxInfo>): (lines: seq<Response>)
    ensures |lines| == |infos|
  {
    seq(|infos|, k requires 0 <= k < |infos| => ListLine(infos[k].id.name))
  }

  function HandleList(tag: string, args: string, ctx: Context, r: Registry.Registry): Outcome {
    match ListArgs(args)
    case None => Outcome(None, r, [Bad(Some(tag), "Invalid LIST syntax")])
    case Some((reference, pattern)) =>
      match User(ctx.state)
      case None => Outcome(None, r, [No(Some(tag), "Not authenticated")])
      case Some(username) =>
        var filter := PatternToFilter(EffectivePattern(reference, pattern));
        var listed := Registry.ListMailboxes(r, ctx.order, username, filter);
        Outcome(None, r, ListLines(listed) + [Ok(Some(tag), "LIST completed")])
  }

  function Execute(h: Handler, tag: string, args: string, ctx: Context, r: Registry.Registry): Outcome {
    match h
    case CapabilityHandler(isTls) =>
      Outcome(None, r, [Ok(Some(tag), "CAPABILITY IMAP4rev1" + (if isTls then "" else " STARTTLS"))])
    case NoopHandler => Outcome(None, r, [Ok(Some(tag), "NOOP completed")])
    case LogoutHandler => Outcome(Some(LoggedOut), r, [Bye("Logging out"), Ok(Some(tag), "LOGOUT completed")])
    case LoginHandler => HandleLogin(tag, args, ctx, r)
    case SelectHandler => HandleSelect(tag, args, ctx, r)
    case CreateHandler => HandleCreate(tag, args, ctx, r)
    case DeleteHandler => HandleDelete(tag, args, ctx, r)
    case ListHandler => HandleList(tag, args, ctx, r)
  }

  // ----- The handlers that act on the shared registry -----

  method CreateMailbox(tag: string, args: string, ctx: Context, mailboxes: Registry.MailboxState)
    returns (update: Option<SessionState>, responses: seq<Response>)
    modifies mailboxes
    ensures Outcome(update, mailboxes.State(), responses) == HandleCreate(tag, args, ctx, old(mailboxes.State()))
  {
    update := None;
    var name := Trim(args);
    if name == "" { return None, [Bad(Some(tag), "CREATE requires a mailbox name")]; }
    match User(ctx.state)
    case None => responses := [No(Some(tag), "Not authenticated")];
    case Some(username) =>
      var reply := mailboxes.CreateMailbox(username, name);
      responses := [Completion(tag, "CREATE", name, reply)];
  }

  method DeleteMailbox(tag: string, args: string, ctx: Context, mailboxes: Registry.MailboxState)
    returns (update: Option<SessionState>, responses: seq<Response>)
    modifies mailboxes
    ensures Outcome(update, mailboxes.State(), responses) == HandleDelete(tag, args, ctx, old(mailboxes.State()))
  {
    update := None;
    var name := Trim(args);
    if name == "" { return None, [Bad(Some(tag), "DELETE requires a mailbox name")]; }
    if IsInbox(name) { return None, [No(Some(tag), "Cannot delete INBOX")]; }
    match User(ctx.state)
    case None => responses := [No(Some(tag), "Not authenticated")];
    case Some(username) =>
      var reply := mailboxes.DeleteMailbox(username, name);
      responses := [Completion(tag, "DELETE", name, reply)];
  }

  /** The LIST handler: compile the pattern, then write one line per mailbox it lists. */
  method ListMailboxes(tag: string, args: string, ctx: Context, mailboxes: Registry.MailboxState)
    returns (responses: seq<Response>)
    ensures Outcome(None, mailboxes.State(), responses) == HandleList(tag, args, ctx, mailboxes.State())
  {
    var parsed := ListArgs(args);
    if parsed.None? { return [Bad(Some(tag), "Invalid LIST syntax")]; }
    var user := User(ctx.state);
    if user.None? { return [No(Some(tag), "Not authenticated")]; }
    var filter := CompilePattern(EffectivePattern(parsed.value.0, parsed.value.1));
    var listed := Registry.ListMailboxes(mailboxes.State(), ctx.order, user.value, filter);
    responses := [];
    for k := 0 to |listed|
      invariant responses == ListLines(listed)[..k]
    {
      responses := responses + [ListLine(listed[k].id.name)];
    }
    responses := responses + [Ok(Some(tag), "LIST completed")];
  }

  /** The CAPABILITY handler: STARTTLS is added for handlers of plain connections. */
  method Capability(isTls: bool, tag: string) returns (responses: seq<Response>)
    ensures responses == [Ok(Some(tag), "CAPABILITY IMAP4rev1" + (if isTls then "" else " STARTTLS"))]
  {
    var capabilities := ["IMAP4rev1"];
    if !isTls {
      capabilities := capabilities + ["STARTTLS"];
      assert capabilities[1..] == ["STARTTLS"] && Join(["STARTTLS"]) == "STARTTLS";
      assert Join(capabilities) == "IMAP4rev1" + " " + "STARTTLS";
    }
    var message := "CAPABILITY " + Join(capabilities);
    assert message == "CAPABILITY IMAP4rev1" + (if isTls then "" else " STARTTLS");
    responses := [Ok(Some(tag), message)];
  }

  /** The LOGOUT handler: BYE first, then the completion. */
  method Logout(tag: string) returns (update: Option<SessionState>, responses: seq<Response>)
    ensures update == Some(LoggedOut) && responses == [Bye("Logging out"), Ok(Some(tag), "LOGOUT completed")]
  {
    responses := [Bye("Logging out")];
    responses := responses + [Ok(Some(tag), "LOGOUT completed")];
    update := Some(LoggedOut);
  }

  /** The LOGIN handler. */
  method Login(tag: string, args: string, ctx: Context) returns (update: Option<SessionState>, responses: seq<Response>)
    ensures forall r :: Outcome(update, r, responses) == HandleLogin(tag, args, ctx, r)
  {
    update := None;
    var parsed := LoginArgs(args);
    if parsed.None? { return None, [Bad(Some(tag), "Invalid LOGIN syntax")]; }
    var (username, password) := parsed.value;
    match ctx.authenticate(username, password)
    case Accepted =>
      update := Some(Authenticated(username));
      responses := [Ok(Some(tag), "LOGIN completed")];
    case Rejected => responses := [No(Some(tag), "LOGIN failed: invalid credentials")];
    case Failed(error) => responses := [No(Some(tag), "LOGIN failed: " + error)];
  }

  /** The SELECT handler: only an existing mailbox is selected. */
  method SelectMailbox(tag: string, args: string, ctx: Context, mailboxes: Registry.MailboxState)
    returns (update: Option<SessionState>, responses: seq<Response>)
    ensures Outcome(update, mailboxes.State(), responses) == HandleSelect(tag, args, ctx, mailboxes.State())
  {
    update := None;
    var name := Trim(args);
    if name == "" { return None, [Bad(Some(tag), "SELECT requires a mailbox name")]; }
    match User(ctx.state)
    case None => responses := [No(Some(tag), "Not authenticated")];
    case Some(username) =>
      if (username, name) !in mailboxes.mailboxes {
        return None, [No(Some(tag), "Mailbox does not exist: " + name)];
      }
      responses := [Ok(Some(tag), "SELECT completed for " + name)];
      update := Some(Selected(username, name));
  }

  method ExecuteHandler(h: Handler, tag: string, args: string, ctx: Context, mailboxes: Registry.MailboxState)
    returns (update: Option<SessionState>, responses: seq<Response>)
    modifies mailboxes
    ensures Outcome(update, mailboxes.State(), responses) == Execute(h, tag, args, ctx, old(mailboxes.State()))
  {
    update := None;
    match h
    case CapabilityHandler(isTls) => responses := Capability(isTls, tag);
    case NoopHandler => responses := [Ok(Some(tag), "NOOP completed")];
    case LogoutHandler => update, responses := Logout(tag);
    case LoginHandler => update, responses := Login(tag, args, ctx);
    case SelectHandler => update, responses := SelectMailbox(tag, args, ctx, mailboxes);
    case CreateHandler => update, responses := CreateMailbox(tag, args, ctx, mailboxes);
    case DeleteHandler => update, responses := DeleteMailbox(tag, args, ctx, mailboxes);
    case ListHandler => responses := ListMailboxes(tag, args, ctx, mailboxes);
  }

  // ----- The table -----

  type Table = map<string, Handler>

  /** The gate: unknown commands, missing authentication, then the handler. */
  function Dispatch(upper: string -> string, handlers: Table, name: string, tag: string, args: string, ctx: Context,
                    r: Registry.Registry): Outcome {
    if upper(name) !in handlers then Outcome(None, r, [Bad(Some(tag), "Unknown command: " + name)])
    else if RequiresAuth(handlers[upper(name)]) && ctx.state.NotAuthenticated? then
      Outcome(None, r, [No(Some(tag), "Command requires authentication")])
    else Execute(handlers[upper(name)], tag, args, ctx, r)
  }

  class Handlers {
    const upper: string -> string
    var handlers: Table

    constructor (upper: string -> string)
      ensures handlers == map[] && this.upper == upper
    {
      this.upper := upper;
      handlers := map[];
    }

    /** `register`: a name already present, in any letter case, is refused. */
    method Register(handler: Handler) returns (ok: bool)
      modifies this
      ensures ok == (upper(CommandName(handler)) !in old(handlers))
      ensures handlers == if ok then old(handlers)[upper(CommandName(handler)) := handler] else old(handlers)
    {
      var name := upper(CommandName(handler));
      if name in handlers { return false; }
      handlers := handlers[name := handler];
      ok := true;
    }

    method Handle(name: string, tag: string, args: string, ctx: Context, mailboxes: Registry.MailboxState)
      returns (update: Option<SessionState>, responses: seq<Response>)
      modifies mailboxes
      ensures Outcome(update, mailboxes.State(), responses)
           == Dispatch(upper, handlers, name, tag, args, ctx, old(mailboxes.State()))
    {
      var key := upper(name);
      if key !in handlers { return None, [Bad(Some(tag), "Unknown command: " + name)]; }
      if RequiresAuth(handlers[key]) && ctx.state.NotAuthenticated? {
        return None, [No(Some(tag), "Command requires authentication")];
      }
      update, responses := ExecuteHandler(handlers[key], tag, args, ctx, mailboxes);
    }
  }

  /** The handlers of a server, and the commands they serve. */
  const BUILT_IN := [CapabilityHandler(false), NoopHandler, LogoutHandler, LoginHandler, SelectHandler, CreateHandler,
                     DeleteHandler, ListHandler]
  const COMMANDS := ["CAPABILITY", "NOOP", "LOGOUT", "LOGIN", "SELECT", "CREATE", "DELETE", "LIST"]

  lemma BuiltInServes(k: nat)
    requires k < 8
    ensures CommandName(BUILT_IN[k]) == COMMANDS[k]
  {
  }

  lemma CommandsDiffer(i: nat, k: nat)
    requires i < k < 8
    ensures COMMANDS[i] != COMMANDS[k]
  {
    if |COMMANDS[i]| == |COMMANDS[k]| {
      assert COMMANDS[i][0] != COMMANDS[k][0];
    }
  }

  /** What `to_uppercase` does to the names of the commands: nothing. */
  ghost predicate KeepsNames(upper: string -> string) {
    forall name :: name in COMMANDS ==> upper(name) == name
  }

  /** The table of the first handlers registered. */
  ghost predicate Serves(table: Table, count: nat)
    requires count <= 8
  {
    && (forall name :: name in table <==> name in COMMANDS[..count])
    && (forall k :: 0 <= k < count ==> COMMANDS[k] in table && table[COMMANDS[k]] == BUILT_IN[k])
  }

  lemma ServesNext(table: Table, k: nat)
    requires k < 8 && Serves(table, k)
    ensures COMMANDS[k] !in table && Serves(table[COMMANDS[k] := BUILT_IN[k]], k + 1)
  {
    forall i | 0 <= i < k
      ensures COMMANDS[i] != COMMANDS[k]
    {
      CommandsDiffer(i, k);
    }
    assert COMMANDS[..k + 1] == COMMANDS[..k] + [COMMANDS[k]];
  }

  /** The registrations of `ImapServer::new`. */
  method StandardHandlers(upper: string -> string) returns (handlers: Handlers)
    requires KeepsNames(upper)
    ensures fresh(handlers) && handlers.upper == upper && Serves(handlers.handlers, 8)
  {
    handlers := new Handlers(upper);
    for k := 0 to 8
      invariant fresh(handlers) && handlers.upper == upper && Serves(handlers.handlers, k)
    {
      BuiltInServes(k);
      ServesNext(handlers.handlers, k);
      assert COMMANDS[k] in COMMANDS;
      var _ := handlers.Register(BUILT_IN[k]);
    }
  }

  // ----- What every call keeps -----

  /** Exactly one completion: one tagged response, with the call's tag, after all others. */
  predicate CompletesOnce(tag: string, responses: seq<Response>) {
    && Tags(responses) == [tag]
    && responses != [] && TagOf(responses[|responses| - 1]) == Some(tag)
  }

  predicate Succeeded(responses: seq<Response>) {
    responses != [] && responses[|responses| - 1].Ok?
  }

  lemma ListLinesUntagged(infos: seq<Registry.MailboxInfo>)
    ensures Tags(ListLines(infos)) == []
  {
    NoTags(ListLines(infos));
  }

  lemma OneCompletion(tag: string, untagged: seq<Response>, final: Response)
    requires Tags(untagged) == [] && TagOf(final) == Some(tag)
    ensures CompletesOnce(tag, untagged + [final])
  {
    TagsConcat(untagged, [final]);
    assert Tags([final]) == [tag] + Tags([final][1..]);
  }

  lemma SingleCompletion(tag: string, final: Response)
    requires TagOf(final) == Some(tag)
    ensures CompletesOnce(tag, [final])
  {
    OneCompletion(tag, [], final);
    assert [] + [final] == [final];
  }

  lemma ListCompletesOnce(tag: string, args: string, ctx: Context, r: Registry.Registry)
    ensures CompletesOnce(tag, HandleList(tag, args, ctx, r).responses)
  {
    var responses := HandleList(tag, args, ctx, r).responses;
    if ListArgs(args).Some? && User(ctx.state).Some? {
      var (reference, pattern) := ListArgs(args).value;
      var filter := PatternToFilter(EffectivePattern(reference, pattern));
      var listed := Registry.ListMailboxes(r, ctx.order, User(ctx.state).value, filter);
      ListLinesUntagged(listed);
      OneCompletion(tag, ListLines(listed), Ok(Some(tag), "LIST completed"));
    } else {
      SingleCompletion(tag, responses[0]);
    }
  }

  lemma SelectCompletesOnce(tag: string, args: string, ctx: Context, r: Registry.Registry)
    ensures CompletesOnce(tag, HandleSelect(tag, args, ctx, r).responses)
  {
    SingleCompletion(tag, HandleSelect(tag, args, ctx, r).responses[0]);
  }

  lemma CreateCompletesOnce(tag: string, args: string, ctx: Context, r: Registry.Registry)
    ensures CompletesOnce(tag, HandleCreate(tag, args, ctx, r).responses)
  {
    SingleCompletion(tag, HandleCreate(tag, args, ctx, r).responses[0]);
  }

  lemma DeleteCompletesOnce(tag: string, args: string, ctx: Context, r: Registry.Registry)
    ensures CompletesOnce(tag, HandleDelete(tag, args, ctx, r).responses)
  {
    SingleCompletion(tag, HandleDelete(tag, args, ctx, r).responses[0]);
  }

  lemma ExecuteCompletesOnce(h: Handler, tag: string, args: string, ctx: Context, r: Registry.Registry)
    ensures CompletesOnce(tag, Execute(h, tag, args, ctx, r).responses)
  {
    var responses := Execute(h, tag, args, ctx, r).responses;
    match h
    case ListHandler => ListCompletesOnce(tag, args, ctx, r);
    case LogoutHandler => OneCompletion(tag, [Bye("Logging out")], Ok(Some(tag), "LOGOUT completed"));
    case SelectHandler => SelectCompletesOnce(tag, args, ctx, r);
    case CreateHandler => CreateCompletesOnce(tag, args, ctx, r);
    case DeleteHandler => DeleteCompletesOnce(tag, args, ctx, r);
    case _ => SingleCompletion(tag, responses[0]);
  }

  /** Every handler behind the gate, on every path, completes its command exactly once. */
  lemma DispatchCompletesOnce(upper: string -> string, handlers: Table, name: string, tag: string, args: string,
                              ctx: Context,
                              r: Registry.Registry)
    ensures CompletesOnce(tag, Dispatch(upper, handlers, name, tag, args, ctx, r).responses)
  {
    if upper(name) !in handlers {
      SingleCompletion(tag, Bad(Some(tag), "Unknown command: " + name));
    } else if RequiresAuth(handlers[upper(name)]) && ctx.state.NotAuthenticated? {
      SingleCompletion(tag, No(Some(tag), "Command requires authentication"));
    } else {
      ExecuteCompletesOnce(handlers[upper(name)], tag, args, ctx, r);
    }
  }

  /** Without OK: no state change, same registry. */
  predicate OnlyOkActs(o: Outcome, r: Registry.Registry) {
    !Succeeded(o.responses) ==> o.update == None && o.registry == r
  }

  lemma CreateFailure(tag: string, args: string, ctx: Context, r: Registry.Registry)
    ensures OnlyOkActs(HandleCreate(tag, args, ctx, r), r)
  {
  }

  lemma DeleteFailure(tag: string, args: string, ctx: Context, r: Registry.Registry)
    ensures OnlyOkActs(HandleDelete(tag, args, ctx, r), r)
  {
  }

  lemma ExecuteFailure(h: Handler, tag: string, args: string, ctx: Context, r: Registry.Registry)
    ensures OnlyOkActs(Execute(h, tag, args, ctx, r), r)
  {
    match h
    case CreateHandler => CreateFailure(tag, args, ctx, r);
    case DeleteHandler => DeleteFailure(tag, args, ctx, r);
    case _ =>
  }

  /** A command that does not complete with OK changes neither the session nor the registry. */
  lemma FailureHasNoEffect(upper: string -> string, handlers: Table, name: string, tag: string, args: string,
                           ctx: Context,
                           r: Registry.Registry)
    ensures OnlyOkActs(Dispatch(upper, handlers, name, tag, args, ctx, r), r)
  {
    if upper(name) in handlers {
      ExecuteFailure(handlers[upper(name)], tag, args, ctx, r);
    }
  }

  /** The registry entries a call may add or remove are its own user's, and never an INBOX
      entry is removed. */
  ghost predicate OwnEntriesOnly(r: Registry.Registry, after: Registry.Registry, user: Option<string>) {
    && (forall key :: key in r.mailboxes && key !in after.mailboxes ==> user == Some(key.0) && !IsInbox(key.1))
    && (forall key :: key in after.mailboxes && key !in r.mailboxes ==> user == Some(key.0))
    && (forall key :: key in r.mailboxes && key in after.mailboxes ==> after.mailboxes[key] == r.mailboxes[key])
  }

  lemma CreateFrame(tag: string, args: string, ctx: Context, r: Registry.Registry)
    ensures OwnEntriesOnly(r, HandleCreate(tag, args, ctx, r).registry, User(ctx.state))
  {
  }

  lemma DeleteFrame(tag: string, args: string, ctx: Context, r: Registry.Registry)
    ensures OwnEntriesOnly(r, HandleDelete(tag, args, ctx, r).registry, User(ctx.state))
  {
  }

  lemma OtherHandlersOnlyRead(h: Handler, tag: string, args: string, ctx: Context, r: Registry.Registry)
    requires !h.CreateHandler? && !h.DeleteHandler?
    ensures Execute(h, tag, args, ctx, r).registry == r
  {
  }

  lemma SameEntries(r: Registry.Registry, user: Option<string>)
    ensures OwnEntriesOnly(r, r, user)
  {
  }

  /** A command creates and deletes entries of its own session's user only, and no INBOX. */
  lemma DispatchFrame(upper: string -> string, handlers: Table, name: string, tag: string, args: string, ctx: Context,
                      r: Registry.Registry)
    ensures OwnEntriesOnly(r, Dispatch(upper, handlers, name, tag, args, ctx, r).registry, User(ctx.state))
  {
    var after := Dispatch(upper, handlers, name, tag, args, ctx, r).registry;
    if upper(name) in handlers && handlers[upper(name)].CreateHandler? && after != r {
      assert after == HandleCreate(tag, args, ctx, r).registry;
      CreateFrame(tag, args, ctx, r);
    } else if upper(name) in handlers && handlers[upper(name)].DeleteHandler? && after != r {
      assert after == HandleDelete(tag, args, ctx, r).registry;
      DeleteFrame(tag, args, ctx, r);
    } else {
      if upper(name) in handlers && !handlers[upper(name)].CreateHandler? && !handlers[upper(name)].DeleteHandler? {
        OtherHandlersOnlyRead(handlers[upper(name)], tag, args, ctx, r);
      }
      SameEntries(r, User(ctx.state));
    }
  }
}
