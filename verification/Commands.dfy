/** What command lines mean, from the text a client sends to the answer it gets: LIST, LOGIN,
    SELECT, CREATE and DELETE through parser, gate and handler. */
module Commands {
  import opened Text
  import opened Collections
  import opened Words
  import opened Protocol
  import opened ListPattern
  import opened CommandHandlers
  import opened Session
  import opened Sessions
  import Registry

  // ----- Arguments survive being rendered and split again -----

  lemma WordsAreTrimmed(word: string)
    requires Solid(word)
    ensures Solid(TrimQuotes(word)) && Bare(TrimQuotes(word))
  {
  }

  lemma BareWordsStay(text: string)
    requires Solid(text) && Bare(text)
    ensures Trim(text) == text && TrimQuotes(text) == text
  {
  }

  lemma SplitTwo(a: string, b: string)
    requires Solid(a) && Solid(b)
    ensures SplitWhitespace(a + " " + b)
         == if a != "" && b != "" then [a, b] else if a != "" then [a] else if b != "" then [b] else []
  {
    SplitPair(a, b);
  }

  /** The LIST arguments: two bare words are rendered with a space, split and trimmed again, and
      still yield reference followed by pattern; only the pair of two empty texts is lost. */
  lemma ListArguments(reference: string, pattern: string)
    requires Solid(reference) && Bare(reference) && Solid(pattern) && Bare(pattern)
    ensures match ListArgs(reference + " " + pattern)
      case None => reference == "" && pattern == ""
      case Some((r, p)) => (reference != "" || pattern != "") && EffectivePattern(r, p) == reference + pattern
  {
    SplitTwo(reference, pattern);
    BareWordsStay(reference);
    BareWordsStay(pattern);
    JoinedWhenTrimmed(reference, pattern);
    JoinedWhenTrimmed("", pattern);
    JoinedWhenTrimmed("", reference);
  }

  lemma JoinedWhenTrimmed(a: string, b: string)
    requires TrimQuotes(a) == a && TrimQuotes(b) == b
    ensures EffectivePattern(a, b) == a + b
  {
  }

  /** The LOGIN arguments reach the authenticator unchanged exactly when neither is empty. */
  lemma LoginArguments(username: string, password: string)
    requires Solid(username) && Solid(password)
    ensures LoginArgs(username + " " + password)
         == if username != "" && password != "" then Some((username, password)) else None
  {
    SplitPair(username, password);
  }

  // ----- Lines that reach a handler -----

  /** The commands that need no login. */
  const OPEN_COMMANDS := {"CAPABILITY", "LOGOUT", "LOGIN"}

  /** The line's tag is accepted and its command word, in any case, is `name`, served by `h`,
      and the gate is open. */
  predicate Reaches(server: Server, c: Connection, line: Line, name: string, h: Handler) {
    && AcceptedTag(c, line).Some?
    && SplitWhitespace(CommandLine(line)) != [] && server.upper(SplitWhitespace(CommandLine(line))[0]) == name
    && server.upper(name) in server.handlers && server.handlers[server.upper(name)] == h
    && (name in OPEN_COMMANDS || User(c.state).Some?)
  }

  /** With the handlers of `ImapServer`, a command reaches its handler once a user is logged in, and
      CAPABILITY, LOGOUT and LOGIN before. */
  lemma StandardCommandsReach(server: Server, c: Connection, line: Line, k: nat)
    requires k < 8 && Serves(server.handlers, 8) && KeepsNames(server.upper)
    ensures Reaches(server, c, line, COMMANDS[k], BUILT_IN[k])
       <==> AcceptedTag(c, line).Some? && SplitWhitespace(CommandLine(line)) != []
            && server.upper(SplitWhitespace(CommandLine(line))[0]) == COMMANDS[k]
            && (COMMANDS[k] in OPEN_COMMANDS || User(c.state).Some?)
  {
    assert COMMANDS[k] in COMMANDS;
  }

  function CommandLine(line: Line): string
    requires TagOfLine(line).Some?
  {
    SplitTag(line.text).value.1
  }

  /** Word `k` after the command's name is the text, whatever quotes stand around it. */
  ghost predicate Argues(line: Line, k: nat, text: string) {
    && TagOfLine(line).Some? && k < |SplitWhitespace(CommandLine(line))|
    && Says(SplitWhitespace(CommandLine(line))[k], text)
  }

  /** Every word is exactly one text. */
  lemma ArgumentIs(line: Line, k: nat, text: string)
    requires TagOfLine(line).Some? && k < |SplitWhitespace(CommandLine(line))|
    ensures Argues(line, k, text) <==> TrimQuotes(SplitWhitespace(CommandLine(line))[k]) == text
    ensures Argues(line, k, text) ==> Solid(text) && Bare(text) && Trim(text) == text
  {
    TrimQuotesExactly(SplitWhitespace(CommandLine(line))[k], text);
    WordsAreTrimmed(SplitWhitespace(CommandLine(line))[k]);
    if Argues(line, k, text) {
      BareWordsStay(text);
    }
  }

  /** A line that ran a handler, seen from outside. */
  function Handled(c: Connection, tag: string, o: Outcome): LineOutcome {
    LineOutcome(Apply(c.(tags := c.tags + {tag}), o.update), o.registry, o.responses)
  }

  function ContextOf(c: Connection, line: Line): Context {
    Context(c.state, line.authenticate, line.order)
  }

  lemma LineReachesHandler(server: Server, c: Connection, line: Line, r: Registry.Registry, h: Handler,
                           command: Command)
    requires AcceptedTag(c, line).Some?
    requires ParseCommand(server.upper, CommandLine(line)) == Parsed(command) && NameAndArgs(command).Some?
    requires var name := server.upper(NameAndArgs(command).value.0);
      name in server.handlers && server.handlers[name] == h && (RequiresAuth(h) ==> User(c.state).Some?)
    ensures var tag := AcceptedTag(c, line).value;
      HandleLine(server, c, line, r)
      == Handled(c, tag, Execute(h, tag, NameAndArgs(command).value.1, ContextOf(c, line), r))
  {
  }

  // ----- LIST -----

  lemma ListLineInjective(a: string, b: string)
    ensures ListLine(a) == ListLine(b) ==> a == b
  {
    var prefix := "LIST () \"/\" \"";
    if ListLine(a) == ListLine(b) {
      assert prefix + a + "\"" == ListLine(a).message && prefix + b + "\"" == ListLine(b).message;
      assert (prefix + a + "\"")[|prefix|..|prefix| + |a|] == a;
      assert (prefix + b + "\"")[|prefix|..|prefix| + |b|] == b;
    }
  }

  /** A listed name on the wire: no attributes, `/` as the hierarchy delimiter and the name in quotes,
      in the form of section 7.2.2 of RFC 3501. */
  lemma ListLineOnWire(name: string)
    ensures Display(ListLine(name)) == "* LIST () \"/\" \"" + name + "\"\r\n"
  {
    assert "* " + ("LIST () \"/\" \"" + name + "\"") + "\r\n" == "* LIST () \"/\" \"" + name + "\"\r\n";
  }

  /** The lines name exactly the mailboxes listed. */
  lemma ListLinesExactly(infos: seq<Registry.MailboxInfo>, name: string)
    ensures ListLine(name) in ListLines(infos) <==> Registry.ListsName(infos, name)
  {
    var lines := ListLines(infos);
    if ListLine(name) in lines {
      var k :| 0 <= k < |lines| && lines[k] == ListLine(name);
      ListLineInjective(infos[k].id.name, name);
      assert infos[k] in infos;
    }
    if Registry.ListsName(infos, name) {
      var info :| info in infos && info.id.name == name;
      var k :| 0 <= k < |infos| && infos[k] == info;
      assert lines[k] == ListLine(name);
    }
  }

  lemma ListLinesOnce(infos: seq<Registry.MailboxInfo>)
    requires Registry.NamesOnce(infos)
    ensures Distinct(ListLines(infos))
  {
    forall i, j | 0 <= i < j < |infos|
      ensures ListLines(infos)[i] != ListLines(infos)[j]
    {
      ListLineInjective(infos[i].id.name, infos[j].id.name);
    }
  }

  /** What a listing must be: one line for each of the user's mailboxes that matches the pattern in
      the sense of section 6.3.8 of RFC 3501 (INBOX in any case), none twice. */
  ghost predicate IsListing(listing: seq<Response>, r: Registry.Registry, username: string, wanted: string) {
    && Distinct(listing)
    && (forall response :: response in listing ==> exists name :: response == ListLine(name))
    && (forall name :: '\n' !in name || !NewlineSensitive(wanted) ==>
          (ListLine(name) in listing <==>
             (username, name) in r.mailboxes && (Wildcard(wanted, name) || (IsInbox(wanted) && IsInbox(name)))))
  }

  lemma ListLinesAreListing(r: Registry.Registry, order: seq<Registry.MailboxKey>, username: string, wanted: string)
    requires Registry.Inverse(r) && Enumerates(order, r.mailboxes.Keys)
    ensures IsListing(ListLines(Registry.ListMailboxes(r, order, username, PatternToFilter(wanted))),
                      r, username, wanted)
  {
    var infos := Registry.ListMailboxes(r, order, username, PatternToFilter(wanted));
    Registry.ListsNamesOnce(r, order, username, PatternToFilter(wanted));
    ListLinesOnce(infos);
    forall name | '\n' !in name || !NewlineSensitive(wanted)
      ensures ListLine(name) in ListLines(infos) <==>
        (username, name) in r.mailboxes && (Wildcard(wanted, name) || (IsInbox(wanted) && IsInbox(name)))
    {
      ListLinesExactly(infos, name);
      Registry.ListReportsMatches(r, order, username, wanted, name);
    }
  }

  lemma ListEffect(tag: string, a: string, b: string, ctx: Context, r: Registry.Registry, username: string)
    requires User(ctx.state) == Some(username)
    requires match ListArgs(a + " " + b)
      case None => a == "" && b == ""
      case Some((reference, pattern)) => (a != "" || b != "") && EffectivePattern(reference, pattern) == a + b
    ensures HandleList(tag, a + " " + b, ctx, r) == Outcome(None, r,
      if a + b == "" then [Bad(Some(tag), "Invalid LIST syntax")]
      else ListLines(Registry.ListMailboxes(r, ctx.order, username, PatternToFilter(a + b)))
           + [Ok(Some(tag), "LIST completed")])
  {
  }

  lemma ListParses(upper: string -> string, line: string)
    requires |SplitWhitespace(line)| >= 3 && upper(SplitWhitespace(line)[0]) == "LIST"
    ensures ParseCommand(upper, line)
         == Parsed(List(TrimQuotes(SplitWhitespace(line)[1]), TrimQuotes(SplitWhitespace(line)[2])))
  {
  }

  lemma ExecutesList(tag: string, args: string, ctx: Context, r: Registry.Registry)
    ensures Execute(ListHandler, tag, args, ctx, r) == HandleList(tag, args, ctx, r)
  {
  }

  lemma ListedLine(server: Server, c: Connection, line: Line, r: Registry.Registry, a: string, b: string)
    requires AcceptedTag(c, line).Some? && ParseCommand(server.upper, CommandLine(line)) == Parsed(List(a, b))
    requires server.upper("LIST") in server.handlers && server.handlers[server.upper("LIST")] == ListHandler
    requires User(c.state).Some?
    ensures var tag := AcceptedTag(c, line).value;
      HandleLine(server, c, line, r) == Handled(c, tag, HandleList(tag, a + " " + b, ContextOf(c, line), r))
  {
    ExecutesList(AcceptedTag(c, line).value, a + " " + b, ContextOf(c, line), r);
    LineReachesHandler(server, c, line, r, ListHandler, List(a, b));
  }

  /** A LIST line's answer: unless reference and pattern are both empty, the listing for the two
      joined, then OK. */
  lemma ListAnswers(server: Server, c: Connection, line: Line, r: Registry.Registry, reference: string,
                    pattern: string)
    returns (listing: seq<Response>)
    requires Reaches(server, c, line, "LIST", ListHandler) && Argues(line, 1, reference) && Argues(line, 2, pattern)
    requires Registry.Inverse(r) && Enumerates(line.order, r.mailboxes.Keys)
    ensures IsListing(listing, r, User(c.state).value, reference + pattern)
    ensures var tag := AcceptedTag(c, line).value;
      HandleLine(server, c, line, r) == Handled(c, tag, Outcome(None, r,
        if reference + pattern == "" then [Bad(Some(tag), "Invalid LIST syntax")]
        else listing + [Ok(Some(tag), "LIST completed")]))
  {
    var wanted, username := reference + pattern, User(c.state).value;
    listing := ListLines(Registry.ListMailboxes(r, line.order, username, PatternToFilter(wanted)));
    ListLinesAreListing(r, line.order, username, wanted);
    ArgumentIs(line, 1, reference);
    ArgumentIs(line, 2, pattern);
    ListArguments(reference, pattern);
    ListEffect(AcceptedTag(c, line).value, reference, pattern, ContextOf(c, line), r, username);
    ListParses(server.upper, CommandLine(line));
    ListedLine(server, c, line, r, reference, pattern);
  }

  // ----- LOGIN and SELECT -----

  /** How LOGIN with these words is answered. */
  function LoginReply(tag: string, u: string, p: string, authenticate: (string, string) -> AuthReply): Response {
    if u == "" || p == "" then Bad(Some(tag), "Invalid LOGIN syntax")
    else match authenticate(u, p)
      case Accepted => Ok(Some(tag), "LOGIN completed")
      case Rejected => No(Some(tag), "LOGIN failed: invalid credentials")
      case Failed(error) => No(Some(tag), "LOGIN failed: " + error)
  }

  lemma LoginEffect(tag: string, u: string, p: string, ctx: Context, r: Registry.Registry)
    requires LoginArgs(u + " " + p) == if u != "" && p != "" then Some((u, p)) else None
    ensures var reply := LoginReply(tag, u, p, ctx.authenticate);
      HandleLogin(tag, u + " " + p, ctx, r)
      == Outcome(if reply.Ok? then Some(Authenticated(u)) else None, r, [reply])
  {
  }

  /** A LOGIN line authenticates with its two words, in any session state: the user becomes the
      first word if the authenticator accepts them, and nothing changes otherwise. */
  lemma LoginAnswers(server: Server, c: Connection, line: Line, r: Registry.Registry, u: string, p: string)
    requires Reaches(server, c, line, "LOGIN", LoginHandler) && Argues(line, 1, u) && Argues(line, 2, p)
    ensures var tag := AcceptedTag(c, line).value;
      var reply, tagged := LoginReply(tag, u, p, line.authenticate), c.(tags := c.tags + {tag});
      HandleLine(server, c, line, r)
      == LineOutcome(if reply.Ok? then tagged.(state := Authenticated(u)) else tagged, r, [reply])
  {
    ArgumentIs(line, 1, u);
    ArgumentIs(line, 2, p);
    LoginArguments(u, p);
    LineReachesHandler(server, c, line, r, LoginHandler, Login(u, p));
    LoginEffect(AcceptedTag(c, line).value, u, p, ContextOf(c, line), r);
  }

  /** A SELECT line succeeds exactly for an existing mailbox of the user; a failed one keeps the old
      selection. */
  lemma SelectAnswers(server: Server, c: Connection, line: Line, r: Registry.Registry, name: string)
    requires Reaches(server, c, line, "SELECT", SelectHandler) && Argues(line, 1, name)
    ensures var username, tag := User(c.state).value, AcceptedTag(c, line).value;
      var tagged := c.(tags := c.tags + {tag});
      HandleLine(server, c, line, r)
      == (if name == "" then LineOutcome(tagged, r, [Bad(Some(tag), "SELECT requires a mailbox name")])
          else if (username, name) in r.mailboxes then
            LineOutcome(tagged.(state := Selected(username, name)), r,
                        [Ok(Some(tag), "SELECT completed for " + name)])
          else LineOutcome(tagged, r, [No(Some(tag), "Mailbox does not exist: " + name)]))
  {
    ArgumentIs(line, 1, name);
    LineReachesHandler(server, c, line, r, SelectHandler, Select(name));
  }

  // ----- CREATE and DELETE -----

  /** How CREATE is answered, `known` telling whether the user has the mailbox. */
  function CreateReply(tag: string, name: string, known: bool): Response {
    if name == "" then Bad(Some(tag), "CREATE requires a mailbox name")
    else if known then No(Some(tag), "CREATE failed: Mailbox already exists: " + name)
    else Ok(Some(tag), "CREATE completed for " + name)
  }

  function DeleteReply(tag: string, name: string, known: bool): Response {
    if name == "" then Bad(Some(tag), "DELETE requires a mailbox name")
    else if IsInbox(name) then No(Some(tag), "Cannot delete INBOX")
    else if known then Ok(Some(tag), "DELETE completed for " + name)
    else No(Some(tag), "DELETE failed: Mailbox not found: " + name)
  }

  /** A new mailbox: no messages, and UID 1 next. */
  function EmptyMailbox(username: string, name: string, uidValidity: Registry.U32): Registry.MailboxInfo {
    Registry.MailboxInfo(
      id := Registry.MailboxId(username, name), uidValidity := uidValidity, nextUid := 1,
      rootPath := username + "/" + name, messageCount := 0, unseenCount := 0, recentCount := 0)
  }

  lemma CreateRefusal(tag: string, name: string)
    requires name != ""
    ensures Completion(tag, "CREATE", name, Registry.MailboxExists(name)) == CreateReply(tag, name, true)
  {
    assert "CREATE" + " failed: " + ("Mailbox already exists: " + name)
        == "CREATE failed: " + "Mailbox already exists: " + name == "CREATE failed: Mailbox already exists: " + name;
  }

  lemma CreateCompletion(tag: string, name: string, info: Registry.MailboxInfo)
    requires name != ""
    ensures Completion(tag, "CREATE", name, Registry.Info(info)) == CreateReply(tag, name, false)
  {
    assert "CREATE" + " completed for " == "CREATE completed for ";
  }

  lemma DeleteCompletion(tag: string, name: string)
    requires name != "" && !IsInbox(name)
    ensures Completion(tag, "DELETE", name, Registry.MailboxNotFound(name)) == DeleteReply(tag, name, false)
    ensures Completion(tag, "DELETE", name, Registry.Done) == DeleteReply(tag, name, true)
  {
    assert "DELETE" + " failed: " + ("Mailbox not found: " + name)
        == "DELETE failed: " + "Mailbox not found: " + name == "DELETE failed: Mailbox not found: " + name;
    assert "DELETE" + " completed for " == "DELETE completed for ";
  }

  lemma CreateEffect(tag: string, name: string, ctx: Context, r: Registry.Registry)
    requires User(ctx.state).Some? && Trim(name) == name
    ensures var key, o := (User(ctx.state).value, name), HandleCreate(tag, name, ctx, r);
      var reply := CreateReply(tag, name, key in r.mailboxes);
      && o.update == None && o.responses == [reply]
      && (if reply.Ok?
          then o.registry.mailboxes == r.mailboxes[key := EmptyMailbox(key.0, key.1, r.nextUidValidity)]
               && o.registry.nextUidValidity == Registry.Succ(r.nextUidValidity)
          else o.registry == r)
  {
    if name != "" {
      CreateRefusal(tag, name);
      CreateCompletion(tag, name, Registry.NewInfo(User(ctx.state).value, name, r.nextUidValidity));
    }
  }

  lemma DeleteEffect(tag: string, name: string, ctx: Context, r: Registry.Registry)
    requires User(ctx.state).Some? && Trim(name) == name
    ensures var key, o := (User(ctx.state).value, name), HandleDelete(tag, name, ctx, r);
      var reply := DeleteReply(tag, name, key in r.mailboxes);
      && o.update == None && o.responses == [reply]
      && o.registry.mailboxes == (if reply.Ok? then r.mailboxes - {key} else r.mailboxes)
      && o.registry.nextUidValidity == r.nextUidValidity
  {
    if name != "" && !IsInbox(name) {
      DeleteCompletion(tag, name);
    }
  }

  /** A CREATE line adds the named mailbox of the user if it is not there, with the next UID
      validity; else it changes nothing. */
  lemma CreateAnswers(server: Server, c: Connection, line: Line, r: Registry.Registry, name: string)
    requires Reaches(server, c, line, "CREATE", CreateHandler) && Argues(line, 1, name)
    ensures var key, o, tag := (User(c.state).value, name), HandleLine(server, c, line, r), AcceptedTag(c, line).value;
      var reply := CreateReply(tag, name, key in r.mailboxes);
      && o.connection == c.(tags := c.tags + {tag}) && o.responses == [reply]
      && (if reply.Ok?
          then o.registry.mailboxes == r.mailboxes[key := EmptyMailbox(key.0, key.1, r.nextUidValidity)]
               && o.registry.nextUidValidity == Registry.Succ(r.nextUidValidity)
          else o.registry == r)
  {
    ArgumentIs(line, 1, name);
    LineReachesHandler(server, c, line, r, CreateHandler, Create(name));
    CreateEffect(AcceptedTag(c, line).value, name, ContextOf(c, line), r);
  }

  lemma DeleteLine(c: Connection, tag: string, name: string, ctx: Context, r: Registry.Registry, o: LineOutcome)
    requires User(ctx.state).Some? && Trim(name) == name && o == Handled(c, tag, HandleDelete(tag, name, ctx, r))
    ensures var key := (User(ctx.state).value, name);
      var reply := DeleteReply(tag, name, key in r.mailboxes);
      && o.connection == c.(tags := c.tags + {tag}) && o.responses == [reply]
      && o.registry.mailboxes == (if reply.Ok? then r.mailboxes - {key} else r.mailboxes)
      && o.registry.nextUidValidity == r.nextUidValidity
  {
    DeleteEffect(tag, name, ctx, r);
  }

  /** A DELETE line removes the named mailbox of the user, but no INBOX. */
  lemma DeleteAnswers(server: Server, c: Connection, line: Line, r: Registry.Registry, name: string)
    requires Reaches(server, c, line, "DELETE", DeleteHandler) && Argues(line, 1, name)
    ensures var key, o, tag := (User(c.state).value, name), HandleLine(server, c, line, r), AcceptedTag(c, line).value;
      var reply := DeleteReply(tag, name, key in r.mailboxes);
      && o.connection == c.(tags := c.tags + {tag}) && o.responses == [reply]
      && o.registry.mailboxes == (if reply.Ok? then r.mailboxes - {key} else r.mailboxes)
      && o.registry.nextUidValidity == r.nextUidValidity
  {
    ArgumentIs(line, 1, name);
    LineReachesHandler(server, c, line, r, DeleteHandler, Delete(name));
    DeleteLine(c, AcceptedTag(c, line).value, name, ContextOf(c, line), r, HandleLine(server, c, line, r));
  }

  /** CREATE then DELETE of the same new name restores the mailboxes, unless the name is INBOX
      in some letter case, which stays; the UID validity is spent either way. */
  lemma CreateThenDelete(server: Server, c: Connection, create: Line, delete: Line, r: Registry.Registry, name: string)
    requires Reaches(server, c, create, "CREATE", CreateHandler) && Argues(create, 1, name)
    requires name != "" && (User(c.state).value, name) !in r.mailboxes
    requires Reaches(server, HandleLine(server, c, create, r).connection, delete, "DELETE", DeleteHandler)
    requires Argues(delete, 1, name)
    ensures var o := HandleLine(server, c, create, r);
      var o' := HandleLine(server, o.connection, delete, o.registry);
      && Succeeded(o.responses)
      && (Succeeded(o'.responses) <==> !IsInbox(name))
      && (o'.registry.mailboxes == r.mailboxes <==> !IsInbox(name))
      && o'.registry.nextUidValidity == Registry.Succ(r.nextUidValidity)
  {
    var o := HandleLine(server, c, create, r);
    CreateAnswers(server, c, create, r, name);
    DeleteAnswers(server, o.connection, delete, o.registry, name);
    AddedThenRemoved(r.mailboxes, (User(c.state).value, name),
                     EmptyMailbox(User(c.state).value, name, r.nextUidValidity));
  }

  lemma AddedThenRemoved<K, V>(m: map<K, V>, k: K, v: V)
    requires k !in m
    ensures m[k := v] - {k} == m && m[k := v] != m
  {
    assert k in m[k := v];
  }

  // ----- Lines that reach no handler, and the plain handlers -----

  /** What a command word needs after it. */
  function Needed(command: string): nat {
    if command in {"SELECT", "EXAMINE", "CREATE", "DELETE"} then 1
    else if command in {"LOGIN", "LIST"} then 2 else 0
  }

  const KNOWN := {"CAPABILITY", "NOOP", "LOGOUT", "STARTTLS", "LOGIN", "SELECT", "EXAMINE", "CREATE", "DELETE",
                  "LIST", "CLOSE", "EXPUNGE"}

  /** The parser refuses a line exactly if it has no word or fewer than its command needs. */
  lemma MalformedExactly(upper: string -> string, line: string)
    ensures ParseCommand(upper, line).Malformed?
       <==> var words := SplitWhitespace(line);
            words == [] || |words| <= Needed(upper(words[0]))
  {
  }

  /** A word that is no command's name is passed on, in upper case, with the words after it. */
  lemma OtherWordsArePassedOn(upper: string -> string, line: string) returns (args: string)
    requires SplitWhitespace(line) != [] && upper(SplitWhitespace(line)[0]) !in KNOWN
    ensures ParseCommand(upper, line) == Parsed(Custom(upper(SplitWhitespace(line)[0]), args))
    ensures SplitWhitespace(args) == SplitWhitespace(line)[1..]
  {
    args := Join(SplitWhitespace(line)[1..]);
    SplitJoined(SplitWhitespace(line)[1..]);
  }

  /** The command's handler wants a login first. */
  predicate Barred(server: Server, c: Connection, name: string) {
    && server.upper(name) in server.handlers
    && CommandName(server.handlers[server.upper(name)]) !in OPEN_COMMANDS && c.state.NotAuthenticated?
  }

  /** A line refused before any handler does nothing but use up its tag, and is answered BAD or, for
      want of a login, NO. */
  lemma RefusedLine(server: Server, c: Connection, line: Line, r: Registry.Registry)
    requires AcceptedTag(c, line).Some?
    ensures var tag, o := AcceptedTag(c, line).value, HandleLine(server, c, line, r);
      var tagged := c.(tags := c.tags + {tag});
      match ParseCommand(server.upper, CommandLine(line))
      case Malformed(error) => o == LineOutcome(tagged, r, [Bad(Some(tag), "Parse error: Protocol error: " + error)])
      case Parsed(Starttls) => o.registry == r
      case Parsed(command) =>
        match NameAndArgs(command)
        case None => o == LineOutcome(tagged, r, [Bad(Some(tag), "Command not yet implemented")])
        case Some((name, _)) =>
          && (server.upper(name) !in server.handlers ==>
                o == LineOutcome(tagged, r, [Bad(Some(tag), "Unknown command: " + name)]))
          && (Barred(server, c, name) ==>
                o == LineOutcome(tagged, r, [No(Some(tag), "Command requires authentication")]))
  {
  }

  /** EXAMINE, CLOSE and EXPUNGE are understood but answered BAD. */
  lemma UnimplementedAnswers(server: Server, c: Connection, line: Line, r: Registry.Registry)
    requires AcceptedTag(c, line).Some? && SplitWhitespace(CommandLine(line)) != []
    requires var command := server.upper(SplitWhitespace(CommandLine(line))[0]);
      command in {"EXAMINE", "CLOSE", "EXPUNGE"} && |SplitWhitespace(CommandLine(line))| > Needed(command)
    ensures var tag := AcceptedTag(c, line).value;
      HandleLine(server, c, line, r)
      == LineOutcome(c.(tags := c.tags + {tag}), r, [Bad(Some(tag), "Command not yet implemented")])
  {
    UnimplementedParses(server.upper, CommandLine(line));
    RefusedLine(server, c, line, r);
  }

  lemma UnimplementedParses(upper: string -> string, line: string)
    requires SplitWhitespace(line) != []
    requires var command := upper(SplitWhitespace(line)[0]);
      command in {"EXAMINE", "CLOSE", "EXPUNGE"} && |SplitWhitespace(line)| > Needed(command)
    ensures ParseCommand(upper, line).Parsed? && !ParseCommand(upper, line).command.Starttls?
    ensures NameAndArgs(ParseCommand(upper, line).command) == None
  {
  }

  /** The greeting of a session, which begins without a user. */
  lemma GreetingOnWire(isTls: bool)
    ensures Display(GREETING) == "* OK IMAP server ready\r\n" && User(Opened(isTls).state) == None
  {
    assert "*" + " OK " + "IMAP server ready" + "\r\n" == "* OK IMAP server ready\r\n";
  }

  /** A line whose tag is refused changes nothing and is answered BAD. */
  lemma RefusedTag(server: Server, c: Connection, line: Line, r: Registry.Registry)
    requires TagOfLine(line).Some? && AcceptedTag(c, line) == None
    ensures var tag := TagOfLine(line).value;
      var reason := if tag in c.tags then "Duplicate tag: " + tag else "Maximum tag history exceeded";
      HandleLine(server, c, line, r) == LineOutcome(c, r, [Bad(Some(tag), "Tag error: Protocol error: " + reason)])
  {
  }

  /** A STARTTLS line encrypts a plain connection if the server can. */
  lemma StarttlsAnswers(server: Server, c: Connection, line: Line, r: Registry.Registry)
    requires AcceptedTag(c, line).Some? && SplitWhitespace(CommandLine(line)) != []
    requires server.upper(SplitWhitespace(CommandLine(line))[0]) == "STARTTLS"
    ensures var tag := AcceptedTag(c, line).value;
      var tagged := c.(tags := c.tags + {tag});
      HandleLine(server, c, line, r)
      == (if c.isTls then LineOutcome(tagged, r, [Bad(Some(tag), "Already using TLS")])
          else if server.acceptor then
            LineOutcome(tagged.(isTls := true), r, [Ok(Some(tag), "Ready for TLS handshake")])
          else LineOutcome(tagged, r, [Bad(Some(tag), "STARTTLS not available")]))
  {
  }

  // The plain handlers always succeed; only LOGOUT changes anything.

  lemma CapabilityAnswers(server: Server, c: Connection, line: Line, r: Registry.Registry, isTls: bool)
    requires Reaches(server, c, line, "CAPABILITY", CapabilityHandler(isTls))
    ensures var tag := AcceptedTag(c, line).value;
      HandleLine(server, c, line, r) == LineOutcome(c.(tags := c.tags + {tag}), r,
        [Ok(Some(tag), if isTls then "CAPABILITY IMAP4rev1" else "CAPABILITY IMAP4rev1 STARTTLS")])
  {
    LineReachesHandler(server, c, line, r, CapabilityHandler(isTls), Capability);
    assert "CAPABILITY IMAP4rev1" + " STARTTLS" == "CAPABILITY IMAP4rev1 STARTTLS";
    assert "CAPABILITY IMAP4rev1" + "" == "CAPABILITY IMAP4rev1";
  }

  lemma NoopAnswers(server: Server, c: Connection, line: Line, r: Registry.Registry)
    requires Reaches(server, c, line, "NOOP", NoopHandler)
    ensures var tag := AcceptedTag(c, line).value;
      HandleLine(server, c, line, r)
      == LineOutcome(c.(tags := c.tags + {tag}), r, [Ok(Some(tag), "NOOP completed")])
  {
    LineReachesHandler(server, c, line, r, NoopHandler, Noop);
  }

  lemma LogoutAnswers(server: Server, c: Connection, line: Line, r: Registry.Registry)
    requires Reaches(server, c, line, "LOGOUT", LogoutHandler)
    ensures var tag := AcceptedTag(c, line).value;
      HandleLine(server, c, line, r) == LineOutcome(c.(tags := c.tags + {tag}, open := false), r,
                                                    [Bye("Logging out"), Ok(Some(tag), "LOGOUT completed")])
  {
    LineReachesHandler(server, c, line, r, LogoutHandler, Logout);
  }
}
