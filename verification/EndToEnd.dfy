/** The whole pipeline: storage operation, file change, event, index. The index is shown to
    agree with the files after any run. A rename is taken to be reported as one modification
    with the old path, then the new one, and each operation's events are handled before the
    next operation. */
module EndToEnd {
  import opened Text
  import opened Maildir
  import opened Events
  import Registry
  import opened Storage
  import opened Watcher
  import opened IndexBackend
  import opened Indexer
  import opened Agreement

  datatype System = System(files: Files, index: IndexState)

  type MailParser = Content -> Option<Meta>

  /** How the file system reports an operation. */
  function Reported(files: Files, op: Op): FileChange {
    match op
    case Store(path, _) => if path in files then Modified([path]) else Created([path])
    case UpdateFlags(current, flags) =>
      if IsFilePath(current) && current in files && Renamable(current, flags) then
        Modified([current, NewPath(current, flags)])
      else Other([])
    case Delete(path) => if path in files then Removed([path]) else Other([])
  }

  function WithId(events: seq<Event>, newId: MessageId): seq<(Event, MessageId)> {
    if events == [] then [] else [(events[0], newId)] + WithId(events[1..], newId)
  }

  function EventsOf(files: Files, op: Op, parseMail: MailParser): seq<Event> {
    EventsForAll(Reported(files, op), Reported(files, op).paths, ApplyOp(files, op).0, parseMail)
  }

  function Step(s: System, op: Op, newId: MessageId, parseMail: MailParser): System {
    System(ApplyOp(s.files, op).0, RunEvents(s.index, WithId(EventsOf(s.files, op, parseMail), newId)))
  }

  /** One operation through the storage loop, the watcher and the listener. */
  method Perform(store: FilesystemStore, listener: Listener, op: Op, newId: MessageId, parseMail: MailParser)
    modifies store, listener, listener.backend, listener.mailboxes
    ensures System(store.files, listener.State())
         == Step(System(old(store.files), old(listener.State())), op, newId, parseMail)
  {
    var change := Reported(store.files, op);
    match op {
      case Store(path, content) =>
        RunOne(store.files, Write(path, content));
        var _ := RunWriterLoop(store, [Write(path, content)]);
      case UpdateFlags(current, flags) =>
        var _ := UpdateFlagsOf(store, current, flags);
      case Delete(path) =>
        RunOne(store.files, Remove(path));
        var _ := RunWriterLoop(store, [Remove(path)]);
    }
    var published := HandleFilesystemEvent(change, store, parseMail);
    listener.EventLoop(WithId(published, newId));
  }

  /** A change that touches no file's name or existence, as when a file is read or closed. */
  function Notice(s: System, paths: seq<FilePath>, newId: MessageId, parseMail: MailParser): System {
    s.(index := RunEvents(s.index, WithId(EventsForAll(Other(paths), paths, s.files, parseMail), newId)))
  }

  method PassOn(store: FilesystemStore, listener: Listener, paths: seq<FilePath>, newId: MessageId,
                parseMail: MailParser)
    modifies listener, listener.backend, listener.mailboxes
    ensures System(store.files, listener.State())
         == Notice(System(old(store.files), old(listener.State())), paths, newId, parseMail)
  {
    var published := HandleFilesystemEvent(Other(paths), store, parseMail);
    listener.EventLoop(WithId(published, newId));
  }

  // ----- Which file is which message -----

  function MessageAt(path: FilePath): Option<Message> {
    match ParseMessagePath(path)
    case None => None
    case Some(p) => Some(Message(p.username, p.mailbox, p.uniqueId))
  }

  /** A file is shown if its name parses and its content is readable mail. */
  function ViewOf(path: FilePath, content: Content, parseMail: MailParser): (v: Option<View>)
    ensures v.Some? ==> MessageAt(path) == Some(v.value.message)
  {
    if ParseMessagePath(path).Some? && parseMail(content).Some? then
      Some(View(MessageAt(path).value, ShownFlags(ParseMessagePath(path).value), parseMail(content).value))
    else None
  }

  function ViewerOf(parseMail: MailParser): (FilePath, Content) -> Option<View> {
    (path: FilePath, content: Content) => ViewOf(path, content, parseMail)
  }

  /** What is to be seen of the shown files. */
  function Views(files: Files, parseMail: MailParser): map<FilePath, View> {
    ShownOf(files, ViewerOf(parseMail))
  }

  lemma NamesAreSlashFree(path: FilePath)
    requires MessageAt(path).Some?
    ensures var m := MessageAt(path).value;
      m.username == path[0] && m.mailbox == path[1] && SlashFree(m.username) && SlashFree(m.mailbox)
  {
    assert IsName(path[0]) && IsName(path[1]);
  }

  lemma RenamedIsSameMessage(path: FilePath, flags: seq<MessageFlag>)
    requires Renamable(path, flags)
    ensures MessageAt(NewPath(path, flags)) == MessageAt(path)
  {
    PathRoundTrip(path, flags);
  }

  function Renamed(files: Files, from: FilePath, to: FilePath): Files
    requires from in files
  {
    (files - {from})[to := files[from]]
  }

  // ----- The views after an operation -----

  lemma ViewsAfterStore(files: Files, path: FilePath, content: Content, parseMail: MailParser)
    ensures Views(files[path := content], parseMail)
         == SetView(Views(files, parseMail), path, ViewOf(path, content, parseMail))
  {
    ShownAfterSet(files, ViewerOf(parseMail), path, content);
  }

  lemma ViewsAfterDelete(files: Files, path: FilePath, parseMail: MailParser)
    ensures Views(files - {path}, parseMail) == Views(files, parseMail) - {path}
  {
    ShownAfterRemove(files, ViewerOf(parseMail), path);
  }

  lemma ViewsAfterRename(files: Files, from: FilePath, to: FilePath, parseMail: MailParser)
    requires from in files
    ensures Views(Renamed(files, from, to), parseMail)
         == SetView(Views(files, parseMail) - {from}, to, ViewOf(to, files[from], parseMail))
  {
    ViewsAfterDelete(files, from, parseMail);
    ViewsAfterStore(files - {from}, to, files[from], parseMail);
  }

  lemma ViewsAreNamed(files: Files, parseMail: MailParser)
    ensures Named(files.Keys, Views(files, parseMail), MessageAt)
  {
  }

  // ----- The invariant -----

  /** A shown file is the only file of its message, shown or not. */
  ghost predicate Tidy(files: Files, parseMail: MailParser) {
    Singular(files.Keys, Views(files, parseMail), MessageAt)
  }

  ghost predicate Sound(s: System, a: Abstract, parseMail: MailParser, headers: bool) {
    && Tidy(s.files, parseMail)
    && Refines(s.index, a) && Agree(Views(s.files, parseMail), a, headers)
  }

  /** Some map is what the index holds and what the files show. */
  ghost predicate Consistent(s: System, parseMail: MailParser, headers: bool) {
    exists a :: Refines(s.index, a) && Agree(Views(s.files, parseMail), a, headers)
  }

  ghost predicate SomeSound(s: System, parseMail: MailParser, headers: bool) {
    exists a :: Sound(s, a, parseMail, headers)
  }

  /** No other file is this message, unless neither is shown. */
  ghost predicate Alone(files: Files, path: FilePath, content: Content, parseMail: MailParser) {
    AloneIn(files.Keys, Views(files, parseMail), MessageAt, path, ViewOf(path, content, parseMail).Some?)
  }

  /** Two contents of one file look alike in the index. */
  predicate Similar(v: Option<View>, w: Option<View>, headers: bool) {
    if v.None? || w.None? then v == w else Alike(v.value, w.value, headers)
  }

  /** A new message goes to a registered mailbox; a file that is overwritten looks as before. */
  predicate Showable(s: System, path: FilePath, content: Content, parseMail: MailParser, headers: bool) {
    if path in s.files then Similar(ViewOf(path, content, parseMail), ViewOf(path, s.files[path], parseMail), headers)
    else ViewOf(path, content, parseMail).Some? ==> (path[0], path[1]) in s.index.registry.mailboxes
  }

  /** The conditions on an operation; only stores have any. */
  ghost predicate Acceptable(s: System, op: Op, parseMail: MailParser, headers: bool) {
    op.Store? ==>
      && Showable(s, op.path, op.content, parseMail, headers)
      && Alone(s.files, op.path, op.content, parseMail)
  }

  /** The abstract index after an operation. */
  function AbstractStep(s: System, a: Abstract, op: Op, newId: MessageId, parseMail: MailParser): Abstract {
    AbstractRun(a, s.index, WithId(EventsOf(s.files, op, parseMail), newId))
  }

  /** The operation keeps files and index in agreement. */
  ghost predicate Keeps(s: System, a: Abstract, op: Op, newId: MessageId, parseMail: MailParser, headers: bool) {
    && Refines(Step(s, op, newId, parseMail).index, AbstractStep(s, a, op, newId, parseMail))
    && Agree(Views(ApplyOp(s.files, op).0, parseMail), AbstractStep(s, a, op, newId, parseMail), headers)
  }

  // ----- Files stay tidy -----

  lemma TidyStore(files: Files, path: FilePath, content: Content, parseMail: MailParser)
    requires Tidy(files, parseMail)
    ensures Tidy(files[path := content], parseMail) <==> Alone(files, path, content, parseMail)
  {
    ViewsAreNamed(files, parseMail);
    ViewsAfterStore(files, path, content, parseMail);
    assert files[path := content].Keys == files.Keys + {path};
    SingularSet(files.Keys, Views(files, parseMail), MessageAt, path, ViewOf(path, content, parseMail));
  }

  lemma TidyDelete(files: Files, path: FilePath, parseMail: MailParser)
    requires Tidy(files, parseMail)
    ensures Tidy(files - {path}, parseMail)
  {
    ViewsAfterDelete(files, path, parseMail);
    assert (files - {path}).Keys == files.Keys - {path};
    SingularLess(files.Keys, Views(files, parseMail), MessageAt, path);
  }

  /** A file that stays shown, or stays hidden, has no twin to fear. */
  lemma StillAlone(files: Files, path: FilePath, content: Content, parseMail: MailParser)
    requires Tidy(files, parseMail) && path in files
    requires ViewOf(path, content, parseMail).Some? ==> path in Views(files, parseMail)
    ensures Alone(files, path, content, parseMail)
  {
    ViewsAreNamed(files, parseMail);
    SingularAlone(files.Keys, Views(files, parseMail), MessageAt, path);
  }

  lemma TidyRename(files: Files, from: FilePath, to: FilePath, parseMail: MailParser)
    requires Tidy(files, parseMail) && from in files && MessageAt(to) == MessageAt(from)
    requires ViewOf(to, files[from], parseMail).Some? == ViewOf(from, files[from], parseMail).Some?
    ensures Tidy(Renamed(files, from, to), parseMail)
  {
    StillAlone(files, from, files[from], parseMail);
    TidyDelete(files, from, parseMail);
    ViewsAfterDelete(files, from, parseMail);
    TidyStore(files - {from}, to, files[from], parseMail);
  }

  lemma RenameViews(from: FilePath, flags: seq<MessageFlag>, content: Content, parseMail: MailParser)
    requires Renamable(from, flags)
    ensures ViewOf(NewPath(from, flags), content, parseMail).Some? == ViewOf(from, content, parseMail).Some?
    ensures ViewOf(from, content, parseMail).Some? ==>
      var before := ViewOf(from, content, parseMail).value;
      var after := ViewOf(NewPath(from, flags), content, parseMail).value;
      after.message == before.message && after.meta == before.meta
  {
    PathRoundTrip(from, flags);
  }

  lemma TidyUpdate(files: Files, current: FilePath, flags: seq<MessageFlag>, parseMail: MailParser)
    requires Tidy(files, parseMail) && current in files && Renamable(current, flags)
    ensures Tidy(Renamed(files, current, NewPath(current, flags)), parseMail)
  {
    RenameViews(current, flags, files[current], parseMail);
    RenamedIsSameMessage(current, flags);
    TidyRename(files, current, NewPath(current, flags), parseMail);
  }

  lemma UpdatedFiles(files: Files, from: FilePath, flags: seq<MessageFlag>)
    requires from in files && Renamable(from, flags)
    ensures ApplyOp(files, UpdateFlags(from, flags)).0 == Renamed(files, from, NewPath(from, flags))
  {
  }

  lemma RefusedUpdate(files: Files, current: Path, flags: seq<MessageFlag>)
    requires IsFilePath(current) && current in files ==> !Renamable(current, flags)
    ensures ApplyOp(files, UpdateFlags(current, flags)).0 == files
  {
  }

  lemma TidyStep(s: System, op: Op, parseMail: MailParser, headers: bool)
    requires Tidy(s.files, parseMail) && Acceptable(s, op, parseMail, headers)
    ensures Tidy(ApplyOp(s.files, op).0, parseMail)
  {
    match op
    case Store(path, content) => TidyStore(s.files, path, content, parseMail);
    case UpdateFlags(current, flags) =>
      if IsFilePath(current) && current in s.files && Renamable(current, flags) {
        TidyUpdate(s.files, current, flags, parseMail);
        UpdatedFiles(s.files, current, flags);
      } else {
        RefusedUpdate(s.files, current, flags);
      }
    case Delete(path) => TidyDelete(s.files, path, parseMail);
  }

  /** A message is in the index exactly if a shown file is it. */
  lemma InIndexExactly(files: Files, a: Abstract, parseMail: MailParser, headers: bool, m: Message)
    requires Agree(Views(files, parseMail), a, headers)
    ensures m in a <==> exists q :: q in Views(files, parseMail) && MessageAt(q) == Some(m)
  {
    var views := Views(files, parseMail);
    AgreeObservations(views, a, headers);
    assert forall q :: q in views ==> MessageAt(q) == Some(views[q].message);
    if m in a {
      var q :| q in views && views[q].message == m;
    }
  }

  /** A file that is not shown is no message of the index. */
  lemma HiddenNotInIndex(files: Files, a: Abstract, parseMail: MailParser, headers: bool, path: FilePath)
    requires Tidy(files, parseMail) && Agree(Views(files, parseMail), a, headers)
    requires path in files && path !in Views(files, parseMail) && MessageAt(path).Some?
    ensures MessageAt(path).value !in a
  {
    InIndexExactly(files, a, parseMail, headers, MessageAt(path).value);
  }

  lemma IndexIsSlashFree(files: Files, a: Abstract, parseMail: MailParser, headers: bool)
    requires Agree(Views(files, parseMail), a, headers)
    ensures SlashFreeIndex(a)
  {
    forall m | m in a
      ensures SlashFree(m.username) && SlashFree(m.mailbox)
    {
      InIndexExactly(files, a, parseMail, headers, m);
      var q :| q in Views(files, parseMail) && MessageAt(q) == Some(m);
      NamesAreSlashFree(q);
    }
  }

  // ----- Which events an operation causes -----

  lemma RunOneEvent(s: IndexState, a: Abstract, e: Event, newId: MessageId)
    ensures RunEvents(s, WithId([e], newId)) == HandleEvent(s, e, newId)
    ensures AbstractRun(a, s, WithId([e], newId)) == AbstractEvent(a, s.registry, e)
  {
    var inputs := WithId([e], newId);
    assert inputs == [(e, newId)] by {
      assert [e][1..] == [] && WithId([], newId) == [];
      assert [(e, newId)] + [] == [(e, newId)];
    }
    assert inputs[1..] == [];
  }

  lemma RunTwoEvents(s: IndexState, a: Abstract, e: Event, f: Event, newId: MessageId)
    ensures RunEvents(s, WithId([e, f], newId)) == HandleEvent(HandleEvent(s, e, newId), f, newId)
    ensures AbstractRun(a, s, WithId([e, f], newId))
         == AbstractEvent(AbstractEvent(a, s.registry, e), HandleEvent(s, e, newId).registry, f)
  {
    assert [e, f][1..] == [f];
    var inputs := WithId([e, f], newId);
    assert inputs == [(e, newId)] + WithId([f], newId) && inputs[1..] == WithId([f], newId);
    RunOneEvent(HandleEvent(s, e, newId), AbstractEvent(a, s.registry, e), f, newId);
  }

  lemma RunNoEvents(s: IndexState, a: Abstract, newId: MessageId)
    ensures RunEvents(s, WithId([], newId)) == s && AbstractRun(a, s, WithId([], newId)) == a
  {
  }

  lemma OnePathEvents(change: FileChange, path: FilePath, files: Files, parseMail: MailParser)
    ensures EventsForAll(change, [path], files, parseMail) == EventsFor(change, path, files, parseMail)
  {
    assert [path][1..] == [];
    var events := EventsFor(change, path, files, parseMail);
    assert events + [] == events;
  }

  lemma TwoPathEvents(from: FilePath, to: FilePath, files: Files, parseMail: MailParser)
    ensures EventsForAll(Modified([from, to]), [from, to], files, parseMail) == ModifyEvents(from) + ModifyEvents(to)
  {
    assert [from, to][1..] == [to];
    OnePathEvents(Modified([from, to]), to, files, parseMail);
  }

  /** The events of a store: a creation for a new readable message, a modification for an
      overwritten file, nothing for other files. */
  lemma StoreEvents(files: Files, path: FilePath, content: Content, parseMail: MailParser)
    ensures EventsOf(files, Store(path, content), parseMail)
         == if path in files then ModifyEvents(path) else CreateEvents(path, files[path := content], parseMail)
  {
    OnePathEvents(Created([path]), path, files[path := content], parseMail);
    OnePathEvents(Modified([path]), path, files[path := content], parseMail);
  }

  lemma DeleteEvents(files: Files, path: FilePath, parseMail: MailParser)
    ensures EventsOf(files, Delete(path), parseMail) == if path in files then RemoveEvents(path) else []
  {
    OnePathEvents(Removed([path]), path, files - {path}, parseMail);
  }

  lemma RenameEvents(files: Files, from: FilePath, flags: seq<MessageFlag>, parseMail: MailParser)
    requires from in files && Renamable(from, flags)
    ensures EventsOf(files, UpdateFlags(from, flags), parseMail)
         == ModifyEvents(from) + ModifyEvents(NewPath(from, flags))
  {
    TwoPathEvents(from, NewPath(from, flags), ApplyOp(files, UpdateFlags(from, flags)).0, parseMail);
  }

  // ----- One operation -----

  lemma OneEventSound(s: IndexState, a: Abstract, e: Event, newId: MessageId)
    requires Refines(s, a) && SlashFreeIndex(a) && SlashFreeEvent(e) && newId !in s.backend
    requires e.MessageCreated? && (e.username, e.mailbox) in s.registry.mailboxes ==>
               Message(e.username, e.mailbox, e.uniqueId) !in a
    ensures Refines(HandleEvent(s, e, newId), AbstractEvent(a, s.registry, e))
    ensures SlashFreeIndex(AbstractEvent(a, s.registry, e))
  {
    SlashFreeIsUnambiguous(a, s.registry, e);
    EventRefines(s, a, e, newId);
  }

  function CreatedEvent(path: FilePath, meta: Meta): Event
    requires ParseMessagePath(path).Some?
  {
    var p := ParseMessagePath(path).value;
    MessageCreated(p.username, p.mailbox, p.uniqueId, KeyString(p.username, p.mailbox, p.uniqueId),
                   ShownFlags(p), p.isNew, meta)
  }

  lemma StoreShownEvent(files: Files, path: FilePath, content: Content, parseMail: MailParser)
    requires path !in files && ViewOf(path, content, parseMail).Some?
    ensures EventsOf(files, Store(path, content), parseMail) == [CreatedEvent(path, parseMail(content).value)]
    ensures SlashFreeEvent(CreatedEvent(path, parseMail(content).value))
  {
    StoreEvents(files, path, content, parseMail);
    NamesAreSlashFree(path);
  }

  lemma StoreShownKeeps(s: System, a: Abstract, path: FilePath, content: Content, newId: MessageId,
                        parseMail: MailParser, headers: bool)
    requires Refines(s.index, a) && Agree(Views(s.files, parseMail), a, headers) && newId !in s.index.backend
    requires path !in s.files && ViewOf(path, content, parseMail).Some?
    requires (path[0], path[1]) in s.index.registry.mailboxes && MessageAt(path).value !in a
    ensures Keeps(s, a, Store(path, content), newId, parseMail, headers)
  {
    var e, m := CreatedEvent(path, parseMail(content).value), MessageAt(path).value;
    StoreShownEvent(s.files, path, content, parseMail);
    RunOneEvent(s.index, a, e, newId);
    IndexIsSlashFree(s.files, a, parseMail, headers);
    OneEventSound(s.index, a, e, newId);
    var d := AbstractEvent(a, s.index.registry, e)[m];
    ViewsAfterStore(s.files, path, content, parseMail);
    AgreeAdd(Views(s.files, parseMail), a, headers, path, ViewOf(path, content, parseMail).value, d);
  }

  lemma StoreHiddenKeeps(s: System, a: Abstract, path: FilePath, content: Content, newId: MessageId,
                         parseMail: MailParser, headers: bool)
    requires Refines(s.index, a) && Agree(Views(s.files, parseMail), a, headers)
    requires path !in s.files && ViewOf(path, content, parseMail).None?
    ensures Keeps(s, a, Store(path, content), newId, parseMail, headers)
  {
    StoreEvents(s.files, path, content, parseMail);
    RunNoEvents(s.index, a, newId);
    ViewsAfterStore(s.files, path, content, parseMail);
    NothingToRemove(Views(s.files, parseMail), path);
  }

  function ModifiedEvent(path: FilePath): Event
    requires ParseMessagePath(path).Some?
  {
    var p := ParseMessagePath(path).value;
    MessageModified(p.username, p.mailbox, p.uniqueId, ShownFlags(p))
  }

  lemma ModifiedReflags(s: IndexState, a: Abstract, path: FilePath, newId: MessageId)
    requires Refines(s, a) && SlashFreeIndex(a) && ParseMessagePath(path).Some? && newId !in s.backend
    ensures AbstractEvent(a, s.registry, ModifiedEvent(path))
         == Reflagged(a, MessageAt(path).value, ShownFlags(ParseMessagePath(path).value))
    ensures Refines(HandleEvent(s, ModifiedEvent(path), newId),
                    Reflagged(a, MessageAt(path).value, ShownFlags(ParseMessagePath(path).value)))
    ensures SlashFreeIndex(Reflagged(a, MessageAt(path).value, ShownFlags(ParseMessagePath(path).value)))
    ensures HandleEvent(s, ModifiedEvent(path), newId).backend.Keys == s.backend.Keys
  {
    NamesAreSlashFree(path);
    OneEventSound(s, a, ModifiedEvent(path), newId);
  }

  /** A message of the index already shows the flags of its file. */
  lemma ReflaggedAsBefore(files: Files, a: Abstract, parseMail: MailParser, headers: bool, path: FilePath)
    requires Tidy(files, parseMail) && Agree(Views(files, parseMail), a, headers)
    requires path in files && ParseMessagePath(path).Some?
    ensures Reflagged(a, MessageAt(path).value, ShownFlags(ParseMessagePath(path).value)) == a
  {
    var m := MessageAt(path).value;
    if path in Views(files, parseMail) {
      AgreeObservations(Views(files, parseMail), a, headers);
      assert Views(files, parseMail)[path].message == m;
    } else {
      HiddenNotInIndex(files, a, parseMail, headers, path);
    }
    SameFlags(a, m, ShownFlags(ParseMessagePath(path).value));
  }

  /** An overwriting store leaves the index as it was. */
  lemma OverwriteKeepsIndex(s: System, a: Abstract, path: FilePath, content: Content, newId: MessageId,
                            parseMail: MailParser, headers: bool)
    requires Sound(s, a, parseMail, headers) && path in s.files && newId !in s.index.backend
    ensures AbstractStep(s, a, Store(path, content), newId, parseMail) == a
    ensures Refines(Step(s, Store(path, content), newId, parseMail).index, a)
  {
    StoreEvents(s.files, path, content, parseMail);
    if ParseMessagePath(path).None? {
      RunNoEvents(s.index, a, newId);
    } else {
      IndexIsSlashFree(s.files, a, parseMail, headers);
      RunOneEvent(s.index, a, ModifiedEvent(path), newId);
      ModifiedReflags(s.index, a, path, newId);
      ReflaggedAsBefore(s.files, a, parseMail, headers, path);
    }
  }

  lemma OverwriteAgrees(files: Files, a: Abstract, parseMail: MailParser, headers: bool, path: FilePath,
                        content: Content)
    requires Agree(Views(files, parseMail), a, headers) && path in files
    requires Similar(ViewOf(path, content, parseMail), ViewOf(path, files[path], parseMail), headers)
    ensures Agree(Views(files[path := content], parseMail), a, headers)
  {
    ViewsAfterStore(files, path, content, parseMail);
    if path in Views(files, parseMail) {
      AgreeReplace(Views(files, parseMail), a, headers, path, ViewOf(path, content, parseMail).value);
    } else {
      NothingToRemove(Views(files, parseMail), path);
    }
  }

  lemma StoreKeeps(s: System, a: Abstract, path: FilePath, content: Content, newId: MessageId,
                   parseMail: MailParser, headers: bool)
    requires Sound(s, a, parseMail, headers) && newId !in s.index.backend
    requires Acceptable(s, Store(path, content), parseMail, headers)
    ensures Keeps(s, a, Store(path, content), newId, parseMail, headers)
  {
    if path in s.files {
      OverwriteKeepsIndex(s, a, path, content, newId, parseMail, headers);
      OverwriteAgrees(s.files, a, parseMail, headers, path, content);
    } else if ViewOf(path, content, parseMail).None? {
      StoreHiddenKeeps(s, a, path, content, newId, parseMail, headers);
    } else {
      InIndexExactly(s.files, a, parseMail, headers, MessageAt(path).value);
      StoreShownKeeps(s, a, path, content, newId, parseMail, headers);
    }
  }

  lemma DeleteAgrees(files: Files, a: Abstract, parseMail: MailParser, headers: bool, path: FilePath)
    requires Tidy(files, parseMail) && Agree(Views(files, parseMail), a, headers)
    requires path in files && MessageAt(path).Some?
    ensures Agree(Views(files - {path}, parseMail), a - {MessageAt(path).value}, headers)
  {
    ViewsAfterDelete(files, path, parseMail);
    if path in Views(files, parseMail) {
      AgreeRemove(Views(files, parseMail), a, headers, path);
    } else {
      HiddenNotInIndex(files, a, parseMail, headers, path);
      NothingToRemove(Views(files, parseMail), path);
      NothingToRemove(a, MessageAt(path).value);
    }
  }

  lemma DeleteRemoves(s: System, a: Abstract, path: FilePath, newId: MessageId, parseMail: MailParser, headers: bool)
    requires Refines(s.index, a) && Agree(Views(s.files, parseMail), a, headers) && newId !in s.index.backend
    requires path in s.files && MessageAt(path).Some?
    ensures AbstractStep(s, a, Delete(path), newId, parseMail) == a - {MessageAt(path).value}
    ensures Refines(Step(s, Delete(path), newId, parseMail).index, a - {MessageAt(path).value})
  {
    var m := MessageAt(path).value;
    var e := MessageDeleted(m.username, m.mailbox, m.uniqueId);
    DeleteEvents(s.files, path, parseMail);
    RunOneEvent(s.index, a, e, newId);
    IndexIsSlashFree(s.files, a, parseMail, headers);
    NamesAreSlashFree(path);
    OneEventSound(s.index, a, e, newId);
  }

  /** An operation without events leaves the index alone. */
  lemma QuietKeeps(s: System, a: Abstract, op: Op, newId: MessageId, parseMail: MailParser, headers: bool)
    requires Refines(s.index, a) && EventsOf(s.files, op, parseMail) == []
    requires Agree(Views(ApplyOp(s.files, op).0, parseMail), a, headers)
    ensures Keeps(s, a, op, newId, parseMail, headers)
  {
    RunNoEvents(s.index, a, newId);
  }

  lemma DeleteElsewhereKeeps(s: System, a: Abstract, path: FilePath, newId: MessageId, parseMail: MailParser,
                             headers: bool)
    requires Refines(s.index, a) && Agree(Views(s.files, parseMail), a, headers)
    requires path !in s.files || MessageAt(path).None?
    ensures Keeps(s, a, Delete(path), newId, parseMail, headers)
  {
    DeleteEvents(s.files, path, parseMail);
    DeleteHiddenAgrees(s.files, a, parseMail, headers, path);
    QuietKeeps(s, a, Delete(path), newId, parseMail, headers);
  }

  lemma DeleteHiddenAgrees(files: Files, a: Abstract, parseMail: MailParser, headers: bool, path: FilePath)
    requires Agree(Views(files, parseMail), a, headers) && (path !in files || MessageAt(path).None?)
    ensures Agree(Views(ApplyOp(files, Delete(path)).0, parseMail), a, headers)
  {
    NotShown(files, path, parseMail);
    ViewsAfterDelete(files, path, parseMail);
    NothingToRemove(Views(files, parseMail), path);
  }

  lemma NotShown(files: Files, path: FilePath, parseMail: MailParser)
    requires path !in files || MessageAt(path).None?
    ensures path !in Views(files, parseMail)
  {
    ViewsAreNamed(files, parseMail);
  }

  lemma DeleteKeeps(s: System, a: Abstract, path: FilePath, newId: MessageId, parseMail: MailParser, headers: bool)
    requires Refines(s.index, a) && Agree(Views(s.files, parseMail), a, headers) && newId !in s.index.backend
    requires Tidy(s.files, parseMail)
    ensures Keeps(s, a, Delete(path), newId, parseMail, headers)
  {
    if path in s.files && MessageAt(path).Some? {
      DeleteRemoves(s, a, path, newId, parseMail, headers);
      DeleteAgrees(s.files, a, parseMail, headers, path);
    } else {
      DeleteElsewhereKeeps(s, a, path, newId, parseMail, headers);
    }
  }

  /** A rename in a mail directory is seen as two flag changes of one message; the second,
      with the flags of the new name, prevails. */
  lemma RenameReflags(s: System, a: Abstract, from: FilePath, flags: seq<MessageFlag>, newId: MessageId,
                      parseMail: MailParser, headers: bool)
    requires Refines(s.index, a) && Agree(Views(s.files, parseMail), a, headers) && newId !in s.index.backend
    requires from in s.files && Renamable(from, flags) && ParseMessagePath(from).Some?
    ensures MessageAt(NewPath(from, flags)) == MessageAt(from)
    ensures var op := UpdateFlags(from, flags);
      var a' := Reflagged(a, MessageAt(from).value, ShownFlags(ParseMessagePath(NewPath(from, flags)).value));
      AbstractStep(s, a, op, newId, parseMail) == a' && Refines(Step(s, op, newId, parseMail).index, a')
  {
    var to: FilePath := NewPath(from, flags);
    RenamedIsSameMessage(from, flags);
    RenameEvents(s.files, from, flags, parseMail);
    IndexIsSlashFree(s.files, a, parseMail, headers);
    var e, f := ModifiedEvent(from), ModifiedEvent(to);
    assert ModifyEvents(from) + ModifyEvents(to) == [e, f];
    RunTwoEvents(s.index, a, e, f, newId);
    ModifiedReflags(s.index, a, from, newId);
    var a1 := Reflagged(a, MessageAt(from).value, ShownFlags(ParseMessagePath(from).value));
    ModifiedReflags(HandleEvent(s.index, e, newId), a1, to, newId);
    LastFlagsPrevail(a, MessageAt(from).value, ShownFlags(ParseMessagePath(from).value),
                     ShownFlags(ParseMessagePath(to).value));
  }

  /** The target of an update is no shown file but the updated one. */
  lemma TargetNotShown(files: Files, from: FilePath, flags: seq<MessageFlag>, parseMail: MailParser)
    requires Tidy(files, parseMail) && from in files && Renamable(from, flags)
    ensures NewPath(from, flags) in Views(files, parseMail) ==> NewPath(from, flags) == from
    ensures from in Views(files, parseMail) && NewPath(from, flags) in files ==> NewPath(from, flags) == from
  {
    RenamedIsSameMessage(from, flags);
    ViewsAreNamed(files, parseMail);
  }

  lemma UpdateKeeps(s: System, a: Abstract, from: FilePath, flags: seq<MessageFlag>, newId: MessageId,
                    parseMail: MailParser, headers: bool)
    requires Sound(s, a, parseMail, headers) && newId !in s.index.backend
    requires from in s.files && Renamable(from, flags)
    ensures Keeps(s, a, UpdateFlags(from, flags), newId, parseMail, headers)
  {
    if ParseMessagePath(from).None? {
      UpdateElsewhereKeeps(s, a, from, flags, newId, parseMail, headers);
    } else {
      UpdateMessageKeeps(s, a, from, flags, newId, parseMail, headers);
    }
  }

  lemma UpdateElsewhereKeeps(s: System, a: Abstract, from: FilePath, flags: seq<MessageFlag>, newId: MessageId,
                             parseMail: MailParser, headers: bool)
    requires Sound(s, a, parseMail, headers)
    requires from in s.files && Renamable(from, flags) && ParseMessagePath(from).None?
    ensures Keeps(s, a, UpdateFlags(from, flags), newId, parseMail, headers)
  {
    RenamedIsSameMessage(from, flags);
    RenameEvents(s.files, from, flags, parseMail);
    NotShown(s.files, from, parseMail);
    RenameHiddenAgrees(s.files, a, parseMail, headers, from, flags);
    UpdatedFiles(s.files, from, flags);
    QuietKeeps(s, a, UpdateFlags(from, flags), newId, parseMail, headers);
  }

  lemma UpdateMessageKeeps(s: System, a: Abstract, from: FilePath, flags: seq<MessageFlag>, newId: MessageId,
                           parseMail: MailParser, headers: bool)
    requires Sound(s, a, parseMail, headers) && newId !in s.index.backend
    requires from in s.files && Renamable(from, flags) && ParseMessagePath(from).Some?
    ensures Keeps(s, a, UpdateFlags(from, flags), newId, parseMail, headers)
  {
    RenameReflags(s, a, from, flags, newId, parseMail, headers);
    if from in Views(s.files, parseMail) {
      RenameShownAgrees(s.files, a, parseMail, headers, from, flags);
    } else {
      HiddenNotInIndex(s.files, a, parseMail, headers, from);
      RenameHiddenAgrees(s.files, a, parseMail, headers, from, flags);
    }
  }

  lemma RenameHiddenAgrees(files: Files, a: Abstract, parseMail: MailParser, headers: bool, from: FilePath,
                           flags: seq<MessageFlag>)
    requires Tidy(files, parseMail) && Agree(Views(files, parseMail), a, headers)
    requires from in files && from !in Views(files, parseMail) && Renamable(from, flags)
    ensures Agree(Views(Renamed(files, from, NewPath(from, flags)), parseMail), a, headers)
  {
    TargetNotShown(files, from, flags, parseMail);
    RenameViews(from, flags, files[from], parseMail);
    ViewsAfterRename(files, from, NewPath(from, flags), parseMail);
    NothingToRemove(Views(files, parseMail), from);
    NothingToRemove(Views(files, parseMail), NewPath(from, flags));
  }

  lemma RenameShownAgrees(files: Files, a: Abstract, parseMail: MailParser, headers: bool, from: FilePath,
                          flags: seq<MessageFlag>)
    requires Tidy(files, parseMail) && Agree(Views(files, parseMail), a, headers)
    requires from in files && from in Views(files, parseMail) && Renamable(from, flags)
    ensures ParseMessagePath(NewPath(from, flags)).Some?
    ensures Agree(Views(Renamed(files, from, NewPath(from, flags)), parseMail),
                  Reflagged(a, MessageAt(from).value, ShownFlags(ParseMessagePath(NewPath(from, flags)).value)),
                  headers)
  {
    PathRoundTrip(from, flags);
    TargetNotShown(files, from, flags, parseMail);
    RenameViews(from, flags, files[from], parseMail);
    RenamedViewAgrees(files, a, parseMail, headers, from, NewPath(from, flags),
                      ViewOf(NewPath(from, flags), files[from], parseMail).value);
  }

  lemma RenamedViewAgrees(files: Files, a: Abstract, parseMail: MailParser, headers: bool, from: FilePath, to: FilePath,
                          after: View)
    requires Agree(Views(files, parseMail), a, headers) && from in files && (to in files ==> to == from)
    requires from in Views(files, parseMail) && ViewOf(to, files[from], parseMail) == Some(after)
    requires after.message == Views(files, parseMail)[from].message && after.meta == Views(files, parseMail)[from].meta
    ensures Agree(Views(Renamed(files, from, to), parseMail), Reflagged(a, after.message, after.flags), headers)
  {
    ViewsAreNamed(files, parseMail);
    ViewsAfterRename(files, from, to, parseMail);
    AgreeMove(Views(files, parseMail), a, headers, from, to, after);
  }

  /** Every acceptable operation keeps files and index in agreement. */
  lemma StepSound(s: System, a: Abstract, op: Op, newId: MessageId, parseMail: MailParser, headers: bool)
    requires Sound(s, a, parseMail, headers) && Acceptable(s, op, parseMail, headers) && newId !in s.index.backend
    ensures Sound(Step(s, op, newId, parseMail), AbstractStep(s, a, op, newId, parseMail), parseMail, headers)
  {
    TidyStep(s, op, parseMail, headers);
    match op
    case Store(path, content) => StoreKeeps(s, a, path, content, newId, parseMail, headers);
    case Delete(path) => DeleteKeeps(s, a, path, newId, parseMail, headers);
    case UpdateFlags(current, flags) =>
      if IsFilePath(current) && current in s.files && Renamable(current, flags) {
        UpdateKeeps(s, a, current, flags, newId, parseMail, headers);
      } else {
        RunNoEvents(s.index, a, newId);
      }
  }

  // ----- When a store keeps agreement, exactly -----

  /** If the index agrees with the files before and after an overwrite, the file looks as before. */
  lemma OverwriteLooksAlike(files: Files, a: Abstract, parseMail: MailParser, headers: bool, path: FilePath,
                            content: Content)
    requires Tidy(files, parseMail) && Agree(Views(files, parseMail), a, headers) && path in files
    requires Agree(Views(files[path := content], parseMail), a, headers)
    ensures Similar(ViewOf(path, content, parseMail), ViewOf(path, files[path], parseMail), headers)
  {
    var files' := files[path := content];
    ViewsAfterStore(files, path, content, parseMail);
    if path in Views(files, parseMail) {
      if ViewOf(path, content, parseMail).None? {
        LostFile(Views(files, parseMail), a, headers, path);
      } else {
        SharedFileIsAlike(Views(files', parseMail), Views(files, parseMail), a, headers, path);
      }
    } else {
      NewlyShownDisagrees(files, a, parseMail, headers, path, content);
    }
  }

  lemma NewlyShownDisagrees(files: Files, a: Abstract, parseMail: MailParser, headers: bool, path: FilePath,
                            content: Content)
    requires Tidy(files, parseMail) && Agree(Views(files, parseMail), a, headers)
    requires path in files && path !in Views(files, parseMail)
    ensures ViewOf(path, content, parseMail).Some? ==> !Agree(Views(files[path := content], parseMail), a, headers)
  {
    if ViewOf(path, content, parseMail).Some? {
      HiddenNotInIndex(files, a, parseMail, headers, path);
      ViewsAfterStore(files, path, content, parseMail);
      MissedFile(Views(files[path := content], parseMail), a, headers, path);
    }
  }

  /** A store of a shown file whose message the index cannot take up. */
  lemma StoreUnindexed(s: System, a: Abstract, path: FilePath, content: Content, newId: MessageId,
                       parseMail: MailParser, headers: bool)
    requires Sound(s, a, parseMail, headers) && newId !in s.index.backend
    requires path !in s.files && ViewOf(path, content, parseMail).Some?
    requires Consistent(Step(s, Store(path, content), newId, parseMail), parseMail, headers)
    ensures MessageAt(path).value !in a && (path[0], path[1]) in s.index.registry.mailboxes
  {
    var s', m := Step(s, Store(path, content), newId, parseMail), MessageAt(path).value;
    var a' :| Refines(s'.index, a') && Agree(Views(s'.files, parseMail), a', headers);
    ViewsAreNamed(s.files, parseMail);
    ViewsAfterStore(s.files, path, content, parseMail);
    AddedIsNew(Views(s.files, parseMail), a, a', headers, path, ViewOf(path, content, parseMail).value);
    if (path[0], path[1]) !in s.index.registry.mailboxes {
      UnregisteredIsSkipped(s, a, path, content, newId, parseMail);
      RefinesDetermines(s.index, a, a');
    }
  }

  lemma UnregisteredIsSkipped(s: System, a: Abstract, path: FilePath, content: Content, newId: MessageId,
                              parseMail: MailParser)
    requires path !in s.files && ViewOf(path, content, parseMail).Some?
    requires (path[0], path[1]) !in s.index.registry.mailboxes
    ensures Step(s, Store(path, content), newId, parseMail).index == s.index
  {
    StoreShownEvent(s.files, path, content, parseMail);
    RunOneEvent(s.index, a, CreatedEvent(path, parseMail(content).value), newId);
  }

  /** The condition for the index to take up what is stored: an overwritten file looks as before;
      a new shown file is in a registered mailbox and no other shown file is its message. */
  ghost predicate Indexable(s: System, path: FilePath, content: Content, parseMail: MailParser, headers: bool) {
    && Showable(s, path, content, parseMail, headers)
    && (path !in s.files && ViewOf(path, content, parseMail).Some? ==>
          forall q :: q in Views(s.files, parseMail) ==> MessageAt(q) != MessageAt(path))
  }

  /** A store keeps index and files in agreement if and only if it is indexable. With `headers`
      this is the guard on header data; without, readable mail may overwrite readable mail. */
  lemma StoreAgreesExactly(s: System, a: Abstract, path: FilePath, content: Content, newId: MessageId,
                           parseMail: MailParser, headers: bool)
    requires Sound(s, a, parseMail, headers) && newId !in s.index.backend
    ensures Consistent(Step(s, Store(path, content), newId, parseMail), parseMail, headers)
       <==> Indexable(s, path, content, parseMail, headers)
  {
    if Indexable(s, path, content, parseMail, headers) {
      IndexableKeeps(s, a, path, content, newId, parseMail, headers);
    }
    if Consistent(Step(s, Store(path, content), newId, parseMail), parseMail, headers) {
      ConsistentIsIndexable(s, a, path, content, newId, parseMail, headers);
    }
  }

  lemma IndexableKeeps(s: System, a: Abstract, path: FilePath, content: Content, newId: MessageId,
                       parseMail: MailParser, headers: bool)
    requires Sound(s, a, parseMail, headers) && newId !in s.index.backend
    requires Indexable(s, path, content, parseMail, headers)
    ensures Keeps(s, a, Store(path, content), newId, parseMail, headers)
  {
    if path in s.files {
      OverwriteKeepsIndex(s, a, path, content, newId, parseMail, headers);
      OverwriteAgrees(s.files, a, parseMail, headers, path, content);
    } else if ViewOf(path, content, parseMail).None? {
      StoreHiddenKeeps(s, a, path, content, newId, parseMail, headers);
    } else {
      InIndexExactly(s.files, a, parseMail, headers, MessageAt(path).value);
      StoreShownKeeps(s, a, path, content, newId, parseMail, headers);
    }
  }

  lemma ConsistentIsIndexable(s: System, a: Abstract, path: FilePath, content: Content, newId: MessageId,
                              parseMail: MailParser, headers: bool)
    requires Sound(s, a, parseMail, headers) && newId !in s.index.backend
    requires Consistent(Step(s, Store(path, content), newId, parseMail), parseMail, headers)
    ensures Indexable(s, path, content, parseMail, headers)
  {
    if path in s.files {
      OverwriteKeepsIndex(s, a, path, content, newId, parseMail, headers);
      OnlyItsMapIsConsistent(Step(s, Store(path, content), newId, parseMail), a, parseMail, headers);
      OverwriteLooksAlike(s.files, a, parseMail, headers, path, content);
    } else if ViewOf(path, content, parseMail).Some? {
      StoreUnindexed(s, a, path, content, newId, parseMail, headers);
      InIndexExactly(s.files, a, parseMail, headers, MessageAt(path).value);
    }
  }

  /** Every operation keeps the whole invariant if and only if it is acceptable; only a store
      can fail to be. */
  lemma StepKeepsExactly(s: System, a: Abstract, op: Op, newId: MessageId, parseMail: MailParser, headers: bool)
    requires Sound(s, a, parseMail, headers) && newId !in s.index.backend
    ensures SomeSound(Step(s, op, newId, parseMail), parseMail, headers) <==> Acceptable(s, op, parseMail, headers)
  {
    if Acceptable(s, op, parseMail, headers) {
      StepSound(s, a, op, newId, parseMail, headers);
    }
    if op.Store? && SomeSound(Step(s, op, newId, parseMail), parseMail, headers) {
      ConsistentIsIndexable(s, a, op.path, op.content, newId, parseMail, headers);
      TidyStore(s.files, op.path, op.content, parseMail);
    }
  }

  /** Why a shown file must be the only file of its message: exactly then does every deletion
      keep agreement. Deleting a twin would remove the other's message. */
  lemma SingularIsNeeded(s: System, newId: MessageId, parseMail: MailParser, headers: bool)
    requires Consistent(s, parseMail, headers) && newId !in s.index.backend
    ensures (forall p :: p in s.files ==> Consistent(Step(s, Delete(p), newId, parseMail), parseMail, headers))
       <==> Tidy(s.files, parseMail)
  {
    var a :| Refines(s.index, a) && Agree(Views(s.files, parseMail), a, headers);
    if Tidy(s.files, parseMail) {
      forall p | p in s.files
        ensures Consistent(Step(s, Delete(p), newId, parseMail), parseMail, headers)
      {
        DeleteKeeps(s, a, p, newId, parseMail, headers);
      }
    } else {
      var views := Views(s.files, parseMail);
      var p, q :| p in s.files && q in views && MessageAt(p) == Some(views[q].message) && p != q;
      TwinDeletionBreaks(s, a, p, q, newId, parseMail, headers);
    }
  }

  lemma TwinDeletionBreaks(s: System, a: Abstract, p: FilePath, q: FilePath, newId: MessageId,
                           parseMail: MailParser, headers: bool)
    requires Refines(s.index, a) && Agree(Views(s.files, parseMail), a, headers) && newId !in s.index.backend
    requires p in s.files && q in Views(s.files, parseMail) && p != q
    requires MessageAt(p) == Some(Views(s.files, parseMail)[q].message)
    ensures !Consistent(Step(s, Delete(p), newId, parseMail), parseMail, headers)
  {
    DeleteRemoves(s, a, p, newId, parseMail, headers);
    DeletedFile(s, p, newId, parseMail);
    TwinMissed(s.files, Step(s, Delete(p), newId, parseMail), a, p, q, parseMail, headers);
  }

  lemma DeletedFile(s: System, path: FilePath, newId: MessageId, parseMail: MailParser)
    requires path in s.files
    ensures Step(s, Delete(path), newId, parseMail).files == s.files - {path}
  {
  }

  lemma TwinMissed(files: Files, s': System, a: Abstract, p: FilePath, q: FilePath, parseMail: MailParser,
                   headers: bool)
    requires p in files && q in Views(files, parseMail) && p != q
    requires MessageAt(p) == Some(Views(files, parseMail)[q].message)
    requires s'.files == files - {p} && Refines(s'.index, a - {MessageAt(p).value})
    ensures !Consistent(s', parseMail, headers)
  {
    OnlyItsMapIsConsistent(s', a - {MessageAt(p).value}, parseMail, headers);
    TwinStaysShown(files, a, p, q, parseMail, headers);
  }

  lemma TwinStaysShown(files: Files, a: Abstract, p: FilePath, q: FilePath, parseMail: MailParser, headers: bool)
    requires p in files && q in Views(files, parseMail) && p != q
    requires MessageAt(p) == Some(Views(files, parseMail)[q].message)
    ensures !Agree(Views(files - {p}, parseMail), a - {MessageAt(p).value}, headers)
  {
    ViewsAfterDelete(files, p, parseMail);
    MissedFile(Views(files - {p}, parseMail), a - {MessageAt(p).value}, headers, q);
  }

  /** The index holds one map only, so that map decides. */
  lemma OnlyItsMapIsConsistent(s: System, a: Abstract, parseMail: MailParser, headers: bool)
    requires Refines(s.index, a)
    ensures Consistent(s, parseMail, headers) <==> Agree(Views(s.files, parseMail), a, headers)
  {
    forall a' | Refines(s.index, a')
      ensures a' == a
    {
      RefinesDetermines(s.index, a', a);
    }
  }

  // ----- Runs -----

  /** What happens next: an operation on the files with the id to be drawn for it; a command of the
      registry, by which mailboxes come and go; or a report of another kind about any paths. */
  datatype Action =
    | Operate(op: Op, newId: MessageId)
    | Manage(command: Registry.Command)
    | Touch(paths: seq<FilePath>, newId: MessageId)

  function Act(s: System, action: Action, parseMail: MailParser): System {
    match action
    case Operate(op, newId) => Step(s, op, newId, parseMail)
    case Manage(command) => s.(index := s.index.(registry := Registry.Step(s.index.registry, command).0))
    case Touch(paths, newId) => Notice(s, paths, newId, parseMail)
  }

  /** Such reports change nothing. */
  lemma TouchChangesNothing(s: System, paths: seq<FilePath>, newId: MessageId, parseMail: MailParser)
    ensures Act(s, Touch(paths, newId), parseMail) == s
  {
    OtherChangesAreSilent(Other(paths), paths, s.files, parseMail);
    RunNoEvents(s.index, map[], newId);
  }

  function Run(s: System, actions: seq<Action>, parseMail: MailParser): System
    decreases |actions|
  {
    if actions == [] then s else Run(Act(s, actions[0], parseMail), actions[1..], parseMail)
  }

  /** Every operation is acceptable when it comes, and every drawn id is new. */
  ghost predicate AcceptableRun(s: System, actions: seq<Action>, parseMail: MailParser, headers: bool)
    decreases |actions|
  {
    actions == [] ||
    ((actions[0].Operate? ==>
        Acceptable(s, actions[0].op, parseMail, headers) && actions[0].newId !in s.index.backend)
     && AcceptableRun(Act(s, actions[0], parseMail), actions[1..], parseMail, headers))
  }

  lemma {:induction false} RunSound(s: System, a: Abstract, actions: seq<Action>, parseMail: MailParser, headers: bool)
    returns (final: Abstract)
    requires Sound(s, a, parseMail, headers) && AcceptableRun(s, actions, parseMail, headers)
    ensures Sound(Run(s, actions, parseMail), final, parseMail, headers)
    decreases |actions|
  {
    if actions == [] {
      final := a;
    } else {
      var next := a;
      match actions[0] {
        case Operate(op, newId) =>
          StepSound(s, a, op, newId, parseMail, headers);
          next := AbstractStep(s, a, op, newId, parseMail);
        case Manage(_) =>
        case Touch(paths, newId) => TouchChangesNothing(s, paths, newId, parseMail);
      }
      final := RunSound(Act(s, actions[0], parseMail), next, actions[1..], parseMail, headers);
    }
  }

  function Start(registry: Registry.Registry): System {
    System(map[], IndexState(map[], map[], registry))
  }

  /** A shown file is found in the index as it is seen. */
  predicate Found(s: System, v: View, headers: bool) {
    Lookup(s.index, v.message).Some? && Displays(Lookup(s.index, v.message).value, v.message, v, headers)
  }

  /** The message a backend id stands for is some shown file's. */
  ghost predicate Filed(s: System, id: MessageId, parseMail: MailParser) {
    exists p :: p in Views(s.files, parseMail)
      && KeyOf(MessageAt(p).value) in s.index.mapping && s.index.mapping[KeyOf(MessageAt(p).value)] == id
  }

  /** End-to-end agreement. Starting from no files and an empty index over any registry, after
      any acceptable run: every file with a parseable name and readable mail is found in the
      index under its user, mailbox and id, with the flags of its name (plus Recent in `new`)
      and, with `headers`, its header data; and every message of the index belongs to exactly
      one file. */
  lemma IndexAgreesWithFiles(registry: Registry.Registry, actions: seq<Action>, parseMail: MailParser, headers: bool)
    requires AcceptableRun(Start(registry), actions, parseMail, headers)
    ensures var s := Run(Start(registry), actions, parseMail);
      var views := Views(s.files, parseMail);
      && (forall p :: p in views ==> Found(s, views[p], headers))
      && (forall id :: id in s.index.backend ==> Filed(s, id, parseMail))
      && Tidy(s.files, parseMail)
  {
    StartsSound(registry, parseMail, headers);
    var a := RunSound(Start(registry), map[], actions, parseMail, headers);
    SoundObservations(Run(Start(registry), actions, parseMail), a, parseMail, headers);
  }

  lemma SoundObservations(s: System, a: Abstract, parseMail: MailParser, headers: bool)
    requires Sound(s, a, parseMail, headers)
    ensures forall p :: p in Views(s.files, parseMail) ==> Found(s, Views(s.files, parseMail)[p], headers)
    ensures forall id :: id in s.index.backend ==> Filed(s, id, parseMail)
  {
    AgreeObservations(Views(s.files, parseMail), a, headers);
    RefinementObservations(s.index, a);
    forall id | id in s.index.backend
      ensures Filed(s, id, parseMail)
    {
      BackendIdIsFiled(s, a, parseMail, headers, id);
    }
  }

  lemma BackendIdIsFiled(s: System, a: Abstract, parseMail: MailParser, headers: bool, id: MessageId)
    requires Sound(s, a, parseMail, headers) && id in s.index.backend
    ensures Filed(s, id, parseMail)
  {
    JoinedIds(s.index.mapping, s.index.backend, a, KeyOf);
    JoinedNames(s.index.mapping, s.index.backend, a, KeyOf);
    var k :| k in s.index.mapping && s.index.mapping[k] == id;
    var m :| m in a && KeyOf(m) == k;
    InIndexExactly(s.files, a, parseMail, headers, m);
    var p :| p in Views(s.files, parseMail) && MessageAt(p) == Some(m);
  }

  lemma StartsSound(registry: Registry.Registry, parseMail: MailParser, headers: bool)
    ensures Sound(Start(registry), map[], parseMail, headers)
  {
    assert JoinedBy(map[], map[], map[], KeyOf, map[], map[]);
    var views := Views(map[], parseMail);
    assert views == map[];
    assert AgreeAt(views, map[], headers, map[]);
  }

  // ----- The condition on twins is not idle -----

  lemma RunTwo(s: System, first: Op, id: MessageId, second: Op, other: MessageId, parseMail: MailParser)
    ensures Run(s, [Operate(first, id), Operate(second, other)], parseMail)
         == Step(Step(s, first, id, parseMail), second, other, parseMail)
  {
    var actions, next := [Operate(first, id), Operate(second, other)], Step(s, first, id, parseMail);
    assert actions[1..] == [Operate(second, other)] && [Operate(second, other)][1..] == [];
    assert Run(next, [Operate(second, other)], parseMail) == Run(Step(next, second, other, parseMail), [], parseMail);
  }

  /** A deeper file of the same user, mailbox and name is the same message. */
  lemma DeeperTwin(p: FilePath, q: FilePath)
    requires |p| == 4 && (p[2] == "new" || p[2] == "cur") && |q| == 5 && q[..3] == p[..3] && q[4] == p[3]
    ensures MessageAt(p).Some? && MessageAt(q) == MessageAt(p) && p != q
  {
    assert q[0] == p[..3][0] && q[1] == p[..3][1] && q[2] == p[..3][2];
  }

  /** Storing a readable message and, one level deeper, an unreadable file of the same name leads
      to a state whose index agrees with the files; deleting the unreadable file ends that. */
  lemma TwinIsReachable(registry: Registry.Registry, p: FilePath, q: FilePath, mail: Content, other: Content,
                        id: MessageId, unused: MessageId, parseMail: MailParser, headers: bool)
    requires |p| == 4 && (p[2] == "new" || p[2] == "cur") && |q| == 5 && q[..3] == p[..3] && q[4] == p[3]
    requires (p[0], p[1]) in registry.mailboxes && parseMail(mail).Some? && parseMail(other).None?
    requires unused !in Step(Start(registry), Store(p, mail), id, parseMail).index.backend
    ensures var actions := [Operate(Store(p, mail), id), Operate(Store(q, other), unused)];
      var s := Run(Start(registry), actions, parseMail);
      unused !in s.index.backend && Consistent(s, parseMail, headers)
      && !Consistent(Step(s, Delete(q), unused, parseMail), parseMail, headers)
  {
    DeeperTwin(p, q);
    StoredIsSound(registry, p, mail, id, parseMail, headers);
    var s := Step(Start(registry), Store(p, mail), id, parseMail);
    var a := AbstractStep(Start(registry), map[], Store(p, mail), id, parseMail);
    RunTwo(Start(registry), Store(p, mail), id, Store(q, other), unused, parseMail);
    TwinBreaks(s, a, p, q, other, unused, parseMail, headers);
  }

  /** The first message is stored soundly. */
  lemma StoredIsSound(registry: Registry.Registry, p: FilePath, mail: Content, id: MessageId, parseMail: MailParser,
                      headers: bool)
    requires ViewOf(p, mail, parseMail).Some? && (p[0], p[1]) in registry.mailboxes
    ensures var s := Step(Start(registry), Store(p, mail), id, parseMail);
      && Sound(s, AbstractStep(Start(registry), map[], Store(p, mail), id, parseMail), parseMail, headers)
      && s.files == map[p := mail] && p in Views(s.files, parseMail)
  {
    StartsSound(registry, parseMail, headers);
    StepSound(Start(registry), map[], Store(p, mail), id, parseMail, headers);
  }

  /** Storing a hidden twin keeps agreement, and deleting it ends it. */
  lemma TwinBreaks(s: System, a: Abstract, p: FilePath, q: FilePath, other: Content, newId: MessageId,
                   parseMail: MailParser, headers: bool)
    requires Sound(s, a, parseMail, headers) && s.files.Keys == {p} && p in Views(s.files, parseMail)
    requires p != q && MessageAt(q) == MessageAt(p) && parseMail(other).None? && newId !in s.index.backend
    ensures var s' := Step(s, Store(q, other), newId, parseMail);
      && newId !in s'.index.backend && Consistent(s', parseMail, headers)
      && !Consistent(Step(s', Delete(q), newId, parseMail), parseMail, headers)
  {
    HiddenTwinStored(s, a, p, q, other, newId, parseMail, headers);
    TwinDeletionBreaks(Step(s, Store(q, other), newId, parseMail), a, q, p, newId, parseMail, headers);
  }

  lemma HiddenTwinStored(s: System, a: Abstract, p: FilePath, q: FilePath, other: Content, newId: MessageId,
                         parseMail: MailParser, headers: bool)
    requires Sound(s, a, parseMail, headers) && s.files.Keys == {p} && p in Views(s.files, parseMail)
    requires p != q && MessageAt(q) == MessageAt(p) && parseMail(other).None?
    ensures var s' := Step(s, Store(q, other), newId, parseMail);
      && s'.index == s.index && s'.files == s.files[q := other]
      && Views(s'.files, parseMail) == Views(s.files, parseMail)
      && MessageAt(q) == Some(Views(s.files, parseMail)[p].message)
  {
    StoreEvents(s.files, q, other, parseMail);
    QuietStep(s, Store(q, other), newId, parseMail);
    HiddenViews(s.files, q, other, parseMail);
    ViewsAreNamed(s.files, parseMail);
  }

  lemma QuietStep(s: System, op: Op, newId: MessageId, parseMail: MailParser)
    requires EventsOf(s.files, op, parseMail) == []
    ensures Step(s, op, newId, parseMail) == System(ApplyOp(s.files, op).0, s.index)
  {
    RunNoEvents(s.index, map[], newId);
  }

  lemma HiddenViews(files: Files, q: FilePath, other: Content, parseMail: MailParser)
    requires q !in files && parseMail(other).None?
    ensures Views(files[q := other], parseMail) == Views(files, parseMail)
  {
    ViewsAfterStore(files, q, other, parseMail);
    NotShown(files, q, parseMail);
    NothingToRemove(Views(files, parseMail), q);
  }

  // ----- Flag requests -----

  /** The flags that survive in the file name, plus Recent in `new`. */
  function ShownMultiset(path: FilePath, flags: seq<MessageFlag>): multiset<MessageFlag>
    requires |path| >= 4
  {
    multiset(if ':' in StripFlags(FileName(path)) then [] else StandardFlags(flags))
    + multiset(if (if |path| == 4 then Seen !in flags else path[2] == "new") then [Recent] else [])
  }

  /** A flag request, seen through the whole pipeline: in any sound state, once a readable file
      has been given flags, the index shows its message with the requested flags except custom
      ones (with none, if the bare name has a colon), and with Recent exactly if the file is then
      in `new`: in the standard layout, if Seen was not requested. */
  lemma RequestedFlagsAreShown(s: System, a: Abstract, path: FilePath, flags: seq<MessageFlag>, newId: MessageId,
                               parseMail: MailParser, headers: bool)
    requires Sound(s, a, parseMail, headers) && newId !in s.index.backend
    requires path in Views(s.files, parseMail) && Renamable(path, flags)
    ensures |path| >= 4
    ensures var shown := Lookup(Step(s, UpdateFlags(path, flags), newId, parseMail).index, MessageAt(path).value);
      shown.Some? && multiset(shown.value.flags) == ShownMultiset(path, flags)
  {
    ViewsAreNamed(s.files, parseMail);
    RenamedIsShown(s, a, path, flags, newId, parseMail, headers);
    ShownAfterUpdate(path, flags);
  }

  /** The index shows the flags that the new name has. */
  lemma RenamedIsShown(s: System, a: Abstract, path: FilePath, flags: seq<MessageFlag>, newId: MessageId,
                       parseMail: MailParser, headers: bool)
    requires Sound(s, a, parseMail, headers) && newId !in s.index.backend
    requires path in Views(s.files, parseMail) && Renamable(path, flags)
    ensures MessageAt(path).Some? && ParseMessagePath(NewPath(path, flags)).Some?
    ensures var shown := Lookup(Step(s, UpdateFlags(path, flags), newId, parseMail).index, MessageAt(path).value);
      shown.Some? && shown.value.flags == ShownFlags(ParseMessagePath(NewPath(path, flags)).value)
  {
    var s' := Step(s, UpdateFlags(path, flags), newId, parseMail);
    var a' := AbstractStep(s, a, UpdateFlags(path, flags), newId, parseMail);
    var to: FilePath := NewPath(path, flags);
    StepSound(s, a, UpdateFlags(path, flags), newId, parseMail, headers);
    RenamedIsSameMessage(path, flags);
    RenamedView(s, path, flags, newId, parseMail);
    SoundObservations(s', a', parseMail, headers);
    assert Found(s', Views(s'.files, parseMail)[to], headers);
  }

  lemma RenamedView(s: System, path: FilePath, flags: seq<MessageFlag>, newId: MessageId, parseMail: MailParser)
    requires path in Views(s.files, parseMail) && Renamable(path, flags)
    ensures MessageAt(path).Some? && ParseMessagePath(NewPath(path, flags)).Some?
    ensures var to: FilePath, views := NewPath(path, flags),
                Views(Step(s, UpdateFlags(path, flags), newId, parseMail).files, parseMail);
      && to in views && views[to].message == MessageAt(path).value
      && views[to].flags == ShownFlags(ParseMessagePath(to).value)
  {
    var to: FilePath := NewPath(path, flags);
    ViewsAreNamed(s.files, parseMail);
    RenamedIsSameMessage(path, flags);
    RenameViews(path, flags, s.files[path], parseMail);
    StepMoves(s, path, flags, newId, parseMail);
    ViewsAfterRename(s.files, path, to, parseMail);
  }

  lemma StepMoves(s: System, path: FilePath, flags: seq<MessageFlag>, newId: MessageId, parseMail: MailParser)
    requires path in s.files && Renamable(path, flags)
    ensures Step(s, UpdateFlags(path, flags), newId, parseMail).files == Renamed(s.files, path, NewPath(path, flags))
  {
  }

  lemma ShownAfterUpdate(path: FilePath, flags: seq<MessageFlag>)
    requires Renamable(path, flags) && ParseMessagePath(path).Some?
    ensures ParseMessagePath(NewPath(path, flags)).Some?
    ensures multiset(ShownFlags(ParseMessagePath(NewPath(path, flags)).value)) == ShownMultiset(path, flags)
  {
    PathRoundTrip(path, flags);
    PrintedFlags(flags);
    var after := ParseMessagePath(NewPath(path, flags)).value;
    assert multiset(after.flags) == multiset(if ':' in StripFlags(FileName(path)) then [] else StandardFlags(flags));
  }
}
