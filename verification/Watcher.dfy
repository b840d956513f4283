/** From file changes to events (src/mailstore/watcher/filesystem.rs). `parseMail` stands for
    the mail parser: the header fields and sizes it extracts, or nothing for unreadable mail. */
module Watcher {
  import opened Text
  import opened Maildir
  import opened Events
  import opened Storage

  datatype FileChange =
    | Created(paths: seq<FilePath>)
    | Modified(paths: seq<FilePath>)
    | Removed(paths: seq<FilePath>)
    | Other(paths: seq<FilePath>)

  /** The flags an event carries: those of the name, plus Recent in `new`. */
  function ShownFlags(parsed: ParsedMessage): seq<MessageFlag> {
    if parsed.isNew then parsed.flags + [Recent] else parsed.flags
  }

  function CreateEvents(path: FilePath, files: Files, parseMail: Content -> Option<Meta>): seq<Event> {
    match ParseMessagePath(path)
    case None => []
    case Some(p) =>
      if path !in files then []
      else
        match parseMail(files[path])
        case None => []
        case Some(meta) =>
          [MessageCreated(p.username, p.mailbox, p.uniqueId, p.username + "/" + p.mailbox + "/" + p.uniqueId,
                          ShownFlags(p), p.isNew, meta)]
  }

  function ModifyEvents(path: FilePath): seq<Event> {
    match ParseMessagePath(path)
    case None => []
    case Some(p) => [MessageModified(p.username, p.mailbox, p.uniqueId, ShownFlags(p))]
  }

  function RemoveEvents(path: FilePath): seq<Event> {
    match ParseMessagePath(path)
    case None => []
    case Some(p) => [MessageDeleted(p.username, p.mailbox, p.uniqueId)]
  }

  /** The events published for one path of a change. */
  function EventsFor(change: FileChange, path: FilePath, files: Files, parseMail: Content -> Option<Meta>): seq<Event> {
    match change
    case Created(_) => CreateEvents(path, files, parseMail)
    case Modified(_) => ModifyEvents(path)
    case Removed(_) => RemoveEvents(path)
    case Other(_) => []
  }

  function EventsForAll(change: FileChange, paths: seq<FilePath>, files: Files,
                        parseMail: Content -> Option<Meta>): seq<Event> {
    if paths == [] then []
    else EventsFor(change, paths[0], files, parseMail) + EventsForAll(change, paths[1..], files, parseMail)
  }

  lemma {:induction false} EventsForSnoc(change: FileChange, paths: seq<FilePath>, path: FilePath, files: Files,
                                         parseMail: Content -> Option<Meta>)
    ensures EventsForAll(change, paths + [path], files, parseMail)
         == EventsForAll(change, paths, files, parseMail) + EventsFor(change, path, files, parseMail)
  {
    if paths == [] {
      assert [] + [path] == [path] && [path][1..] == [];
    } else {
      assert (paths + [path])[1..] == paths[1..] + [path];
      EventsForSnoc(change, paths[1..], path, files, parseMail);
    }
  }

  /** `handle_create_event`. */
  method HandleCreateEvent(path: FilePath, store: FilesystemStore, parseMail: Content -> Option<Meta>)
    returns (published: seq<Event>)
    ensures published == CreateEvents(path, store.files, parseMail)
  {
    var parsed := ParseMessagePath(path);
    if parsed.None? { return []; }
    var p := parsed.value;
    var content := store.Read(path);
    if content.None? { return []; }
    var mail := parseMail(content.value);
    if mail.None? { return []; }
    var flags := p.flags;
    if p.isNew {
      flags := flags + [Recent];
    }
    var messagePath := p.username + "/" + p.mailbox + "/" + p.uniqueId;
    published := [MessageCreated(p.username, p.mailbox, p.uniqueId, messagePath, flags, p.isNew, mail.value)];
  }

  /** `handle_modify_event`. */
  method HandleModifyEvent(path: FilePath) returns (published: seq<Event>)
    ensures published == ModifyEvents(path)
  {
    var parsed := ParseMessagePath(path);
    if parsed.None? { return []; }
    var p := parsed.value;
    var flags := p.flags;
    if p.isNew {
      flags := flags + [Recent];
    }
    published := [MessageModified(p.username, p.mailbox, p.uniqueId, flags)];
  }

  /** `handle_remove_event`. */
  method HandleRemoveEvent(path: FilePath) returns (published: seq<Event>)
    ensures published == RemoveEvents(path)
  {
    var parsed := ParseMessagePath(path);
    if parsed.None? { return []; }
    var p := parsed.value;
    published := [MessageDeleted(p.username, p.mailbox, p.uniqueId)];
  }

  /** `handle_filesystem_event`: each path in turn, publishing as it goes. */
  method HandleFilesystemEvent(change: FileChange, store: FilesystemStore, parseMail: Content -> Option<Meta>)
    returns (published: seq<Event>)
    ensures published == EventsForAll(change, change.paths, store.files, parseMail)
  {
    published := [];
    var paths := change.paths;
    for i := 0 to |paths|
      invariant published == EventsForAll(change, paths[..i], store.files, parseMail)
    {
      assert paths[..i + 1] == paths[..i] + [paths[i]];
      EventsForSnoc(change, paths[..i], paths[i], store.files, parseMail);
      var more := [];
      match change {
        case Created(_) => more := HandleCreateEvent(paths[i], store, parseMail);
        case Modified(_) => more := HandleModifyEvent(paths[i]);
        case Removed(_) => more := HandleRemoveEvent(paths[i]);
        case Other(_) =>
      }
      published := published + more;
    }
    assert paths[..|paths|] == paths;
  }

  /** An event tells which kind of change it was, and it is about one of the change's paths; the event
      of a creation has the header data of the file, which must exist and be readable. */
  predicate Tells(e: Event, change: FileChange, path: FilePath, files: Files, parseMail: Content -> Option<Meta>) {
    && ParseMessagePath(path).Some?
    && var p := ParseMessagePath(path).value;
    match change
    case Created(_) =>
      && path in files && parseMail(files[path]).Some?
      && e == MessageCreated(p.username, p.mailbox, p.uniqueId, p.username + "/" + p.mailbox + "/" + p.uniqueId,
                             ShownFlags(p), p.isNew, parseMail(files[path]).value)
    case Modified(_) => e == MessageModified(p.username, p.mailbox, p.uniqueId, ShownFlags(p))
    case Removed(_) => e == MessageDeleted(p.username, p.mailbox, p.uniqueId)
    case Other(_) => false
  }

  /** The events of a change are those that tell it of one of its paths. */
  lemma {:induction false} EventsTellTheChange(change: FileChange, paths: seq<FilePath>, files: Files,
                                               parseMail: Content -> Option<Meta>, e: Event)
    ensures e in EventsForAll(change, paths, files, parseMail)
       <==> exists path :: path in paths && Tells(e, change, path, files, parseMail)
  {
    if paths != [] {
      EventsTellTheChange(change, paths[1..], files, parseMail, e);
      assert e in EventsFor(change, paths[0], files, parseMail) <==> Tells(e, change, paths[0], files, parseMail);
      assert forall path :: path in paths <==> path == paths[0] || path in paths[1..];
    }
  }

  /** Changes of other kinds publish nothing, whatever their paths. */
  lemma {:induction false} OtherChangesAreSilent(change: FileChange, paths: seq<FilePath>, files: Files,
                                                 parseMail: Content -> Option<Meta>)
    requires change.Other?
    ensures EventsForAll(change, paths, files, parseMail) == []
  {
    if paths != [] {
      OtherChangesAreSilent(change, paths[1..], files, parseMail);
    }
  }

  /** A removal is published only for a removed file, and so on: the event tells the change. */
  lemma EventsTellTheKind(change: FileChange, paths: seq<FilePath>, files: Files, parseMail: Content -> Option<Meta>,
                          e: Event)
    requires e in EventsForAll(change, paths, files, parseMail)
    ensures e.MessageCreated? <==> change.Created?
    ensures e.MessageModified? <==> change.Modified?
    ensures e.MessageDeleted? <==> change.Removed?
  {
    EventsTellTheChange(change, paths, files, parseMail, e);
  }
}
