/** The storage writer loop over the file tree (src/storage.rs,
    src/storage/filesystem_store.rs), and what renaming files conserves. */
module Storage {
  import opened Text
  import opened Maildir

  type Content = seq<bv8>
  type Files = map<FilePath, Content>

  datatype Reply = Done | NotFound | InvalidPath | IoError

  /** The commands of the writer loop. */
  datatype Command =
    | Write(path: FilePath, content: Content)
    | Move(from: FilePath, to: Path)
    | Remove(path: FilePath)
    | WriteMetadata(path: FilePath)
    | Shutdown

  function Apply(files: Files, cmd: Command): (Files, Reply) {
    match cmd
    case Write(path, content) => (files[path := content], Done)
    case Move(from, to) =>
      if from !in files then (files, NotFound)
      else if !IsFilePath(to) then (files, IoError)
      else ((files - {from})[to := files[from]], Done)
    case Remove(path) => if path !in files then (files, NotFound) else (files - {path}, Done)
    case WriteMetadata(_) => (files, Done)
    case Shutdown => (files, Done)
  }

  function Run(files: Files, cmds: seq<Command>): (Files, seq<Reply>)
    decreases |cmds|
  {
    if cmds == [] then (files, [])
    else if cmds[0].Shutdown? then (files, [Done])
    else
      var (after, reply) := Apply(files, cmds[0]);
      var (final, replies) := Run(after, cmds[1..]);
      (final, [reply] + replies)
  }

  /** The file tree, with the operations of `FilesystemStore`. */
  class FilesystemStore {
    var files: Files

    constructor ()
      ensures files == map[]
    {
      files := map[];
    }

    method Write(path: FilePath, content: Content)
      modifies this
      ensures files == old(files)[path := content]
    {
      files := files[path := content];
    }

    /** Renames, replacing the file at the target; a file cannot be renamed to a directory. */
    method MoveFile(from: FilePath, to: Path) returns (reply: Reply)
      modifies this
      ensures (files, reply) == Apply(old(files), Move(from, to))
    {
      if from !in files { return NotFound; }
      if !IsFilePath(to) { return IoError; }
      var content := files[from];
      files := files - {from};
      files := files[to := content];
      reply := Done;
    }

    method Remove(path: FilePath) returns (reply: Reply)
      modifies this
      ensures (files, reply) == Apply(old(files), Command.Remove(path))
    {
      if path !in files { return NotFound; }
      files := files - {path};
      reply := Done;
    }

    method Read(path: FilePath) returns (content: Option<Content>)
      ensures content == if path in files then Some(files[path]) else None
    {
      if path !in files { return None; }
      content := Some(files[path]);
    }
  }

  /** `run_storage_writer_loop`: one command after the other until Shutdown. */
  method RunWriterLoop(store: FilesystemStore, cmds: seq<Command>) returns (replies: seq<Reply>)
    modifies store
    ensures (store.files, replies) == Run(old(store.files), cmds)
  {
    replies := [];
    var i := 0;
    assert cmds[0..] == cmds;
    assert forall rest: seq<Reply> :: [] + rest == rest;
    while i < |cmds|
      invariant 0 <= i <= |cmds|
      invariant var rest := Run(store.files, cmds[i..]);
        Run(old(store.files), cmds) == (rest.0, replies + rest.1)
    {
      assert cmds[i..][0] == cmds[i] && cmds[i..][1..] == cmds[i + 1..];
      assert forall rest: seq<Reply>, reply :: replies + ([reply] + rest) == (replies + [reply]) + rest;
      var reply := Done;
      match cmds[i] {
        case Write(path, content) => store.Write(path, content);
        case Move(from, to) => reply := store.MoveFile(from, to);
        case Remove(path) => reply := store.Remove(path);
        case WriteMetadata(_) =>
        case Shutdown =>
          replies := replies + [Done];
          return;
      }
      replies := replies + [reply];
      i := i + 1;
    }
    assert cmds[i..] == [] && replies + [] == replies;
  }

  // ----- Client operations, each a single command to the loop -----

  datatype Op =
    | Store(path: FilePath, content: Content)
    | UpdateFlags(current: Path, flags: seq<MessageFlag>)
    | Delete(path: FilePath)

  function ApplyOp(files: Files, op: Op): (Files, Reply) {
    match op
    case Store(path, content) => Apply(files, Write(path, content))
    case UpdateFlags(current, flags) =>
      if !IsFilePath(current) then (files, InvalidPath)
      else Apply(files, Move(current, NewPath(current, flags)))
    case Delete(path) => Apply(files, Remove(path))
  }

  function RunOps(files: Files, ops: seq<Op>): Files
    decreases |ops|
  {
    if ops == [] then files else RunOps(ApplyOp(files, ops[0]).0, ops[1..])
  }

  /** The file-name part of the path arithmetic of `Storage::update_flags`. */
  method RenamedFile(filename: string, flags: seq<MessageFlag>) returns (renamed: string)
    ensures renamed == StripFlags(filename) + FlagComponent(flags)
  {
    var component := FlagsToFilenameComponent(flags);
    var uniqueId := filename;
    match Find(filename, ":2,") {
      case Some(at) => uniqueId := filename[..at];
      case None =>
    }
    renamed := if component == "" then uniqueId else uniqueId + component;
    assert component == "" ==> uniqueId + component == uniqueId;
  }

  /** The directory part: messages with the Seen flag go to `cur`, others to `new`. */
  method RenamedParent(parent: Path, flags: seq<MessageFlag>) returns (renamed: Path)
    ensures renamed == NewParent(parent, Seen in flags)
  {
    var parentName := if parent == [] then "" else parent[|parent| - 1];
    renamed := parent;
    if Seen in flags {
      if parentName == "new" {
        renamed := parent[..|parent| - 1] + ["cur"];
      }
    } else {
      if parentName == "cur" {
        renamed := parent[..|parent| - 1] + ["new"];
      }
    }
  }

  lemma RunOne(files: Files, cmd: Command)
    requires !cmd.Shutdown?
    ensures Run(files, [cmd]) == (Apply(files, cmd).0, [Apply(files, cmd).1])
  {
    var (after, reply) := Apply(files, cmd);
    assert [cmd][1..] == [] && Run(after, []) == (after, []);
    assert [reply] + [] == [reply];
  }

  /** When a flag update renames a file, and that it otherwise fails without effect. */
  lemma UpdateRenamesExactly(files: Files, current: Path, flags: seq<MessageFlag>)
    ensures ApplyOp(files, UpdateFlags(current, flags)).1 == Done
       <==> IsFilePath(current) && current in files
            && (LettersOfFlags(flags) != "" || StripFlags(FileName(current)) !in {"", ".", ".."})
    ensures ApplyOp(files, UpdateFlags(current, flags)).1 != Done ==>
      ApplyOp(files, UpdateFlags(current, flags)).0 == files
  {
    if IsFilePath(current) {
      RenamableExactly(current, flags);
    }
  }

  /** `Storage::update_flags`: compute the new name, then one Move through the loop. */
  method UpdateFlagsOf(store: FilesystemStore, current: Path, flags: seq<MessageFlag>) returns (reply: Reply)
    modifies store
    ensures (store.files, reply) == ApplyOp(old(store.files), UpdateFlags(current, flags))
  {
    if !IsFilePath(current) { return InvalidPath; }
    var filename := RenamedFile(FileName(current), flags);
    var parent := RenamedParent(Parent(current), flags);
    var path := parent + [filename];
    RunOne(store.files, Move(current, path));
    var replies := RunWriterLoop(store, [Move(current, path)]);
    reply := replies[0];
  }

  /** What each operation answers; one that fails changes nothing. */
  lemma OperationAnswersExactly(files: Files, op: Op)
    ensures ApplyOp(files, op).1 ==
      match op
      case Store(_, _) => Done
      case Delete(path) => if path in files then Done else NotFound
      case UpdateFlags(current, flags) =>
        if !IsFilePath(current) then InvalidPath
        else if current !in files then NotFound
        else if LettersOfFlags(flags) != "" || StripFlags(FileName(current)) !in {"", ".", ".."} then Done
        else IoError
    ensures ApplyOp(files, op).1 != Done ==> ApplyOp(files, op).0 == files
  {
    if op.UpdateFlags? && IsFilePath(op.current) {
      RenamableExactly(op.current, op.flags);
    }
  }

  // ----- Which message a file is -----

  /** A file's message: its directory with `new` and `cur` identified, and its name without flags. */
  type MessageKey = (Path, string)

  function Key(path: FilePath): MessageKey {
    (NewParent(Parent(path), false), StripFlags(FileName(path)))
  }

  /** At most one file per key. */
  predicate UniqueBy<K(==)>(files: Files, key: FilePath -> K) {
    forall p, q :: p in files && q in files && key(p) == key(q) ==> p == q
  }

  function Rekey<K>(files: Files, key: FilePath -> K): map<K, Content>
    requires UniqueBy(files, key)
  {
    map p | p in files :: key(p) := files[p]
  }

  /** At most one file per message. */
  predicate Unique(files: Files) {
    UniqueBy(files, Key)
  }

  /** The store as a mail store: message to content. */
  function ByKey(files: Files): map<MessageKey, Content>
    requires Unique(files)
  {
    Rekey(files, Key)
  }

  lemma UpdateKeepsKey(path: FilePath, flags: seq<MessageFlag>)
    requires Renamable(path, flags)
    ensures Key(NewPath(path, flags)) == Key(path)
  {
    StripAfterUpdate(FileName(path), flags);
    NewParentAbsorbs(Parent(path), Seen in flags, false);
    assert Parent(NewPath(path, flags)) == NewParent(Parent(path), Seen in flags);
  }

  /** The target of an update depends only on the message and the flags. */
  lemma KeyDecidesTarget(p: FilePath, q: FilePath, flags: seq<MessageFlag>)
    requires Key(p) == Key(q)
    ensures NewPath(p, flags) == NewPath(q, flags)
  {
    NewParentAbsorbs(Parent(p), false, Seen in flags);
    NewParentAbsorbs(Parent(q), false, Seen in flags);
  }

  ghost predicate Canonical(path: FilePath) {
    exists flags :: NewPath(path, flags) == path
  }

  /** The update leaves every other file alone. */
  predicate KeepsOthers(files: Files, p: FilePath, flags: seq<MessageFlag>) {
    Renamable(p, flags) && NewPath(p, flags) in files ==> NewPath(p, flags) == p
  }

  /** No file shares its message with another, canonically named one. */
  ghost predicate CanonicalAlone(files: Files) {
    forall p: FilePath, q: FilePath :: p in files && q in files && Key(p) == Key(q) && Canonical(q) ==> p == q
  }

  /** No single update overwrites another file if and only if no file shares its message with a
      canonically named one. For whole runs see `UpdatesKeepFilesExactly`. */
  lemma UpdateNeverOverwrites(files: Files)
    ensures (forall p: FilePath, flags :: p in files ==> KeepsOthers(files, p, flags)) <==> CanonicalAlone(files)
    ensures Unique(files) ==> forall p: FilePath, flags :: p in files ==> KeepsOthers(files, p, flags)
  {
    if forall p: FilePath, flags :: p in files ==> KeepsOthers(files, p, flags) {
      forall p: FilePath, q: FilePath | p in files && q in files && Key(p) == Key(q) && Canonical(q)
        ensures p == q
      {
        var flags :| NewPath(q, flags) == q;
        KeyDecidesTarget(p, q, flags);
        assert KeepsOthers(files, p, flags);
      }
    }
    if CanonicalAlone(files) {
      forall p: FilePath, flags | p in files
        ensures KeepsOthers(files, p, flags)
      {
        CanonicalTarget(files, p, flags);
      }
    }
  }

  lemma CanonicalTarget(files: Files, p: FilePath, flags: seq<MessageFlag>)
    requires CanonicalAlone(files) && p in files
    ensures KeepsOthers(files, p, flags)
  {
    if Renamable(p, flags) && NewPath(p, flags) in files {
      UpdateKeepsKey(p, flags);
      LastUpdateWins(p, flags, flags);
      assert Canonical(NewPath(p, flags));
    }
  }

  // ----- What operations do to messages -----

  /** The caller's guard: a store must not create a second file for a message. */
  predicate Fresh(files: Files, op: Op) {
    op.Store? ==> forall q :: q in files && Key(q) == Key(op.path) ==> q == op.path
  }

  function AbstractOp(files: Files, messages: map<MessageKey, Content>, op: Op): map<MessageKey, Content> {
    match op
    case Store(path, content) => messages[Key(path) := content]
    case UpdateFlags(_, _) => messages
    case Delete(path) => if path in files then messages - {Key(path)} else messages
  }

  /** One operation on the files is one operation on the messages, and flag updates are none. */
  lemma OpRefinesMessages(files: Files, op: Op)
    requires Unique(files) && Fresh(files, op)
    ensures Unique(ApplyOp(files, op).0)
    ensures ByKey(ApplyOp(files, op).0) == AbstractOp(files, ByKey(files), op)
  {
    match op
    case Store(path, content) => StoreAddsMessage(files, path, content, Key);
    case UpdateFlags(current, flags) =>
      if IsFilePath(current) && current in files && Renamable(current, flags) {
        UpdateKeepsKey(current, flags);
        MoveKeepsMessages(files, current, NewPath(current, flags), Key);
      }
    case Delete(path) =>
      if path in files {
        DeleteRemovesMessage(files, path, Key);
      }
  }

  // The same three facts for any way of telling which message a file is.

  lemma StoreAddsMessage<K>(files: Files, path: FilePath, content: Content, key: FilePath -> K)
    requires UniqueBy(files, key)
    requires forall q :: q in files && key(q) == key(path) ==> q == path
    ensures var after := files[path := content];
      UniqueBy(after, key) && Rekey(after, key) == Rekey(files, key)[key(path) := content]
  {
    var after := files[path := content];
    assert forall p :: p in files ==> p in after;
    assert path in after;
    forall k | k in Rekey(files, key)
      ensures k in Rekey(after, key)
    {
      var p :| p in files && key(p) == k;
      assert p in after;
    }
  }

  lemma DeleteRemovesMessage<K>(files: Files, path: FilePath, key: FilePath -> K)
    requires UniqueBy(files, key) && path in files
    ensures UniqueBy(files - {path}, key) && Rekey(files - {path}, key) == Rekey(files, key) - {key(path)}
  {
    var after := files - {path};
    forall k | k in Rekey(files, key) && k != key(path)
      ensures k in Rekey(after, key)
    {
      var p :| p in files && key(p) == k;
      assert p in after;
    }
  }

  lemma MoveKeepsMessages<K>(files: Files, from: FilePath, to: FilePath, key: FilePath -> K)
    requires UniqueBy(files, key) && from in files && key(to) == key(from)
    ensures var after := (files - {from})[to := files[from]];
      UniqueBy(after, key) && Rekey(after, key) == Rekey(files, key)
  {
    var after := (files - {from})[to := files[from]];
    forall k | k in Rekey(files, key)
      ensures k in Rekey(after, key) && Rekey(after, key)[k] == Rekey(files, key)[k]
    {
      var p :| p in files && key(p) == k;
      var p' := if p == from then to else p;
      assert p' in after && key(p') == k && after[p'] == files[p];
    }
    MovedKeysOnly(files, from, to, key);
  }

  lemma MovedKeysOnly<K>(files: Files, from: FilePath, to: FilePath, key: FilePath -> K)
    requires from in files && key(to) == key(from)
    ensures forall p' :: p' in (files - {from})[to := files[from]] ==> exists p :: p in files && key(p) == key(p')
  {
    forall p' | p' in (files - {from})[to := files[from]]
      ensures exists p :: p in files && key(p) == key(p')
    {
      var p := if p' == to then from else p';
      assert p in files && key(p) == key(p');
    }
  }

  /** Storing keeps one file per message exactly when the guard holds. */
  lemma StoreGuardIsExact(files: Files, path: FilePath, content: Content)
    requires Unique(files)
    ensures Unique(files[path := content]) <==> Fresh(files, Store(path, content))
  {
    var after := files[path := content];
    if Unique(after) {
      forall q | q in files && Key(q) == Key(path)
        ensures q == path
      {
        assert q in after && path in after;
      }
    }
  }

  predicate OnlyUpdates(ops: seq<Op>) {
    forall op :: op in ops ==> op.UpdateFlags?
  }

  /** Conservation: whatever flags are set, in whatever order and on whatever paths, the
      messages and their contents stay exactly what they were. */
  lemma {:induction false} UpdatesConserveMessages(files: Files, ops: seq<Op>)
    requires Unique(files) && OnlyUpdates(ops)
    ensures Unique(RunOps(files, ops))
    ensures ByKey(RunOps(files, ops)) == ByKey(files)
    decreases |ops|
  {
    if ops != [] {
      assert ops[0] in ops;
      OpRefinesMessages(files, ops[0]);
      UpdatesConserveMessages(ApplyOp(files, ops[0]).0, ops[1..]);
    }
  }

  // ----- No run of updates loses a file, exactly -----

  /** A rename keeps the number of entries unless it replaces another one. */
  lemma MoveSize<K, V>(m: map<K, V>, from: K, to: K)
    requires from in m
    ensures |(m - {from})[to := m[from]]| == if to in m && to != from then |m| - 1 else |m|
  {
    var rest := m - {from};
    assert rest.Keys == m.Keys - {from};
    assert rest[to := m[from]].Keys == rest.Keys + {to};
    assert |m.Keys| == |m| && |rest.Keys| == |rest|;
    assert |rest[to := m[from]].Keys| == |rest[to := m[from]]|;
  }

  lemma UpdateSize(files: Files, current: Path, flags: seq<MessageFlag>)
    ensures var after := ApplyOp(files, UpdateFlags(current, flags)).0;
      && |after| <= |files|
      && (|after| < |files| <==> IsFilePath(current) && current in files && !KeepsOthers(files, current, flags))
  {
    if IsFilePath(current) && current in files && Renamable(current, flags) {
      MoveSize(files, current, NewPath(current, flags));
    }
  }

  lemma {:induction false} UpdatesKeepFiles(files: Files, ops: seq<Op>)
    requires Unique(files) && OnlyUpdates(ops)
    ensures |RunOps(files, ops)| == |files|
    decreases |ops|
  {
    if ops != [] {
      assert ops[0] in ops;
      UpdateNeverOverwrites(files);
      UpdateSize(files, ops[0].current, ops[0].flags);
      OpRefinesMessages(files, ops[0]);
      UpdatesKeepFiles(ApplyOp(files, ops[0]).0, ops[1..]);
    }
  }

  function Moved<K, V>(m: map<K, V>, from: K, to: K): map<K, V> {
    if from in m then (m - {from})[to := m[from]] else m
  }

  /** Two entries moved to one place leave fewer. */
  lemma MovedTogether<K, V>(m: map<K, V>, p: K, q: K, to: K)
    requires p in m && q in m && p != q
    ensures |Moved(Moved(m, p, to), q, to)| < |m|
  {
    var next := Moved(m, p, to);
    MoveSize(m, p, to);
    if q in next {
      MoveSize(next, q, to);
    }
  }

  lemma SeenMoves(files: Files, p: FilePath)
    ensures Renamable(p, [Seen])
    ensures ApplyOp(files, UpdateFlags(p, [Seen])).0 == Moved(files, p, NewPath(p, [Seen]))
  {
    SeenIsPrinted();
    RenamableExactly(p, [Seen]);
  }

  lemma SeenIsPrinted()
    ensures LettersOfFlags([Seen]) != ""
  {
    assert [Seen][1..] == [];
  }

  lemma RunTwo(files: Files, first: Op, second: Op)
    ensures RunOps(files, [first, second]) == ApplyOp(ApplyOp(files, first).0, second).0
  {
    var next := ApplyOp(files, first).0;
    assert [first, second][1..] == [second] && [second][1..] == [];
    assert RunOps(next, [second]) == RunOps(ApplyOp(next, second).0, []);
  }

  /** Marking two files of one message as seen leaves fewer files. */
  lemma TwinsCollapse(files: Files, p: FilePath, q: FilePath) returns (ops: seq<Op>)
    requires p in files && q in files && p != q && Key(p) == Key(q)
    ensures ops == [UpdateFlags(p, [Seen]), UpdateFlags(q, [Seen])] && |RunOps(files, ops)| < |files|
  {
    var first, second := UpdateFlags(p, [Seen]), UpdateFlags(q, [Seen]);
    ops := [first, second];
    RunTwo(files, first, second);
    SeenMoves(files, p);
    SeenMoves(ApplyOp(files, first).0, q);
    KeyDecidesTarget(p, q, [Seen]);
    var target: FilePath := NewPath(p, [Seen]);
    MovedTogether(files, p, q, target);
  }

  /** Every run of flag updates keeps the number of files. */
  ghost predicate UpdatesLoseNothing(files: Files) {
    forall ops :: OnlyUpdates(ops) ==> |RunOps(files, ops)| == |files|
  }

  lemma LosingRun(files: Files, ops: seq<Op>)
    requires OnlyUpdates(ops) && |RunOps(files, ops)| < |files|
    ensures !UpdatesLoseNothing(files)
  {
  }

  lemma TwinsOf(files: Files) returns (p: FilePath, q: FilePath)
    requires !Unique(files)
    ensures p in files && q in files && p != q && Key(p) == Key(q)
  {
    p, q :| p in files && q in files && Key(p) == Key(q) && p != q;
  }

  /** No run of flag updates loses a file if and only if no two files are the same message. */
  lemma UpdatesKeepFilesExactly(files: Files)
    ensures UpdatesLoseNothing(files) <==> Unique(files)
  {
    if Unique(files) {
      forall ops | OnlyUpdates(ops)
        ensures |RunOps(files, ops)| == |files|
      {
        UpdatesKeepFiles(files, ops);
      }
    } else {
      var p, q := TwinsOf(files);
      var ops := TwinsCollapse(files, p, q);
      LosingRun(files, ops);
    }
  }

  // ----- What the loop does with a sequence of commands -----

  predicate NoShutdown(cmds: seq<Command>) {
    forall cmd :: cmd in cmds ==> !cmd.Shutdown?
  }

  /** How many commands the loop takes: all up to and including the first Shutdown. */
  function Taken(cmds: seq<Command>): nat {
    if cmds == [] then 0 else if cmds[0].Shutdown? then 1 else 1 + Taken(cmds[1..])
  }

  /** Every command the loop takes is answered once, a failed one like any other. */
  lemma {:induction false} EveryCommandIsAnswered(files: Files, cmds: seq<Command>)
    ensures |Run(files, cmds).1| == Taken(cmds)
    ensures NoShutdown(cmds) ==> Taken(cmds) == |cmds|
    decreases |cmds|
  {
    if cmds != [] && !cmds[0].Shutdown? {
      EveryCommandIsAnswered(Apply(files, cmds[0]).0, cmds[1..]);
    }
  }

  /** The loop goes on from the files it has, whatever it answered so far. */
  lemma {:induction false} LoopGoesOn(files: Files, a: seq<Command>, b: seq<Command>)
    requires NoShutdown(a)
    ensures var first := Run(files, a);
      Run(files, a + b) == (Run(first.0, b).0, first.1 + Run(first.0, b).1)
    decreases |a|
  {
    if a == [] {
      assert a + b == b && [] + Run(files, b).1 == Run(files, b).1;
    } else {
      assert (a + b)[1..] == a[1..] + b && a[0] in a;
      var (after, reply) := Apply(files, a[0]);
      LoopGoesOn(after, a[1..], b);
      var rest := Run(after, a[1..]);
      assert [reply] + (rest.1 + Run(rest.0, b).1) == ([reply] + rest.1) + Run(rest.0, b).1;
    }
  }

  /** Nothing after a Shutdown is done. */
  lemma ShutdownEndsTheLoop(files: Files, a: seq<Command>, b: seq<Command>)
    requires NoShutdown(a)
    ensures Run(files, a + ([Shutdown] + b)) == (Run(files, a).0, Run(files, a).1 + [Done])
  {
    LoopGoesOn(files, a, [Shutdown] + b);
    assert ([Shutdown] + b)[0] == Shutdown;
  }

  /** The command a client operation sends, if its path has a file name. */
  function CommandsOf(op: Op): seq<Command> {
    match op
    case Store(path, content) => [Write(path, content)]
    case UpdateFlags(current, flags) => if IsFilePath(current) then [Move(current, NewPath(current, flags))] else []
    case Delete(path) => [Remove(path)]
  }

  function AllCommands(ops: seq<Op>): seq<Command> {
    if ops == [] then [] else CommandsOf(ops[0]) + AllCommands(ops[1..])
  }

  lemma {:induction false} ClientsSendNoShutdown(ops: seq<Op>)
    ensures NoShutdown(AllCommands(ops))
  {
    if ops != [] {
      ClientsSendNoShutdown(ops[1..]);
    }
  }

  /** Client operations sent through the loop end in what the operations do one by one, failed
      ones included. */
  lemma {:induction false} LoopRunsOperations(files: Files, ops: seq<Op>)
    ensures Run(files, AllCommands(ops)).0 == RunOps(files, ops)
    decreases |ops|
  {
    if ops != [] {
      OneOperation(files, ops[0]);
      LoopGoesOn(files, CommandsOf(ops[0]), AllCommands(ops[1..]));
      LoopRunsOperations(ApplyOp(files, ops[0]).0, ops[1..]);
    }
  }

  lemma OneOperation(files: Files, op: Op)
    ensures NoShutdown(CommandsOf(op)) && Run(files, CommandsOf(op)).0 == ApplyOp(files, op).0
  {
    if CommandsOf(op) != [] {
      RunOne(files, CommandsOf(op)[0]);
    }
  }

  /** So the loop never loses a file to flag updates exactly if no two files are the same message. */
  lemma LoopKeepsFilesExactly(files: Files)
    ensures (forall ops :: OnlyUpdates(ops) ==> |Run(files, AllCommands(ops)).0| == |files|) <==> Unique(files)
  {
    UpdatesKeepFilesExactly(files);
    forall ops
      ensures Run(files, AllCommands(ops)).0 == RunOps(files, ops)
    {
      LoopRunsOperations(files, ops);
    }
    if !UpdatesLoseNothing(files) {
      var ops :| OnlyUpdates(ops) && |RunOps(files, ops)| != |files|;
      assert |Run(files, AllCommands(ops)).0| != |files|;
    }
  }
}
