# Scuttled: a verified model of an IMAP4rev1 server's core

Scuttled keeps mail in Maildir files, mirrors them in an index that is fed by file-system
events, and serves IMAP sessions from a registry of mailboxes. Every stateful component is a
single-writer loop over a command channel. This project models those loops as step machines
and proves what they promise over whole runs and over every interleaving.

How the model is laid out:

- A component that updates its fields in place is a `class` whose methods are proved equal to
  a step function (`Step`, `Run`, `HandleEvent`, `Dispatch`, ...); the whole-run theorems are
  lemmas about those functions. Loops of the source are loops here.
- `ListPattern` and `Regex`: the LIST pattern compiler, the regular-expression sublanguage it
  emits, and the wildcard semantics of section 6.3.8 of RFC 3501.
- `Maildir`, `Storage`, `Watcher`: file names and flags, renames through the storage writer
  loop, and the events read off file changes.
- `Registry`, `UidHistory`, `MailboxHandle`: UID validity, UIDs over whole runs, and the
  UID-to-path handle with its notification subscribers (section 2.3.1.1 of RFC 3501). The `u32` counters wrap.
- `IndexBackend`, `Indexer`, `IndexUids`: the index as three maps joined by string keys, shown
  to refine one map.
- `Agreement`, `EndToEnd`: storage operation, file change, event and index in one machine, and
  when index and files agree.
- `EventBus`, `BusProtocol`, `BusOrdering`, `IndexFeed`: synchronous and asynchronous publishing,
  with the bus task and all subscriber tasks interleaved step by step, and the index fed by it.
- `Words`, `Protocol`, `CommandHandlers`, `Session`, `Sessions`, `Commands`: from a line of
  text to its completion, one session and any number of them on a shared registry.

Where a promise of the source is false without a condition, the condition is proved exact
(an if-and-only-if): `AgreesOnAllNames`, `FileNameRoundTrip`, `RenamableExactly`,
`UpdatesKeepFilesExactly`, `StoreGuardIsExact`, `CounterExhaustion`, `NeverReissuesExactly`,
`HandUpdateIsExact`, `HandSetUidIsExact`, `HandSetValidityIsExact`, `StepKeepsBijection`, `MailboxDeletionGuardIsExact`,
`CreationGuardIsExact`, `RecreationCollidesExactly`, `LookupByUidIsDetermined`,
`StoreAgreesExactly`, `StepKeepsExactly`, `SingularIsNeeded`, `WaitCanEndExactly`.

Where the code and its own text differ, the model follows the code:

- `src/handlers/list.rs:47-50` says `*` matches zero or more characters; the regex it emits
  does not let `*` cross a newline (`ListPattern.AgreesOnAllNames`).
- `src/mailbox.rs:339` says disconnected subscribers are removed; subscribers whose buffer is
  full are removed as well (`MailboxHandle.NotificationsAreGapFree`).
- `src/mailstore/watcher/maildir.rs:75-83` splits a name at the first `:`, while
  `src/storage.rs:184-189` strips flags at the first `:2,` (`Maildir.FileNameRoundTrip`).
- `src/events.rs:521-522` explains a dropped acknowledgment by an unsubscription; during the
  wait no unsubscription is taken, and a handle is dropped only by a failed send, by the
  subscriber, or with its receiver (`BusProtocol.AwaitingFrame`).
- `LIST "" ""`, which RFC 3501 reserves for asking for the delimiter, is answered BAD
  (`Commands.ListAnswers`).

## Model

| member | source | states |
|---|---|---|
| ListPattern.ImapPatternToRegex | src/handlers/list.rs:51-69 | the string built character by character is a well-formed regex whose items are exactly the pattern's tokens between the two anchors |
| ListPattern.CompilePattern | src/handlers/list.rs:19-45 | the five-way choice of filter, including its edge cases, is the specification function that the meaning lemmas are about |
| ListPattern.EmittedRegexParses | src/handlers/list.rs:51-69 | every emitted regex parses, to start anchor, one item per pattern character, end anchor; so the invalid-regex branch is unreachable |
| ListPattern.TranslationInjective | src/handlers/list.rs:51-69 | two patterns with the same emitted regex are the same pattern |
| ListPattern.RegexFilterMeaning | src/mailboxes/impl/memory.rs:293-305 | the unanchored match of the emitted regex accepts a name exactly when it matches the pattern with `*` confined to one line |
| ListPattern.CompiledFilterMeaning | src/mailboxes/impl/memory.rs:244-312 | for every pattern and newline-free name, the chosen filter accepts exactly the wildcard matches of RFC 3501 plus INBOX spellings against an INBOX pattern |
| ListPattern.AgreesOnAllNames | src/handlers/list.rs:51-69 | the filter agrees with RFC 3501 on all names, newlines included, if and only if the pattern is not a regex pattern with a `*` |
| Registry.ListReportsMatches | src/mailboxes/impl/memory.rs:244-312 | for every iteration order, listing through the registry reports a name exactly if it is a mailbox of that user and matches the pattern |
| Registry.ListsNamesOnce | src/mailboxes/impl/memory.rs:244-312 | no name is listed twice |
| Text.InboxExactly | src/handlers/delete.rs:53 | the ten letters that spell INBOX, position by position |
| Text.ContainsExactly | src/index/impl/inmemory.rs:159-168 | a text contains another exactly if it is something, that text, and something |
| Maildir.ParseFlags | src/mailstore/watcher/maildir.rs:31-47 | the loop keeps the known flag letters in order and skips unknown ones |
| Maildir.FlagsToFilenameComponent | src/mailstore/watcher/maildir.rs:102-125 | the printed component is the marker followed by the sorted letters of the flags, or nothing when there are none |
| Maildir.LettersExactly | src/mailstore/watcher/maildir.rs:31-47 | a letter is read as a flag, and the flag printed as that letter, exactly if the table D, F, R, S, T against Draft, Flagged, Answered, Seen, Deleted says so |
| Maildir.ParsedExactly | src/mailstore/watcher/maildir.rs:50-98 | a path is a message file exactly if it has four or more components and the third is new or cur; user, mailbox, newness, identifier and flags told from the components and the first colon |
| Maildir.SortIsDetermined | src/mailstore/watcher/maildir.rs:118 | any sorted permutation of the letters is the one the model computes, so the unstable sort has only one possible result |
| Maildir.PrintedFlags | src/mailstore/watcher/maildir.rs:102-125 | reading the printed letters back gives the multiset of flags minus Recent and custom ones |
| Maildir.FileNameRoundTrip | src/mailstore/watcher/maildir.rs:73-87 | the identifier survives every rename; the printed flags survive if and only if nothing is printed or the bare name has no colon |
| Maildir.RenamedComponents | src/storage.rs:198-220 | where each component of the renamed path comes from; Seen decides between new and cur |
| Maildir.RenamableExactly | src/storage.rs:184-220 | the computed path has a file name, and so an update a file to rename to, if and only if a flag is printed or the bare name is not empty, `.` or `..` |
| Maildir.PathRoundTrip | src/storage.rs:173-220 | a renamed path that has a file name parses to the same user, mailbox and id, is new exactly if Seen is absent (deeper files stay new or not as they were), and shows the requested flags under the exact colon condition |
| Maildir.LastUpdateWins | src/storage.rs:173-220 | a second update yields the same path as that update alone |
| Storage.RenamedFile | src/storage.rs:174-196 | the name arithmetic strips the old flags and appends the new component |
| Storage.RenamedParent | src/storage.rs:198-218 | the directory arithmetic moves between new and cur by the Seen flag and leaves other directories alone |
| Storage.FilesystemStore.Write | src/storage/filesystem_store.rs:34-46 | the file has the content, every other file is untouched |
| Storage.FilesystemStore.MoveFile | src/storage/filesystem_store.rs:48-63 | a missing source, and a target without a file name, are errors without effect; otherwise the file is at the target, replacing what was there, and nowhere else |
| Storage.FilesystemStore.Remove | src/storage/filesystem_store.rs:65-74 | a missing file is an error without effect; otherwise only that file goes |
| Storage.FilesystemStore.Read | src/storage/filesystem_store.rs:86-98 | the content, or nothing for a missing file |
| Storage.RunWriterLoop | src/storage.rs:265-290 | commands take effect and are answered in channel order until Shutdown |
| Storage.EveryCommandIsAnswered | src/storage.rs:265-290 | one reply for each command up to and including the first Shutdown, for each command if there is none |
| Storage.LoopGoesOn | src/storage.rs:265-290 | after any commands but Shutdown, failed ones included, the loop handles the next ones on the files it then has, and its replies follow the earlier ones |
| Storage.ShutdownEndsTheLoop | src/storage.rs:284-289 | nothing sent after a Shutdown is done or answered |
| Storage.LoopRunsOperations | src/storage.rs:265-290 | the commands of any client operations, sent through the loop, end in the files that the operations make one by one |
| Storage.LoopKeepsFilesExactly | src/storage.rs:265-290 | the loop keeps the number of files over all flag updates if and only if no two files are the same message |
| Storage.UpdateFlagsOf | src/storage.rs:173-236 | one flag update is one rename to the computed path, or an error without effect |
| Storage.OperationAnswersExactly | src/storage.rs:131-236 | which answer each operation gets on which files; one not answered Done changes nothing |
| Storage.UpdateRenamesExactly | src/storage.rs:173-236 | an update succeeds if and only if the path names an existing file and the computed path has a file name; a failed one has no effect |
| Storage.UpdateNeverOverwrites | src/storage.rs:198-236 | no single update overwrites another file if and only if no file shares its message with a canonically named one |
| Storage.UpdatesKeepFilesExactly | src/storage.rs:265-290 | every run of flag updates keeps the number of files if and only if no two files are the same message |
| Storage.OpRefinesMessages | src/storage.rs:131-236 | with one file per message, a store, delete or flag update on files is that operation on the map from message to content, a flag update being no change at all |
| Storage.StoreGuardIsExact | src/storage.rs:131-143 | a store keeps one file per message exactly if no other file of that message exists |
| Storage.UpdatesConserveMessages | src/storage.rs:265-290 | any run of flag updates keeps one file per message and leaves the message-to-content map unchanged |
| Registry.MailboxState.constructor | src/mailboxes/impl/memory.rs:40-46 | the registry starts empty with validity counter 1 |
| Registry.MailboxState.CreateMailbox | src/mailboxes/impl/memory.rs:48-75 | an existing mailbox is refused without effect; a new one gets the next validity, UID counter 1 and its reverse entry |
| Registry.MailboxState.DeleteMailbox | src/mailboxes/impl/memory.rs:77-86 | both entries of the mailbox go, or an error without effect |
| Registry.MailboxState.NextUid | src/mailboxes/impl/memory.rs:89-99 | the counter's value is handed out and the counter moves on, wrapping at 32 bits |
| Registry.MailboxState.AmendMailbox | src/mailboxes/impl/memory.rs:101-137 | the three updates go through the reverse map to one mailbox, or are an error without effect |
| Registry.MailboxState.WriterLoop | src/mailboxes/impl/memory.rs:158-197 | commands take effect and are answered in channel order until Shutdown |
| Registry.EveryCommandIsAnswered | src/mailboxes/impl/memory.rs:158-197 | one reply for each command up to and including the first Shutdown |
| Registry.LoopGoesOn | src/mailboxes/impl/memory.rs:158-197 | a refused command does not stop the loop: the next ones are handled on the registry it then has |
| Registry.UpdatesChangeOneMailbox | src/mailboxes/impl/memory.rs:101-137 | each hand update changes the fields it names, and no other, of the mailbox it names, which the reverse map finds exactly if it exists |
| Registry.StepKeepsInverse | src/mailboxes/impl/memory.rs:48-137 | every command keeps the two maps mutually inverse, whatever the counters |
| UidHistory.UidsAreNeverReissued | src/mailboxes/impl/memory.rs:48-119 | over every run within the counters whose hand updates stay past what was issued, no (mailbox, validity, UID) is handed out twice; without hand updates the UIDs under one validity are 1, 2, 3, ... without gaps |
| UidHistory.RaisingRunsAreSafe | src/mailboxes/impl/memory.rs:101-119 | hand updates that only raise (a validity no further than those given out) are such updates, so a caller need not know the history |
| UidHistory.ValiditiesIncrease | src/mailboxes/impl/memory.rs:55-56 | successive creations get consecutive validities whatever is set by hand, so a re-created mailbox gets a larger one |
| UidHistory.CounterExhaustion | src/mailboxes/impl/memory.rs:93-94 | drawing n UIDs from one mailbox repeats none if and only if n is at most 2^32 |
| UidHistory.NeverReissuesExactly | src/mailboxes/impl/memory.rs:89-99 | no run that follows, within the counters and without further hand updates, reissues a UID if and only if every mailbox's counter is past what was issued under its validity |
| UidHistory.HandUpdateIsExact | src/mailboxes/impl/memory.rs:101-119 | a hand update, of the next UID or to a validity already given out, keeps that promise if and only if it stays past what was issued |
| UidHistory.HandSetUidIsExact | src/mailboxes/impl/memory.rs:101-109 | setting the next UID by hand leads to no reissue in any run that follows if and only if it does not lower the counter or nothing was issued yet |
| UidHistory.HandSetValidityIsExact | src/mailboxes/impl/memory.rs:111-119 | setting a validity already given out leads to no reissue in any run that follows if and only if fewer UIDs than the counter stands at were issued under it |
| UidHistory.FutureValidityIsReissued | src/mailboxes/impl/memory.rs:48-119 | a validity set ahead of those given out is reissued in some run: the mailbox gets it again when re-created |
| UidHistory.LoweringNextUidReissues | src/mailboxes/impl/memory.rs:101-109 | a run that shows it: lowering the counter by hand reissues a UID |
| MailboxHandle.MailboxLoop.AssignUid | src/mailbox.rs:280-296 | a path with a UID is refused; otherwise the next UID is entered in both maps and the counter advances |
| MailboxHandle.MailboxLoop.RemoveMessage | src/mailbox.rs:305-312 | both entries go, or an error without effect |
| MailboxHandle.MailboxLoop.UpdatePath | src/mailbox.rs:313-322 | the UID moves to the new path without a look at its holder, or an error without effect |
| MailboxHandle.MailboxLoop.GetUid | src/mailbox.rs:301-304 | the reverse entry, or nothing; under the bijection that is a complete search of the forward map |
| MailboxHandle.MailboxLoop.Notify | src/mailbox.rs:338-344 | one send to each listed subscriber, those that fail leaving the list for good |
| MailboxHandle.GrantedExactly | src/mailbox.rs:280-322 | which commands are granted: an assignment of a free path, a removal or a move of a UID that is there |
| MailboxHandle.RemovalIsExact | src/mailbox.rs:305-312 | after a removal neither map knows the UID or its path, and every other entry is as before |
| MailboxHandle.RunIsRecorded | src/mailbox.rs:278-351 | over every run a UID has a path exactly if it was assigned and not removed since, the path last given to it, and the message count is assignments less removals |
| MailboxHandle.MapsTellTheHistory | src/mailbox.rs:278-351 | the same from the start, and for the reverse map too while no move takes another message's path |
| MailboxHandle.StepKeepsOneWay | src/mailbox.rs:280-322 | every path with a UID is that UID's path, after any command with any path |
| MailboxHandle.StepKeepsBijection | src/mailbox.rs:313-317 | a command keeps the two maps inverse if and only if it takes no other message's path |
| MailboxHandle.TakenPathIsReachable | src/mailbox.rs:313-317 | a run from the start, assign, assign, update to the other's path, after which they are not |
| MailboxHandle.RunKeepsMaps | src/mailbox.rs:278-351 | over every run assigned UIDs are consecutive and never reused after removal, and the map invariants hold |
| MailboxHandle.BroadcastEffect | src/mailbox.rs:338-344 | exactly the listed subscribers with room get the notification, once, and exactly they stay listed |
| MailboxHandle.NotificationsAreGapFree | src/mailbox.rs:333-344 | over every interleaving, received plus queued is a prefix of what was sent since subscribing, and all of it if and only if the subscriber is still listed |
| IndexBackend.InMemoryBackend.AddMessage | src/index/impl/inmemory.rs:52-70 | the entry is filed under its id with the path built from user, mailbox and id |
| IndexBackend.InMemoryBackend.UpdateFlags | src/index/impl/inmemory.rs:72-79 | only that entry's flags change, or an error without effect |
| IndexBackend.InMemoryBackend.DeleteMessage | src/index/impl/inmemory.rs:81-87 | only that entry goes, or an error without effect |
| IndexBackend.InMemoryBackend.RemoveMessagesForMailbox | src/index/impl/inmemory.rs:89-95 | exactly the entries with that user and mailbox field go |
| IndexBackend.InMemoryBackend.GetMessagePathByUid | src/index/impl/inmemory.rs:101-116 | the path of the first entry with the UID in iteration order |
| IndexBackend.OperationsKeepPaths | src/index/impl/inmemory.rs:39-95 | every operation keeps each entry under its own id with a path that ends in it, so paths tell messages apart |
| Indexer.PathsLieInTheirMailbox | src/index/impl/inmemory.rs:39-43 | over every run of events and registry commands each entry's path is its id below the directory that the registry gives the entry's own mailbox |
| IndexBackend.LookupByUidIsDetermined | src/index/impl/inmemory.rs:101-116 | the lookup answers alike for all iteration orders if and only if no two messages of one mailbox share a UID |
| IndexBackend.SearchFinds | src/index/impl/inmemory.rs:135-152 | a search returns the paths of exactly the matching entries of the mailbox, none twice |
| IndexBackend.HeaderQueries | src/index/impl/inmemory.rs:157-168 | From, To, Subject and Body find exactly the paths of the mailbox's entries whose own header field contains the text, and Text the union of the four |
| IndexBackend.FlagQueries | src/index/impl/inmemory.rs:156-178 | All finds the whole mailbox, IsSeen, IsFlagged and IsDeleted exactly the entries with the flag, and Sequence nothing |
| IndexBackend.UidQuery | src/index/impl/inmemory.rs:169 | a query by UIDs finds exactly the entries with one of them, holds what a lookup by such a UID answers, and is empty exactly if all these lookups are |
| IndexBackend.UpdatedFlagsAreFound | src/index/impl/inmemory.rs:72-79 | after a flag update the flag queries find the message exactly by the flags given |
| IndexBackend.SearchAlgebra | src/index/impl/inmemory.rs:155-180 | And, Or and Not are intersection, union and complement relative to the listed paths |
| IndexBackend.NegativeFlagQueries | src/index/impl/inmemory.rs:170-178 | Unseen, Unflagged and Undeleted are the complements of the positive queries |
| Indexer.Listener.Handle | src/index/indexer.rs:273-509 | one delivery updates mapping, backend and registry as the event step says, every skip branch included |
| Indexer.Listener.EventLoop | src/index/indexer.rs:271-513 | deliveries are handled one after the other |
| Indexer.KeysInjective | src/index/indexer.rs:376 | with slash-free user and mailbox names, equal keys mean equal messages |
| Indexer.PrefixIsMailbox | src/index/indexer.rs:502-503 | with slash-free names, a key has the mailbox's prefix exactly if its fields are that user and mailbox |
| Indexer.EventRefines | src/index/indexer.rs:273-509 | each unambiguous event does to the three joined maps what it means for one map from message to data |
| Indexer.IndexRefinesMap | src/index/indexer.rs:271-513 | over every run of events with registry commands in between, lookups through both maps agree with the one map, the mapping is injective and its values are exactly the backend's ids |
| Indexer.PlainRunsRefine | src/index/indexer.rs:271-513 | slash-free names, fresh keys and fresh ids are all that the refinement needs, from an empty index over any registry |
| Indexer.MailboxDeletionGuardIsExact | src/index/indexer.rs:472-503 | deleting a mailbox leaves a consistent index if and only if its key prefix covers no message of another mailbox |
| Indexer.HierarchicalNamesAreAmbiguous | src/index/indexer.rs:502-503 | for every nested mailbox name: after a delivery to the child and the deletion of the parent, the child's message is in the backend and nothing points to it |
| Indexer.CreationGuardIsExact | src/index/indexer.rs:293-344 | creating a message leaves a consistent index if and only if its key is not live |
| Indexer.LiveKeyIsCreatedAgain | src/index/indexer.rs:340-344 | two deliveries of one message, from an empty index, end in no consistent index |
| IndexUids.StepKeepsUidsSound | src/index/indexer.rs:293-338 | every event and registry command keeps UIDs distinct and below their mailbox's counter, except that creating a mailbox keeps them below it if and only if the index has forgotten its former messages |
| IndexUids.DeliveriesCollideExactly | src/index/indexer.rs:293-338 | delivering k messages to a mailbox keeps the UIDs of the index distinct if and only if they were and no message of that mailbox has one of the next k |
| IndexUids.RecreationCollidesExactly | src/mailboxes/impl/memory.rs:48-75 | creating a mailbox again with messages of its former life left in the index: k deliveries keep UIDs distinct if and only if every UID left over exceeds k |
| IndexUids.RecreatedMailboxCollides | src/handlers/delete.rs:76-81 | a run from the start, create, deliver, delete, create, deliver, after which two live messages of the mailbox have one UID |
| IndexUids.RunKeepsUidsSound | src/index/indexer.rs:271-513 | the same over whole runs of events interleaved with registry commands |
| IndexUids.UidLookupIsDetermined | src/index/impl/inmemory.rs:101-116 | over every such run the lookup by UID does not depend on the iteration order |
| Watcher.HandleCreateEvent | src/mailstore/watcher/filesystem.rs:457-545 | a created event with the name's fields, the joined key, the flags plus Recent in new and the parsed header data, or nothing if name, file or mail cannot be read |
| Watcher.HandleModifyEvent | src/mailstore/watcher/filesystem.rs:548-582 | a modified event with the flags of the name plus Recent in new, the file not being looked at |
| Watcher.HandleRemoveEvent | src/mailstore/watcher/filesystem.rs:585-611 | a deleted event with the fields of the name |
| Watcher.HandleFilesystemEvent | src/mailstore/watcher/filesystem.rs:422-611 | the events published for a change, path by path, which the next two lemmas tell |
| Watcher.EventsTellTheChange | src/mailstore/watcher/filesystem.rs:422-611 | an event is published for a change if and only if it tells that kind of change of one of its paths, with the fields of the name and, for a created file, of its readable content |
| Watcher.EventsTellTheKind | src/mailstore/watcher/filesystem.rs:430-449 | creations, modifications and deletions are published only for changes of that kind |
| Watcher.OtherChangesAreSilent | src/mailstore/watcher/filesystem.rs:447-449 | a change of another kind publishes nothing, whatever its paths |
| EndToEnd.Perform | src/storage.rs:131-236 | storage loop, watcher and listener run in turn are one step of the whole system |
| EndToEnd.PassOn | src/mailstore/watcher/filesystem.rs:447-449 | a report of another kind about any paths goes through watcher and listener as the step for it says |
| EndToEnd.TouchChangesNothing | src/mailstore/watcher/filesystem.rs:447-449 | such a report changes neither files nor index |
| EndToEnd.OverwriteKeepsIndex | src/storage/filesystem_store.rs:34-46 | a store over an existing file leaves the index as it was |
| EndToEnd.StoreAgreesExactly | src/mailstore/watcher/filesystem.rs:457-582 | a store keeps index and files in agreement if and only if an overwritten file looks as before (with header data: the same header data) and a new readable message is in a registered mailbox and no other readable file is that message |
| EndToEnd.StepSound | src/index/indexer.rs:271-513 | every acceptable operation keeps the invariant; flag updates and deletions always are, at any depth and with any name |
| EndToEnd.StepKeepsExactly | src/index/indexer.rs:271-513 | an operation keeps the invariant, agreement and one file to each shown message, if and only if it is acceptable |
| EndToEnd.SingularIsNeeded | src/mailstore/watcher/filesystem.rs:585-611 | every deletion keeps agreement if and only if each readable file is the only file of its message |
| EndToEnd.TwinIsReachable | src/mailstore/watcher/maildir.rs:56-59 | storing a readable message and an unreadable file of its name one level deeper keeps agreement, and deleting the latter ends it |
| EndToEnd.IndexAgreesWithFiles | src/index/indexer.rs:271-513 | after any acceptable run, overwriting stores, mailboxes coming and going and reports of other changes included, the index holds exactly one message per readable message file, with that file's user, mailbox and flags (plus Recent in new), and with its header data if no overwrite changed them |
| EndToEnd.RequestedFlagsAreShown | src/storage.rs:173-236 | after a flag update the index shows the requested flags except custom ones (none, if the bare name has a colon), and Recent exactly if the file is then in new |
| EventBus.BusTask.AddSubscriber | src/events.rs:418-435 | a new subscriber has a new, empty, open channel |
| EventBus.BusTask.RemoveSubscriber | src/events.rs:436-440 | the subscription goes, its channel is left as it is |
| EventBus.BusTask.HandlePublishAsync | src/events.rs:452-476 | the loop over the subscribers is the asynchronous dispatch, in iteration order |
| EventBus.BusTask.HandlePublishSync | src/events.rs:482-516 | the sending loop is the synchronous dispatch and returns the acknowledgments to await in order |
| BusProtocol.DispatchDelivers | src/events.rs:456-472 | exactly the interested subscribers with room get one delivery of the event, behind what they had; no other channel changes |
| BusProtocol.PublishSyncAwaitsAll | src/events.rs:485-519 | a synchronous publish awaits one handle for each interested synchronous subscriber: pending and queued with the event if there was room, dropped at once if not |
| BusProtocol.StepKeepsValid | src/events.rs:405-534 | every step of every task keeps each unresolved handle in its owner's open queue or hands, and what was awaited resolved |
| BusProtocol.RunKeepsValid | src/events.rs:405-534 | every run of enabled steps from the start keeps each handle in the hands of the subscriber it was made for, besides the invariant that any run of enabled steps keeps |
| BusProtocol.CommandsAreTakenInOrder | src/events.rs:414-417 | over every run the commands given to the bus are those executed, in the order given, followed by those still waiting |
| BusProtocol.WaitsExactlyForItsReply | src/events.rs:405-534 | over every run a subscriber task that called the bus waits if and only if its command is still queued or is the publication being awaited |
| BusProtocol.AcknowledgedIsAcknowledged | src/events.rs:482-524 | over every run a handle is acknowledged only if a subscriber acknowledged it; failed sends, dropped handles and closed receivers never count |
| BusProtocol.AwaitingFrame | src/events.rs:414-417 | during the wait no command is taken, no subscription changes, nothing is delivered and nothing resolved is undone |
| BusProtocol.ReplyMeansAllResolved | src/events.rs:518-524 | over all interleavings the reply comes only when every handle made for the event is acknowledged or dropped, the bus having taken no other command |
| BusProtocol.WaitingStepsDecrease | src/events.rs:518-524 | each step of the bus or of a subscriber during the wait uses up work; requests to the bus add none |
| BusProtocol.WaitIsBounded | src/events.rs:518-524 | a wait has at most as many steps as there was work when it began |
| BusProtocol.DeadlockIsPermanent | src/events.rs:336-337 | a subscriber that waits for the bus while owning an awaited handle stays so after every step |
| BusProtocol.WaitCanEndExactly | src/events.rs:482-534 | the reply can still be reached if and only if no owner of an awaited, unresolved handle is waiting for the bus |
| BusProtocol.DeadlockIsReachable | src/events.rs:336-337 | there is a run from the start in which one is |
| BusOrdering.StepKeepsGood | src/events.rs:405-534 | every step keeps the log, the subscriber table and all streams in agreement |
| BusOrdering.DeliveriesAreInOrder | src/events.rs:405-516 | over every run a subscriber's received plus queued events are a subsequence of those of its kinds published while subscribed, and equal to them if and only if no send failed and no waiting delivery was discarded |
| IndexFeed.DrainedIndexIsWhatWasPublished | src/index/indexer.rs:255-513 | over every interleaving of the bus, with any registry commands between the deliveries, once a listener that lost nothing has drained its queue its index is what the events published for it make of the empty index, and for plain events it shows exactly the map they stand for |
| IndexFeed.SubscribedKindsMatterExactly | src/index/indexer.rs:256-263 | the listener subscribes to a kind of event if and only if some event of that kind changes some index |
| IndexFeed.SubscriptionMissesNothing | src/index/indexer.rs:256-263 | the index made of the subscribed events alone is the index made of all events |
| Words.SplitPair | src/session.rs:415 | two words rendered with a space between them split into exactly the non-empty ones |
| Words.SplitJoined | src/protocol.rs:153-157 | words joined with spaces split into the same words |
| Words.SplitFirst | src/protocol.rs:87-88 | a word followed by white space or nothing is split off whole |
| Words.SplitSkips | src/protocol.rs:87-88 | white space in front of a word is skipped, however much there is |
| Words.TrimSplits | src/handlers/list.rs:150-151 | trimming removes a run of the matching characters at each end and nothing else |
| Words.TrimExactly | src/handlers/select.rs:41 | trimming an argument removes the white space at both ends and nothing else |
| Words.TrimQuotesExactly | src/protocol.rs:104-146 | trimming quotes yields a text if and only if the word is that text, which neither begins nor ends with a double quote, with any number of double quotes on either side |
| Protocol.WireTag | src/protocol.rs:70-84 | a rendered response starts with a given tag if and only if it carries it, the tags `*` and `+` alone being indistinguishable from untagged data |
| Protocol.WireStatus | src/protocol.rs:53-84 | the second word on the wire tells OK, NO, BAD and BYE apart, and the message ends the line |
| Protocol.WireDetermines | src/protocol.rs:53-84 | two tagged responses read alike on the wire if and only if they are equal |
| CommandHandlers.CreateMailbox | src/handlers/create.rs:33-89 | the handler's answer, state change and registry effect on every branch |
| CommandHandlers.DeleteMailbox | src/handlers/delete.rs:33-99 | the same for DELETE, the INBOX guard coming before the authentication check |
| CommandHandlers.ListMailboxes | src/handlers/list.rs:113-193 | the handler's loop writes one line per listed mailbox, in iteration order, then OK; or answers its two error branches |
| CommandHandlers.Capability | src/handlers/capability.rs:29-50 | the capabilities joined in one OK, STARTTLS for handlers of plain connections only |
| CommandHandlers.Logout | src/handlers/logout.rs:33-56 | BYE, then OK, then the state that ends the session |
| CommandHandlers.Login | src/handlers/login.rs:46-102 | the handler's answer and state change on each of its four branches |
| CommandHandlers.SelectMailbox | src/handlers/select.rs:33-93 | the handler's answer on every branch, with a new state for an existing mailbox only |
| CommandHandlers.Handlers.Register | src/command_handlers.rs:41-53 | a name already registered in any case is refused, otherwise it is added |
| CommandHandlers.StandardHandlers | src/server.rs:53-66 | the eight registrations leave a table in which each command's name, and no other, has its handler |
| CommandHandlers.Handlers.Handle | src/command_handlers.rs:81-144 | unknown commands and unauthenticated sessions are answered by the gate, all else by the handler |
| CommandHandlers.DispatchCompletesOnce | src/command_handlers.rs:90-143 | gate and all eight handlers, on every path, send one tagged response, last and with the call's tag |
| CommandHandlers.FailureHasNoEffect | src/command_handlers.rs:90-143 | a command not completed with OK changes neither session nor registry |
| CommandHandlers.DispatchFrame | src/handlers/delete.rs:52-99 | a command adds or removes registry entries of its own session's user only, changes no other entry, and never removes an INBOX |
| Session.TagHistory.Register | src/session.rs:42-55 | a used tag and a full history are refused without effect, otherwise the tag is recorded within the bound |
| Session.SplitTag | src/session.rs:271-284 | tag and command are the text around the first space, and there is none exactly if the line has no space |
| Session.Session.HandleNext | src/session.rs:270-367 | one turn of the loop is the line step: format, tag, parse, STARTTLS and handler branches |
| Session.Session.Handle | src/session.rs:163-382 | the loop sends the greeting, then the answers of its lines in order until LOGOUT |
| Session.RunLine | src/session.rs:270-382 | one line of an open session is answered with all the responses of its turn, untagged ones included |
| Session.RunLinesGoOn | src/session.rs:209-382 | the loop over lines followed by more is the loop over the first and then, from the state reached, over the others, their responses appended |
| Sessions.LineCompletesOnce | src/session.rs:270-367 | a line with a tag gets exactly one response with that tag, sent last; a line without one gets a single untagged BAD |
| Sessions.LoopCompletesOnce | src/session.rs:209-382 | over a whole session the tagged responses answer the tagged lines handled before LOGOUT one for one, in order |
| Sessions.TagRefusedExactly | src/session.rs:42-55 | a tag is refused if and only if this session accepted it before or has accepted 10000 |
| Sessions.LineProvenance | src/session.rs:360-367 | only a LOGIN the authenticator accepted changes the session's user, and to that login's name |
| Sessions.LineTls | src/session.rs:314-347 | a connection becomes encrypted exactly by a STARTTLS completed with OK, which needs a plain connection and an acceptor and changes nothing else |
| Sessions.EncryptedExactly | src/session.rs:209-347 | over a whole session the connection is encrypted if and only if it was opened so or a STARTTLS has succeeded on it |
| Sessions.LineCloses | src/session.rs:360-367 | a line ends the loop if and only if its command is served by the LOGOUT handler, and is then answered BYE and OK |
| Sessions.LineFailureHasNoEffect | src/session.rs:270-367 | a line not completed with OK changes nothing but the tag history |
| Sessions.StepIsOwn | src/session.rs:349-367 | a session's line creates and deletes entries only for the user of that session's latest successful LOGIN, deletes no INBOX and changes no other entry |
| Sessions.RunChangesAreOwn | src/handlers/create.rs:52-88 | every entry created or deleted anywhere in a run was so by a session that had itself logged in as the entry's user |
| Sessions.DifferencesAreChanges | src/handlers/delete.rs:76-98 | an entry present at one end of a run only was created or deleted by a session's line |
| Sessions.SessionsAreSound | src/session.rs:163-382 | over every interleaving: one completion per tagged line, distinct tags and at most 10000, the user is the latest successful LOGIN, every step and every change of the run is its own session's user's, and no INBOX entry goes |
| Commands.ListArguments | src/handlers/list.rs:85-98 | two texts without white space and outer quotes, rendered, split and trimmed again, still yield reference followed by pattern; this fails exactly if both are empty |
| Commands.LoginArguments | src/handlers/login.rs:24-31 | user name and password arrive unchanged if and only if neither is empty |
| Commands.ListAnswers | src/handlers/list.rs:113-193 | a LIST line whose words are a reference and a pattern, quoted or not, is answered by one untagged line for each mailbox of the user that matches the two joined, none twice, then OK; or by BAD if both are empty |
| Commands.ListLineOnWire | src/handlers/list.rs:169-173 | a listed name on the wire, in the form of section 7.2.2 of RFC 3501 |
| Commands.LoginAnswers | src/handlers/login.rs:46-102 | a LOGIN line whose words are a user name and a password, quoted or not, is answered OK if both are non-empty and accepted, NO if not accepted, BAD if one is empty, in any state; only OK changes the state |
| Commands.SelectAnswers | src/handlers/select.rs:33-93 | a SELECT line naming a mailbox, quoted or not, selects it if the user has it; else it is answered NO, or BAD for an empty name, and the old selection stays |
| Commands.CreateAnswers | src/handlers/create.rs:33-89 | a CREATE line adds a new mailbox, with the next UID validity, UID 1 next and no messages; an existing one is answered NO, an empty name BAD, without effect |
| Commands.DeleteAnswers | src/handlers/delete.rs:33-99 | a DELETE line removes an existing mailbox that is not INBOX; else it is answered NO, or BAD for an empty name, without effect |
| Commands.CreateThenDelete | src/handlers/delete.rs:52-99 | CREATE then DELETE of a new name restores the mailboxes if and only if the name is not INBOX in some case; a validity is spent either way |
| Commands.StandardCommandsReach | src/command_handlers.rs:90-107 | with the built-in handlers a line reaches its command's handler if and only if its tag is accepted and a user is logged in, the latter not for CAPABILITY, LOGOUT and LOGIN |
| Commands.MalformedExactly | src/protocol.rs:87-163 | the parser refuses a line if and only if it has no word or fewer words than its command needs |
| Commands.OtherWordsArePassedOn | src/protocol.rs:151-163 | a word that names no command is passed on in upper case with exactly the words after it |
| Commands.RefusedLine | src/session.rs:385-420 | a line that is malformed, names no command, or lacks a login is answered BAD, BAD and NO, and nothing changes but its tag |
| Commands.RefusedTag | src/session.rs:286-297 | a refused tag is answered BAD with its reason and nothing changes |
| Commands.UnimplementedAnswers | src/session.rs:420-428 | EXAMINE, CLOSE and EXPUNGE are answered BAD and change nothing but the tag history |
| Commands.StarttlsAnswers | src/session.rs:314-347 | a STARTTLS line encrypts a plain connection if the server has an acceptor, and is answered BAD otherwise |
| Commands.CapabilityAnswers | src/handlers/capability.rs:29-50 | a CAPABILITY line is answered by the capabilities in its OK, and nothing changes |
| Commands.LogoutAnswers | src/handlers/logout.rs:33-56 | a LOGOUT line is answered BYE, then OK, and ends the session |

## Left out

- IndexUids.StepKeepsUidsSound: its exact condition is about the bound by the counter; when UIDs actually collide is told by RecreationCollidesExactly.
- Sockets, TLS handshakes, listeners, signals and certificates: I/O. Only the is-TLS bit and the presence of an acceptor are kept; a failed write or handshake, which ends the session, is not modelled.
- Session and idle timeouts, server shutdown signals: wall-clock time and outside events.
- SQLite, bcrypt and the authenticator: a function from user name and password to accepted, rejected or failed, given anew with each line.
- The Tantivy backend: library behaviour with stubs for flag update and deletion.
- The mail parser: a function from content to header data or nothing. The time of reception, which the clock gives, is not part of this model.
- The notify library: how it reports changes is an assumption of EndToEnd. A rename is one modification with the old path and then the new one, and each operation's events are handled before the next operation. Files renamed from tmp into new are not claimed to be indexed.
- Watch state, `scan_existing_messages` and mailbox watching: which directories are observed does not enter the translation of a change.
- The regex crate: only the emitted sublanguage is parsed and matched; its size limits are not modelled.
- Paths are sequences of components relative to the root; absolute paths, paths with `..` inside, non-UTF-8 names and directories as entries of the tree are not modelled, nor is creating parent directories. A path that does not end in a name stands for one without a file name.
- A subscriber task with several subscriptions: each subscription of the event bus is taken to be its own task, so BusProtocol.WaitCanEndExactly is exact for one subscription per task.
- `to_uppercase`: an arbitrary function; every session result holds for each choice of it.
- Hash-map iteration: an arbitrary order, given as a parameter.
- UUIDs: a supply of new ids with 36-character text, one per use.
- The handler table: any map from names to the eight built-in handlers, that of `ImapServer::new` being shown to be one; user-defined handlers are not modelled, nor `requires_selected_mailbox`, which no built-in handler overrides.
- Capacity of the command channels: unbounded here. The bounded channels are those of subscribers, 100 slots each. Shutdown of the event bus is left out.
- An Indexer without a registry, which skips every created message, and direct writes to the index that bypass the events.
- `write_metadata`, which the store answers without doing anything, and `SequenceIdMap`, `ChannelQueue`, queues and the Searcher wrapper: they would only add easy members.
- Log output, including the `delivered - sync_count` figure.
