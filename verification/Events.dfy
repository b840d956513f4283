/** The events that components exchange (src/events.rs). */
module Events {
  import opened Maildir

  /** What the watcher extracts from a message file besides its name; the time of reception, which
      comes from the clock, is left out. */
  datatype Meta = Meta(from: string, to: string, subject: string, bodyPreview: string, size: nat)

  datatype Event =
    | MailboxCreated(username: string, mailbox: string)
    | MailboxDeleted(username: string, mailbox: string)
    | MailboxRenamed(username: string, oldName: string, newName: string)
    | MessageCreated(username: string, mailbox: string, uniqueId: string, path: string,
                     flags: seq<MessageFlag>, isNew: bool, meta: Meta)
    | MessageModified(username: string, mailbox: string, uniqueId: string, flags: seq<MessageFlag>)
    | MessageDeleted(username: string, mailbox: string, uniqueId: string)

  datatype EventKind =
    | KindMailboxCreated | KindMailboxDeleted | KindMailboxRenamed
    | KindMessageCreated | KindMessageModified | KindMessageDeleted

  function Kind(e: Event): EventKind {
    match e
    case MailboxCreated(_, _) => KindMailboxCreated
    case MailboxDeleted(_, _) => KindMailboxDeleted
    case MailboxRenamed(_, _, _) => KindMailboxRenamed
    case MessageCreated(_, _, _, _, _, _, _) => KindMessageCreated
    case MessageModified(_, _, _, _) => KindMessageModified
    case MessageDeleted(_, _, _) => KindMessageDeleted
  }

  /** A kind names exactly the events of that form. */
  lemma KindExactly(e: Event)
    ensures Kind(e) == KindMailboxCreated <==> e.MailboxCreated?
    ensures Kind(e) == KindMailboxDeleted <==> e.MailboxDeleted?
    ensures Kind(e) == KindMailboxRenamed <==> e.MailboxRenamed?
    ensures Kind(e) == KindMessageCreated <==> e.MessageCreated?
    ensures Kind(e) == KindMessageModified <==> e.MessageModified?
    ensures Kind(e) == KindMessageDeleted <==> e.MessageDeleted?
  {
  }
}
