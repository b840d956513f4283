/** Commands, responses and the command parser (src/protocol.rs). */
module Protocol {
  import opened Text
  import opened Words

  datatype Command =
    | Capability
    | Noop
    | Logout
    | Starttls
    | Login(username: string, password: string)
    | Select(mailbox: string)
    | Examine(mailbox: string)
    | Create(mailbox: string)
    | Delete(mailbox: string)
    | List(reference: string, pattern: string)
    | Close
    | Expunge
    | Custom(name: string, args: string)

  datatype Response =
    | Ok(tag: Option<string>, message: string)
    | No(tag: Option<string>, message: string)
    | Bad(tag: Option<string>, message: string)
    | Bye(message: string)
    | Untagged(message: string)
    | Continuation(message: string)

  datatype ParseResult = Parsed(command: Command) | Malformed(error: string)

  /** `parse_command`; `upper` is the standard library's `to_uppercase`. */
  function ParseCommand(upper: string -> string, line: string): ParseResult {
    var parts := SplitWhitespace(line);
    if parts == [] then Malformed("Empty command")
    else
      var cmd := upper(parts[0]);
      if cmd == "CAPABILITY" then Parsed(Capability)
      else if cmd == "NOOP" then Parsed(Noop)
      else if cmd == "LOGOUT" then Parsed(Logout)
      else if cmd == "STARTTLS" then Parsed(Starttls)
      else if cmd == "LOGIN" then
        if |parts| < 3 then Malformed("LOGIN requires username and password")
        else Parsed(Login(TrimQuotes(parts[1]), TrimQuotes(parts[2])))
      else if cmd == "SELECT" then
        if |parts| < 2 then Malformed("SELECT requires mailbox name") else Parsed(Select(TrimQuotes(parts[1])))
      else if cmd == "EXAMINE" then
        if |parts| < 2 then Malformed("EXAMINE requires mailbox name") else Parsed(Examine(TrimQuotes(parts[1])))
      else if cmd == "CREATE" then
        if |parts| < 2 then Malformed("CREATE requires mailbox name") else Parsed(Create(TrimQuotes(parts[1])))
      else if cmd == "DELETE" then
        if |parts| < 2 then Malformed("DELETE requires mailbox name") else Parsed(Delete(TrimQuotes(parts[1])))
      else if cmd == "LIST" then
        if |parts| < 3 then Malformed("LIST requires reference and pattern")
        else Parsed(List(TrimQuotes(parts[1]), TrimQuotes(parts[2])))
      else if cmd == "CLOSE" then Parsed(Close)
      else if cmd == "EXPUNGE" then Parsed(Expunge)
      else Parsed(Custom(cmd, Join(parts[1..])))
  }

  // ----- Responses on the wire -----

  function Prefix(tag: Option<string>): string {
    match tag case Some(t) => t case None => "*"
  }

  /** `Display for Response`. */
  function Display(r: Response): string {
    match r
    case Ok(tag, message) => Prefix(tag) + " OK " + message + "\r\n"
    case No(tag, message) => Prefix(tag) + " NO " + message + "\r\n"
    case Bad(tag, message) => Prefix(tag) + " BAD " + message + "\r\n"
    case Bye(message) => "* BYE " + message + "\r\n"
    case Untagged(message) => "* " + message + "\r\n"
    case Continuation(message) => "+ " + message + "\r\n"
  }

  function TagOf(r: Response): Option<string> {
    match r
    case Ok(tag, _) => tag
    case No(tag, _) => tag
    case Bad(tag, _) => tag
    case _ => None
  }

  /** The tags of the tagged responses, in the order sent. */
  function Tags(responses: seq<Response>): seq<string> {
    if responses == [] then []
    else (match TagOf(responses[0]) case Some(tag) => [tag] case None => []) + Tags(responses[1..])
  }

  lemma {:induction false} TagsConcat(a: seq<Response>, b: seq<Response>)
    ensures Tags(a + b) == Tags(a) + Tags(b)
  {
    if a == [] {
      assert a + b == b;
    } else {
      assert (a + b)[1..] == a[1..] + b;
      TagsConcat(a[1..], b);
    }
  }

  lemma {:induction false} NoTags(responses: seq<Response>)
    requires forall r :: r in responses ==> TagOf(r) == None
    ensures Tags(responses) == []
  {
    if responses != [] {
      NoTags(responses[1..]);
    }
  }

  function BeforeSpace(s: string): (word: string)
    ensures |word| <= |s|
  {
    if s == "" || s[0] == ' ' then "" else [s[0]] + BeforeSpace(s[1..])
  }

  lemma {:induction false} BeforeFirstSpace(word: string, rest: string)
    requires ' ' !in word && rest != "" && rest[0] == ' '
    ensures BeforeSpace(word + rest) == word
  {
    if word == "" {
      assert word + rest == rest;
    } else {
      assert (word + rest)[1..] == word[1..] + rest;
      BeforeFirstSpace(word[1..], rest);
    }
  }

  /** A client recognises the response to its tag on the wire exactly when that response
      carries the tag, except that `*` and `+` used as tags read like untagged data. */
  lemma WireTag(r: Response, tag: string)
    requires TagOf(r).Some? ==> ' ' !in TagOf(r).value
    ensures BeforeSpace(Display(r)) == tag
       <==> (TagOf(r) == Some(tag) || (TagOf(r) == None && tag == (if r.Continuation? then "+" else "*")))
  {
    var word := if r.Continuation? then "+" else Prefix(TagOf(r));
    var rest := Display(r)[|word|..];
    assert Display(r) == word + rest && rest[0] == ' ';
    BeforeFirstSpace(word, rest);
  }

  /** The second word of a response on the wire. */
  function Status(wire: string): string {
    var first := BeforeSpace(wire);
    if |first| < |wire| then BeforeSpace(wire[|first| + 1..]) else ""
  }

  lemma StatusIs(tag: string, status: string, message: string)
    requires ' ' !in tag && ' ' !in status
    ensures var wire := tag + " " + status + " " + message + "\r\n";
      Status(wire) == status && EndsWith(wire, " " + message + "\r\n")
  {
    var tail := " " + message + "\r\n";
    var wire := tag + " " + status + " " + message + "\r\n";
    assert wire == tag + (" " + (status + tail)) && wire == tag + " " + status + tail;
    BeforeFirstSpace(tag, " " + (status + tail));
    assert wire[|tag| + 1..] == status + tail;
    BeforeFirstSpace(status, tail);
  }

  /** The word that tells a response's kind. */
  function StatusWord(r: Response): string
    requires !r.Untagged? && !r.Continuation?
  {
    match r case Ok(_, _) => "OK" case No(_, _) => "NO" case Bad(_, _) => "BAD" case Bye(_) => "BYE"
  }

  lemma DisplayParts(r: Response)
    requires !r.Untagged? && !r.Continuation?
    ensures Display(r) == Prefix(TagOf(r)) + " " + StatusWord(r) + " " + r.message + "\r\n"
  {
  }

  lemma DataParts(r: Response)
    requires r.Untagged? || r.Continuation?
    ensures EndsWith(Display(r), " " + r.message + "\r\n") && |Display(r)| == |r.message| + 4
  {
    var tail := " " + r.message + "\r\n";
    assert Display(r) == (if r.Untagged? then "*" else "+") + tail;
  }

  /** The second word tells success, refusal, error and farewell apart, and the message ends the
      line; untagged data has nothing but its message after the mark. */
  lemma WireStatus(r: Response)
    requires TagOf(r).Some? ==> ' ' !in TagOf(r).value
    ensures !r.Untagged? && !r.Continuation? ==> Status(Display(r)) == StatusWord(r)
    ensures EndsWith(Display(r), " " + r.message + "\r\n")
    ensures r.Untagged? || r.Continuation? ==> |Display(r)| == |r.message| + 4
  {
    if r.Untagged? || r.Continuation? {
      DataParts(r);
    } else {
      DisplayParts(r);
      assert ' ' !in StatusWord(r) && ' ' !in Prefix(TagOf(r));
      StatusIs(Prefix(TagOf(r)), StatusWord(r), r.message);
    }
  }

  /** So the wire text of a tagged response determines it. */
  lemma WireDetermines(r: Response, other: Response)
    requires TagOf(r).Some? && ' ' !in TagOf(r).value && TagOf(other).Some? && ' ' !in TagOf(other).value
    ensures Display(r) == Display(other) <==> r == other
  {
    if Display(r) == Display(other) {
      WireTag(r, TagOf(r).value);
      WireTag(other, TagOf(r).value);
      WireStatus(r);
      WireStatus(other);
      assert |r.message| == |other.message|;
      var end := |Display(r)| - 2;
      assert Display(r)[end - |r.message|..end] == r.message;
      assert Display(other)[end - |r.message|..end] == other.message;
    }
  }
}
