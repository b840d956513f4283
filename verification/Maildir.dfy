/** Maildir file names: the flag printer and path computation of `Storage::update_flags`
    (src/storage.rs) and the parser that reads the names back
    (src/mailstore/watcher/maildir.rs). A path is the sequence of its components below the
    mail root: user, mailbox, `new` or `cur`, file name. */
module Maildir {
  import opened Text

  datatype MessageFlag = Seen | Answered | Flagged | Deleted | Draft | Recent | Custom(name: string)

  type Path = seq<string>

  /** A path component that names something inside its directory. */
  predicate IsName(s: string) {
    s != "" && s != "." && s != ".." && '/' !in s
  }

  predicate IsFilePath(path: Path) {
    path != [] && forall i :: 0 <= i < |path| ==> IsName(path[i])
  }

  type FilePath = p: Path | IsFilePath(p) witness ["a"]

  datatype ParsedMessage =
    ParsedMessage(uniqueId: string, flags: seq<MessageFlag>, isNew: bool, username: string, mailbox: string)

  // ----- First occurrence of a substring -----

  function Find(s: string, part: string): (at: Option<nat>)
    ensures at.Some? ==> at.value <= |s| && part <= s[at.value..]
    ensures at.Some? ==> forall j :: 0 <= j < at.value ==> !(part <= s[j..])
    ensures at.None? ==> forall j :: 0 <= j <= |s| ==> !(part <= s[j..])
  {
    if part <= s then assert s[0..] == s; Some(0)
    else if s == "" then None
    else
      var rest := Find(s[1..], part);
      assert forall j :: 1 <= j <= |s| ==> s[j..] == s[1..][j - 1..];
      assert s[0..] == s;
      match rest case None => None case Some(i) => Some(i + 1)
  }

  lemma {:induction false} FindIsFirst(s: string, part: string, at: nat)
    requires at <= |s| && part <= s[at..]
    requires forall j :: 0 <= j < at ==> !(part <= s[j..])
    ensures Find(s, part) == Some(at)
  {
    assert s[0..] == s;
    if at > 0 {
      var rest := s[1..];
      assert rest[at - 1..] == s[at..];
      forall j | 0 <= j < at - 1
        ensures !(part <= rest[j..])
      {
        assert rest[j..] == s[j + 1..];
      }
      FindIsFirst(rest, part, at - 1);
    }
  }

  lemma ColonAt(s: string, at: nat)
    requires at <= |s|
    ensures ":" <= s[at..] <==> at < |s| && s[at] == ':'
  {
  }

  lemma FirstColon(s: string)
    ensures Find(s, ":").None? <==> ':' !in s
    ensures Find(s, ":").Some? ==>
      Find(s, ":").value < |s| && s[Find(s, ":").value] == ':' && ':' !in s[..Find(s, ":").value]
  {
    forall at | 0 <= at <= |s|
      ensures ":" <= s[at..] <==> at < |s| && s[at] == ':'
    {
      ColonAt(s, at);
    }
    if ':' in s {
      var at :| 0 <= at < |s| && s[at] == ':';
      assert ":" <= s[at..];
    }
  }

  // ----- Flag letters -----

  function FlagOfLetter(c: char): Option<MessageFlag> {
    match c
    case 'D' => Some(Draft)
    case 'F' => Some(Flagged)
    case 'R' => Some(Answered)
    case 'S' => Some(Seen)
    case 'T' => Some(Deleted)
    case _ => None
  }

  function LetterOfFlag(flag: MessageFlag): Option<char> {
    match flag
    case Draft => Some('D')
    case Flagged => Some('F')
    case Answered => Some('R')
    case Seen => Some('S')
    case Deleted => Some('T')
    case Recent => None
    case Custom(_) => None
  }

  /** The table of Maildir flag letters, in ASCII order, and the flags they stand for. */
  const LETTERS := "DFRST"
  const LETTER_FLAGS := [Draft, Flagged, Answered, Seen, Deleted]

  /** A letter stands for a flag exactly if the table says so, in both directions. */
  lemma LettersExactly(c: char, flag: MessageFlag)
    ensures FlagOfLetter(c) == Some(flag) <==> exists i :: 0 <= i < 5 && LETTERS[i] == c && LETTER_FLAGS[i] == flag
    ensures LetterOfFlag(flag) == Some(c) <==> FlagOfLetter(c) == Some(flag)
  {
    var table := [('D', Draft), ('F', Flagged), ('R', Answered), ('S', Seen), ('T', Deleted)];
    assert forall i :: 0 <= i < 5 ==> table[i] == (LETTERS[i], LETTER_FLAGS[i]);
    if FlagOfLetter(c) == Some(flag) {
      assert (c, flag) in table;
    }
  }

  function FlagsOfLetters(letters: string): seq<MessageFlag> {
    if letters == "" then []
    else (match FlagOfLetter(letters[0]) case None => [] case Some(f) => [f]) + FlagsOfLetters(letters[1..])
  }

  function LettersOfFlags(flags: seq<MessageFlag>): string {
    if flags == [] then ""
    else (match LetterOfFlag(flags[0]) case None => "" case Some(c) => [c]) + LettersOfFlags(flags[1..])
  }

  /** The flags a Maildir name can carry: all but Recent and the custom ones. */
  function StandardFlags(flags: seq<MessageFlag>): seq<MessageFlag> {
    if flags == [] then []
    else (if flags[0].Recent? || flags[0].Custom? then [] else [flags[0]]) + StandardFlags(flags[1..])
  }

  lemma {:induction false} FlagsOfLettersConcat(a: string, b: string)
    ensures FlagsOfLetters(a + b) == FlagsOfLetters(a) + FlagsOfLetters(b)
  {
    if a == "" {
      assert a + b == b;
    } else {
      assert (a + b)[1..] == a[1..] + b;
      FlagsOfLettersConcat(a[1..], b);
    }
  }

  lemma {:induction false} LettersOfFlagsConcat(a: seq<MessageFlag>, b: seq<MessageFlag>)
    ensures LettersOfFlags(a + b) == LettersOfFlags(a) + LettersOfFlags(b)
  {
    if a == [] {
      assert a + b == b;
    } else {
      assert (a + b)[1..] == a[1..] + b;
      LettersOfFlagsConcat(a[1..], b);
    }
  }

  /** `MaildirFormat::parse_flags`. */
  method ParseFlags(letters: string) returns (flags: seq<MessageFlag>)
    ensures flags == FlagsOfLetters(letters)
  {
    flags := [];
    for i := 0 to |letters|
      invariant flags == FlagsOfLetters(letters[..i])
    {
      assert letters[..i + 1] == letters[..i] + [letters[i]];
      FlagsOfLettersConcat(letters[..i], [letters[i]]);
      assert [letters[i]][1..] == "";
      match FlagOfLetter(letters[i])
      case Some(flag) => flags := flags + [flag];
      case None =>
    }
    assert letters[..|letters|] == letters;
  }

  // ----- Sorting the letters -----

  predicate Sorted(s: string) {
    forall i, j :: 0 <= i < j < |s| ==> s[i] <= s[j]
  }

  function Insert(c: char, s: string): (r: string)
    ensures multiset(r) == multiset([c]) + multiset(s)
    ensures r != "" && (r[0] == c || (s != "" && r[0] == s[0]))
  {
    if s == "" || c <= s[0] then [c] + s
    else
      assert s == [s[0]] + s[1..];
      [s[0]] + Insert(c, s[1..])
  }

  lemma SortedCons(c: char, s: string)
    requires Sorted(s) && (s == "" || c <= s[0])
    ensures Sorted([c] + s)
  {
    var r := [c] + s;
    forall i, j | 0 <= i < j < |r|
      ensures r[i] <= r[j]
    {
      assert r[j] == s[j - 1] && s[0] <= s[j - 1];
      assert i > 0 ==> r[i] == s[i - 1];
    }
  }

  lemma {:induction false} InsertKeepsSorted(c: char, s: string)
    requires Sorted(s)
    ensures Sorted(Insert(c, s))
  {
    if s == "" || c <= s[0] {
      SortedCons(c, s);
    } else {
      var rest := s[1..];
      assert Sorted(rest) && (rest != "" ==> rest[0] == s[1]);
      InsertKeepsSorted(c, rest);
      SortedCons(s[0], Insert(c, rest));
    }
  }

  /** `sort_unstable` on the letters; see `SortIsDetermined` for why any sort will do. */
  function Sort(s: string): (r: string)
    ensures Sorted(r) && multiset(r) == multiset(s)
  {
    if s == "" then "" else
      assert s == [s[0]] + s[1..];
      InsertKeepsSorted(s[0], Sort(s[1..]));
      Insert(s[0], Sort(s[1..]))
  }

  lemma HeadIsLeast(a: string, c: char)
    requires Sorted(a) && c in multiset(a)
    ensures a != "" && a[0] <= c
  {
    var i :| 0 <= i < |a| && a[i] == c;
  }

  lemma SortedTail(a: string)
    requires Sorted(a) && a != ""
    ensures Sorted(a[1..]) && multiset(a[1..]) == multiset(a) - multiset{a[0]}
    ensures a == [a[0]] + a[1..] && a[0] in multiset(a)
  {
    assert a == [a[0]] + a[1..];
  }

  lemma SameHead(a: string, b: string)
    requires Sorted(a) && Sorted(b) && a != "" && b != ""
    requires a[0] in multiset(b) && b[0] in multiset(a)
    ensures a[0] == b[0]
  {
    HeadIsLeast(b, a[0]);
    HeadIsLeast(a, b[0]);
  }

  /** Two sorted strings with the same letters are equal. */
  lemma {:induction false} SortedDetermined(a: string, b: string)
    requires Sorted(a) && Sorted(b) && multiset(a) == multiset(b)
    ensures a == b
  {
    if a == "" {
      assert |b| == |multiset(b)|;
    } else {
      SortedTail(a);
      HeadIsLeast(b, a[0]);
      SortedTail(b);
      SameHead(a, b);
      SortedDetermined(a[1..], b[1..]);
    }
  }

  lemma SortIsDetermined(s: string, r: string)
    requires Sorted(r) && multiset(r) == multiset(s)
    ensures r == Sort(s)
  {
    SortedDetermined(r, Sort(s));
  }

  function FlagComponent(flags: seq<MessageFlag>): string {
    var letters := Sort(LettersOfFlags(flags));
    if letters == "" then "" else ":2," + letters
  }

  /** `flags_to_filename_component`: push the letters one by one, then sort. */
  method FlagsToFilenameComponent(flags: seq<MessageFlag>) returns (component: string)
    ensures component == FlagComponent(flags)
  {
    var chars := "";
    for i := 0 to |flags|
      invariant chars == LettersOfFlags(flags[..i])
    {
      assert flags[..i + 1] == flags[..i] + [flags[i]];
      LettersOfFlagsConcat(flags[..i], [flags[i]]);
      assert [flags[i]][1..] == [];
      match flags[i]
      case Draft => chars := chars + ['D'];
      case Flagged => chars := chars + ['F'];
      case Answered => chars := chars + ['R'];
      case Seen => chars := chars + ['S'];
      case Deleted => chars := chars + ['T'];
      case Recent =>
      case Custom(_) =>
    }
    assert flags[..|flags|] == flags;
    chars := Sort(chars);
    component := if chars == "" then "" else ":2," + chars;
  }

  // ----- Parsing a path -----

  function ParseFileName(filename: string): (string, seq<MessageFlag>) {
    match Find(filename, ":")
    case None => (filename, [])
    case Some(at) =>
      var rest := filename[at..];
      (filename[..at], if ":2," <= rest then FlagsOfLetters(rest[3..]) else [])
  }

  function ParseMessagePath(path: FilePath): Option<ParsedMessage> {
    if |path| < 4 then None
    else if path[2] != "new" && path[2] != "cur" then None
    else
      var (uniqueId, flags) := ParseFileName(path[|path| - 1]);
      Some(ParsedMessage(uniqueId, flags, path[2] == "new", path[0], path[1]))
  }

  // ----- Computing the renamed path -----

  function StripFlags(filename: string): string {
    match Find(filename, ":2,") case None => filename case Some(at) => filename[..at]
  }

  /** The directory part of `update_flags`: Seen moves `new` to `cur`, its absence `cur` to `new`. */
  function NewParent(parent: Path, seen: bool): Path {
    if parent == [] then parent
    else
      var dir := parent[|parent| - 1];
      var up := parent[..|parent| - 1];
      if seen then (if dir == "new" then up + ["cur"] else parent)
      else (if dir == "cur" then up + ["new"] else parent)
  }

  function FileName(path: Path): string
    requires path != []
  {
    path[|path| - 1]
  }

  function Parent(path: Path): Path
    requires path != []
  {
    path[..|path| - 1]
  }

  /** The joined path. Its last component need not be a name: a file whose name is all flags
      would be moved onto its directory. */
  function NewPath(path: Path, flags: seq<MessageFlag>): Path
    requires path != []
  {
    NewParent(Parent(path), Seen in flags) + [StripFlags(FileName(path)) + FlagComponent(flags)]
  }

  /** The update has a file to rename to; see `RenamableExactly`. */
  predicate Renamable(path: Path, flags: seq<MessageFlag>)
    requires path != []
  {
    IsFilePath(NewPath(path, flags))
  }

  // ----- Stripping undoes printing -----

  lemma StripFlagsKeepsName(name: string, component: string)
    requires Find(name, ":2,") == None
    requires component == "" || ":2," <= component
    ensures StripFlags(name + component) == name
  {
    var s := name + component;
    if component == "" {
      assert s == name;
    } else {
      assert s[|name|..] == component;
      forall j | 0 <= j < |name|
        ensures !(":2," <= s[j..])
      {
        assert !(":2," <= name[j..]);
        assert s[|name|] == component[0] == ':';
      }
      FindIsFirst(s, ":2,", |name|);
      assert s[..|name|] == name;
    }
  }

  lemma StripFlagsHasNoMarker(filename: string)
    ensures Find(StripFlags(filename), ":2,") == None
  {
    match Find(filename, ":2,")
    case None =>
    case Some(at) =>
      var name := filename[..at];
      forall j | 0 <= j <= |name|
        ensures !(":2," <= name[j..])
      {
        assert j < at ==> !(":2," <= filename[j..]);
      }
  }

  lemma StripAfterUpdate(filename: string, flags: seq<MessageFlag>)
    ensures StripFlags(StripFlags(filename) + FlagComponent(flags)) == StripFlags(filename)
  {
    StripFlagsHasNoMarker(filename);
    StripFlagsKeepsName(StripFlags(filename), FlagComponent(flags));
  }

  // ----- The parser reads back what the renamer printed -----

  lemma {:induction false} KnownLettersParse(letters: string)
    requires forall c :: c in letters ==> FlagOfLetter(c).Some?
    ensures |FlagsOfLetters(letters)| == |letters|
    ensures forall i :: 0 <= i < |letters| ==> FlagsOfLetters(letters)[i] == FlagOfLetter(letters[i]).value
  {
    if letters != "" {
      assert letters == [letters[0]] + letters[1..];
      assert letters[0] in letters;
      KnownLettersParse(letters[1..]);
    }
  }

  lemma {:induction false} FlagLettersKnown(flags: seq<MessageFlag>)
    ensures forall c :: c in LettersOfFlags(flags) ==> FlagOfLetter(c).Some?
    ensures FlagsOfLetters(LettersOfFlags(flags)) == StandardFlags(flags)
  {
    if flags != [] {
      FlagLettersKnown(flags[1..]);
      var head := match LetterOfFlag(flags[0]) case None => "" case Some(c) => [c];
      FlagsOfLettersConcat(head, LettersOfFlags(flags[1..]));
      if head != "" {
        assert head[1..] == "";
      }
    }
  }

  /** Taking one letter out takes its flag out. */
  lemma TakeOut(b: string, i: nat)
    requires i < |b|
    ensures var rest := b[..i] + b[i + 1..];
      && multiset(b) == multiset{b[i]} + multiset(rest)
      && multiset(FlagsOfLetters(b)) == multiset(FlagsOfLetters([b[i]])) + multiset(FlagsOfLetters(rest))
  {
    assert b == b[..i] + ([b[i]] + b[i + 1..]);
    FlagsOfLettersConcat(b[..i], [b[i]] + b[i + 1..]);
    FlagsOfLettersConcat([b[i]], b[i + 1..]);
    FlagsOfLettersConcat(b[..i], b[i + 1..]);
  }

  lemma Occurrence(c: char, s: string) returns (i: nat)
    requires c in multiset(s)
    ensures i < |s| && s[i] == c
  {
    i :| i < |s| && s[i] == c;
  }

  lemma Cancel<T>(x: T, a: multiset<T>, b: multiset<T>)
    requires multiset{x} + a == multiset{x} + b
    ensures a == b
  {
    assert a == (multiset{x} + a) - multiset{x} && b == (multiset{x} + b) - multiset{x};
  }

  lemma {:induction false} ParseIsMultisetMap(a: string, b: string)
    requires multiset(a) == multiset(b)
    ensures multiset(FlagsOfLetters(a)) == multiset(FlagsOfLetters(b))
  {
    if a == "" {
      assert |multiset(b)| == 0;
    } else {
      TakeOut(a, 0);
      var i := Occurrence(a[0], b);
      TakeOut(b, i);
      var left, right := a[..0] + a[1..], b[..i] + b[i + 1..];
      Cancel(a[0], multiset(left), multiset(right));
      ParseIsMultisetMap(left, right);
    }
  }

  /** What the printer keeps of a flag list: its standard flags, in letter order. */
  lemma PrintedFlags(flags: seq<MessageFlag>)
    ensures multiset(FlagsOfLetters(Sort(LettersOfFlags(flags)))) == multiset(StandardFlags(flags))
    ensures Sorted(Sort(LettersOfFlags(flags)))
    ensures forall c :: c in Sort(LettersOfFlags(flags)) ==> FlagOfLetter(c).Some?
  {
    var letters := LettersOfFlags(flags);
    FlagLettersKnown(flags);
    ParseIsMultisetMap(Sort(letters), letters);
    forall c | c in Sort(letters)
      ensures FlagOfLetter(c).Some?
    {
      assert c in multiset(Sort(letters)) && c in multiset(letters);
    }
  }

  /** A name that still has a colon once stripped: the parser stops there and sees no flags. */
  lemma ColonNameParses(name: string, rest: string)
    requires Find(name, ":2,") == None && ':' in name
    requires rest == "" || ":2," <= rest
    ensures ParseFileName(name + rest) == (ParseFileName(name).0, [])
  {
    FirstColon(name);
    var at := Find(name, ":").value;
    SameFirstColon(name, rest, at);
    StripFlagsKeepsName(name, rest);
    var s := name + rest;
    assert !(":2," <= s[at..]) by {
      assert Find(s, ":2,") == if rest == "" then None else Some(|name|) by {
        MarkerAt(name, rest);
      }
    }
  }

  lemma MarkerAt(name: string, rest: string)
    requires Find(name, ":2,") == None
    requires rest == "" || ":2," <= rest
    ensures Find(name + rest, ":2,") == if rest == "" then None else Some(|name|)
  {
    if rest == "" {
      assert name + rest == name;
    } else {
      StripFlagsKeepsName(name, rest);
      assert (name + rest)[|name|..] == rest;
      assert Find(name + rest, ":2,").Some?;
    }
  }

  /** A colon-free name parses back whole, with the flags that follow it. */
  lemma PlainNameParses(name: string, rest: string)
    requires ':' !in name
    requires rest == "" || ":2," <= rest
    ensures ParseFileName(name + rest) == (name, if rest == "" then [] else FlagsOfLetters(rest[3..]))
  {
    var s := name + rest;
    assert s[..|name|] == name && s[|name|..] == rest;
    if rest == "" {
      assert s == name;
      FirstColon(s);
    } else {
      assert ":" <= s[|name|..];
      NoColonBefore(name, rest);
      FindIsFirst(s, ":", |name|);
    }
  }

  lemma NothingPrinted(flags: seq<MessageFlag>)
    ensures var letters := Sort(LettersOfFlags(flags));
      && (letters == "" <==> LettersOfFlags(flags) == "")
      && (FlagsOfLetters(letters) == [] <==> letters == "")
      && (FlagComponent(flags) == "" || (":2," <= FlagComponent(flags) && FlagComponent(flags)[3..] == letters))
  {
    var letters := Sort(LettersOfFlags(flags));
    assert |letters| == |multiset(letters)| == |multiset(LettersOfFlags(flags))| == |LettersOfFlags(flags)|;
    PrintedFlags(flags);
    KnownLettersParse(letters);
  }

  /** Parsing the renamed file. The identifier always survives. The flags survive exactly
      when there is nothing to print or the unflagged name has no colon, because the parser
      splits at the first `:` and the renamer at the first `:2,`. */
  lemma FileNameRoundTrip(filename: string, flags: seq<MessageFlag>)
    ensures ParseFileName(StripFlags(filename) + FlagComponent(flags)).0 == ParseFileName(filename).0
    ensures ParseFileName(StripFlags(filename) + FlagComponent(flags)).1
              == FlagsOfLetters(Sort(LettersOfFlags(flags)))
       <==> LettersOfFlags(flags) == "" || ':' !in StripFlags(filename)
    ensures ':' in StripFlags(filename) ==> ParseFileName(StripFlags(filename) + FlagComponent(flags)).1 == []
    ensures ':' !in StripFlags(filename) ==> ParseFileName(filename).0 == StripFlags(filename)
  {
    var name, component := StripFlags(filename), FlagComponent(flags);
    NothingPrinted(flags);
    StripFlagsHasNoMarker(filename);
    StripIsPrefix(filename);
    var tail := filename[|name|..];
    assert name + tail == filename;
    if ':' in name {
      ColonNameParses(name, component);
      ColonNameParses(name, tail);
    } else {
      PlainNameParses(name, component);
      PlainNameParses(name, tail);
    }
  }

  lemma StripIsPrefix(filename: string)
    ensures |StripFlags(filename)| <= |filename| && filename[..|StripFlags(filename)|] == StripFlags(filename)
    ensures Find(filename, ":2,").None? ==> StripFlags(filename) == filename
    ensures Find(filename, ":2,").Some? ==> ":2," <= filename[|StripFlags(filename)|..]
  {
  }

  lemma NoColonBefore(name: string, rest: string)
    requires ':' !in name
    ensures forall j :: 0 <= j < |name| ==> !(":" <= (name + rest)[j..])
  {
    forall j | 0 <= j < |name|
      ensures !(":" <= (name + rest)[j..])
    {
      ColonAt(name + rest, j);
      assert (name + rest)[j] == name[j];
    }
  }

  lemma SameFirstColon(name: string, rest: string, at: nat)
    requires Find(name, ":") == Some(at) && at < |name|
    ensures Find(name + rest, ":") == Some(at)
    ensures (name + rest)[..at] == name[..at]
  {
    FirstColon(name);
    var s := name + rest;
    forall j | 0 <= j <= at
      ensures ":" <= s[j..] <==> j == at
    {
      ColonAt(s, j);
      assert s[j] == name[j];
      if j < at {
        assert name[..at][j] == name[j];
      }
    }
    FindIsFirst(s, ":", at);
  }

  lemma NewParentShape(parent: Path, seen: bool)
    ensures |NewParent(parent, seen)| == |parent|
    ensures forall i :: 0 <= i < |parent| - 1 ==> NewParent(parent, seen)[i] == parent[i]
    ensures parent != [] ==>
      var dir, dir' := parent[|parent| - 1], NewParent(parent, seen)[|parent| - 1];
      if dir == "new" || dir == "cur" then dir' == (if seen then "cur" else "new") else dir' == dir
  {
  }

  /** Where the components of the renamed path come from. */
  lemma RenamedComponents(path: Path, flags: seq<MessageFlag>)
    requires |path| >= 4
    ensures var renamed := NewPath(path, flags);
      && |renamed| == |path| && renamed[0] == path[0] && renamed[1] == path[1]
      && FileName(renamed) == StripFlags(FileName(path)) + FlagComponent(flags)
      && (|path| > 4 ==> renamed[2] == path[2])
      && (|path| == 4 && (path[2] == "new" || path[2] == "cur") ==>
            renamed[2] == if Seen in flags then "cur" else "new")
      && (|path| == 4 && path[2] != "new" && path[2] != "cur" ==> renamed[2] == path[2])
  {
    NewParentShape(Parent(path), Seen in flags);
  }

  lemma KnownLettersAreNoSlash(letters: string)
    requires forall c :: c in letters ==> FlagOfLetter(c).Some?
    ensures '/' !in letters
  {
    assert FlagOfLetter('/') == None;
  }

  lemma ComponentHasNoSlash(flags: seq<MessageFlag>)
    ensures '/' !in FlagComponent(flags)
  {
    PrintedFlags(flags);
    KnownLettersAreNoSlash(Sort(LettersOfFlags(flags)));
  }

  lemma NewNameHasNoSlash(filename: string, flags: seq<MessageFlag>)
    requires '/' !in filename
    ensures '/' !in StripFlags(filename) + FlagComponent(flags)
  {
    StripIsPrefix(filename);
    assert '/' !in filename[..|StripFlags(filename)|];
    ComponentHasNoSlash(flags);
  }

  lemma NewParentNames(parent: Path, seen: bool)
    requires forall i :: 0 <= i < |parent| ==> IsName(parent[i])
    ensures forall i :: 0 <= i < |parent| ==> IsName(NewParent(parent, seen)[i])
    ensures |NewParent(parent, seen)| == |parent|
  {
    assert IsName("new") && IsName("cur");
  }

  lemma PrintedNameIsName(filename: string, flags: seq<MessageFlag>)
    requires IsName(filename)
    ensures IsName(StripFlags(filename) + FlagComponent(flags))
       <==> LettersOfFlags(flags) != "" || StripFlags(filename) !in {"", ".", ".."}
  {
    var name := StripFlags(filename);
    NewNameHasNoSlash(filename, flags);
    NothingPrinted(flags);
    if LettersOfFlags(flags) == "" {
      assert name + FlagComponent(flags) == name;
    } else {
      assert |FlagComponent(flags)| > 2;
    }
  }

  /** An update has no file to rename to exactly when no flag is printed and the bare name is
      empty, `.` or `..`. */
  lemma RenamableExactly(path: FilePath, flags: seq<MessageFlag>)
    ensures Renamable(path, flags)
       <==> LettersOfFlags(flags) != "" || StripFlags(FileName(path)) !in {"", ".", ".."}
  {
    assert IsName(FileName(path)) && forall i :: 0 <= i < |Parent(path)| ==> IsName(Parent(path)[i]);
    PrintedNameIsName(FileName(path), flags);
    NewParentNames(Parent(path), Seen in flags);
    NamesSnoc(NewParent(Parent(path), Seen in flags), StripFlags(FileName(path)) + FlagComponent(flags));
  }

  lemma NamesSnoc(parent: Path, filename: string)
    requires forall i :: 0 <= i < |parent| ==> IsName(parent[i])
    ensures IsFilePath(parent + [filename]) <==> IsName(filename)
  {
    assert (parent + [filename])[|parent|] == filename;
  }

  /** The identifier is the file name up to its first colon, and the flags are those of the letters if
      `:2,` follows it. */
  lemma NameParsedExactly(name: string)
    ensures var (id, flags) := ParseFileName(name);
      && ':' !in id && id <= name && (name != id ==> name[|id|] == ':')
      && flags == (if ":2," <= name[|id|..] then FlagsOfLetters(name[|id| + 3..]) else [])
  {
    FirstColon(name);
    var id := ParseFileName(name).0;
    if ":2," <= name[|id|..] {
      assert name[|id|..][3..] == name[|id| + 3..];
    }
  }

  /** Which paths are message files, and what of them is read: user and mailbox are the first two
      components, identifier and flags come from the file name. */
  lemma ParsedExactly(path: FilePath)
    ensures ParseMessagePath(path).Some? <==> |path| >= 4 && path[2] in {"new", "cur"}
    ensures ParseMessagePath(path).Some? ==>
      var p, name := ParseMessagePath(path).value, FileName(path);
      && p.username == path[0] && p.mailbox == path[1] && (p.isNew <==> path[2] == "new")
      && ':' !in p.uniqueId && p.uniqueId <= name && (name != p.uniqueId ==> name[|p.uniqueId|] == ':')
      && p.flags == (if ":2," <= name[|p.uniqueId|..] then FlagsOfLetters(name[|p.uniqueId| + 3..]) else [])
  {
    NameParsedExactly(FileName(path));
  }

  /** Parsing the path that `update_flags` moves a message to gives the same user, mailbox
      and identifier; in the standard layout the message is new exactly when it is unseen. */
  lemma PathRoundTrip(path: FilePath, flags: seq<MessageFlag>)
    requires Renamable(path, flags)
    ensures ParseMessagePath(path).Some? <==> ParseMessagePath(NewPath(path, flags)).Some?
    ensures ParseMessagePath(path).Some? ==>
      var before, after := ParseMessagePath(path).value, ParseMessagePath(NewPath(path, flags)).value;
      && after.username == before.username && after.mailbox == before.mailbox
      && after.uniqueId == before.uniqueId
      && (after.flags == FlagsOfLetters(Sort(LettersOfFlags(flags)))
          <==> LettersOfFlags(flags) == "" || ':' !in StripFlags(FileName(path)))
      && (':' in StripFlags(FileName(path)) ==> after.flags == [])
      && after.isNew == (if |path| == 4 then Seen !in flags else before.isNew)
  {
    if |path| >= 4 {
      RenamedComponents(path, flags);
      FileNameRoundTrip(FileName(path), flags);
    } else {
      NewParentShape(Parent(path), Seen in flags);
    }
  }

  lemma NewParentAbsorbs(parent: Path, first: bool, second: bool)
    ensures NewParent(NewParent(parent, first), second) == NewParent(parent, second)
  {
    NewParentShape(parent, first);
    NewParentShape(NewParent(parent, first), second);
    NewParentShape(parent, second);
  }

  /** The last update decides: whatever the earlier flags were, they leave no trace. */
  lemma LastUpdateWins(path: Path, first: seq<MessageFlag>, second: seq<MessageFlag>)
    requires path != []
    ensures NewPath(NewPath(path, first), second) == NewPath(path, second)
  {
    StripAfterUpdate(FileName(path), first);
    NewParentAbsorbs(Parent(path), Seen in first, Seen in second);
    assert Parent(NewPath(path, first)) == NewParent(Parent(path), Seen in first);
  }
}
