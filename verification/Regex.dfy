/** The sublanguage of the regular-expression syntax that LIST patterns are compiled to,
    with its own parser and its own unanchored matcher. `.` matches any character but a
    newline and `[^c]` any character but `c`, as in the `regex` crate without flags. */
module Regex {
  import opened Text

  datatype Atom = AnyButNewline | AnyBut(excluded: char) | Literal(c: char)
  datatype Item = Start | End | One(atom: Atom) | Star(atom: Atom)

  predicate IsMeta(c: char) {
    c in ".+*?^$()[]{}|\\"
  }

  /** One atom at the front of `r`, and what follows it. */
  function ParseAtom(r: string): (res: Option<(Atom, string)>)
    ensures res.Some? ==> |res.value.1| < |r|
  {
    if r == "" then None
    else if r[0] == '\\' then
      if |r| >= 2 && IsMeta(r[1]) then Some((Literal(r[1]), r[2..])) else None
    else if r[0] == '.' then Some((AnyButNewline, r[1..]))
    else if r[0] == '[' then
      if |r| >= 4 && r[1] == '^' && !IsMeta(r[2]) && r[3] == ']' then Some((AnyBut(r[2]), r[4..])) else None
    else if IsMeta(r[0]) then None
    else Some((Literal(r[0]), r[1..]))
  }

  function Cons(item: Item, rest: Option<seq<Item>>): Option<seq<Item>> {
    match rest case None => None case Some(items) => Some([item] + items)
  }

  /** A whole expression; `None` when it is malformed or outside the sublanguage. */
  function Parse(r: string): Option<seq<Item>>
    decreases |r|
  {
    if r == "" then Some([])
    else if r[0] == '^' then Cons(Start, Parse(r[1..]))
    else if r[0] == '$' then Cons(End, Parse(r[1..]))
    else match ParseAtom(r)
      case None => None
      case Some((atom, rest)) =>
        if rest != "" && rest[0] == '*' then Cons(Star(atom), Parse(rest[1..]))
        else Cons(One(atom), Parse(rest))
  }

  predicate Accepts(atom: Atom, c: char) {
    match atom
    case AnyButNewline => c != '\n'
    case AnyBut(excluded) => c != excluded
    case Literal(l) => c == l
  }

  /** The items match some stretch of `text` that begins at position `at`. */
  predicate MatchesAt(items: seq<Item>, text: string, at: nat)
    requires at <= |text|
    decreases |items|
  {
    if items == [] then true
    else match items[0]
      case Start => at == 0 && MatchesAt(items[1..], text, at)
      case End => at == |text| && MatchesAt(items[1..], text, at)
      case One(atom) => at < |text| && Accepts(atom, text[at]) && MatchesAt(items[1..], text, at + 1)
      case Star(atom) =>
        exists to :: at <= to <= |text| && (forall j :: at <= j < to ==> Accepts(atom, text[j]))
                     && MatchesAt(items[1..], text, to)
  }

  /** `Regex::is_match`: a match anywhere in the text. */
  predicate IsMatch(items: seq<Item>, text: string) {
    exists at :: 0 <= at <= |text| && MatchesAt(items, text, at)
  }
}
