/** The LIST pattern compiler (src/handlers/list.rs) against the wildcard semantics of
    section 6.3.8 of RFC 3501. */
module ListPattern {
  import opened Text
  import Regex

  datatype MailboxFilter =
    | All
    | Exact(name: string)
    | Prefix(prefix: string)
    | Suffix(suffix: string)
    | Regex(pattern: string)

  // ----- The specification -----

  /** `*` matches any text, `%` any text without the hierarchy delimiter `/`. */
  predicate Wildcard(pattern: string, name: string)
    decreases |pattern|
  {
    if pattern == "" then name == ""
    else if pattern[0] == '*' then exists k :: 0 <= k <= |name| && Wildcard(pattern[1..], name[k..])
    else if pattern[0] == '%' then
      exists k :: 0 <= k <= |name| && '/' !in name[..k] && Wildcard(pattern[1..], name[k..])
    else name != "" && name[0] == pattern[0] && Wildcard(pattern[1..], name[1..])
  }

  // ----- The code -----

  function PatternToFilter(pattern: string): MailboxFilter {
    if pattern == "*" then All
    else if '*' !in pattern && '%' !in pattern then Exact(pattern)
    else if pattern[|pattern| - 1] == '*' && '*' !in pattern[..|pattern| - 1] && '%' !in pattern then
      Prefix(pattern[..|pattern| - 1])
    else if pattern[0] == '*' && '*' !in pattern[1..] && '%' !in pattern then Suffix(pattern[1..])
    else Regex("^" + EmitAll(pattern) + "$")
  }

  function Emit(c: char): string {
    if c == '*' then ".*"
    else if c == '%' then "[^/]*"
    else if c in ".+?^$()[]{}|\\" then "\\" + [c]
    else [c]
  }

  function EmitAll(pattern: string): string {
    if pattern == "" then "" else Emit(pattern[0]) + EmitAll(pattern[1..])
  }

  lemma {:induction false} EmitAllSnoc(pattern: string, c: char)
    ensures EmitAll(pattern + [c]) == EmitAll(pattern) + Emit(c)
  {
    if pattern == "" {
      assert EmitAll([c][1..]) == "";
      assert pattern + [c] == [c];
    } else {
      assert (pattern + [c])[1..] == pattern[1..] + [c];
      EmitAllSnoc(pattern[1..], c);
    }
  }

  lemma EmitStep(pattern: string, i: nat)
    requires i < |pattern|
    ensures "^" + EmitAll(pattern[..i + 1]) == "^" + EmitAll(pattern[..i]) + Emit(pattern[i])
  {
    EmitAllSnoc(pattern[..i], pattern[i]);
    assert pattern[..i + 1] == pattern[..i] + [pattern[i]];
  }

  /** `imap_pattern_to_regex`: the string buffer grows one pattern character at a time. */
  method ImapPatternToRegex(pattern: string) returns (regex: string)
    ensures regex == "^" + EmitAll(pattern) + "$"
    ensures Regex.Parse(regex) == Some([Regex.Start] + Items(pattern) + [Regex.End])
  {
    regex := "^";
    for i := 0 to |pattern|
      invariant regex == "^" + EmitAll(pattern[..i])
    {
      var c := pattern[i];
      EmitStep(pattern, i);
      if c == '*' {
        regex := regex + ".*";
      } else if c == '%' {
        regex := regex + "[^/]*";
      } else if c in ".+?^$()[]{}|\\" {
        regex := regex + "\\" + [c];
      } else {
        regex := regex + [c];
      }
    }
    assert pattern[..|pattern|] == pattern;
    regex := regex + ['$'];
    EmittedRegexParses(pattern);
  }

  /** `pattern_to_filter`, with the regex built by the loop. */
  method CompilePattern(pattern: string) returns (filter: MailboxFilter)
    ensures filter == PatternToFilter(pattern)
  {
    if pattern == "*" { return All; }
    if '*' !in pattern && '%' !in pattern { return Exact(pattern); }
    if pattern[|pattern| - 1] == '*' && '*' !in pattern[..|pattern| - 1] && '%' !in pattern {
      return Prefix(pattern[..|pattern| - 1]);
    }
    if pattern[0] == '*' && '*' !in pattern[1..] && '%' !in pattern { return Suffix(pattern[1..]); }
    var regex := ImapPatternToRegex(pattern);
    return Regex(regex);
  }

  /** How the registry evaluates a filter on one mailbox name (src/mailboxes/impl/memory.rs). */
  predicate FilterAccepts(filter: MailboxFilter, name: string) {
    match filter
    case All => true
    case Exact(wanted) => if IsInbox(name) && IsInbox(wanted) then true else name == wanted
    case Prefix(prefix) => prefix <= name
    case Suffix(suffix) => EndsWith(name, suffix)
    case Regex(r) =>
      match Regex.Parse(r)
      case None => false
      case Some(items) => Regex.IsMatch(items, name)
  }

  // ----- The emitted regex is well formed and remembers the pattern -----

  function ItemOf(c: char): Regex.Item {
    if c == '*' then Regex.Star(Regex.AnyButNewline)
    else if c == '%' then Regex.Star(Regex.AnyBut('/'))
    else Regex.One(Regex.Literal(c))
  }

  function Items(pattern: string): (items: seq<Regex.Item>)
    ensures |items| == |pattern|
    ensures forall i :: 0 <= i < |pattern| ==> items[i] == ItemOf(pattern[i])
  {
    if pattern == "" then [] else [ItemOf(pattern[0])] + Items(pattern[1..])
  }

  lemma ParseStar(atom: Regex.Atom, r: string, rest: string)
    requires r != "" && r[0] != '^' && r[0] != '$' && Regex.ParseAtom(r) == Some((atom, "*" + rest))
    ensures Regex.Parse(r) == Regex.Cons(Regex.Star(atom), Regex.Parse(rest))
  {
    assert ("*" + rest)[1..] == rest;
  }

  lemma ParseOne(atom: Regex.Atom, r: string, rest: string)
    requires r != "" && r[0] != '^' && r[0] != '$' && Regex.ParseAtom(r) == Some((atom, rest))
    requires rest == "" || rest[0] != '*'
    ensures Regex.Parse(r) == Regex.Cons(Regex.One(atom), Regex.Parse(rest))
  {
  }

  lemma ParseEscaped(c: char, rest: string)
    requires Regex.IsMeta(c)
    ensures Regex.ParseAtom("\\" + [c] + rest) == Some((Regex.Literal(c), rest))
  {
    var r := "\\" + [c] + rest;
    assert r[0] == '\\' && r[1] == c && r[2..] == rest;
  }

  lemma ParsePlain(c: char, rest: string)
    requires !Regex.IsMeta(c)
    ensures c != '^' && c != '$' && Regex.ParseAtom([c] + rest) == Some((Regex.Literal(c), rest))
  {
    var r := [c] + rest;
    assert r[0] == c && r[1..] == rest;
  }

  lemma ParseEmitted(c: char, rest: string)
    requires rest == "" || rest[0] != '*'
    ensures Regex.Parse(Emit(c) + rest) == Regex.Cons(ItemOf(c), Regex.Parse(rest))
  {
    var r := Emit(c) + rest;
    if c == '*' {
      assert r[0] == '.' && r[1..] == "*" + rest;
      ParseStar(Regex.AnyButNewline, r, rest);
    } else if c == '%' {
      assert r[0] == '[' && r[1] == '^' && r[2] == '/' && r[3] == ']' && r[4..] == "*" + rest;
      ParseStar(Regex.AnyBut('/'), r, rest);
    } else if c in ".+?^$()[]{}|\\" {
      ParseEscaped(c, rest);
      ParseOne(Regex.Literal(c), r, rest);
    } else {
      ParsePlain(c, rest);
      ParseOne(Regex.Literal(c), r, rest);
    }
  }

  lemma EmittedHead(pattern: string)
    ensures EmitAll(pattern) + "$" != "" && (EmitAll(pattern) + "$")[0] != '*'
  {
    if pattern != "" {
      assert Emit(pattern[0])[0] != '*';
    }
  }

  lemma {:induction false} BodyParses(pattern: string)
    ensures Regex.Parse(EmitAll(pattern) + "$") == Some(Items(pattern) + [Regex.End])
  {
    if pattern == "" {
      var r := EmitAll(pattern) + "$";
      assert r == "$" && r[1..] == "";
      assert Items(pattern) + [Regex.End] == [Regex.End] == [Regex.End] + [];
      assert Regex.Parse(r[1..]) == Some([]);
    } else {
      var rest := EmitAll(pattern[1..]) + "$";
      assert EmitAll(pattern) + "$" == Emit(pattern[0]) + rest;
      EmittedHead(pattern[1..]);
      ParseEmitted(pattern[0], rest);
      BodyParses(pattern[1..]);
      assert [ItemOf(pattern[0])] + (Items(pattern[1..]) + [Regex.End]) == Items(pattern) + [Regex.End];
    }
  }

  /** The emitted expression always compiles, so the invalid-regex branch is never taken,
      and it parses to exactly one item per pattern character. */
  lemma EmittedRegexParses(pattern: string)
    ensures Regex.Parse("^" + EmitAll(pattern) + "$") == Some([Regex.Start] + Items(pattern) + [Regex.End])
  {
    var r := "^" + EmitAll(pattern) + "$";
    assert r[1..] == EmitAll(pattern) + "$";
    BodyParses(pattern);
    assert [Regex.Start] + (Items(pattern) + [Regex.End]) == [Regex.Start] + Items(pattern) + [Regex.End];
  }

  /** Two patterns that compile to the same expression are the same pattern. */
  lemma TranslationInjective(p: string, q: string)
    requires EmitAll(p) == EmitAll(q)
    ensures p == q
  {
    BodyParses(p);
    BodyParses(q);
    var items := Items(p) + [Regex.End];
    assert items == Items(q) + [Regex.End];
    assert |p| == |items| - 1 == |q|;
    forall i | 0 <= i < |p|
      ensures p[i] == q[i]
    {
      assert items[i] == ItemOf(p[i]) == ItemOf(q[i]);
    }
  }

  // ----- What the emitted regex matches -----

  /** As `Wildcard`, except that `*` stops at a newline: the meaning of `.*`. */
  predicate LineWildcard(pattern: string, name: string)
    decreases |pattern|
  {
    if pattern == "" then name == ""
    else if pattern[0] == '*' then
      exists k :: 0 <= k <= |name| && '\n' !in name[..k] && LineWildcard(pattern[1..], name[k..])
    else if pattern[0] == '%' then
      exists k :: 0 <= k <= |name| && '/' !in name[..k] && LineWildcard(pattern[1..], name[k..])
    else name != "" && name[0] == pattern[0] && LineWildcard(pattern[1..], name[1..])
  }

  lemma StarredBlock(atom: Regex.Atom, excluded: char, text: string, at: nat, to: nat)
    requires at <= to <= |text|
    requires forall c :: Regex.Accepts(atom, c) <==> c != excluded
    ensures (forall j :: at <= j < to ==> Regex.Accepts(atom, text[j])) <==> excluded !in text[at..][..to - at]
  {
    var block := text[at..][..to - at];
    assert forall j :: at <= j < to ==> block[j - at] == text[j];
    assert forall i :: 0 <= i < |block| ==> block[i] == text[at + i];
  }

  function Excluded(pattern: string): char
    requires pattern != ""
  {
    if pattern[0] == '*' then '\n' else '/'
  }

  /** What the items after a starred one match. */
  ghost predicate RestMatches(pattern: string, items: seq<Regex.Item>, text: string, at: nat)
    requires at <= |text| && pattern != "" && items != []
  {
    forall to {:trigger Regex.MatchesAt(items[1..], text, to)} :: at <= to <= |text| ==>
      (Regex.MatchesAt(items[1..], text, to) <==> LineWildcard(pattern[1..], text[at..][to - at..]))
  }

  lemma StarItemSound(pattern: string, items: seq<Regex.Item>, text: string, at: nat)
    requires at <= |text| && pattern != "" && items != []
    requires pattern[0] == '*' || pattern[0] == '%'
    requires items[0] == ItemOf(pattern[0]) && RestMatches(pattern, items, text, at)
    requires Regex.MatchesAt(items, text, at)
    ensures LineWildcard(pattern, text[at..])
  {
    var name, atom := text[at..], items[0].atom;
    var to :| at <= to <= |text| && (forall j :: at <= j < to ==> Regex.Accepts(atom, text[j]))
              && Regex.MatchesAt(items[1..], text, to);
    StarredBlock(atom, Excluded(pattern), text, at, to);
    var k := to - at;
    assert Excluded(pattern) !in name[..k] && LineWildcard(pattern[1..], name[k..]);
  }

  lemma StarItemComplete(pattern: string, items: seq<Regex.Item>, text: string, at: nat)
    requires at <= |text| && pattern != "" && items != []
    requires pattern[0] == '*' || pattern[0] == '%'
    requires items[0] == ItemOf(pattern[0]) && RestMatches(pattern, items, text, at)
    requires LineWildcard(pattern, text[at..])
    ensures Regex.MatchesAt(items, text, at)
  {
    var name, atom := text[at..], items[0].atom;
    var k :| 0 <= k <= |name| && Excluded(pattern) !in name[..k] && LineWildcard(pattern[1..], name[k..]);
    var to := at + k;
    StarredBlock(atom, Excluded(pattern), text, at, to);
    assert Regex.MatchesAt(items[1..], text, to);
  }

  /** One starred item, given what the items after it match. */
  lemma StarItemMatches(pattern: string, items: seq<Regex.Item>, text: string, at: nat)
    requires at <= |text| && pattern != "" && items != []
    requires pattern[0] == '*' || pattern[0] == '%'
    requires items[0] == ItemOf(pattern[0]) && RestMatches(pattern, items, text, at)
    ensures Regex.MatchesAt(items, text, at) <==> LineWildcard(pattern, text[at..])
  {
    if Regex.MatchesAt(items, text, at) {
      StarItemSound(pattern, items, text, at);
    }
    if LineWildcard(pattern, text[at..]) {
      StarItemComplete(pattern, items, text, at);
    }
  }

  lemma {:induction false} BodyMatches(pattern: string, text: string, at: nat)
    requires at <= |text|
    ensures Regex.MatchesAt(Items(pattern) + [Regex.End], text, at) <==> LineWildcard(pattern, text[at..])
    decreases |pattern|
  {
    var items := Items(pattern) + [Regex.End];
    if pattern == "" {
      assert items[1..] == [];
    } else {
      assert items[1..] == Items(pattern[1..]) + [Regex.End];
      forall to {:trigger Regex.MatchesAt(items[1..], text, to)} | at <= to <= |text|
        ensures Regex.MatchesAt(items[1..], text, to) <==> LineWildcard(pattern[1..], text[at..][to - at..])
      {
        BodyMatches(pattern[1..], text, to);
        assert text[at..][to - at..] == text[to..];
      }
      if pattern[0] == '*' || pattern[0] == '%' {
        StarItemMatches(pattern, items, text, at);
      }
    }
  }

  /** The search is unanchored, so `^` and `$` are what make it a match of the whole name. */
  lemma RegexFilterMeaning(pattern: string, name: string)
    ensures FilterAccepts(Regex("^" + EmitAll(pattern) + "$"), name) <==> LineWildcard(pattern, name)
  {
    EmittedRegexParses(pattern);
    var items := [Regex.Start] + Items(pattern) + [Regex.End];
    assert items[1..] == Items(pattern) + [Regex.End];
    BodyMatches(pattern, name, 0);
    assert name[0..] == name;
    assert Regex.MatchesAt(items, name, 0) <==> LineWildcard(pattern, name);
  }

  lemma {:induction false} LineWildcardIsWildcard(pattern: string, name: string)
    requires '\n' !in name || '*' !in pattern
    ensures LineWildcard(pattern, name) <==> Wildcard(pattern, name)
    decreases |pattern|
  {
    if pattern != "" {
      forall k | 0 <= k <= |name|
        ensures LineWildcard(pattern[1..], name[k..]) <==> Wildcard(pattern[1..], name[k..])
      {
        LineWildcardIsWildcard(pattern[1..], name[k..]);
      }
      if pattern[0] == '*' && Wildcard(pattern, name) {
        var k :| 0 <= k <= |name| && Wildcard(pattern[1..], name[k..]);
        assert '\n' !in name[..k] && LineWildcard(pattern[1..], name[k..]);
      }
    }
  }

  // ----- The four shortcuts -----

  lemma {:induction false} PlainPatternMeaning(pattern: string, name: string)
    requires '*' !in pattern && '%' !in pattern
    ensures Wildcard(pattern, name) <==> pattern == name
    decreases |pattern|
  {
    if pattern != "" {
      assert pattern[0] in pattern;
      assert pattern == [pattern[0]] + pattern[1..];
      if name != "" {
        assert name == [name[0]] + name[1..];
        PlainPatternMeaning(pattern[1..], name[1..]);
      }
    }
  }

  lemma {:induction false} PrefixPatternMeaning(prefix: string, name: string)
    requires '*' !in prefix && '%' !in prefix
    ensures Wildcard(prefix + "*", name) <==> prefix <= name
    decreases |prefix|
  {
    var pattern := prefix + "*";
    if prefix == "" {
      assert name[|name|..] == "" && Wildcard(pattern[1..], name[|name|..]);
    } else {
      assert prefix[0] in prefix;
      assert pattern[1..] == prefix[1..] + "*";
      if name != "" {
        PrefixPatternMeaning(prefix[1..], name[1..]);
        assert prefix == [prefix[0]] + prefix[1..] && name == [name[0]] + name[1..];
      }
    }
  }

  lemma SuffixPatternMeaning(suffix: string, name: string)
    requires '*' !in suffix && '%' !in suffix
    ensures Wildcard("*" + suffix, name) <==> EndsWith(name, suffix)
  {
    var pattern := "*" + suffix;
    assert pattern[1..] == suffix;
    forall k | 0 <= k <= |name|
      ensures Wildcard(suffix, name[k..]) <==> suffix == name[k..]
    {
      PlainPatternMeaning(suffix, name[k..]);
    }
    if EndsWith(name, suffix) {
      var k := |name| - |suffix|;
      assert Wildcard(pattern[1..], name[k..]);
    }
  }

  lemma InboxHasNoWildcard(pattern: string)
    requires IsInbox(pattern)
    ensures '*' !in pattern && '%' !in pattern
  {
    forall i | 0 <= i < |pattern|
      ensures pattern[i] != '*' && pattern[i] != '%'
    {
      assert AsciiLower(pattern[i]) == AsciiLower("INBOX"[i]);
    }
  }

  // ----- Main results -----

  /** The set of names on which the compiled filter and RFC 3501 can disagree. */
  predicate NewlineSensitive(pattern: string) {
    PatternToFilter(pattern).Regex? && '*' in pattern
  }

  /** Compilation preserves meaning: the only names accepted beyond the wildcard match are
      spellings of INBOX against a pattern that spells INBOX. */
  lemma CompiledFilterMeaning(pattern: string, name: string)
    requires '\n' !in name || !NewlineSensitive(pattern)
    ensures FilterAccepts(PatternToFilter(pattern), name)
       <==> Wildcard(pattern, name) || (IsInbox(pattern) && IsInbox(name))
  {
    if IsInbox(pattern) {
      InboxHasNoWildcard(pattern);
    }
    match PatternToFilter(pattern)
    case All =>
      assert name[|name|..] == "" && Wildcard(pattern[1..], name[|name|..]);
    case Exact(_) =>
      PlainPatternMeaning(pattern, name);
    case Prefix(prefix) =>
      assert pattern == prefix + "*";
      PrefixPatternMeaning(prefix, name);
    case Suffix(suffix) =>
      assert pattern == "*" + suffix;
      SuffixPatternMeaning(suffix, name);
    case Regex(_) =>
      RegexFilterMeaning(pattern, name);
      LineWildcardIsWildcard(pattern, name);
  }

  // ----- Names with newlines: exactly when the code meets RFC 3501 -----

  /** A name `pattern` matches in which every star stands for `k` newlines, each followed by `/`. */
  function Witness(pattern: string, k: nat): string {
    if pattern == "" then ""
    else WitnessHead(pattern[0], k) + Witness(pattern[1..], k)
  }

  function Lines(k: nat): (s: string)
    ensures Count(s, '\n') == k
    ensures SlashAfterNewline(s)
  {
    if k == 0 then "" else
    var rest := Lines(k - 1);
    CountConcat("\n/", rest, '\n');
    assert Count("\n/", '\n') == 1 by { assert "\n/"[1..] == "/" && "/"[1..] == ""; }
    "\n/" + rest
  }

  predicate SlashAfterNewline(s: string) {
    forall i :: 0 <= i < |s| && s[i] == '\n' ==> i + 1 < |s| && s[i + 1] == '/'
  }

  function WitnessHead(c: char, k: nat): string {
    if c == '*' then Lines(k) else if c == '%' then "" else [c]
  }

  lemma {:induction false} WitnessMatches(pattern: string, k: nat)
    ensures Wildcard(pattern, Witness(pattern, k))
  {
    if pattern != "" {
      var head, rest := WitnessHead(pattern[0], k), Witness(pattern[1..], k);
      var name := head + rest;
      WitnessMatches(pattern[1..], k);
      assert name[|head|..] == rest && name[..|head|] == head;
      assert Wildcard(pattern[1..], name[|head|..]);
    }
  }

  lemma {:induction false} WitnessShape(pattern: string, k: nat)
    requires '\n' !in pattern
    ensures SlashAfterNewline(Witness(pattern, k))
    ensures '*' in pattern ==> Count(Witness(pattern, k), '\n') >= k
  {
    if pattern != "" {
      var head, rest := WitnessHead(pattern[0], k), Witness(pattern[1..], k);
      assert pattern == [pattern[0]] + pattern[1..];
      WitnessShape(pattern[1..], k);
      CountConcat(head, rest, '\n');
      SlashAfterNewlineConcat(head, rest);
    }
  }

  lemma SlashAfterNewlineConcat(s: string, t: string)
    requires SlashAfterNewline(s) && SlashAfterNewline(t)
    ensures SlashAfterNewline(s + t)
  {
    var u := s + t;
    forall i | 0 <= i < |u| && u[i] == '\n'
      ensures i + 1 < |u| && u[i + 1] == '/'
    {
      if i < |s| {
        assert s[i] == '\n' && u[i + 1] == s[i + 1];
      } else {
        assert t[i - |s|] == '\n' && u[i + 1] == t[i + 1 - |s|];
      }
    }
  }

  /** A block without `/` holds at most one newline: its last character. */
  lemma BlockNewlines(name: string, k: nat)
    requires k <= |name| && SlashAfterNewline(name) && '/' !in name[..k]
    ensures Count(name[..k], '\n') <= 1
  {
    if k > 0 {
      var init := name[..k - 1];
      forall i | 0 <= i < |init|
        ensures init[i] != '\n'
      {
        assert init[i] == name[..k][i] && name[i + 1] == name[..k][i + 1];
      }
      CountZero(init, '\n');
      CountConcat(init, [name[k - 1]], '\n');
      assert name[..k] == init + [name[k - 1]];
      assert [name[k - 1]][1..] == "";
    }
  }

  lemma HeadBlock(pattern: string, name: string) returns (k: nat)
    requires pattern != "" && SlashAfterNewline(name) && LineWildcard(pattern, name)
    ensures k <= |name| && LineWildcard(pattern[1..], name[k..])
    ensures pattern[0] != '\n' ==> Count(name[..k], '\n') <= Count([pattern[0]], '%')
  {
    assert [pattern[0]][1..] == "";
    if pattern[0] == '*' {
      k :| 0 <= k <= |name| && '\n' !in name[..k] && LineWildcard(pattern[1..], name[k..]);
      CountZero(name[..k], '\n');
    } else if pattern[0] == '%' {
      k :| 0 <= k <= |name| && '/' !in name[..k] && LineWildcard(pattern[1..], name[k..]);
      BlockNewlines(name, k);
    } else {
      k := 1;
      assert name[..1] == [name[0]];
      CountZero(name[..1], '\n');
    }
  }

  lemma {:induction false} LineWildcardNewlines(pattern: string, name: string)
    requires '\n' !in pattern && SlashAfterNewline(name) && LineWildcard(pattern, name)
    ensures Count(name, '\n') <= Count(pattern, '%')
    decreases |pattern|
  {
    if pattern != "" {
      var k := HeadBlock(pattern, name);
      assert pattern[0] in pattern && pattern == [pattern[0]] + pattern[1..];
      CountConcat([pattern[0]], pattern[1..], '%');
      CountConcat(name[..k], name[k..], '\n');
      assert name == name[..k] + name[k..];
      LineWildcardNewlines(pattern[1..], name[k..]);
    }
  }

  /** The compiled filter and RFC 3501 agree on every name, newlines or not, if and only if
      the pattern has no `*` or is one of the shapes that never become a regex. (A pattern
      is a whitespace-delimited token, so it has no newline itself.) */
  lemma AgreesOnAllNames(pattern: string)
    requires '\n' !in pattern
    ensures (forall name :: FilterAccepts(PatternToFilter(pattern), name)
                       <==> Wildcard(pattern, name) || (IsInbox(pattern) && IsInbox(name)))
       <==> !NewlineSensitive(pattern)
  {
    if !NewlineSensitive(pattern) {
      forall name {
        CompiledFilterMeaning(pattern, name);
      }
    } else {
      var k := Count(pattern, '%') + 1;
      var name := Witness(pattern, k);
      WitnessMatches(pattern, k);
      WitnessShape(pattern, k);
      RegexFilterMeaning(pattern, name);
      if LineWildcard(pattern, name) {
        LineWildcardNewlines(pattern, name);
      }
      assert Wildcard(pattern, name) && !FilterAccepts(PatternToFilter(pattern), name);
    }
  }
}
