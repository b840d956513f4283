/** Splitting and trimming text as the Rust string methods do. */
module Words {

  /** `char::is_whitespace`: the Unicode White_Space property. */
  predicate IsWhitespace(c: char) {
    var n := c as int;
    0x09 <= n <= 0x0D || n == 0x20 || n == 0x85 || n == 0xA0 || n == 0x1680 || 0x2000 <= n <= 0x200A
    || n == 0x2028 || n == 0x2029 || n == 0x202F || n == 0x205F || n == 0x3000
  }

  /** The characters with that property, one by one. */
  const WHITE_SPACE :=
    "\t\n\U{000B}\U{000C}\r \U{0085}\U{00A0}\U{1680}\U{2000}\U{2001}\U{2002}\U{2003}\U{2004}\U{2005}\U{2006}"
    + "\U{2007}\U{2008}\U{2009}\U{200A}\U{2028}\U{2029}\U{202F}\U{205F}\U{3000}"

  lemma WhitespaceExactly(c: char)
    ensures IsWhitespace(c) <==> c in WHITE_SPACE
  {
  }

  /** Text without white space. */
  predicate Solid(s: string) {
    forall i :: 0 <= i < |s| ==> !IsWhitespace(s[i])
  }

  function SkipSpaces(s: string): (rest: string)
    ensures |rest| <= |s| && (rest != "" ==> !IsWhitespace(rest[0]))
  {
    if s != "" && IsWhitespace(s[0]) then SkipSpaces(s[1..]) else s
  }

  function WordLength(s: string): (n: nat)
    ensures n <= |s| && Solid(s[..n]) && (n < |s| ==> IsWhitespace(s[n]))
  {
    if s == "" || IsWhitespace(s[0]) then 0 else 1 + WordLength(s[1..])
  }

  /** `str::split_whitespace`. */
  function SplitWhitespace(s: string): (words: seq<string>)
    ensures forall i :: 0 <= i < |words| ==> words[i] != "" && Solid(words[i])
    decreases |s|
  {
    var rest := SkipSpaces(s);
    if rest == "" then []
    else
      var n := WordLength(rest);
      assert n > 0;
      [rest[..n]] + SplitWhitespace(rest[n..])
  }

  function Words(word: string): seq<string> {
    if word == "" then [] else [word]
  }

  /** A word followed by nothing or white space is split off whole. */
  lemma SplitFirst(word: string, rest: string)
    requires Solid(word) && (rest == "" || IsWhitespace(rest[0]))
    ensures SplitWhitespace(word + rest) == Words(word) + SplitWhitespace(rest)
  {
    var s := word + rest;
    if word == "" {
      assert s == rest;
    } else {
      assert !IsWhitespace(word[0]) && s[0] == word[0];
      var n := WordLength(s);
      assert forall i :: 0 <= i < |word| ==> !IsWhitespace(s[i]);
      assert forall i :: 0 <= i < n ==> s[..n][i] == s[i];
      assert rest != "" ==> s[|word|] == rest[0];
      assert s[..n] == word && s[n..] == rest;
    }
  }

  /** White space before a word separates, however much of it there is. With `SplitFirst` this says
      what the words of any text are. */
  lemma SplitSkips(s: string)
    requires s != "" && IsWhitespace(s[0])
    ensures SplitWhitespace(s) == SplitWhitespace(s[1..])
  {
  }

  /** Rendering two white-space-free texts with a space between them and splitting again. */
  lemma SplitPair(a: string, b: string)
    requires Solid(a) && Solid(b)
    ensures SplitWhitespace(a + " " + b) == Words(a) + Words(b)
  {
    var rest := " " + b;
    assert a + " " + b == a + rest;
    SplitFirst(a, rest);
    assert rest[1..] == b && SkipSpaces(rest) == SkipSpaces(b);
    assert SplitWhitespace(rest) == SplitWhitespace(b);
    SplitFirst(b, "");
    assert b + "" == b;
  }

  /** `str::trim_matches` with a character test. */
  function TrimMatches(s: string, test: char -> bool): (r: string)
    ensures r != "" ==> !test(r[0]) && !test(r[|r| - 1])
    ensures forall c :: c in r ==> c in s
    ensures Solid(s) ==> Solid(r)
  {
    if s != "" && test(s[0]) then TrimMatches(s[1..], test)
    else if s != "" && test(s[|s| - 1]) then TrimMatches(s[..|s| - 1], test)
    else s
  }

  function TrimQuotes(s: string): string {
    TrimMatches(s, (c: char) => c == '"')
  }

  /** `str::trim`. */
  function Trim(s: string): string {
    TrimMatches(s, (c: char) => IsWhitespace(c))
  }

  /** Trimming removes a run of matching characters at each end, and no more. */
  lemma {:induction false} TrimSplits(s: string, test: char -> bool) returns (i: nat, j: nat)
    ensures i <= j <= |s| && TrimMatches(s, test) == s[i..j]
    ensures forall k :: 0 <= k < i || j <= k < |s| ==> test(s[k])
  {
    if s != "" && test(s[0]) {
      var rest := s[1..];
      i, j := TrimSplits(rest, test);
      i, j := i + 1, j + 1;
      assert forall k :: 0 < k < |s| ==> s[k] == rest[k - 1];
    } else if s != "" && test(s[|s| - 1]) {
      var rest := s[..|s| - 1];
      i, j := TrimSplits(rest, test);
      assert forall k :: 0 <= k < |s| - 1 ==> s[k] == rest[k];
    } else {
      i, j := 0, |s|;
    }
  }

  /** Trimming removes the white space at both ends, and no more. */
  lemma TrimExactly(s: string) returns (i: nat, j: nat)
    ensures i <= j <= |s| && Trim(s) == s[i..j]
    ensures forall k :: 0 <= k < i || j <= k < |s| ==> s[k] in WHITE_SPACE
    ensures Trim(s) != "" ==> Trim(s)[0] !in WHITE_SPACE && Trim(s)[|Trim(s)| - 1] !in WHITE_SPACE
  {
    i, j := TrimSplits(s, (c: char) => IsWhitespace(c));
    forall c: char
      ensures IsWhitespace(c) <==> c in WHITE_SPACE
    {
      WhitespaceExactly(c);
    }
  }

  /** `words.join(" ")`. */
  function Join(words: seq<string>): string {
    if words == [] then ""
    else if |words| == 1 then words[0]
    else words[0] + " " + Join(words[1..])
  }

  /** Joining and splitting again gives the words back. */
  lemma {:induction false} SplitJoined(words: seq<string>)
    requires forall i :: 0 <= i < |words| ==> words[i] != "" && Solid(words[i])
    ensures SplitWhitespace(Join(words)) == words
  {
    if |words| == 1 {
      SplitFirst(words[0], "");
      assert words[0] + "" == words[0];
    } else if |words| > 1 {
      var rest := " " + Join(words[1..]);
      assert Join(words) == words[0] + rest;
      SplitFirst(words[0], rest);
      assert rest[1..] == Join(words[1..]) && SkipSpaces(rest) == SkipSpaces(Join(words[1..]));
      SplitJoined(words[1..]);
    }
  }

  // ----- Quotes around an argument -----

  function Quotes(n: nat): (s: string)
    ensures |s| == n && forall i :: 0 <= i < n ==> s[i] == '"'
  {
    seq(n, i => '"')
  }

  /** Text that neither begins nor ends with a quote. */
  predicate Bare(text: string) {
    text != "" ==> text[0] != '"' && text[|text| - 1] != '"'
  }

  /** The word is the bare text with any number of quotes before and after it. */
  ghost predicate Says(word: string, text: string) {
    Bare(text) && exists before: nat, after: nat :: word == Quotes(before) + text + Quotes(after)
  }

  lemma LeadingQuote(s: string)
    requires s != "" && s[0] == '"'
    ensures TrimQuotes(s) == TrimQuotes(s[1..])
  {
  }

  lemma TrailingQuote(s: string)
    requires s != "" && s[0] != '"' && s[|s| - 1] == '"'
    ensures TrimQuotes(s) == TrimQuotes(s[..|s| - 1])
  {
  }

  lemma BareIsKept(text: string)
    requires Bare(text)
    ensures TrimQuotes(text) == text
  {
  }

  lemma {:induction false} QuotesAfterAreTrimmed(text: string, after: nat)
    requires Bare(text)
    ensures TrimQuotes(text + Quotes(after)) == text
  {
    var s := text + Quotes(after);
    if after == 0 {
      assert s == text;
      BareIsKept(text);
    } else {
      QuotesAfterAreTrimmed(text, after - 1);
      if text == "" {
        assert s[1..] == text + Quotes(after - 1);
        LeadingQuote(s);
      } else {
        assert s[..|s| - 1] == text + Quotes(after - 1);
        TrailingQuote(s);
      }
    }
  }

  lemma {:induction false} QuotesAreTrimmed(before: nat, text: string, after: nat)
    requires Bare(text)
    ensures TrimQuotes(Quotes(before) + text + Quotes(after)) == text
  {
    var s := Quotes(before) + text + Quotes(after);
    if before == 0 {
      assert s == text + Quotes(after);
      QuotesAfterAreTrimmed(text, after);
    } else {
      assert s[1..] == Quotes(before - 1) + text + Quotes(after);
      LeadingQuote(s);
      QuotesAreTrimmed(before - 1, text, after);
    }
  }

  /** Trimming quotes yields a text if and only if the word says it: every word says exactly one. */
  lemma TrimQuotesExactly(word: string, text: string)
    ensures TrimQuotes(word) == text <==> Says(word, text)
  {
    if Says(word, text) {
      var before: nat, after: nat :| word == Quotes(before) + text + Quotes(after);
      QuotesAreTrimmed(before, text, after);
    }
    if TrimQuotes(word) == text {
      var i, j := TrimSplits(word, (c: char) => c == '"');
      assert word == Quotes(i) + text + Quotes(|word| - j);
    }
  }
}
