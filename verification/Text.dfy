/** Strings as the server sees them: sequences of characters, with the handful of
    standard-library text operations the modelled code calls. */
module Text {

  datatype Option<+T> = None | Some(value: T)

  predicate EndsWith(s: string, suffix: string) {
    |suffix| <= |s| && s[|s| - |suffix|..] == suffix
  }

  /** Substring search, as `str::contains` on a pattern string. */
  predicate Contains(s: string, part: string) {
    exists i :: 0 <= i <= |s| && part <= s[i..]
  }

  function AsciiLower(c: char): char {
    if 'A' <= c <= 'Z' then (c as int + 32) as char else c
  }

  /** `str::eq_ignore_ascii_case`. */
  predicate EqIgnoreAsciiCase(a: string, b: string) {
    |a| == |b| && forall i :: 0 <= i < |a| ==> AsciiLower(a[i]) == AsciiLower(b[i])
  }

  /** The one mailbox name that RFC 3501 section 5.1 makes case-insensitive. */
  predicate IsInbox(name: string) {
    EqIgnoreAsciiCase(name, "INBOX")
  }

  /** The number of occurrences of `c` in `s`. */
  function Count(s: string, c: char): nat {
    if s == "" then 0 else (if s[0] == c then 1 else 0) + Count(s[1..], c)
  }

  lemma {:induction false} CountConcat(s: string, t: string, c: char)
    ensures Count(s + t, c) == Count(s, c) + Count(t, c)
  {
    if s == "" {
      assert s + t == t;
    } else {
      assert (s + t)[1..] == s[1..] + t;
      CountConcat(s[1..], t, c);
    }
  }

  lemma {:induction false} CountZero(s: string, c: char)
    ensures Count(s, c) == 0 <==> c !in s
  {
    if s != "" {
      CountZero(s[1..], c);
      assert s == [s[0]] + s[1..];
    }
  }

  /** Substring search finds a part exactly if the text is something, the part, and something. */
  lemma ContainsExactly(s: string, part: string)
    ensures Contains(s, part) <==> exists before, after :: s == before + part + after
  {
    if Contains(s, part) {
      var i :| 0 <= i <= |s| && part <= s[i..];
      assert s == s[..i] + part + s[i + |part|..];
    }
    if exists before, after :: s == before + part + after {
      var before, after :| s == before + part + after;
      assert s[|before|..] == part + after;
    }
  }

  /** The spellings of INBOX, letter by letter. */
  lemma InboxExactly(name: string)
    ensures IsInbox(name)
       <==> |name| == 5 && name[0] in "Ii" && name[1] in "Nn" && name[2] in "Bb" && name[3] in "Oo" && name[4] in "Xx"
  {
    if |name| == 5 {
      assert forall i :: 0 <= i < 5 ==>
        (AsciiLower(name[i]) == AsciiLower("INBOX"[i]) <==> name[i] in ["Ii", "Nn", "Bb", "Oo", "Xx"][i]);
    }
  }
}
