/** The two string operations the program applies itself: the suffix test of
    `str.endswith` and `str.replace("\n", "<br/>")`. */
module Strings {

  /** Python's `s.endswith(suffix)`. */
  predicate EndsWith(s: string, suffix: string) {
    |suffix| <= |s| && s[|s| - |suffix|..] == suffix
  }

  /** Appending a suffix makes the text end with it. */
  lemma EndsWithConcat(s: string, suffix: string)
    ensures EndsWith(s + suffix, suffix)
  {
    assert (s + suffix)[|s|..] == suffix;
  }

  /** Equal texts with equal beginnings have equal remainders. */
  lemma CommonPrefixCancel(h: string, x: string, y: string)
    requires h + x == h + y
    ensures x == y
  {
    assert x == (h + x)[|h|..];
    assert y == (h + y)[|h|..];
  }

  /** A text without line feeds, as counted, contains none. */
  lemma NoNewlineCounted(s: string)
    requires CountNewlines(s) == 0
    ensures '\n' !in s
  {
    if s != [] {
      NoNewlineCounted(s[1..]);
      assert s == [s[0]] + s[1..];
    }
  }

  const BR: string := "<br/>"

  /** Python's `s.replace("\n", "<br/>")`: every line feed becomes a break
      tag, every other character is kept. The result holds no line feed. */
  function ReplaceNewlines(s: string): (r: string)
    ensures '\n' !in r
  {
    if s == [] then []
    else (if s[0] == '\n' then BR else [s[0]]) + ReplaceNewlines(s[1..])
  }

  /** The number of line feeds in `s`. */
  function CountNewlines(s: string): nat {
    if s == [] then 0 else (if s[0] == '\n' then 1 else 0) + CountNewlines(s[1..])
  }

  /** Each line feed grows the text by four characters, nothing else changes
      its length. */
  lemma {:induction false} ReplaceNewlinesLength(s: string)
    ensures |ReplaceNewlines(s)| == |s| + 4 * CountNewlines(s)
  {
    if s != [] {
      ReplaceNewlinesLength(s[1..]);
    }
  }

  /** A text without line feeds is left as it is. */
  lemma {:induction false} ReplaceNewlinesIdentity(s: string)
    requires '\n' !in s
    ensures ReplaceNewlines(s) == s
  {
    if s != [] {
      assert s[0] in s;
      assert forall k :: 0 <= k < |s[1..]| ==> s[1..][k] == s[k + 1];
      ReplaceNewlinesIdentity(s[1..]);
      assert [s[0]] + s[1..] == s;
    }
  }

  /** Replacement works piece by piece. */
  lemma {:induction false} ReplaceNewlinesConcat(a: string, b: string)
    ensures ReplaceNewlines(a + b) == ReplaceNewlines(a) + ReplaceNewlines(b)
  {
    if a == [] {
      assert a + b == b;
    } else {
      assert (a + b)[0] == a[0];
      assert (a + b)[1..] == a[1..] + b;
      ReplaceNewlinesConcat(a[1..], b);
    }
  }

  /** Replacement keeps the length exactly when there is no line feed to
      replace. */
  lemma ReplaceNewlinesKeepsLength(s: string)
    ensures |ReplaceNewlines(s)| == |s| <==> '\n' !in s
  {
    ReplaceNewlinesLength(s);
    if |ReplaceNewlines(s)| == |s| {
      NoNewlineCounted(s);
    } else if '\n' !in s {
      ReplaceNewlinesIdentity(s);
    }
  }

  /** A line feed ending a line without line feeds turns into a break tag
      right after that line. */
  lemma ReplaceNewlinesAfterLine(line: string, s: string)
    requires '\n' !in line
    ensures ReplaceNewlines(line + "\n" + s) == line + BR + ReplaceNewlines(s)
  {
    ReplaceNewlinesConcat(line + "\n", s);
    ReplaceNewlinesConcat(line, "\n");
    ReplaceNewlinesIdentity(line);
    assert ReplaceNewlines("\n") == BR;
  }
}
