/**
 * Text helpers shared by the report aggregator, the annotation writer and the
 * annotation normaliser: Python's notion of whitespace, `str.strip`,
 * `startswith`, `endswith`, the `in` substring test, `split('\n')[0]` and the
 * code-point order Python uses to compare strings.
 */
module Text {

  datatype Option<T> = None | Some(value: T)

  /** The characters for which Python's `str.isspace()` holds; the `\s` class of
      a `str` regular expression is the same set. */
  predicate IsSpace(c: char) {
    || ('\t' <= c <= '\r')
    || ('\U{1C}' <= c <= '\U{1F}')
    || c == ' '
    || c == '\U{85}'
    || c == '\U{A0}'
    || c == '\U{1680}'
    || ('\U{2000}' <= c <= '\U{200A}')
    || c == '\U{2028}'
    || c == '\U{2029}'
    || c == '\U{202F}'
    || c == '\U{205F}'
    || c == '\U{3000}'
  }

  predicate AllSpace(s: string) {
    forall i :: 0 <= i < |s| ==> IsSpace(s[i])
  }

  /** The longest all-whitespace prefix of `s` (what `^(\s*)` captures). */
  function LeadingWs(s: string): (ws: string)
    ensures |ws| <= |s|
  {
    if |s| > 0 && IsSpace(s[0]) then [s[0]] + LeadingWs(s[1..]) else []
  }

  /** The indent is a whitespace prefix of `s` followed by a non-blank, if anything. */
  lemma {:induction false} LeadingWsIsPrefix(s: string)
    ensures var ws := LeadingWs(s);
      && ws == s[..|ws|]
      && AllSpace(ws)
      && (|ws| < |s| ==> !IsSpace(s[|ws|]))
  {
    if |s| > 0 && IsSpace(s[0]) {
      LeadingWsIsPrefix(s[1..]);
      var ws := LeadingWs(s);
      assert ws == [s[0]] + LeadingWs(s[1..]);
      assert s == [s[0]] + s[1..];
    }
  }

  /** `s.lstrip()` */
  function LStrip(s: string): (r: string)
    ensures |r| <= |s|
  {
    if |s| > 0 && IsSpace(s[0]) then LStrip(s[1..]) else s
  }

  /** `lstrip` drops the leading whitespace run and keeps the rest as it is.
      (Stated apart from LStrip, whose callers rarely need it.) */
  lemma {:induction false} LStripIsSuffix(s: string)
    ensures var r := LStrip(s);
      && r == s[|s| - |r|..]
      && (r == [] || !IsSpace(r[0]))
      && AllSpace(s[..|s| - |r|])
  {
    if |s| > 0 && IsSpace(s[0]) {
      LStripIsSuffix(s[1..]);
      var r := LStrip(s);
      assert s[..|s| - |r|] == [s[0]] + s[1..][..|s| - 1 - |r|];
    }
  }

  /** `s.rstrip()` */
  function RStrip(s: string): (r: string)
    ensures |r| <= |s|
  {
    if |s| > 0 && IsSpace(s[|s| - 1]) then RStrip(s[..|s| - 1]) else s
  }

  /** `rstrip` drops the trailing whitespace run and keeps the rest as it is. */
  lemma {:induction false} RStripIsPrefix(s: string)
    ensures var r := RStrip(s);
      && r == s[..|r|]
      && (r == [] || !IsSpace(r[|r| - 1]))
      && forall i :: |r| <= i < |s| ==> IsSpace(s[i])
  {
    if |s| > 0 && IsSpace(s[|s| - 1]) {
      RStripIsPrefix(s[..|s| - 1]);
    }
  }

  /** `s.strip()`: the slice of `s` left once leading and trailing whitespace is removed. */
  function Strip(s: string): (r: string)
    ensures |r| <= |s|
  {
    if |s| > 0 && IsSpace(s[0]) then Strip(s[1..]) else RStrip(s)
  }

  /** What `strip` keeps neither starts nor ends with whitespace. */
  lemma {:induction false} StripTrims(s: string)
    ensures var r := Strip(s);
      r == [] || (!IsSpace(r[0]) && !IsSpace(r[|r| - 1]))
  {
    if |s| > 0 && IsSpace(s[0]) {
      StripTrims(s[1..]);
    } else {
      RStripIsPrefix(s);
    }
  }

  /** What `strip` keeps is the slice of `s` between its leading and its trailing whitespace. */
  lemma {:induction false} StripIsSlice(s: string)
    ensures var r := Strip(s);
      var lead := |LeadingWs(s)|;
      && lead + |r| <= |s|
      && r == s[lead..lead + |r|]
      && forall i :: lead + |r| <= i < |s| ==> IsSpace(s[i])
  {
    if |s| > 0 && IsSpace(s[0]) {
      StripIsSlice(s[1..]);
      assert LeadingWs(s) == [s[0]] + LeadingWs(s[1..]);
      var r, lead := Strip(s), |LeadingWs(s[1..])|;
      assert s[1..][lead..lead + |r|] == s[lead + 1..lead + 1 + |r|];
    } else {
      assert LeadingWs(s) == [];
      RStripIsPrefix(s);
    }
  }

  predicate StartsWith(s: string, prefix: string) {
    |prefix| <= |s| && s[..|prefix|] == prefix
  }

  predicate EndsWith(s: string, suffix: string) {
    |suffix| <= |s| && s[|s| - |suffix|..] == suffix
  }

  /** Python's `sub in s`: `sub` occurs at some offset of `s`. */
  predicate Contains(s: string, sub: string) {
    StartsWith(s, sub) || (s != [] && Contains(s[1..], sub))
  }

  /** `s.split('\n')[0]`, which is also what `.*` matches at the start of `s`. */
  function FirstLine(s: string): (r: string)
    ensures |r| <= |s|
  {
    if s == [] || s[0] == '\n' then [] else [s[0]] + FirstLine(s[1..])
  }

  /** The first line is the prefix of `s` up to its first newline. */
  lemma {:induction false} FirstLineIsPrefix(s: string)
    ensures var r := FirstLine(s);
      && r == s[..|r|]
      && '\n' !in r
      && (|r| < |s| ==> s[|r|] == '\n')
  {
    if s != [] && s[0] != '\n' {
      FirstLineIsPrefix(s[1..]);
      var r := FirstLine(s);
      assert r == [s[0]] + FirstLine(s[1..]);
      assert s == [s[0]] + s[1..];
    }
  }

  /** Python's `a <= b` on strings: lexicographic by code point, a proper prefix first. */
  predicate StrLe(a: string, b: string) {
    a == [] || (b != [] && (a[0] < b[0] || (a[0] == b[0] && StrLe(a[1..], b[1..]))))
  }

  lemma {:induction false} StrLeTotal(a: string, b: string)
    ensures StrLe(a, b) || StrLe(b, a)
  {
    if a != [] && b != [] && a[0] == b[0] {
      StrLeTotal(a[1..], b[1..]);
    }
  }

  lemma {:induction false} StrLeAntisymmetric(a: string, b: string)
    requires StrLe(a, b) && StrLe(b, a)
    ensures a == b
  {
    if a != [] && b != [] {
      StrLeAntisymmetric(a[1..], b[1..]);
      assert a == [a[0]] + a[1..] && b == [b[0]] + b[1..];
    }
  }

  lemma {:induction false} StrLeTransitive(a: string, b: string, c: string)
    requires StrLe(a, b) && StrLe(b, c)
    ensures StrLe(a, c)
  {
    if a != [] && b != [] && c != [] && a[0] == b[0] && b[0] == c[0] {
      StrLeTransitive(a[1..], b[1..], c[1..]);
    }
  }

  /** Whitespace followed by a non-blank text: the leading whitespace is exactly the indent. */
  lemma {:induction false} LeadingWsOfIndented(ws: string, t: string)
    requires AllSpace(ws)
    requires t == [] || !IsSpace(t[0])
    ensures LeadingWs(ws + t) == ws
  {
    if ws != [] {
      assert (ws + t)[1..] == ws[1..] + t;
      LeadingWsOfIndented(ws[1..], t);
    }
  }

  /** Stripping an indented text only strips its tail. */
  lemma {:induction false} StripOfIndented(ws: string, t: string)
    requires AllSpace(ws)
    requires t == [] || !IsSpace(t[0])
    ensures Strip(ws + t) == RStrip(t)
  {
    if ws != [] {
      assert (ws + t)[1..] == ws[1..] + t;
      StripOfIndented(ws[1..], t);
    } else {
      assert ws + t == t;
    }
  }

  /** Stripping an indented text leaves the text after the indent. */
  lemma {:induction false} LStripOfIndented(ws: string, t: string)
    requires AllSpace(ws)
    requires t == [] || !IsSpace(t[0])
    ensures LStrip(ws + t) == t
  {
    if ws != [] {
      assert (ws + t)[1..] == ws[1..] + t;
      LStripOfIndented(ws[1..], t);
    } else {
      assert ws + t == t;
    }
  }

  /** A prefix of `t` that ends in a non-blank survives `rstrip`. */
  lemma RStripKeepsPrefix(t: string, prefix: string)
    requires StartsWith(t, prefix)
    requires prefix != [] && !IsSpace(prefix[|prefix| - 1])
    ensures StartsWith(RStrip(t), prefix)
  {
    var r := RStrip(t);
    assert r[..|prefix|] == t[..|prefix|];
  }

  /** A text with nothing to strip is its own strip. */
  lemma StripTrimmed(s: string)
    requires s == [] || (!IsSpace(s[0]) && !IsSpace(s[|s| - 1]))
    ensures Strip(s) == s
  {
    StripOfIndented([], s);
    assert [] + s == s;
  }

  /** A single line without surrounding whitespace is its own trimmed first line. */
  lemma TrimmedLineKept(s: string)
    requires '\n' !in s
    requires s == [] || (!IsSpace(s[0]) && !IsSpace(s[|s| - 1]))
    ensures Strip(FirstLine(s)) == s
  {
    FirstLineWithoutNewline(s);
    StripTrimmed(s);
  }

  lemma {:induction false} FirstLineWithoutNewline(s: string)
    requires '\n' !in s
    ensures FirstLine(s) == s
  {
    if s != [] {
      assert '\n' !in s[1..];
      FirstLineWithoutNewline(s[1..]);
      assert s == [s[0]] + s[1..];
    }
  }

  /** `s.split('\n')[0].strip()` holds no newline, and leaves a trimmed single line as it is. */
  lemma FirstLineStripped(s: string)
    ensures '\n' !in Strip(FirstLine(s))
    ensures '\n' !in s && Strip(s) == s ==> Strip(FirstLine(s)) == s
  {
    var first := FirstLine(s);
    var e := Strip(first);
    FirstLineIsPrefix(s);
    StripIsSlice(first);
    assert forall i :: 0 <= i < |e| ==> e[i] == first[|LeadingWs(first)| + i];
    if '\n' !in s {
      FirstLineWithoutNewline(s);
    }
  }

  /** An indented line that starts with a non-blank word keeps that word at the
      start once stripped. */
  lemma StripKeepsPrefix(ws: string, prefix: string, rest: string)
    requires AllSpace(ws)
    requires prefix != [] && !IsSpace(prefix[0]) && !IsSpace(prefix[|prefix| - 1])
    ensures StartsWith(Strip(ws + prefix + rest), prefix)
  {
    var t := prefix + rest;
    assert ws + prefix + rest == ws + t;
    assert t[0] == prefix[0];
    StripOfIndented(ws, t);
    assert t[..|prefix|] == prefix;
    RStripKeepsPrefix(t, prefix);
  }
}
