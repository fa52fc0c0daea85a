/** JavaScript's `String.prototype.trim`, which the view-models apply to todo
    text and usernames. */
module Strings {

  /** The code points ECMAScript counts as WhiteSpace or LineTerminator. */
  predicate IsWhitespace(c: char) {
    c == '\t' || c == '\n' || c == '\U{000B}' || c == '\U{000C}' || c == '\r'
    || c == ' ' || c == '\U{00A0}' || c == '\U{1680}'
    || ('\U{2000}' <= c <= '\U{200A}')
    || c == '\U{2028}' || c == '\U{2029}' || c == '\U{202F}' || c == '\U{205F}'
    || c == '\U{3000}' || c == '\U{FEFF}'
  }

  /** Every character of `s` is whitespace (also true of the empty string). */
  predicate Blank(s: string) {
    forall k :: 0 <= k < |s| ==> IsWhitespace(s[k])
  }

  /** Neither end of `s` is whitespace. */
  predicate Unpadded(s: string) {
    s == [] || (!IsWhitespace(s[0]) && !IsWhitespace(s[|s| - 1]))
  }

  /** The length of the longest whitespace prefix of `s`. */
  function LeadingWhitespace(s: string): (n: nat)
    ensures n <= |s|
    ensures Blank(s[..n])
    ensures n < |s| ==> !IsWhitespace(s[n])
  {
    if |s| == 0 || !IsWhitespace(s[0]) then 0
    else
      var m := LeadingWhitespace(s[1..]);
      assert s[..m + 1] == [s[0]] + s[1..][..m];
      m + 1
  }

  /** The length of the longest whitespace suffix of `s`. */
  function TrailingWhitespace(s: string): (n: nat)
    ensures n <= |s|
    ensures Blank(s[|s| - n..])
    ensures n < |s| ==> !IsWhitespace(s[|s| - 1 - n])
  {
    if |s| == 0 || !IsWhitespace(s[|s| - 1]) then 0
    else
      var front := s[..|s| - 1];
      var m := TrailingWhitespace(front);
      assert s[|s| - (m + 1)..] == front[|front| - m..] + [s[|s| - 1]];
      m + 1
  }

  /** `s.trim()`: `s` without its leading and trailing whitespace. */
  function Trim(s: string): (r: string)
    ensures |r| <= |s|
    ensures var i := LeadingWhitespace(s);
      i + |r| <= |s| && r == s[i..i + |r|] && Blank(s[..i]) && Blank(s[i + |r|..])
    ensures Unpadded(r)
  {
    var i := LeadingWhitespace(s);
    var rest := s[i..];
    var j := TrailingWhitespace(rest);
    var r := rest[..|rest| - j];
    assert s[i + |r|..] == rest[|rest| - j..];
    assert r != [] ==> r[0] == s[i];
    r
  }

  /** The whitespace prefix of a padded string is exactly the padding when
      what follows it starts with a non-whitespace character. */
  lemma {:induction false} LeadingWhitespaceOfPadded(a: string, t: string)
    requires Blank(a)
    requires t == [] || !IsWhitespace(t[0])
    ensures LeadingWhitespace(a + t) == |a|
  {
    if a != [] {
      assert (a + t)[1..] == a[1..] + t;
      LeadingWhitespaceOfPadded(a[1..], t);
    } else {
      assert a + t == t;
    }
  }

  /** The whitespace suffix of a padded string is exactly the padding when
      what precedes it ends with a non-whitespace character. */
  lemma {:induction false} TrailingWhitespaceOfPadded(t: string, b: string)
    requires Blank(b)
    requires t == [] || !IsWhitespace(t[|t| - 1])
    ensures TrailingWhitespace(t + b) == |b|
  {
    if b != [] {
      var b' := b[..|b| - 1];
      assert (t + b)[..|t + b| - 1] == t + b';
      TrailingWhitespaceOfPadded(t, b');
    } else {
      assert t + b == t;
    }
  }

  /** Trimming removes exactly the padding: whitespace around an unpadded
      core is dropped and the core is kept as it is. Together with the
      contract of `Trim`, this characterises `Trim(s)` as the unique unpadded
      middle of `s` between two blank ends. */
  lemma TrimOfPadded(a: string, core: string, b: string)
    requires Blank(a) && Blank(b) && Unpadded(core)
    ensures Trim(a + core + b) == core
  {
    var s := a + core + b;
    if core == [] {
      TrimOfBlank(s);
    } else {
      assert s == a + (core + b);
      LeadingWhitespaceOfPadded(a, core + b);
      var rest := s[|a|..];
      assert rest == core + b;
      TrailingWhitespaceOfPadded(core, b);
      assert rest[..|rest| - |b|] == core;
    }
  }

  /** A blank string trims to the empty string. */
  lemma TrimOfBlank(s: string)
    requires Blank(s)
    ensures Trim(s) == []
  {
    assert LeadingWhitespace(s) == |s|;
  }

  /** `!s.trim()` holds exactly for blank strings: the empty-input checks of
      the view-models reject whitespace-only input and nothing else. */
  lemma TrimEmptyIffBlank(s: string)
    ensures Trim(s) == [] <==> Blank(s)
  {
    if Blank(s) {
      TrimOfBlank(s);
    } else {
      var i := LeadingWhitespace(s);
      assert i < |s| && !IsWhitespace(s[i]);
    }
  }

  /** Trimming twice is trimming once. */
  lemma TrimIdempotent(s: string)
    ensures Trim(Trim(s)) == Trim(s)
  {
    var r := Trim(s);
    assert r == [] + r + [];
    TrimOfPadded([], r, []);
  }
}
