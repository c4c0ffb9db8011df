/** JavaScript's `String.prototype.trim`, which the view uses to decide that an input is blank. */
module JsText {

  /** ECMAScript WhiteSpace and LineTerminator code points, the set `trim` strips. */
  predicate IsWhitespace(c: char) {
    c == '\t' || c == '\n' || c == '\U{000B}' || c == '\U{000C}' || c == '\r' || c == ' '
    || c == '\U{00A0}' || c == '\U{1680}' || ('\U{2000}' <= c <= '\U{200A}')
    || c == '\U{2028}' || c == '\U{2029}' || c == '\U{202F}' || c == '\U{205F}'
    || c == '\U{3000}' || c == '\U{FEFF}'
  }

  predicate AllWhitespace(s: string) {
    forall k :: 0 <= k < |s| ==> IsWhitespace(s[k])
  }

  /** `r` occurs in `s` starting at index `i`. */
  predicate SegmentAt(r: string, s: string, i: int) {
    0 <= i <= |s| - |r| && s[i..i + |r|] == r
  }

  /** Drops the leading whitespace. */
  function TrimStart(s: string): string
    decreases |s|
  {
    if |s| > 0 && IsWhitespace(s[0]) then TrimStart(s[1..]) else s
  }

  /** Drops the trailing whitespace. */
  function TrimEnd(s: string): string
    decreases |s|
  {
    if |s| > 0 && IsWhitespace(s[|s| - 1]) then TrimEnd(s[..|s| - 1]) else s
  }

  /** `s.trim()`. */
  function Trim(s: string): string {
    TrimEnd(TrimStart(s))
  }

  /** The view's `!s.trim()` test. */
  predicate IsBlank(s: string) {
    Trim(s) == ""
  }

  /** `TrimStart` keeps a suffix of `s`; what it drops is all whitespace, and what it keeps
      does not start with whitespace. */
  lemma {:induction false} TrimStartIsSuffix(s: string)
    ensures |TrimStart(s)| <= |s| && TrimStart(s) == s[|s| - |TrimStart(s)|..]
    ensures AllWhitespace(s[..|s| - |TrimStart(s)|])
    ensures TrimStart(s) == [] || !IsWhitespace(TrimStart(s)[0])
    decreases |s|
  {
    if |s| > 0 && IsWhitespace(s[0]) {
      TrimStartIsSuffix(s[1..]);
      var r := TrimStart(s[1..]);
      assert s[..|s| - |r|] == [s[0]] + s[1..][..|s| - 1 - |r|];
    }
  }

  /** `TrimEnd` keeps a prefix of `s`; what it drops is all whitespace, and what it keeps
      does not end with whitespace. */
  lemma {:induction false} TrimEndIsPrefix(s: string)
    ensures |TrimEnd(s)| <= |s| && TrimEnd(s) == s[..|TrimEnd(s)|]
    ensures AllWhitespace(s[|TrimEnd(s)|..])
    ensures TrimEnd(s) == [] || !IsWhitespace(TrimEnd(s)[|TrimEnd(s)| - 1])
    decreases |s|
  {
    if |s| > 0 && IsWhitespace(s[|s| - 1]) {
      TrimEndIsPrefix(s[..|s| - 1]);
      var r := TrimEnd(s[..|s| - 1]);
      assert s[|r|..] == s[..|s| - 1][|r|..] + [s[|s| - 1]];
    }
  }

  /** `s.trim()` is the piece of `s` left once the whitespace on both sides is removed: only
      whitespace lies before and after it, it neither starts nor ends with whitespace, and
      it is empty exactly when `s` is all whitespace. */
  lemma TrimSpec(s: string)
    ensures exists i :: SegmentAt(Trim(s), s, i) && AllWhitespace(s[..i]) && AllWhitespace(s[i + |Trim(s)|..])
    ensures Trim(s) != [] ==> !IsWhitespace(Trim(s)[0]) && !IsWhitespace(Trim(s)[|Trim(s)| - 1])
    ensures Trim(s) == [] <==> AllWhitespace(s)
  {
    var t := TrimStart(s);
    var r := TrimEnd(t);
    TrimStartIsSuffix(s);
    TrimEndIsPrefix(t);
    var i := |s| - |t|;
    assert SegmentAt(r, s, i);
    assert s[i + |r|..] == t[|r|..];
    if r == [] {
      assert s == s[..i] + t;
    } else {
      assert s[i] == r[0];
    }
  }

  /** A string is blank exactly when every character in it is whitespace. */
  lemma BlankIsAllWhitespace(s: string)
    ensures IsBlank(s) <==> AllWhitespace(s)
  {
    TrimSpec(s);
  }
}
