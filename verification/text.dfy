/**
  Whitespace trimming as done by JavaScript's String.prototype.trim, which the
  add-habit form applies to both the name and the category field.
 */
module Text {

  /** The WhiteSpace and LineTerminator code points of ECMA-262, which trim strips. */
  predicate IsWhitespace(c: char) {
    || c == '\t' || c == '\n' || c == '\U{000B}' || c == '\U{000C}' || c == '\r'
    || c == ' ' || c == '\U{00A0}' || c == '\U{1680}'
    || ('\U{2000}' <= c <= '\U{200A}')
    || c == '\U{2028}' || c == '\U{2029}' || c == '\U{202F}' || c == '\U{205F}'
    || c == '\U{3000}' || c == '\U{FEFF}'
  }

  predicate AllWhitespace(s: string) {
    forall i :: 0 <= i < |s| ==> IsWhitespace(s[i])
  }

  /** A string that trim leaves alone: empty, or starting and ending with a non-whitespace character. */
  predicate IsTrimmed(s: string) {
    s == [] || (!IsWhitespace(s[0]) && !IsWhitespace(s[|s| - 1]))
  }

  /** r sits at offset a inside s, and everything of s around it is whitespace. */
  ghost predicate PaddedAt(s: string, r: string, a: int) {
    && 0 <= a <= |s| - |r|
    && r == s[a..a + |r|]
    && AllWhitespace(s[..a])
    && AllWhitespace(s[a + |r|..])
  }

  /** Drops the leading whitespace: the result is the suffix of s after its longest whitespace prefix. */
  function TrimStart(s: string): (r: string)
    ensures |r| <= |s| && r == s[|s| - |r|..]
    ensures AllWhitespace(s[..|s| - |r|])
    ensures r == [] || !IsWhitespace(r[0])
  {
    if |s| > 0 && IsWhitespace(s[0]) then
      var r := TrimStart(s[1..]);
      assert s[..|s| - |r|] == [s[0]] + s[1..][..|s| - 1 - |r|];
      r
    else
      s
  }

  /** Drops the trailing whitespace: the result is the prefix of s before its longest whitespace suffix. */
  function TrimEnd(s: string): (r: string)
    ensures |r| <= |s| && r == s[..|r|]
    ensures AllWhitespace(s[|r|..])
    ensures r == [] || !IsWhitespace(r[|r| - 1])
  {
    if |s| > 0 && IsWhitespace(s[|s| - 1]) then
      var r := TrimEnd(s[..|s| - 1]);
      assert s[|r|..] == s[..|s| - 1][|r|..] + [s[|s| - 1]];
      r
    else
      s
  }

  /** String.prototype.trim: s without its leading and trailing whitespace. */
  function Trim(s: string): (r: string)
    ensures IsTrimmed(r)
    ensures r == [] <==> AllWhitespace(s)
    ensures exists a :: PaddedAt(s, r, a)
  {
    var u := TrimStart(s);
    var r := TrimEnd(u);
    assert TrimSteps(s, u, r);
    TrimFacts(s, u, r);
    r
  }

  lemma TrimFacts(s: string, u: string, r: string)
    requires TrimSteps(s, u, r)
    ensures IsTrimmed(r)
    ensures r == [] <==> AllWhitespace(s)
    ensures PaddedAt(s, r, |s| - |u|)
  {
    TrimEndsTrimmed(u, r);
    TrimEmptyIffBlank(s, u, r);
    TrimIsPadded(s, u, r);
  }

  lemma TrimEndsTrimmed(u: string, r: string)
    requires u == [] || !IsWhitespace(u[0])
    requires |r| <= |u| && r == u[..|r|] && (r == [] || !IsWhitespace(r[|r| - 1]))
    ensures IsTrimmed(r)
  {
    assert r != [] ==> r[0] == u[0];
  }

  lemma TrimEmptyIffBlank(s: string, u: string, r: string)
    requires TrimSteps(s, u, r)
    ensures r == [] <==> AllWhitespace(s)
  {
    assert r == [] ==> u[|r|..] == u;
    assert u != [] ==> u[0] == s[|s| - |u|];
  }

  /** u is what TrimStart leaves of s, and r what TrimEnd leaves of u. */
  ghost predicate TrimSteps(s: string, u: string, r: string) {
    && |u| <= |s| && u == s[|s| - |u|..] && AllWhitespace(s[..|s| - |u|])
    && (u == [] || !IsWhitespace(u[0]))
    && |r| <= |u| && r == u[..|r|] && AllWhitespace(u[|r|..])
    && (r == [] || !IsWhitespace(r[|r| - 1]))
  }

  lemma TrimIsPadded(s: string, u: string, r: string)
    requires TrimSteps(s, u, r)
    ensures PaddedAt(s, r, |s| - |u|)
  {
    var a := |s| - |u|;
    assert s[a + |r|..] == u[|r|..];
  }

  /** Trimming is idempotent: a trimmed string is its own trim. */
  lemma TrimFixesTrimmed(s: string)
    requires IsTrimmed(s)
    ensures Trim(s) == s
  {
  }

  lemma TrimIdempotent(s: string)
    ensures Trim(Trim(s)) == Trim(s)
  {
    TrimFixesTrimmed(Trim(s));
  }
}
