/** `str::trim`: strip leading and trailing white space. */
module Whitespace {

  /** `char::is_whitespace`, the Unicode White_Space property: the ASCII
      controls from tab to carriage return, the space, and the listed
      Unicode spaces and separators. */
  predicate IsWhitespace(c: char) {
    ('\t' <= c <= '\r') || c == ' ' || c == '\U{0085}' || c == '\U{00A0}'
    || c == '\U{1680}' || ('\U{2000}' <= c <= '\U{200A}') || c == '\U{2028}'
    || c == '\U{2029}' || c == '\U{202F}' || c == '\U{205F}' || c == '\U{3000}'
  }

  /** Neither end of `s` is white space. */
  predicate Tidy(s: string) {
    s == [] || (!IsWhitespace(s[0]) && !IsWhitespace(s[|s| - 1]))
  }

  function TrimStart(s: string): (r: string)
    ensures |r| <= |s| && r == s[|s| - |r|..]
    ensures forall i :: 0 <= i < |s| - |r| ==> IsWhitespace(s[i])
    ensures r == [] || !IsWhitespace(r[0])
  {
    if s != [] && IsWhitespace(s[0]) then TrimStart(s[1..]) else s
  }

  function TrimEnd(s: string): (r: string)
    ensures |r| <= |s| && r == s[..|r|]
    ensures forall i :: |r| <= i < |s| ==> IsWhitespace(s[i])
    ensures r == [] || !IsWhitespace(r[|r| - 1])
  {
    if s != [] && IsWhitespace(s[|s| - 1]) then TrimEnd(s[..|s| - 1]) else s
  }

  /** How many white space characters `s` starts with. */
  function Indent(s: string): (n: nat)
    ensures n <= |s| && TrimStart(s) == s[n..]
  {
    |s| - |TrimStart(s)|
  }

  /** The longest slice of `s` whose ends are not white space, with only white
      space cut off on either side. */
  function Trim(s: string): (r: string)
    ensures Tidy(r)
    ensures Indent(s) + |r| <= |s| && r == s[Indent(s)..Indent(s) + |r|]
    ensures forall i :: 0 <= i < Indent(s) ==> IsWhitespace(s[i])
    ensures forall i :: Indent(s) + |r| <= i < |s| ==> IsWhitespace(s[i])
  {
    TrimEndOfSuffix(s, Indent(s));
    TrimEnd(TrimStart(s))
  }

  /** Trimming the end of a suffix of `s` that starts with no white space
      leaves a tidy slice of `s`, with only white space after it. */
  lemma TrimEndOfSuffix(s: string, a: nat)
    requires a <= |s| && (a == |s| || !IsWhitespace(s[a]))
    ensures Tidy(TrimEnd(s[a..]))
    ensures a + |TrimEnd(s[a..])| <= |s| && TrimEnd(s[a..]) == s[a..a + |TrimEnd(s[a..])|]
    ensures forall i :: a + |TrimEnd(s[a..])| <= i < |s| ==> IsWhitespace(s[i])
  {
    var t := s[a..];
    var r := TrimEnd(t);
    assert Tidy(r) by {
      if r != [] {
        assert r[0] == t[0];
      }
    }
    forall i | a + |r| <= i < |s| ensures IsWhitespace(s[i]) {
      assert s[i] == t[i - a];
    }
    assert s[a..a + |r|] == t[..|r|];
  }

  /** A string whose ends are not white space is left as it is. */
  lemma TrimTidy(s: string)
    requires Tidy(s)
    ensures Trim(s) == s
  {
  }

  /** Trimming twice is trimming once. */
  lemma TrimIdempotent(s: string)
    ensures Trim(Trim(s)) == Trim(s)
  {
    TrimTidy(Trim(s));
  }

  /** Indentation in front of a tidy text is all that trimming removes. */
  lemma {:induction false} TrimIndented(w: string, s: string)
    requires forall i :: 0 <= i < |w| ==> IsWhitespace(w[i])
    requires s != [] && Tidy(s)
    ensures Trim(w + s) == s
    decreases |w|
  {
    if w == [] {
      assert w + s == s;
    } else {
      assert (w + s)[1..] == w[1..] + s;
      TrimIndented(w[1..], s);
    }
  }
}
