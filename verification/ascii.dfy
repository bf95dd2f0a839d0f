/** ASCII case folding. `str::to_lowercase` is restricted here to the ASCII
    letters: every other character is left as it is, so lowering a string is a
    character-by-character map that keeps its length and its offsets. */
module Ascii {

  predicate IsUpper(c: char) {
    'A' <= c <= 'Z'
  }

  function LowerChar(c: char): (l: char)
    ensures IsUpper(c) ==> l as int == c as int + 32
    ensures !IsUpper(c) ==> l == c
    ensures !IsUpper(l)
  {
    if IsUpper(c) then (c as int + 32) as char else c
  }

  /** The string with every ASCII capital replaced by its small letter. */
  function Lower(s: string): (r: string)
    ensures |r| == |s|
    ensures forall i :: 0 <= i < |s| ==> r[i] == LowerChar(s[i])
  {
    if s == [] then [] else [LowerChar(s[0])] + Lower(s[1..])
  }

  /** Lowering commutes with taking a slice, so an offset found in the lowered
      string names the same characters in the original one. */
  lemma LowerSlice(s: string, i: nat, j: nat)
    requires i <= j <= |s|
    ensures Lower(s[i..j]) == Lower(s)[i..j]
  {
    var a, b := Lower(s[i..j]), Lower(s)[i..j];
    forall k | 0 <= k < |a| ensures a[k] == b[k] {
      assert a[k] == LowerChar(s[i..j][k]) && s[i..j][k] == s[i + k];
    }
    assert |a| == |b| && a == b;
  }

  /** Lowering twice is lowering once. */
  lemma LowerIdempotent(s: string)
    ensures Lower(Lower(s)) == Lower(s)
  {
  }

  /** Text without capitals is its own lowered form. */
  lemma LowerNoUpper(s: string)
    requires forall i :: 0 <= i < |s| ==> !IsUpper(s[i])
    ensures Lower(s) == s
  {
  }

  /** Lowering works piece by piece. */
  lemma LowerAppend(a: string, b: string)
    ensures Lower(a + b) == Lower(a) + Lower(b)
  {
    assert forall i :: 0 <= i < |a + b| ==> Lower(a + b)[i] == (Lower(a) + Lower(b))[i];
  }

  /** Lowering leaves a tail without capitals as it is. */
  lemma LowerTail(s: string, n: nat)
    requires n <= |s| && forall k :: n <= k < |s| ==> !IsUpper(s[k])
    ensures Lower(s)[n..] == s[n..]
  {
    LowerSlice(s, n, |s|);
    LowerNoUpper(s[n..]);
  }
}
