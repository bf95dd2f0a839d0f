/** `longest` from the lifetimes example: the longer of two strings, where
    length is `str::len`, the number of UTF-8 bytes. */
module Lifetimes {
  import opened Utf8

  /** One of the two arguments, at least as many bytes long as either; on a
      tie, the second one. */
  function Longest(x: string, y: string): (r: string)
    ensures r == x || r == y
    ensures ByteLen(r) >= ByteLen(x) && ByteLen(r) >= ByteLen(y)
    ensures ByteLen(x) == ByteLen(y) ==> r == y
  {
    if ByteLen(x) > ByteLen(y) then x else y
  }

  /** For two different strings, the first one is returned exactly when it
      has strictly more bytes. */
  lemma LongestFirstIffLonger(x: string, y: string)
    requires x != y
    ensures Longest(x, y) == x <==> ByteLen(x) > ByteLen(y)
  {
  }

  /** Swapping the arguments keeps the byte length of the result ... */
  lemma LongestLengthSymmetric(x: string, y: string)
    ensures ByteLen(Longest(x, y)) == ByteLen(Longest(y, x))
  {
  }

  /** ... but not the result itself: on a tie each order returns its second
      argument. */
  lemma LongestTieNotSymmetric(x: string, y: string)
    requires x == "ab" && y == "cd"
    ensures Longest(x, y) == y && Longest(y, x) == x
  {
    assert ByteLen(x) == 2 && ByteLen(y) == 2;
  }

  /** Bytes, not characters, decide: two accented letters outweigh three
      ASCII ones. */
  lemma LongestCountsBytes(x: string, y: string)
    requires x == "\U{00E9}\U{00E9}" && y == "abc"
    ensures Longest(x, y) == x && |x| < |y|
  {
    assert ByteLen(x) == 4 && ByteLen(y) == 3;
  }

  /** On ASCII text the byte length is the number of characters. */
  lemma LongestOnAscii(x: string, y: string)
    requires forall i :: 0 <= i < |x| ==> IsAscii(x[i])
    requires forall i :: 0 <= i < |y| ==> IsAscii(y[i])
    ensures Longest(x, y) == (if |x| > |y| then x else y)
  {
  }
}
