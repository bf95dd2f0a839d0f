/** Byte lengths of UTF-8 encoded text: Rust's `str::len` and the offsets that
    `str::find` returns count bytes, not characters. */
module Utf8 {

  predicate IsAscii(c: char) {
    c as int < 0x80
  }

  /** The number of bytes UTF-8 uses for `c`. */
  function CharByteLen(c: char): (n: nat)
    ensures 1 <= n <= 4
    ensures n == 1 <==> IsAscii(c)
  {
    if c as int < 0x80 then 1
    else if c as int < 0x800 then 2
    else if c as int < 0x1_0000 then 3
    else 4
  }

  /** The number of bytes UTF-8 uses for `s`. */
  function ByteLen(s: string): (n: nat)
    ensures n >= |s|
    ensures n == |s| <==> forall i :: 0 <= i < |s| ==> IsAscii(s[i])
  {
    if s == [] then 0 else CharByteLen(s[0]) + ByteLen(s[1..])
  }
}
