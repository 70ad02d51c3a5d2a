/**
 Character classes and string measures the name validator relies on.

 Rust's `char::is_numeric` and `char::is_alphanumeric` classify by the Unicode
 tables; this model restricts both to ASCII. `String::len` counts UTF-8 bytes,
 which `ByteLen` models exactly for every Unicode scalar value.
 */
module Text {

  /** Numeric characters: the ASCII decimal digits. */
  predicate IsNumeric(c: char) {
    '0' <= c <= '9'
  }

  /** Alphabetic characters: the ASCII letters. */
  predicate IsAlphabetic(c: char) {
    'a' <= c <= 'z' || 'A' <= c <= 'Z'
  }

  /** As in Rust, a character is alphanumeric when it is alphabetic or numeric. */
  predicate IsAlphanumeric(c: char) {
    IsAlphabetic(c) || IsNumeric(c)
  }

  predicate IsAscii(c: char) {
    (c as int) < 0x80
  }

  /** Number of bytes in the UTF-8 encoding of `c`. */
  function Utf8Width(c: char): (w: nat)
    ensures 1 <= w <= 4
    ensures w == 1 <==> IsAscii(c)
  {
    if (c as int) < 0x80 then 1
    else if (c as int) < 0x800 then 2
    else if (c as int) < 0x1_0000 then 3
    else 4
  }

  /** Length of `s` in UTF-8 bytes: what Rust's `String::len` reports. */
  function ByteLen(s: string): (n: nat)
    ensures |s| <= n <= 4 * |s|
    ensures n == |s| <==> forall i :: 0 <= i < |s| ==> IsAscii(s[i])
  {
    if s == [] then 0
    else
      assert forall i :: 0 <= i < |s| - 1 ==> s[1..][i] == s[i + 1];
      Utf8Width(s[0]) + ByteLen(s[1..])
  }

  /** Number of elements of `s` satisfying `p`: Rust's `iter().filter(p).count()`. */
  function Count<T>(s: seq<T>, p: T -> bool): (n: nat)
    ensures n <= |s|
    ensures n == 0 <==> forall i :: 0 <= i < |s| ==> !p(s[i])
  {
    if s == [] then 0
    else
      assert forall i :: 0 <= i < |s| - 1 ==> s[1..][i] == s[i + 1];
      (if p(s[0]) then 1 else 0) + Count(s[1..], p)
  }
}
