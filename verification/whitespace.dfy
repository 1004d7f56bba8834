/** `string.IsNullOrWhiteSpace`, the test that decides whether a row is skipped. */
module Whitespace {

  /** `char.IsWhiteSpace`: the Unicode space separators, the line and
      paragraph separators, U+0009..U+000D, U+0085 and U+00A0. */
  predicate IsWhiteSpace(c: char) {
    var n := c as int;
    || n == 0x20 || (0x09 <= n <= 0x0D) || n == 0x85 || n == 0xA0
    || n == 0x1680 || (0x2000 <= n <= 0x200A) || n == 0x2028 || n == 0x2029
    || n == 0x202F || n == 0x205F || n == 0x3000
  }

  /** A cell that is empty or holds only white space. */
  predicate IsBlank(s: string) {
    forall i :: 0 <= i < |s| ==> IsWhiteSpace(s[i])
  }

  /**
   * The library's own scan: walk the cell and stop at the first character
   * that is not white space.
   */
  method IsNullOrWhiteSpace(s: string) returns (blank: bool)
    ensures blank <==> IsBlank(s)
  {
    var i := 0;
    while i < |s|
      invariant 0 <= i <= |s|
      invariant forall j :: 0 <= j < i ==> IsWhiteSpace(s[j])
    {
      if !IsWhiteSpace(s[i]) {
        return false;
      }
      i := i + 1;
    }
    return true;
  }
}
