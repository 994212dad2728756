/**
 * The character classes of ECMAScript that the page relies on: `\s` and
 * `String.prototype.trim` share one whitespace set, and `\d` is ASCII 0-9.
 */
module JsText {

  /**
   * ECMAScript WhiteSpace or LineTerminator: TAB, LF, VT, FF, CR, SPACE,
   * NO-BREAK SPACE, the Unicode space separators (category Zs), LINE
   * SEPARATOR, PARAGRAPH SEPARATOR and ZERO WIDTH NO-BREAK SPACE.
   */
  predicate IsSpace(c: char) {
    var n := c as int;
    || (0x09 <= n <= 0x0D)
    || n == 0x20 || n == 0xA0 || n == 0x1680
    || (0x2000 <= n <= 0x200A)
    || n == 0x2028 || n == 0x2029 || n == 0x202F || n == 0x205F
    || n == 0x3000 || n == 0xFEFF
  }

  /** `\d`: the ASCII digits. */
  predicate IsDigit(c: char) {
    '0' <= c <= '9'
  }

  /** Every character is whitespace (the empty string included). */
  predicate IsBlank(s: string) {
    forall i | 0 <= i < |s| :: IsSpace(s[i])
  }

  /** Number of whitespace characters at the front of `s`. */
  function LeadingSpaces(s: string): (k: nat)
    ensures k <= |s|
    ensures forall i | 0 <= i < k :: IsSpace(s[i])
    ensures k < |s| ==> !IsSpace(s[k])
  {
    if s == [] || !IsSpace(s[0]) then 0 else 1 + LeadingSpaces(s[1..])
  }

  /** Index where the whitespace at the back of `s` begins. */
  function TrailingSpacesStart(s: string): (k: nat)
    ensures k <= |s|
    ensures forall i | k <= i < |s| :: IsSpace(s[i])
    ensures k > 0 ==> !IsSpace(s[k - 1])
  {
    if s == [] || !IsSpace(s[|s| - 1]) then |s| else TrailingSpacesStart(s[..|s| - 1])
  }

  /**
   * `s.trim()`: the slice of `s` left after removing whitespace at both ends.
   * Only whitespace is cut off at either end; the result is empty exactly
   * when `s` is blank, and otherwise starts and ends with a non-whitespace
   * character.
   */
  function Trim(s: string): (t: string)
    ensures exists a, b | 0 <= a <= b <= |s| :: t == s[a..b] && IsBlank(s[..a]) && IsBlank(s[b..])
    ensures t == [] <==> IsBlank(s)
    ensures t != [] ==> !IsSpace(t[0]) && !IsSpace(t[|t| - 1])
  {
    var e := TrailingSpacesStart(s);
    var b := LeadingSpaces(s[..e]);
    assert s[..e][b..] == s[b..e];
    assert IsBlank(s[..b]) by {
      assert forall i | 0 <= i < b :: s[..b][i] == s[..e][i];
    }
    assert IsBlank(s[e..]);
    s[b..e]
  }
}
