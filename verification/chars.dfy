/**
 * Character classes used by the classifier, as Python's `str` methods and
 * `re` module define them for `str` (Unicode) patterns.
 */
module Chars {

  /**
   * Python's `str.isspace()`: the characters whose bidirectional class is
   * WS, B or S, or whose general category is Zs. The `re` class `\s` of a
   * `str` pattern and the argument-less `str.strip()` use the same set.
   */
  predicate IsSpace(c: char) {
    || ('\t' <= c <= '\r')
    || ('\U{1C}' <= c <= '\U{1F}')
    || c == ' '
    || c == '\U{85}'
    || c == '\U{A0}'
    || c == '\U{1680}'
    || ('\U{2000}' <= c <= '\U{200A}')
    || c == '\U{2028}'
    || c == '\U{2029}'
    || c == '\U{202F}'
    || c == '\U{205F}'
    || c == '\U{3000}'
  }

  /** `\d` and `str.isdigit()`, restricted to ASCII digits. */
  predicate IsDigit(c: char) {
    '0' <= c <= '9'
  }

  predicate IsAsciiLower(c: char) {
    'a' <= c <= 'z'
  }

  predicate IsAsciiUpper(c: char) {
    'A' <= c <= 'Z'
  }

  /** The class `[a-zA-Z]` without `re.IGNORECASE`. */
  predicate IsAsciiLetter(c: char) {
    IsAsciiLower(c) || IsAsciiUpper(c)
  }

  /** `\w`, restricted to ASCII: `[a-zA-Z0-9_]`. */
  predicate IsWordChar(c: char) {
    IsAsciiLetter(c) || IsDigit(c) || c == '_'
  }

  /**
   * The four non-ASCII characters that Python's `re.IGNORECASE` lets an ASCII
   * letter pattern match: U+0130 and U+0131 match `i`, U+017F matches `s`,
   * and U+212A (KELVIN SIGN) matches `k`.
   */
  predicate IsFoldedLetter(c: char) {
    c == '\U{130}' || c == '\U{131}' || c == '\U{17F}' || c == '\U{212A}'
  }

  /** The class `[a-zA-Z]` under `re.IGNORECASE`. */
  predicate IsLetterIgnoreCase(c: char) {
    IsAsciiLetter(c) || IsFoldedLetter(c)
  }

  /** The class `[a-zA-Z0-9]` under `re.IGNORECASE`. */
  predicate IsAlnumIgnoreCase(c: char) {
    IsLetterIgnoreCase(c) || IsDigit(c)
  }

  /** ASCII lower-casing; every other character is returned as is. */
  function AsciiLower(c: char): (r: char)
    ensures IsAsciiUpper(c) ==> IsAsciiLower(r) && r as int == c as int + 32
    ensures !IsAsciiUpper(c) ==> r == c
  {
    if IsAsciiUpper(c) then (c as int + 32) as char else c
  }

  /**
   * Whether `c` matches the pattern character `p` under `re.IGNORECASE`,
   * for a pattern written in lower case (as the URL scheme literals are).
   */
  predicate MatchesIgnoreCase(c: char, p: char) {
    || c == p
    || (IsAsciiLower(p) && c as int == p as int - 32)
    || (p == 'i' && (c == '\U{130}' || c == '\U{131}'))
    || (p == 's' && c == '\U{17F}')
    || (p == 'k' && c == '\U{212A}')
  }
}
