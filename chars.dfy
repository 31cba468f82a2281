/** Character classes of the Python regular expressions and string methods
    that the pipeline uses. */
module Chars {

  predicate IsAsciiLetter(c: char) {
    'a' <= c <= 'z' || 'A' <= c <= 'Z'
  }

  /** `[0-9]`; Python's `\d` is taken to be ASCII as well. */
  predicate IsDigit(c: char) {
    '0' <= c <= '9'
  }

  /** `[a-zA-Z_]` */
  predicate IsNameChar(c: char) {
    IsAsciiLetter(c) || c == '_'
  }

  /** `\w`, taken to be ASCII `[A-Za-z0-9_]`. */
  predicate IsWordChar(c: char) {
    IsAsciiLetter(c) || IsDigit(c) || c == '_'
  }

  /** `[\d.]` and `[0-9.]` */
  predicate IsDecimalChar(c: char) {
    IsDigit(c) || c == '.'
  }

  /** The characters Python's `str.isspace` accepts; the regular-expression
      class `\s` and `str.strip()` use the same set. */
  predicate IsSpace(c: char) {
    || '\t' <= c <= '\r'
    || '\U{1C}' <= c <= ' '
    || c == '\U{85}' || c == '\U{A0}' || c == '\U{1680}'
    || '\U{2000}' <= c <= '\U{200A}'
    || c == '\U{2028}' || c == '\U{2029}' || c == '\U{202F}' || c == '\U{205F}'
    || c == '\U{3000}'
  }

  /** ASCII upper-to-lower case mapping (Python's `str.lower` on ASCII text). */
  function ToLower(c: char): (r: char)
    ensures 'A' <= c <= 'Z' ==> r as int == c as int + 32
    ensures !('A' <= c <= 'Z') ==> r == c
    ensures !('A' <= r <= 'Z')
  {
    if 'A' <= c <= 'Z' then (c as int + 32) as char else c
  }
}
