/**
 * The character predicates of Rust's `char` that the matcher and the session
 * use. White space, control characters, decimal digits and UTF-8 lengths
 * follow the Unicode definitions exactly; the numeric, alphabetic and case
 * predicates are given for ASCII, and treat every other character as neither
 * numeric, alphabetic nor upper case.
 */
module Unicode {
  import opened Wrappers

  /** `char::is_whitespace`: the Unicode White_Space property. */
  predicate IsWhitespace(c: char) {
    ('\t' <= c <= '\r') || c == ' ' || c == '\U{85}' || c == '\U{A0}' || c == '\U{1680}'
    || ('\U{2000}' <= c <= '\U{200A}') || c == '\U{2028}' || c == '\U{2029}'
    || c == '\U{202F}' || c == '\U{205F}' || c == '\U{3000}'
  }

  /** `char::is_control`: general category Cc. */
  predicate IsControl(c: char) {
    c <= '\U{1F}' || ('\U{7F}' <= c <= '\U{9F}')
  }

  /** `char::is_numeric`, on ASCII. */
  predicate IsNumeric(c: char) {
    '0' <= c <= '9'
  }

  /** `char::is_alphabetic`, on ASCII. */
  predicate IsAlphabetic(c: char) {
    ('a' <= c <= 'z') || ('A' <= c <= 'Z')
  }

  /** `char::is_uppercase`, on ASCII. */
  predicate IsUppercase(c: char) {
    'A' <= c <= 'Z'
  }

  /**
   * `char::to_lowercase` of an upper-case character. On ASCII it yields
   * exactly one character, which is returned here.
   */
  function ToLowercase(c: char): (r: char)
    requires IsUppercase(c)
    ensures 'a' <= r <= 'z' && r != c
  {
    (c as int + 32) as char
  }

  /** `char::to_digit(10)`. */
  function ToDigit(c: char): (r: Option<nat>)
    ensures r.Some? <==> IsNumeric(c)
    ensures r.Some? ==> r.value < 10
  {
    if '0' <= c <= '9' then Some(c as int - '0' as int) else None
  }

  /** Number of bytes of `c` in UTF-8. */
  function Utf8Len(c: char): (n: nat)
    ensures 1 <= n <= 4
    ensures n == 1 <==> c < '\U{80}'
  {
    if c < '\U{80}' then 1 else if c < '\U{800}' then 2 else if c < '\U{10000}' then 3 else 4
  }

  /** `str::len`: the number of bytes of `s` in UTF-8. */
  function ByteLength(s: string): (n: nat)
    ensures n >= |s|
    ensures n == |s| <==> IsAscii(s)
  {
    if s == [] then 0 else Utf8Len(s[0]) + ByteLength(s[1..])
  }

  predicate IsAscii(s: string) {
    forall i :: 0 <= i < |s| ==> s[i] < '\U{80}'
  }
}
