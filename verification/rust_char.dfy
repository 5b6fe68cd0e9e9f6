/**
 * The character and byte classes of Rust's standard library that the
 * modelled code relies on.
 */
module RustChar {

  /** A byte as read from a `Read` stream (`u8`). */
  newtype byte = x: int | 0 <= x < 256

  /** `char::is_ascii_digit` */
  predicate IsAsciiDigit(c: char) {
    '0' <= c <= '9'
  }

  /** `char::is_ascii_alphanumeric` */
  predicate IsAsciiAlphanumeric(c: char) {
    IsAsciiDigit(c) || 'a' <= c <= 'z' || 'A' <= c <= 'Z'
  }

  /**
   * `char::is_alphanumeric`. Rust consults the Unicode Alphabetic and
   * Numeric tables; only their ASCII part is modelled here.
   */
  predicate IsAlphanumeric(c: char) {
    IsAsciiAlphanumeric(c)
  }

  /** `char::is_whitespace`: the Unicode White_Space property, listed in full. */
  predicate IsWhitespace(c: char) {
    || c == ' '
    || '\t' <= c <= '\r'          // tab, line feed, vertical tab, form feed, carriage return
    || c == '\U{85}'              // next line
    || c == '\U{A0}'              // no-break space
    || c == '\U{1680}'            // ogham space mark
    || '\U{2000}' <= c <= '\U{200A}'
    || c == '\U{2028}'            // line separator
    || c == '\U{2029}'            // paragraph separator
    || c == '\U{202F}'
    || c == '\U{205F}'
    || c == '\U{3000}'            // ideographic space
  }

  /** `u8::is_ascii_whitespace`: space, tab, line feed, form feed, carriage return (no vertical tab). */
  predicate IsAsciiWhitespace(b: byte) {
    b == 0x20 || b == 0x09 || b == 0x0A || b == 0x0C || b == 0x0D
  }

  const OpenBracket: byte := 0x5B   // b'['
  const CloseBracket: byte := 0x5D  // b']'
  const Comma: byte := 0x2C         // b','
}
