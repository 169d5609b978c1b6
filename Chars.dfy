/** Character classes shared by the de-obfuscator and the number parser. */
module Chars {
  /** `char::is_digit(10)`, and the digits Rust's integer `from_str` accepts:
      ASCII decimal digits only. */
  predicate IsAsciiDigit(c: char) {
    '0' <= c <= '9'
  }
}
