/** Hexadecimal digits: classification, decoding and the lower-case digit table. */
module HexDigits {
  import opened Base

  /** `isxdigit` in the C locale: 0-9, a-f, A-F. */
  predicate IsHexDigit(c: char) {
    ('0' <= c <= '9') || ('a' <= c <= 'f') || ('A' <= c <= 'F')
  }

  /** The digits the formatter emits. */
  predicate IsLowerHexDigit(c: char) {
    ('0' <= c <= '9') || ('a' <= c <= 'f')
  }

  /** Reference value of a hexadecimal digit, letter case ignored. */
  function HexValue(c: char): (v: nat)
    requires IsHexDigit(c)
    ensures v < 16
  {
    if '0' <= c <= '9' then c as int - '0' as int
    else if 'a' <= c <= 'f' then c as int - 'a' as int + 10
    else c as int - 'A' as int + 10
  }

  /**
   * The branch-free ASCII decoder: bit 6 is set exactly for letters, and adding 9
   * to a letter's code makes its low four bits the digit's value. The C code works
   * on a non-negative `int`, where `byte >> 6` is `/ 64`, `1 & x` is `x % 2` and
   * `& 0xf` is `% 16`. Defined only on hexadecimal digits, as its caller checks
   * `isxdigit` first.
   */
  function HexToInt(c: char): (v: byte)
    requires IsHexDigit(c)
    ensures v == HexValue(c)
  {
    var code := c as int;
    (code + 9 * ((code / 64) % 2)) % 16
  }

  /** The formatter's digit table. */
  const Digits: string := "0123456789abcdef"

  /** The lower-case digit for a nibble, `Digits[n]`; the inverse of HexValue on lower-case digits. */
  function LowerDigit(n: nat): (c: char)
    requires n < 16
    ensures IsHexDigit(c) && IsLowerHexDigit(c)
    ensures HexValue(c) == n
  {
    Digits[n]
  }
}
