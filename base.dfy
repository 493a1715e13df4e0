/** Types shared by every part of the UUID codec. */
module Base {

  /**
   * One octet, the C code's `unsigned char`. Kept as a bounded integer: on these
   * non-negative values `>> 4` is `/ 16`, `& 0xf` is `% 16` and `<< 4` is `* 16`.
   */
  type byte = x: int | 0 <= x < 256

  /** Number of octets in a binary UUID (RFC 4122, section 4.1.2). */
  const UuidSize := 16

  /** Number of characters in the canonical text form, without the terminator. */
  const TextSize := 36

  /** The conventional optional value; `None` stands for the SQL NULL / error result. */
  datatype Option<+T> = None | Some(value: T)
}
