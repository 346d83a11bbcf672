module Bytes {
  /** One byte of a wire message. */
  type byte = x: int | 0 <= x < 256
}
