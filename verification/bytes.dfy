/** The bytes that texts and buffers are made of. */
module Bytes {
  type byte = b: int | 0 <= b < 256
}
