/** Bytes as the kernel and the test scripts see them: integers 0..255. */
module Bytes {
  newtype byte = x: int | 0 <= x < 256
}
