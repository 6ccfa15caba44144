/** Bytes as Go's `[]byte` holds them. */
module Bytes {

  type byte = x: int | 0 <= x < 256
}
