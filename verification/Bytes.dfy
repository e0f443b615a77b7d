/** The eight-bit byte of buffers, registers and lines. */
module Bytes {
  type byte = bv8
}
