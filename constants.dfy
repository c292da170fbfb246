/** Wire constants of the simple serial protocol and the byte type they live in. */
module SimpleSerialConstants {

  /** One octet as read from or written to the serial line. */
  newtype byte = b: int | 0 <= b < 256

  /** First byte of every frame. */
  const PREAMBLE_BYTE: byte := 0xAA

  /** The only protocol version defined: version 1. */
  const VERSION_1: byte := 0x01

  /** Last byte of every frame. */
  const FRAME_END: byte := 0x1E

  /** True when `n` can be written as a single unsigned little-endian byte. */
  predicate FitsInByte(n: int) {
    0 <= n < 256
  }
}

/** The usual optional-value wrapper. */
module Wrappers {

  datatype Option<+T> = None | Some(value: T)
}
