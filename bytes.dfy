/** Swift's `UInt8`: an unsigned byte. */
module Bytes {

  newtype UInt8 = x: int | 0 <= x < 0x100
}
