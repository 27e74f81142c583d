/** Octets, as the protobuf `bytes` fields and the UTF-8 codec see them. */
module Bytes {
  newtype byte = x: int | 0 <= x < 0x100
}
