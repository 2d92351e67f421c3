/** Bytes, as the drivers and the file system move them. */
module Bytes {
  type Byte = x: int | 0 <= x < 256
}
