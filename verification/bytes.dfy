/** Octets, as the typed arrays of the source hold them. */
module Bytes {
  type byte = b: int | 0 <= b < 256
}
