/** Option and the byte type shared by the encoders. */
module Wrappers {
  datatype Option<+T> = None | Some(value: T)
}

module Bytes {
  /** One octet, as produced by `str.encode()` and consumed by `base64`. */
  newtype byte = x: int | 0 <= x < 256
}
