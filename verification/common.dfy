/** Optional values, used for the parsers and decoders that can fail. */
module Wrappers {
  datatype Option<+T> = None | Some(value: T)
}

/** Octets: the element type of the key, the message and the digest. */
module Bytes {
  newtype byte = x: int | 0 <= x < 256
}
