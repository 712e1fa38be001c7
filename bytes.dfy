/** The byte values that streams and the base 64 encoder carry. */
module Bytes {
  /** An unsigned byte (`IOUtils.toByteArray` gives Java `byte`s, whose sign
      plays no part in how they are read, encoded or decoded here). */
  newtype byte = x: int | 0 <= x < 256
}
