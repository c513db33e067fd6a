/** Bytes, as the wire formats and ciphertext layouts see them. */
module Bytes {
  type byte = x: int | 0 <= x < 256

  type bytes = seq<byte>
}
