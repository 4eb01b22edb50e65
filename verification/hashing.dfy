/** Bytes, digests and the digest function the Merkle engine is parameterised by. */
module Hashing {

  /** An unsigned 8-bit value, Go's `byte`. */
  newtype uint8 = x: int | 0 <= x < 256

  /** A Go `[]byte`, by value. */
  type Bytes = seq<uint8>

  /** Width of a SHA-256 digest in bytes, Go's `sha256.Size`. */
  const DigestSize: nat := 32

  /** A digest of all zero bytes, the witness that digests exist. */
  const ZeroDigest: Bytes := seq(DigestSize, _ => 0 as uint8)

  /** A `DigestSize`-byte value, the output of the digest function. */
  type Digest = d: Bytes | |d| == DigestSize witness ZeroDigest

  /**
   * A digest function: total, deterministic, always `DigestSize` bytes wide.
   * SHA-256 (`sha256.Sum256(data)[:]`) is one such function; nothing else
   * about it is assumed, so every result proved here holds for any of them.
   */
  type HashFn = Bytes -> Digest
}
