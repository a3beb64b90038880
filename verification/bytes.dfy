/** Bytes, digests, and the SHA-256 function the fingerprint is built on. */
module Bytes {

  newtype Byte = b: int | 0 <= b < 0x100

  type Bytes = seq<Byte>

  /** Size in bytes of a SHA-256 digest (FIPS 180-4). */
  const DigestSize: nat := 32

  type Digest = d: Bytes | |d| == DigestSize
    witness seq(DigestSize, _ => 0 as Byte)

  /** SHA-256 is not modelled internally: every property proved about the
      fingerprint holds for any function of this type. No such function is
      injective (there are only 2^256 digests), so collisions are named
      rather than assumed away. */
  type Sha256 = Bytes -> Digest

  /** Two different inputs the hash sends to the same digest. */
  predicate Collides(h: Sha256, x: Bytes, y: Bytes) {
    x != y && h(x) == h(y)
  }
}
