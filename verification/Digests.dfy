/**
 * Bytes and digests. Hash functions are free constructors, so two digests are equal exactly when they were
 * computed from equal inputs.
 */
module Digests {

  type byte = x: int | 0 <= x < 256

  /** A 32-byte SHA-256 value: the all-zero value, the hash of a data block, or the hash of two joined digests. */
  datatype Digest = Zero | Leaf(data: seq<byte>) | Node(left: Digest, right: Digest)

  /** A 20-byte SHA-1 value: the one a piece slot starts with, or the hash of a piece. */
  datatype PieceHash = Unset | Sha1(data: seq<byte>)

  /** `v2_block_size`: 16 KiB. */
  const BLOCK_SIZE := 16384

  function Zeros(n: nat): (z: seq<byte>)
    ensures |z| == n
  {
    seq(n, _ => 0)
  }

  function Min(a: int, b: int): int {
    if a <= b then a else b
  }

  function Max(a: int, b: int): int {
    if a >= b then a else b
  }
}
