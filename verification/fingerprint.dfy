/**
 * The content hasher: `hashlib.sha256(s.encode("utf-8")).hexdigest()`.
 * SHA-256 itself is not modelled; the model only relies on the hasher being a
 * deterministic function whose result is a 64-character lower-case hex string.
 */
module Fingerprint {

  /** Length of a SHA-256 hex digest, and the width of the `id_hashed` and `products_hashed` columns. */
  const DigestLength: nat := 64

  predicate IsLowerHex(c: char) {
    '0' <= c <= '9' || 'a' <= c <= 'f'
  }

  /** What `hexdigest()` returns. */
  type Digest = s: string | |s| == DigestLength && forall i | 0 <= i < |s| :: IsLowerHex(s[i])
    witness seq(DigestLength, _ => '0')

  /** The hash function, left uninterpreted: every operation of the model that hashes takes it as a parameter. */
  type Hasher = string -> Digest
}
