/**
 * A symbolic model of passlib's bcrypt context: a digest records the salt it
 * was made with and an image of the password, and verification recomputes
 * the digest with the embedded salt and compares. The image is the password
 * itself, standing for a hash with no collisions; one-wayness, stretching
 * and bcrypt's 72-byte input limit are not modelled.
 */
module Bcrypt {

  /** The random salt `hash` draws; a parameter of the model. */
  type Salt = nat

  /** A bcrypt digest: the salt and the image of the password. */
  datatype Digest = Digest(salt: Salt, image: string)

  /** `pwd_context.hash(password)` with the salt it drew. */
  function Hash(password: string, salt: Salt): (d: Digest)
    ensures d.salt == salt
  {
    Digest(salt, password)
  }

  /** `pwd_context.verify(password, digest)`: hash again with the digest's own salt and compare. */
  function Verify(password: string, digest: Digest): bool {
    Hash(password, digest.salt) == digest
  }

  /** A password verifies against its own digest, whatever the salt. */
  lemma VerifyHash(password: string, salt: Salt)
    ensures Verify(password, Hash(password, salt))
  {
  }

  /** Two hashes of one password with different salts are different digests. */
  lemma HashSalted(password: string, s1: Salt, s2: Salt)
    requires s1 != s2
    ensures Hash(password, s1) != Hash(password, s2)
  {
  }
}
