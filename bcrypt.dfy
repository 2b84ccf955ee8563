/**
 * bcrypt as an abstract collaborator. `bcrypt.hash` draws a random salt; here the salt is a
 * parameter. The digest keeps the secret as an abstract component, which makes the hash
 * injective and `compare` exact; one-wayness and the work factor are not modelled.
 */
module Bcrypt {

  type Salt = nat

  /** A stored password hash. It is a different type from the plaintext, so it can never equal it. */
  datatype Digest = Digest(salt: Salt, secret: string)

  /** bcrypt.hash(password, BCRYPT_WORK_FACTOR) with the drawn salt. */
  function Hash(password: string, salt: Salt): (h: Digest)
    ensures Compare(password, h)
    ensures h.salt == salt
  {
    Digest(salt, password)
  }

  /** bcrypt.compare(password, hash). */
  predicate Compare(password: string, h: Digest)
  {
    password == h.secret
  }

  /** Verification succeeds on exactly the password that was hashed, whatever the salt. */
  lemma CompareExact(password: string, other: string, salt: Salt)
    ensures Compare(password, Hash(other, salt)) <==> password == other
  {
  }
}
