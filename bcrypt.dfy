/** A model of the password-hashing library (bcryptjs) used by the router.

    The router relies on exactly two laws of `hash` and `compare`: comparing a
    password with a digest made from it succeeds, and comparing any other
    password with that digest fails. The model is the free one that satisfies
    these laws: a digest records the salt and the password it was made from.
    Salt generation, the work factor and the constant-time comparison are not
    part of this model. */
module Bcrypt {

  /** A salt as produced by `bcrypt.genSalt()`; its value is chosen by the
      library, so handlers receive it as a parameter. */
  type Salt = nat

  datatype Digest = Digest(salt: Salt, secret: string)

  /** `bcrypt.hash(password, salt)` */
  function Hash(password: string, salt: Salt): Digest
  {
    Digest(salt, password)
  }

  /** `bcrypt.compare(password, digest)` */
  function Compare(password: string, digest: Digest): bool
  {
    digest.secret == password
  }

  /** Comparing a password with its own digest succeeds, whatever the salt. */
  lemma CompareAcceptsOwnHash(password: string, salt: Salt)
    ensures Compare(password, Hash(password, salt))
  {
  }

  /** Comparing any other password with that digest fails. */
  lemma CompareRejectsOtherPassword(password: string, other: string, salt: Salt)
    requires other != password
    ensures !Compare(other, Hash(password, salt))
  {
  }
}
