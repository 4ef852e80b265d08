/**
 A model of werkzeug's `generate_password_hash` / `check_password_hash` pair.

 The one-way function itself is kept symbolic: a digest is the free term
 `Digest(salt, password)`, so two digests are equal exactly when salt and
 password are. This is an ideal, collision-free hash; its one-wayness (that the
 password cannot be read back out of the stored value) is not modelled. The
 random salt werkzeug draws for every call is a parameter.
 */
module Password {

  type Salt = string

  /** The symbolic result of hashing `password` under `salt`. */
  datatype Digest = Digest(salt: Salt, password: string)

  /** The value stored in `User.password_hash`: the salt next to the digest. */
  datatype PasswordHash = PasswordHash(salt: Salt, digest: Digest)

  /** `check_password_hash`: hash the guess again with the stored salt and compare digests. */
  predicate Check(h: PasswordHash, guess: string)
  {
    Digest(h.salt, guess) == h.digest
  }

  /** `generate_password_hash`: the stored value accepts the hashed password and nothing else. */
  function Generate(password: string, salt: Salt): (h: PasswordHash)
    ensures h.salt == salt
    ensures Check(h, password)
    ensures forall guess :: Check(h, guess) <==> guess == password
  {
    PasswordHash(salt, Digest(salt, password))
  }

  /** Two hashes of the same password under different salts are different stored values,
      yet each accepts that password. */
  lemma SaltedHashesDiffer(password: string, salt1: Salt, salt2: Salt)
    requires salt1 != salt2
    ensures Generate(password, salt1) != Generate(password, salt2)
    ensures Check(Generate(password, salt1), password) && Check(Generate(password, salt2), password)
  {
  }
}
