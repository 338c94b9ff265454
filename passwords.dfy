/**
 * Password hashing. The application hands passwords to a salted SHA-256
 * crypt library; the model replaces it with an injective digest, and every
 * proof about sign-in and password changes rests only on `VerifyHash`.
 */
module Passwords {

  /** `sha256_crypt.hash(password)` (also reached as `encrypt_password`). */
  function Hash(password: string): string
  {
    "$5$" + password
  }

  /** `sha256_crypt.verify(password, hashed)` (also reached as `verify_password`). */
  predicate Verify(password: string, hashed: string)
  {
    hashed == Hash(password)
  }

  /** A stored hash accepts exactly the password it was made from. */
  lemma VerifyHash(p: string, q: string)
    ensures Verify(p, Hash(q)) <==> p == q
  {
    if Hash(p) == Hash(q) {
      assert p == Hash(p)[3..] && q == Hash(q)[3..];
    }
  }
}
