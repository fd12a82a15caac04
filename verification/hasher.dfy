/**
  The password hasher, abstracted: bcrypt's `hashpw`/`checkpw` become a
  digest that records its salt and the password it binds, and a verify
  function that fails on a digest that is not a bcrypt digest at all.
 */
module Hasher {
  import opened Wrappers

  /** A stored `password_hash` value. */
  datatype Digest =
    | Bcrypt(salt: nat, secret: string)   // produced by `hashpw` with a fresh salt
    | Malformed(raw: string)              // anything `checkpw` cannot parse

  /** Why `checkpw` raised. */
  datatype VerifyFailure = InvalidSalt

  /** `bcrypt.checkpw(password, digest)`: a verdict, or the error it raises on a malformed digest. */
  function CheckPassword(password: string, d: Digest): (r: Result<bool, VerifyFailure>)
    ensures r.Err? <==> d.Malformed?
  {
    match d
    case Bcrypt(_, secret) => Ok(secret == password)
    case Malformed(_) => Err(InvalidSalt)
  }

  /**
    `hash_password`: the salt stands for `bcrypt.gensalt()`'s randomness. The
    digest verifies the password it was made from and no other.
   */
  function HashPassword(password: string, salt: nat): (d: Digest)
    ensures CheckPassword(password, d) == Ok(true)
    ensures forall other :: CheckPassword(other, d) == Ok(other == password)
  {
    Bcrypt(salt, password)
  }

  /** Two fresh salts give two different digests of the same password, and both verify it. */
  lemma SaltedDigestsDiffer(password: string, s1: nat, s2: nat)
    requires s1 != s2
    ensures HashPassword(password, s1) != HashPassword(password, s2)
    ensures CheckPassword(password, HashPassword(password, s1)) == Ok(true)
    ensures CheckPassword(password, HashPassword(password, s2)) == Ok(true)
  {
  }
}
