/**
 * The password hashing library, seen from outside.
 *
 * The server calls two foreign functions of its bcrypt wrapper:
 * generate_password_hash and check_password_hash. Their internals are not
 * part of this model: both are kept as uninterpreted function values that
 * every handler receives. Either call may raise ValueError on a password the
 * library refuses (depending on its version: one holding a NUL byte, or one
 * longer than 72 bytes), so each returns a Result. The random salt that
 * generate_password_hash draws is an explicit parameter.
 */
module Credentials {
  import opened Wrappers

  /** A salt drawn at random by the hashing library. */
  type Salt = nat

  /** The two foreign calls: hash a password under a salt, check a candidate against a stored hash. */
  datatype Bcrypt = Bcrypt(hash: (string, Salt) -> Result<string>, check: (string, string) -> Result<bool>)

  /**
   * The correctness of the hashing library, as an explicit ASSUMPTION: a
   * hash the library produced for a non-empty password, under any salt,
   * accepts that password, and never accepts any other candidate.
   * Nothing in the model proves it: a lemma that needs it says so by
   * requiring it.
   */
  ghost predicate Sound(bc: Bcrypt)
  {
    forall p: string, s: Salt, q: string {:trigger bc.check(bc.hash(p, s).value, q)} ::
      p != "" && bc.hash(p, s).Success? ==>
        (bc.check(bc.hash(p, s).value, q) == Success(true) <==> q == p)
  }
}
