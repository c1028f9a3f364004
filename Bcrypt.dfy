/** The password hasher (bcrypt) as an abstract collaborator: the model
    never looks inside a hash, it only calls `hash` and `compare`. */
module Bcrypt {

  /** `saltRounds` in the registration handler: the cost is fixed at 10. */
  const SaltRounds: nat := 10

  /** `bcrypt.hash(password, rounds)` and `bcrypt.compare(password, hash)`.
      The random salt is folded into `hash`. */
  datatype PasswordHasher = PasswordHasher(
    hash: (string, nat) -> string,
    compare: (string, string) -> bool)

  /** What bcrypt promises: a password matches the hash made from it. */
  ghost predicate AcceptsOwnHash(bcrypt: PasswordHasher) {
    forall password :: bcrypt.compare(password, bcrypt.hash(password, SaltRounds))
  }
}
