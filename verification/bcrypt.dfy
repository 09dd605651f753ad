/**
 * The two calls the services make into golang.org/x/crypto/bcrypt,
 * `GenerateFromPassword` and `CompareHashAndPassword`.  The algorithm is
 * outside this model: a `Hasher` stands for it, and `Sound` states the
 * properties of bcrypt the services rely on.
 */
module Bcrypt {

  /** The result of `GenerateFromPassword(password, cost)`. */
  datatype Hashing = Hashed(hash: string) | HashFailed(reason: string)

  /** The result of `CompareHashAndPassword(hash, password)`: nil, the
      `ErrMismatchedHashAndPassword` sentinel, or any other error (a hash
      that is not a bcrypt hash, an unsupported version, ...). */
  datatype Comparison = Match | Mismatch | CompareFailed(reason: string)

  /** The library, as two functions. */
  datatype Hasher = Hasher(
    generate: (string, int) -> Hashing,
    compare: (string, string) -> Comparison)

  /**
   * What bcrypt guarantees: a hash it produces is never empty, is never the
   * password itself, and compares as a match with that password.
   */
  ghost predicate Sound(h: Hasher)
  {
    forall password, cost {:trigger h.generate(password, cost)} ::
      h.generate(password, cost).Hashed? ==>
        var hash := h.generate(password, cost).hash;
        hash != "" && hash != password && h.compare(hash, password) == Match
  }

}
