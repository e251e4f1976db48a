/**
 * The third-party libraries the backend calls, kept abstract. Each library is a
 * value holding its operations as functions, handed to the handlers that use
 * it; what the handlers rely on is stated as a soundness predicate that those
 * handlers' lemmas require.
 */
module Libraries {
  import opened Wrappers
  import opened ObjectIds

  /**
   * A JSON Web Token payload as `jsonwebtoken` decodes it. Any claim may be
   * missing; `mongoId` is the claim spelled `_id`.
   */
  datatype Claims = Claims(
    id: Option<string>,
    mongoId: Option<string>,
    isAdmin: Option<bool>,
    email: Option<string>,
    username: Option<string>)

  /** `mongoose.Types.ObjectId.isValid`: which texts are well-formed object ids. */
  datatype ObjectIdRules = ObjectIdRules(isValid: string -> bool)

  /** Every id the store hands out is accepted as a well-formed object id. */
  ghost predicate ObjectIdSound(rules: ObjectIdRules) {
    forall n: nat :: rules.isValid(HexId(n))
  }

  /**
   * `bcryptjs`: `hash(password, rounds, salt)` hashes with the given cost
   * factor and random salt; `compare(password, stored)` checks a password
   * against a stored hash.
   */
  datatype Bcrypt = Bcrypt(
    hash: (string, nat, string) -> string,
    compare: (string, string) -> bool)

  /**
   * A password always matches its own hash, whatever the cost and salt, and a
   * hash is never empty (`bcryptjs` hashes are 60 characters long).
   */
  ghost predicate BcryptSound(b: Bcrypt) {
    && (forall password, rounds, salt :: b.compare(password, b.hash(password, rounds, salt)))
    && (forall password, rounds, salt :: b.hash(password, rounds, salt) != "")
  }

  /**
   * `jsonwebtoken`: `sign(claims, secret, issuedAt, lifetime)` produces a
   * compact token; `verify(token, secret, now)` gives back its claims, or
   * `None` for any failure (bad signature, malformed token, expiry). Times are
   * in seconds.
   */
  datatype Jwt = Jwt(
    sign: (Claims, string, nat, nat) -> string,
    verify: (string, string, nat) -> Option<Claims>)

  /**
   * A token verifies under the secret it was signed with, and yields the
   * signed claims, exactly until `issuedAt + lifetime`; from then on it is
   * rejected as expired. A compact token never contains a space.
   */
  ghost predicate JwtSound(j: Jwt) {
    && (forall c, secret, issued, lifetime, now ::
          now < issued + lifetime ==> j.verify(j.sign(c, secret, issued, lifetime), secret, now) == Some(c))
    && (forall c, secret, issued, lifetime, now ::
          issued + lifetime <= now ==> j.verify(j.sign(c, secret, issued, lifetime), secret, now) == None)
    && (forall c, secret, issued, lifetime :: ' ' !in j.sign(c, secret, issued, lifetime))
  }
}
