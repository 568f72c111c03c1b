/**
 * The JSON Web Token layer the authenticator signs and verifies with: the `jwt`
 * crate's `SignWithKey` and `VerifyWithKey` over HMAC-SHA384. The cryptography is not
 * modelled; a codec is a pair of functions, and the properties the authenticator
 * relies on are stated as predicates over it.
 */
module Jwt {
  import opened Wrappers
  import opened Bytes
  import opened Tokens

  /** The HMAC secret. */
  type Key = seq<byte>

  /** `jwt::Error`, opaque here. */
  datatype JwtError = JwtError(description: string)

  /** `sign_with_key` and `verify_with_key`, for the claims type of this service. */
  datatype Codec = Codec(
    sign: (Key, AuthenticatedUserToken) -> Result<string, JwtError>,
    verify: (Key, string) -> Result<AuthenticatedUserToken, JwtError>)

  /** Verifying a token signed under the same key gives back the signed claims. */
  ghost predicate RoundTrips(c: Codec) {
    forall k, claims :: c.sign(k, claims).Ok? ==> c.verify(k, c.sign(k, claims).value) == Ok(claims)
  }

  /** A signed token is in the compact serialisation (base64url segments joined by `.`),
      so it never contains a space. */
  ghost predicate Compact(c: Codec) {
    forall k, claims :: c.sign(k, claims).Ok? ==> ' ' !in c.sign(k, claims).value
  }
}
