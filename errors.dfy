/** The authentication errors (crates/users-api/src/error.rs) and the HTTP status they answer with. */
module Errors {
  import Auth
  import Jwt
  import opened UsersApi

  /** `AuthError`. */
  datatype AuthError =
    | NoUserFound(email: string)
    | TokenExpired(at: ExpirationTime)
    | TokenParseError
    | VerificationError
    | JwtError(jwt: Jwt.JwtError)
    | PasswordError(password: Auth.PasswordError)

  /** HTTP 401 Unauthorized. */
  const UNAUTHORIZED: int := 401

  /** `ResponseError::status_code`: one status for every error. */
  function StatusCode(e: AuthError): (code: int)
    ensures code == UNAUTHORIZED
  {
    UNAUTHORIZED
  }

  /** `From<jwt::Error>` (the `#[from]` on `JwtError`). */
  function FromJwt(e: Jwt.JwtError): (r: AuthError)
    ensures r.JwtError? && r.jwt == e
  {
    JwtError(e)
  }

  /** `From<PasswordError>` (the `#[from]` on `PasswordError`). */
  function FromPassword(e: Auth.PasswordError): (r: AuthError)
    ensures r.PasswordError? && r.password == e
  {
    PasswordError(e)
  }

  /** An unknown user and a wrong password are indistinguishable by status. */
  lemma UnknownUserLooksLikeWrongPassword(email: string)
    ensures StatusCode(NoUserFound(email)) == StatusCode(FromPassword(Auth.IncorrectPassword))
  {
  }

  /** A malformed stored hash is also answered with 401, like a user-caused failure. */
  lemma MalformedHashIsUnauthorized(reason: string)
    ensures StatusCode(FromPassword(Auth.InvalidPasswordHash(reason))) == UNAUTHORIZED
  {
  }
}
