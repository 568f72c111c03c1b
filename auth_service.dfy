/**
 * The `AuthService` capability (crates/users-api/src/auth.rs, the trait): validating a
 * bearer token, giving its expiration or an `AuthError`. The guard is written against
 * any implementation; here one is an object whose answers are a function of the token
 * and the current time, with a ghost count of how often it was asked.
 */
module AuthService {
  import opened Wrappers
  import opened UsersApi
  import opened Bearer
  import opened Errors

  /** How an implementation answers `validate_token(token)` at time `now`. */
  type Validation = (BearerToken, ExpirationTime) -> Result<ExpirationTime, AuthError>

  class AuthEndpoint {
    const answer: Validation
    ghost var calls: nat

    constructor (answer: Validation)
      ensures this.answer == answer && calls == 0
    {
      this.answer := answer;
      calls := 0;
    }

    /** `validate_token`. */
    method ValidateToken(token: BearerToken, now: ExpirationTime) returns (r: Result<ExpirationTime, AuthError>)
      modifies this`calls
      ensures r == answer(token, now)
      ensures calls == old(calls) + 1
    {
      r := answer(token, now);
      calls := calls + 1;
    }
  }
}
