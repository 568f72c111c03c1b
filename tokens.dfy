/** The signed claims of a bearer token (crates/users-service/src/tokens.rs). */
module Tokens {
  import opened UsersApi

  /** `AuthenticatedUserToken`: the subject's e-mail and the instant the token stops being valid. */
  datatype AuthenticatedUserToken = AuthenticatedUserToken(email: string, expirationTime: ExpirationTime)

  /** `new`: claims for `user` that expire at the given instant. */
  function New(user: User, expirationTime: ExpirationTime): (t: AuthenticatedUserToken)
    ensures t.email == user.email && t.expirationTime == expirationTime
  {
    AuthenticatedUserToken(user.email, expirationTime)
  }

  /** `with_valid_duration`: claims for `user` that expire `expiresAfter` after `now`
      (the source reads `now` from the system clock). */
  function WithValidDuration(user: User, expiresAfter: Duration, now: ExpirationTime): (t: AuthenticatedUserToken)
    ensures t.email == user.email
    ensures t.expirationTime - now == expiresAfter
  {
    AuthenticatedUserToken(user.email, now + expiresAfter)
  }

  /** `email`. */
  function Email(t: AuthenticatedUserToken): (e: string)
    ensures AuthenticatedUserToken(e, t.expirationTime) == t
  {
    t.email
  }

  /** `expiration_time`. */
  function ExpirationTimeOf(t: AuthenticatedUserToken): (e: ExpirationTime)
    ensures AuthenticatedUserToken(t.email, e) == t
  {
    t.expirationTime
  }

  /** `new` stores the given expiration unchanged, and the user's e-mail as subject. */
  lemma NewClaims(user: User, e: ExpirationTime)
    ensures ExpirationTimeOf(New(user, e)) == e
    ensures Email(New(user, e)) == user.email
  {
  }

  /** `with_valid_duration` expires exactly `d` after `now`, for the user's e-mail. */
  lemma WithValidDurationClaims(user: User, d: Duration, now: ExpirationTime)
    ensures ExpirationTimeOf(WithValidDuration(user, d, now)) == now + d
    ensures Email(WithValidDuration(user, d, now)) == user.email
  {
  }

  /** The two constructors agree: a duration is the same as its end instant. */
  lemma WithValidDurationIsNew(user: User, d: Duration, now: ExpirationTime)
    ensures WithValidDuration(user, d, now) == New(user, now + d)
  {
  }

  /** The accessors give back exactly what the claims hold. */
  lemma Accessors(email: string, e: ExpirationTime)
    ensures Email(AuthenticatedUserToken(email, e)) == email
    ensures ExpirationTimeOf(AuthenticatedUserToken(email, e)) == e
  {
  }

  /** A negative duration yields claims that expired before `now`. */
  lemma NegativeDurationExpired(user: User, d: Duration, now: ExpirationTime)
    requires d < 0
    ensures ExpirationTimeOf(WithValidDuration(user, d, now)) < now
  {
  }
}
