/**
 * The token authenticator of the users service (crates/users-service/src/authenticator.rs):
 * it issues signed tokens for users and validates presented ones, and serves the
 * validation endpoint. The HMAC key is fixed at construction; the clock is a parameter.
 */
module Authenticator {
  import opened Wrappers
  import opened UsersApi
  import opened Bearer
  import Header
  import opened Errors
  import Tokens
  import opened Jwt

  /** `Authenticator`: the HMAC-SHA384 key. */
  datatype Authenticator = Authenticator(hmac: Key)

  /** `new`: `Hmac::new_from_slice` accepts a key of any length. */
  function New(secret: Key): (a: Authenticator)
    ensures a.hmac == secret
  {
    Authenticator(secret)
  }

  /** `create_token`: claims for the user's e-mail expiring `expiresIn` after `now`,
      signed and wrapped as a bearer token; a signing failure is `JwtError`. */
  function CreateToken(a: Authenticator, jwt: Codec, user: User, expiresIn: Duration, now: ExpirationTime)
    : (r: Result<BearerToken, AuthError>)
    ensures var claims := Tokens.AuthenticatedUserToken(user.email, now + expiresIn);
      && (r.Ok? <==> jwt.sign(a.hmac, claims).Ok?)
      && (r.Ok? ==> r.value.content == jwt.sign(a.hmac, claims).value)
      && (r.Err? ==> r.error == AuthError.JwtError(jwt.sign(a.hmac, claims).error))
  {
    var token := Tokens.WithValidDuration(user, expiresIn, now);
    match jwt.sign(a.hmac, token)
    case Ok(s) => Ok(From(s))
    case Err(e) => Err(FromJwt(e))
  }

  /** `validate_token`: the signature is checked first, and its failure is returned as
      `JwtError` without looking at the claims; a verified token is `TokenExpired` exactly
      when its expiration is before `now`, so one expiring at `now` is still accepted. */
  function ValidateToken(a: Authenticator, jwt: Codec, bearer: BearerToken, now: ExpirationTime)
    : (r: Result<ExpirationTime, AuthError>)
    ensures jwt.verify(a.hmac, bearer.content).Err? ==> r == Err(AuthError.JwtError(jwt.verify(a.hmac, bearer.content).error))
    ensures jwt.verify(a.hmac, bearer.content).Ok? ==>
      var e := jwt.verify(a.hmac, bearer.content).value.expirationTime;
      r == if e < now then Err(TokenExpired(e)) else Ok(e)
    ensures r.Ok? ==> now <= r.value
  {
    match jwt.verify(a.hmac, bearer.content)
    case Err(e) => Err(FromJwt(e))
    case Ok(tok) =>
      if Tokens.ExpirationTimeOf(tok) < now then Err(TokenExpired(Tokens.ExpirationTimeOf(tok)))
      else Ok(Tokens.ExpirationTimeOf(tok))
  }

  /** The `GET /` handler: an Authorization header that cannot be parsed is
      `TokenParseError`; otherwise its bearer token is validated. */
  function ValidateTokenHandler(a: Authenticator, jwt: Codec, headers: Header.HeaderMap, now: ExpirationTime)
    : (r: Result<ExpirationTime, AuthError>)
    ensures Header.Parse(headers).Err? ==> r == Err(TokenParseError)
    ensures Header.Parse(headers).Ok? ==> r == ValidateToken(a, jwt, Header.Parse(headers).value.bearer, now)
  {
    match Header.Parse(headers)
    case Err(_) => Err(TokenParseError)
    case Ok(auth) => ValidateToken(a, jwt, auth.bearer, now)
  }

  /** Round trip: a token issued at `issuedAt` for `d` validates, until `issuedAt + d`
      inclusive, to the embedded expiration. */
  lemma ValidateCreated(a: Authenticator, jwt: Codec, user: User, d: Duration, issuedAt: ExpirationTime, now: ExpirationTime)
    requires RoundTrips(jwt) && CreateToken(a, jwt, user, d, issuedAt).Ok?
    requires now <= issuedAt + d
    ensures ValidateToken(a, jwt, CreateToken(a, jwt, user, d, issuedAt).value, now) == Ok(issuedAt + d)
  {
    var claims := Tokens.AuthenticatedUserToken(user.email, issuedAt + d);
    assert jwt.verify(a.hmac, jwt.sign(a.hmac, claims).value) == Ok(claims);
  }

  /** After `issuedAt + d` the same token is `TokenExpired` at its embedded expiration. */
  lemma CreatedExpires(a: Authenticator, jwt: Codec, user: User, d: Duration, issuedAt: ExpirationTime, now: ExpirationTime)
    requires RoundTrips(jwt) && CreateToken(a, jwt, user, d, issuedAt).Ok?
    requires issuedAt + d < now
    ensures ValidateToken(a, jwt, CreateToken(a, jwt, user, d, issuedAt).value, now) == Err(TokenExpired(issuedAt + d))
  {
    var claims := Tokens.AuthenticatedUserToken(user.email, issuedAt + d);
    assert jwt.verify(a.hmac, jwt.sign(a.hmac, claims).value) == Ok(claims);
  }

  /** A token issued with a negative duration is reported expired straight away. */
  lemma NegativeDurationIsExpired(a: Authenticator, jwt: Codec, user: User, d: Duration, now: ExpirationTime)
    requires RoundTrips(jwt) && CreateToken(a, jwt, user, d, now).Ok? && d < 0
    ensures ValidateToken(a, jwt, CreateToken(a, jwt, user, d, now).value, now) == Err(TokenExpired(now + d))
  {
    CreatedExpires(a, jwt, user, d, now, now);
  }

  /** A thirty-day token issued at `t0` for alice@example.com still validates 29 days
      later, to `t0` plus 30 days, and is `TokenExpired` at that instant 31 days later. */
  lemma ThirtyDayScenario(a: Authenticator, jwt: Codec, t0: ExpirationTime)
    requires RoundTrips(jwt)
    requires CreateToken(a, jwt, User("alice", "alice@example.com"), Days(30), t0).Ok?
    ensures var token := CreateToken(a, jwt, User("alice", "alice@example.com"), Days(30), t0).value;
      && ValidateToken(a, jwt, token, t0 + Days(29)) == Ok(t0 + Days(30))
      && ValidateToken(a, jwt, token, t0 + Days(31)) == Err(TokenExpired(t0 + Days(30)))
  {
    ValidateCreated(a, jwt, User("alice", "alice@example.com"), Days(30), t0, t0 + Days(29));
    CreatedExpires(a, jwt, User("alice", "alice@example.com"), Days(30), t0, t0 + Days(31));
  }

  /** The issued token, sent back as its `Authorization` header value, is accepted by the
      validation endpoint until it expires. */
  lemma HandlerAcceptsIssuedHeader(a: Authenticator, jwt: Codec, user: User, d: Duration, issuedAt: ExpirationTime, now: ExpirationTime)
    requires RoundTrips(jwt) && Compact(jwt) && CreateToken(a, jwt, user, d, issuedAt).Ok?
    requires now <= issuedAt + d
    ensures var token := CreateToken(a, jwt, user, d, issuedAt).value;
      ValidateTokenHandler(a, jwt, map[Header.Name() := Display(token)], now) == Ok(issuedAt + d)
  {
    var token := CreateToken(a, jwt, user, d, issuedAt).value;
    NoSpaceNoBearer(token.content);
    Header.RemoveBearerPrefixed(token.content);
    ValidateCreated(a, jwt, user, d, issuedAt, now);
  }

  /** Text without a space cannot contain `Bearer ` (which ends in one). */
  lemma NoSpaceNoBearer(s: string)
    requires ' ' !in s
    ensures !Header.ContainsBearer(s)
  {
    forall i | 0 <= i <= |s|
      ensures !Header.OccursAt(s, i)
    {
      if i <= |s| - |BEARER_PREFIX| {
        assert s[i..i + |BEARER_PREFIX|][6] == s[i + 6];
      }
    }
  }
}
