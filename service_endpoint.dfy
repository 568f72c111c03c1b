/**
 * The guard of crates/users-api/src/guard.rs backed by the validation endpoint of the
 * users service (crates/users-service/src/authenticator.rs). The repository has no
 * `AuthService` implementation that calls that endpoint; this module assumes one that
 * sends the token's `Display` form (`Bearer ` and the token) as the `Authorization`
 * header of a `GET /` request and returns the handler's answer.
 */
module ServiceEndpoint {
  import opened Wrappers
  import opened UsersApi
  import opened Bearer
  import Header
  import Jwt
  import Authenticator
  import opened AuthService
  import Guard
  import Errors

  /** The assumed adapter: asking the users service's `GET /` handler about a token at
      time `now`, with the token's `Bearer ` form as the header value. */
  function Endpoint(a: Authenticator.Authenticator, jwt: Jwt.Codec): Validation {
    (t: BearerToken, now: ExpirationTime) =>
      Authenticator.ValidateTokenHandler(a, jwt, map[Header.Name() := Display(t)], now)
  }

  /** The users service never vouches for a token past its expiration. */
  lemma EndpointSound(a: Authenticator.Authenticator, jwt: Jwt.Codec)
    ensures Guard.Sound(Endpoint(a, jwt))
  {
    forall t: BearerToken, now: ExpirationTime | Endpoint(a, jwt)(t, now).Ok?
      ensures now <= Endpoint(a, jwt)(t, now).value
    {
      var headers := map[Header.Name() := Display(t)];
      assert Header.Parse(headers).Ok?;
    }
  }

  /** So the intended guard, backed by the users service, lets no expired token through. */
  lemma CorrectedGuardNeverAcceptsExpired(a: Authenticator.Authenticator, jwt: Jwt.Codec,
                                          cache: Guard.Cache, headers: Header.HeaderMap, now: ExpirationTime)
    requires Guard.DecideCorrected(cache, headers, now, Endpoint(a, jwt)).authorized
    ensures var v := Guard.DecideCorrected(cache, headers, now, Endpoint(a, jwt));
      var t := Guard.Presented(headers).value;
      t in v.cache && now <= v.cache[t]
  {
    EndpointSound(a, jwt);
    Guard.CorrectedNeverAcceptsExpired(cache, headers, now, Endpoint(a, jwt));
  }

  /** A token the users service issued is served by the intended guard: the first request
      asks the service once and caches the token's expiration; every later request up to
      that expiration passes from the cache without asking again. */
  lemma CorrectedGuardCachesIssuedToken(a: Authenticator.Authenticator, jwt: Jwt.Codec, user: User, d: Duration,
                                        issuedAt: ExpirationTime, now: ExpirationTime, later: ExpirationTime)
    requires Jwt.RoundTrips(jwt) && Jwt.Compact(jwt)
    requires Authenticator.CreateToken(a, jwt, user, d, issuedAt).Ok?
    requires now <= later <= issuedAt + d
    ensures var t := Authenticator.CreateToken(a, jwt, user, d, issuedAt).value;
      var headers := map[Header.Name() := Display(t)];
      var first := Guard.DecideCorrected(map[], headers, now, Endpoint(a, jwt));
      && first == Guard.Verdict(true, map[t := issuedAt + d], 1)
      && Guard.DecideCorrected(first.cache, headers, later, Endpoint(a, jwt)) == Guard.Verdict(true, first.cache, 0)
  {
    var t := Authenticator.CreateToken(a, jwt, user, d, issuedAt).value;
    var headers := map[Header.Name() := Display(t)];
    Authenticator.NoSpaceNoBearer(t.content);
    Header.RemoveBearerPrefixed(t.content);
    assert Guard.Presented(headers) == Some(t);
    Authenticator.HandlerAcceptsIssuedHeader(a, jwt, user, d, issuedAt, now);
  }

  /** As written, the guard caches the token itself on its first request, made before the
      token expires, and then keeps letting it through once it has expired, without asking
      the users service, which would refuse it. */
  lemma GuardAcceptsExpiredIssuedToken(a: Authenticator.Authenticator, jwt: Jwt.Codec, user: User, d: Duration,
                                       issuedAt: ExpirationTime, now: ExpirationTime, later: ExpirationTime)
    requires Jwt.RoundTrips(jwt) && Jwt.Compact(jwt)
    requires Authenticator.CreateToken(a, jwt, user, d, issuedAt).Ok?
    requires now <= issuedAt + d < later
    ensures var t := Authenticator.CreateToken(a, jwt, user, d, issuedAt).value;
      var headers := map[Header.Name() := Display(t)];
      var first := Guard.Decide(map[], headers, now, Endpoint(a, jwt));
      && first == Guard.Verdict(true, map[t := issuedAt + d], 1)
      && Endpoint(a, jwt)(t, later) == Err(Errors.TokenExpired(issuedAt + d))
      && Guard.Decide(first.cache, headers, later, Endpoint(a, jwt)) == Guard.Verdict(true, first.cache, 0)
  {
    var t := Authenticator.CreateToken(a, jwt, user, d, issuedAt).value;
    var headers := map[Header.Name() := Display(t)];
    Authenticator.NoSpaceNoBearer(t.content);
    Header.RemoveBearerPrefixed(t.content);
    assert Guard.Presented(headers) == Some(t);
    Authenticator.HandlerAcceptsIssuedHeader(a, jwt, user, d, issuedAt, now);
    Authenticator.CreatedExpires(a, jwt, user, d, issuedAt, later);
  }
}
