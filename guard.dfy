/**
 * The authorization guard (crates/users-api/src/guard.rs): a request passes when its
 * `Authorization` header carries a bearer token that is either found in the shared
 * cache of validated tokens under the cache-hit test, or accepted by the auth endpoint,
 * which refreshes the cache.
 *
 * The cache-hit test is modelled as written: a cached token is accepted without asking
 * the endpoint when its recorded expiration is BEFORE now. `Decide` states the guard as
 * written; `DecideCorrected` the evidently intended test, accepting a cached token that
 * has not expired yet.
 */
module Guard {
  import opened Wrappers
  import opened UsersApi
  import opened Bearer
  import Header
  import opened Errors
  import opened AuthService

  /** The shared table of validated tokens and their expiration. */
  type Cache = map<BearerToken, ExpirationTime>

  /** What one check decides: whether the request passes, the cache afterwards and how
      many times the auth endpoint was asked. */
  datatype Verdict = Verdict(authorized: bool, cache: Cache, endpointCalls: nat)

  /** `ctx.header::<Authorization>()`: the bearer token the request presents, if any. */
  function Presented(headers: Header.HeaderMap): (r: Option<BearerToken>)
    ensures r.Some? <==> Header.Name() in headers
    ensures r.Some? ==> r.value.content == Header.RemoveBearer(headers[Header.Name()])
  {
    match Header.Parse(headers)
    case Ok(auth) => Some(auth.bearer)
    case Err(_) => None
  }

  /** The fall-through path shared by both tests: drop the cached entry, ask the endpoint
      and record the expiration it answers with. */
  function Revalidate(cache: Cache, t: BearerToken, now: ExpirationTime, respond: Validation): (v: Verdict)
    ensures v.endpointCalls == 1
    ensures v.authorized <==> respond(t, now).Ok?
    ensures v.authorized <==> t in v.cache
    ensures v.authorized ==> v.cache[t] == respond(t, now).value
    ensures forall u :: u != t ==> (u in v.cache <==> u in cache)
  {
    match respond(t, now)
    case Ok(e) => Verdict(true, cache[t := e], 1)
    case Err(_) => Verdict(false, cache - {t}, 1)
  }

  /** `check`, as written: a cached token is a hit when its expiration lies before now. */
  function Decide(cache: Cache, headers: Header.HeaderMap, now: ExpirationTime, respond: Validation): (v: Verdict)
    ensures v.endpointCalls <= 1
    ensures v.endpointCalls == 0 ==> v.cache == cache
    ensures v.authorized ==> Presented(headers).Some?
    ensures forall u :: Presented(headers) != Some(u) ==> (u in v.cache <==> u in cache)
  {
    match Presented(headers)
    case None => Verdict(false, cache, 0)
    case Some(t) =>
      if t in cache && cache[t] < now then Verdict(true, cache, 0)
      else Revalidate(cache, t, now, respond)
  }

  /** `check` with the intended test: a cached token is a hit while it has not expired,
      i.e. until its expiration inclusive, as `validate_token` of the users service accepts it. */
  function DecideCorrected(cache: Cache, headers: Header.HeaderMap, now: ExpirationTime, respond: Validation): (v: Verdict)
    ensures v.endpointCalls <= 1
    ensures v.endpointCalls == 0 ==> v.cache == cache
    ensures v.authorized ==> Presented(headers).Some?
    ensures forall u :: Presented(headers) != Some(u) ==> (u in v.cache <==> u in cache)
  {
    match Presented(headers)
    case None => Verdict(false, cache, 0)
    case Some(t) =>
      if t in cache && now <= cache[t] then Verdict(true, cache, 0)
      else Revalidate(cache, t, now, respond)
  }

  /** The endpoint rejects every token it is asked about. */
  ghost predicate RejectsAll(respond: Validation) {
    forall t, now :: respond(t, now).Err?
  }

  /** The endpoint never vouches for a token beyond its expiration. */
  ghost predicate Sound(respond: Validation) {
    forall t, now :: respond(t, now).Ok? ==> now <= respond(t, now).value
  }

  /** The cached shared table (`Arc<RwLock<HashMap<..>>>`); guards that share it see each
      other's updates. */
  class TokenCache {
    var entries: Cache

    constructor (initial: Cache)
      ensures entries == initial
    {
      entries := initial;
    }

    /** `read().get(bearer)`. */
    method Get(t: BearerToken) returns (r: Option<ExpirationTime>)
      ensures r.Some? <==> t in entries
      ensures r.Some? ==> r.value == entries[t]
    {
      if t in entries {
        r := Some(entries[t]);
      } else {
        r := None;
      }
    }

    /** `write().remove(bearer)`. */
    method Remove(t: BearerToken)
      modifies this
      ensures entries == old(entries) - {t}
    {
      entries := entries - {t};
    }

    /** `write().insert(bearer, expires)`. */
    method Insert(t: BearerToken, e: ExpirationTime)
      modifies this
      ensures entries == old(entries)[t := e]
    {
      entries := entries[t := e];
    }
  }

  /** `AuthorizationGuard`. */
  class AuthorizationGuard {
    const validatedTokens: TokenCache
    const authEndpoint: AuthEndpoint

    /** `new`: the guard keeps the shared cache it is given. */
    constructor (validatedTokens: TokenCache, authEndpoint: AuthEndpoint)
      ensures this.validatedTokens == validatedTokens && this.authEndpoint == authEndpoint
    {
      this.validatedTokens := validatedTokens;
      this.authEndpoint := authEndpoint;
    }

    /** `Guard::check`, as written. */
    method Check(headers: Header.HeaderMap, now: ExpirationTime) returns (authorized: bool)
      modifies validatedTokens, authEndpoint
      ensures var v := Decide(old(validatedTokens.entries), headers, now, authEndpoint.answer);
        && authorized == v.authorized
        && validatedTokens.entries == v.cache
        && authEndpoint.calls == old(authEndpoint.calls) + v.endpointCalls
    {
      var presented := Presented(headers);
      if presented.None? {
        return false;
      }
      var bearer := presented.value;
      var remove := false;
      var cached := validatedTokens.Get(bearer);
      if cached.Some? {
        if cached.value < now {
          return true;
        } else {
          remove := true;
        }
      }
      if remove {
        validatedTokens.Remove(bearer);
      }
      var answer := authEndpoint.ValidateToken(bearer, now);
      match answer
      case Ok(expires) =>
        validatedTokens.Insert(bearer, expires);
        authorized := true;
      case Err(_) =>
        assert validatedTokens.entries == old(validatedTokens.entries) - {bearer};
        authorized := false;
    }

    /** `Guard::check` with the intended cache-hit test. */
    method CheckCorrected(headers: Header.HeaderMap, now: ExpirationTime) returns (authorized: bool)
      modifies validatedTokens, authEndpoint
      ensures var v := DecideCorrected(old(validatedTokens.entries), headers, now, authEndpoint.answer);
        && authorized == v.authorized
        && validatedTokens.entries == v.cache
        && authEndpoint.calls == old(authEndpoint.calls) + v.endpointCalls
    {
      var presented := Presented(headers);
      if presented.None? {
        return false;
      }
      var bearer := presented.value;
      var remove := false;
      var cached := validatedTokens.Get(bearer);
      if cached.Some? {
        if now <= cached.value {
          return true;
        } else {
          remove := true;
        }
      }
      if remove {
        validatedTokens.Remove(bearer);
      }
      var answer := authEndpoint.ValidateToken(bearer, now);
      match answer
      case Ok(expires) =>
        validatedTokens.Insert(bearer, expires);
        authorized := true;
      case Err(_) =>
        assert validatedTokens.entries == old(validatedTokens.entries) - {bearer};
        authorized := false;
    }
  }

  // ---------------------------------------------------------------- the guard as written

  /** A request without an `Authorization` header is refused, with no call and no change. */
  lemma NoHeaderRefused(cache: Cache, headers: Header.HeaderMap, now: ExpirationTime, respond: Validation)
    requires Header.Name() !in headers
    ensures Decide(cache, headers, now, respond) == Verdict(false, cache, 0)
    ensures DecideCorrected(cache, headers, now, respond) == Verdict(false, cache, 0)
  {
  }

  /** When the request passes: exactly when it presents a token that is cached with an
      expiration before now, or that the endpoint accepts. */
  lemma AuthorizedIff(cache: Cache, headers: Header.HeaderMap, now: ExpirationTime, respond: Validation)
    ensures var v := Decide(cache, headers, now, respond);
      v.authorized <==>
        Presented(headers).Some? &&
        var t := Presented(headers).value;
        (t in cache && cache[t] < now) || respond(t, now).Ok?
  {
  }

  /** The endpoint is asked at most once, and exactly when a token is presented that
      the cache-hit test does not serve. */
  lemma EndpointCalls(cache: Cache, headers: Header.HeaderMap, now: ExpirationTime, respond: Validation)
    ensures var v := Decide(cache, headers, now, respond);
      && v.endpointCalls <= 1
      && (v.endpointCalls == 1 <==>
           Presented(headers).Some? &&
           var t := Presented(headers).value; !(t in cache && cache[t] < now))
  {
  }

  /** After a call to the endpoint the presented token is cached exactly when it was
      accepted, with the expiration the endpoint answered. */
  lemma CacheAfterCall(cache: Cache, headers: Header.HeaderMap, now: ExpirationTime, respond: Validation)
    requires Decide(cache, headers, now, respond).endpointCalls == 1
    ensures var v := Decide(cache, headers, now, respond);
      var t := Presented(headers).value;
      && (t in v.cache <==> respond(t, now).Ok?)
      && (t in v.cache ==> v.cache[t] == respond(t, now).value)
      && v.authorized == (t in v.cache)
  {
  }

  /** Only the presented token's entry can change. */
  lemma OthersUntouched(cache: Cache, headers: Header.HeaderMap, now: ExpirationTime, respond: Validation, u: BearerToken)
    requires Presented(headers) != Some(u)
    ensures var v := Decide(cache, headers, now, respond);
      && (u in v.cache <==> u in cache)
      && (u in cache ==> v.cache[u] == cache[u])
  {
  }

  /** The hit test as written accepts a token whose recorded expiration has passed, for
      ever after and whatever the endpoint would answer now. */
  lemma ExpiredEntryAccepted(cache: Cache, headers: Header.HeaderMap, now: ExpirationTime, respond: Validation)
    requires Presented(headers).Some? && Presented(headers).value in cache
    requires cache[Presented(headers).value] < now
    ensures Decide(cache, headers, now, respond) == Verdict(true, cache, 0)
  {
  }

  /** Concretely: the token recorded to expire at 5, presented at 10 to an endpoint that
      rejects everything, passes without the endpoint being asked. */
  lemma StaleTokenPasses(respond: Validation)
    requires RejectsAll(respond)
    ensures var t := BearerToken("t");
      Decide(map[t := 5], map[Header.Name() := "t"], 10, respond) == Verdict(true, map[t := 5], 0)
  {
    assert |"t"| < |BEARER_PREFIX|;
  }

  /** ...while the intended guard consults the endpoint, refuses, and evicts the entry. */
  lemma StaleTokenRefusedWhenCorrected(respond: Validation)
    requires RejectsAll(respond)
    ensures var t := BearerToken("t");
      DecideCorrected(map[t := 5], map[Header.Name() := "t"], 10, respond) == Verdict(false, map[], 1)
  {
    var t := BearerToken("t");
    assert |"t"| < |BEARER_PREFIX|;
    assert respond(t, 10).Err?;
    assert map[t := 5] - {t} == map[];
  }

  /** A token that is cached and still valid is evicted and sent to the endpoint again,
      so as written the cache never spares a call for a live token. */
  lemma LiveEntryRevalidated(cache: Cache, headers: Header.HeaderMap, now: ExpirationTime, respond: Validation)
    requires Presented(headers).Some? && Presented(headers).value in cache
    requires now <= cache[Presented(headers).value]
    ensures Decide(cache, headers, now, respond) == Revalidate(cache, Presented(headers).value, now, respond)
    ensures Decide(cache, headers, now, respond).endpointCalls == 1
  {
  }

  /** As written, a request accepted by a sound endpoint is asked about again on the next
      request made before the token expires: caching it bought nothing. */
  lemma AsWrittenRepeatsCalls(cache: Cache, headers: Header.HeaderMap, now: ExpirationTime, later: ExpirationTime, respond: Validation)
    requires Sound(respond)
    requires var v := Decide(cache, headers, now, respond); v.authorized && v.endpointCalls == 1
    requires now <= later <= respond(Presented(headers).value, now).value
    ensures Decide(Decide(cache, headers, now, respond).cache, headers, later, respond).endpointCalls == 1
  {
    CacheAfterCall(cache, headers, now, respond);
  }

  // ---------------------------------------------------------------- the intended guard

  /** With a sound endpoint the intended guard only lets through a token that is cached
      and not yet expired. */
  lemma CorrectedNeverAcceptsExpired(cache: Cache, headers: Header.HeaderMap, now: ExpirationTime, respond: Validation)
    requires Sound(respond)
    requires DecideCorrected(cache, headers, now, respond).authorized
    ensures var v := DecideCorrected(cache, headers, now, respond);
      var t := Presented(headers).value;
      t in v.cache && now <= v.cache[t]
  {
    var t := Presented(headers).value;
    if !(t in cache && now <= cache[t]) {
      assert respond(t, now).Ok?;
      assert now <= respond(t, now).value;
    }
  }

  /** After the intended guard accepts a token, a later request presenting it before its
      cached expiration passes from the cache, without a call and without a change. */
  lemma CorrectedCacheServesRepeat(cache: Cache, headers: Header.HeaderMap, now: ExpirationTime, later: ExpirationTime, respond: Validation)
    requires Sound(respond)
    requires DecideCorrected(cache, headers, now, respond).authorized
    requires var v := DecideCorrected(cache, headers, now, respond);
      later <= v.cache[Presented(headers).value]
    ensures var v := DecideCorrected(cache, headers, now, respond);
      DecideCorrected(v.cache, headers, later, respond) == Verdict(true, v.cache, 0)
  {
    CorrectedNeverAcceptsExpired(cache, headers, now, respond);
  }

  /** When the request passes the intended guard: exactly when it presents a token cached
      as not yet expired, or one the endpoint accepts. */
  lemma CorrectedAuthorizedIff(cache: Cache, headers: Header.HeaderMap, now: ExpirationTime, respond: Validation)
    ensures var v := DecideCorrected(cache, headers, now, respond);
      v.authorized <==>
        Presented(headers).Some? &&
        var t := Presented(headers).value;
        (t in cache && now <= cache[t]) || respond(t, now).Ok?
  {
  }

  /** The intended guard keeps the cache free of entries for tokens the endpoint refused,
      changes no other token's entry, and asks the endpoint at most once. */
  lemma CorrectedFrame(cache: Cache, headers: Header.HeaderMap, now: ExpirationTime, respond: Validation, u: BearerToken)
    ensures var v := DecideCorrected(cache, headers, now, respond);
      && v.endpointCalls <= 1
      && (Presented(headers) != Some(u) ==> (u in v.cache <==> u in cache) && (u in cache ==> v.cache[u] == cache[u]))
      && (Presented(headers) == Some(u) && !v.authorized ==> u !in v.cache)
  {
  }
}
