# federeddit token authentication, modelled in Dafny

This project models how federeddit's users service and users API authenticate a request:

- **Login.** A user logs in with HTTP Basic credentials. The users service checks the
  password against the stored Argon2 hash and issues a JWT bearer token that is valid for
  thirty days.
- **Validation.** The service's validation endpoint checks a presented token's signature and
  its expiration.
- **Guard.** The users API crate provides an authorization guard for other services' routes.
  No service in the repository installs it yet. The guard keeps a shared cache of validated
  tokens and their expiration times. For any token the cache does not serve, it asks its
  `AuthService`, here an assumed adapter to the validation endpoint.

The cryptography is abstract:

- A JWT codec is a pair of functions, sign and verify.
- Argon2 is a record of four functions: hash, render, parse and matches.
- The laws the proofs rely on are predicates, and each lemma that needs one takes it in its
  `requires` clause. `Jwt.RoundTrips` says that verifying a signed token gives back its
  claims. `Jwt.Compact` says that a signed token contains no space. `Auth.Sound` and
  `Auth.Binding` are the Argon2 laws.

The clock and the salt generator become parameters. Times are whole seconds.

Modules follow the source files:

- `UsersApi`, `Bearer`, `Header`, `Auth`, `Errors`, `AuthService` and `Guard` model the users-api crate.
- `Tokens`, `Jwt`, `Authenticator` and `Actions` model the users service.
- `Utf8` and `Base64Url` model the two library codecs that the login path depends on:
  - strict UTF-8 as in RFC 3629;
  - padded, canonical base64url as in section 5 of RFC 4648.
- `ServiceEndpoint` joins the guard to the users service's validation endpoint. The
  repository has no `AuthService` implementation that calls that endpoint. The module
  assumes an adapter that sends the token's `Bearer ` form as the `Authorization` header of a
  `GET /` request and returns the handler's answer.

The guard is imperative, like its source:
- `Guard.TokenCache` is the shared `HashMap` behind the lock.
- `AuthService.AuthEndpoint` is the injected validator. It carries a ghost count of how often
  it was asked.
- `Guard.AuthorizationGuard.Check` follows `check` step by step, including the local `remove`
  flag. Its postcondition ties the outcome, the new cache and the call count to the pure
  function `Guard.Decide`. The lemmas state their properties about `Guard.Decide`.

Where the code's behaviour differs from what its documentation leads one to expect, the model follows the code:

- **Header parsing.** The parser removes every non-overlapping occurrence of `Bearer ` from
  the header value, scanning left to right. It does not strip only a leading prefix.
- **Token expiry.** A token is rejected as expired only when its expiration is strictly
  before now. A token expiring exactly now is still accepted.
- **Bad signatures.** A token with a bad signature is reported as `JwtError`, carrying the
  library's error. `VerificationError` is never produced.
- **Malformed stored hash.** This error is answered with 401, like every other `AuthError`,
  not with a server-error status.
- **Cached tokens.** The guard serves from its cache the tokens whose recorded expiration has
  passed. It re-validates, and evicts, the tokens whose expiration is still ahead. See Findings.

## Model

| member | source | states |
|---|---|---|
| Utf8.EncodeChar | crates/users-service/src/actions.rs:46 | a character takes 1, 2, 3 or 4 bytes according to its code point range |
| Utf8.Encode | crates/users-service/src/actions.rs:46 | the UTF-8 form of a text is at least as long as the text |
| Utf8.DecodeFirst | crates/users-service/src/actions.rs:89 | decoding one character consumes between one byte and all remaining bytes |
| Utf8.Decode | crates/users-service/src/actions.rs:89 | a successful `String::from_utf8` gives a text no longer than its bytes |
| Utf8.DecodeFirstEncodeChar | crates/users-service/src/actions.rs:89 | the first character of an encoded character followed by anything decodes back, consuming exactly its encoding |
| Utf8.EncodeCharDecodeFirst | crates/users-service/src/actions.rs:89 | a decoded character re-encodes to exactly the bytes consumed (strict decoding: no overlong or surrogate forms) |
| Utf8.DecodeEncode | crates/users-service/src/actions.rs:89 | `String::from_utf8` of the bytes of any text gives back the text |
| Utf8.EncodeDecode | crates/users-service/src/actions.rs:89 | bytes that decode are exactly the encoding of what they decode to |
| Base64Url.Symbol | crates/users-service/src/actions.rs:85 | no 6-bit value is encoded as the padding byte |
| Base64Url.SymbolValue | crates/users-service/src/actions.rs:85 | a symbol's value is below 64 and encodes back to that symbol; the padding byte has no value |
| Base64Url.Decode | crates/users-service/src/actions.rs:85-89 | the padded decoder accepts only inputs whose length is a multiple of four, and gives at most three bytes per four symbols |
| Base64Url.SymbolValueSymbol | crates/users-service/src/actions.rs:85 | the alphabet is a bijection on 0..63 |
| Base64Url.Encode | crates/users-service/src/actions.rs:85 | padded base64url output is a whole number of 4-byte quanta |
| Base64Url.DecodeEncode | crates/users-service/src/actions.rs:85-89 | decoding the padded base64url form of any bytes gives back those bytes |
| Base64Url.EncodeDecode | crates/users-service/src/actions.rs:85-89 | decoding is canonical: any text that decodes is the encoding of its result |
| UsersApi.Days | crates/users-service/src/actions.rs:113 | `Duration::days(n)` is a whole number of days, exactly `n` of them, and has the sign of `n` |
| Bearer.Display | crates/users-api/src/bearer.rs:28-32 | the rendering is `Bearer ` followed by the content, so its length is 7 plus the content's |
| Bearer.DerefFrom | crates/users-api/src/bearer.rs:14-26 | dereferencing a token made from some content gives that content |
| Bearer.FromDeref | crates/users-api/src/bearer.rs:14-26 | every token is made from its own content |
| Bearer.EqualityIsStructural | crates/users-api/src/bearer.rs:9-10 | tokens are equal exactly when their contents are |
| Bearer.From | crates/users-api/src/bearer.rs:14-18 | the token holds exactly the bytes it was made from |
| Bearer.Deref | crates/users-api/src/bearer.rs:20-26 | the content handed out makes the same token again |
| Bearer.DisplayInjective | crates/users-api/src/bearer.rs:28-32 | distinct tokens render differently |
| Header.New | crates/users-api/src/header.rs:27-29 | the header holds the token it was made with |
| Header.Name | crates/users-api/src/header.rs:46-48 | the header name is a non-empty lower-case name |
| Header.RemoveBearer | crates/users-api/src/header.rs:57 | removing `Bearer ` never lengthens the value, and a value shorter than `Bearer ` is left as it is |
| Header.NewBearer | crates/users-api/src/header.rs:27-34 | `new(b).bearer()` is `b` |
| Header.TryIntoValue | crates/users-api/src/header.rs:40-42 | the value is refused exactly when the rendering holds a character a header value may not carry; otherwise it is `Bearer ` plus the content |
| Header.Parse | crates/users-api/src/header.rs:50-63 | parsing fails, with `Incomplete`, exactly when the header is missing; otherwise the token is the value with the `Bearer ` occurrences removed |
| Header.RemoveBearerLength | crates/users-api/src/header.rs:57 | the token is 7 characters shorter than the value per removed occurrence |
| Header.RemovedZeroIff | crates/users-api/src/header.rs:57 | something is removed exactly when `Bearer ` occurs in the value |
| Header.RemoveBearerNoOccurrence | crates/users-api/src/header.rs:57 | a value without `Bearer ` becomes the token unchanged |
| Header.RemoveBearerPrefixed | crates/users-api/src/header.rs:57-60 | `Bearer t` parses to `t` when `t` holds no `Bearer ` |
| Header.ParseOtherScheme | crates/users-api/src/header.rs:57 | the value `Basic xyz` becomes the token `Basic xyz` |
| Header.EveryOccurrenceRemoved | crates/users-api/src/header.rs:57 | later occurrences are removed too: `Bearer aBearer b` gives `ab` |
| Header.RemovalCanFormNewOccurrence | crates/users-api/src/header.rs:57 | a removal can join the text around it into a `Bearer ` that stays: `BeBearer arer ` gives `Bearer ` |
| Header.ParseTryIntoValue | crates/users-api/src/header.rs:40-60 | the rendered header value of a token without `Bearer ` in it parses back to the same header |
| Tokens.NewClaims | crates/users-service/src/tokens.rs:21-25 | `new` stores the expiration unchanged and the user's e-mail as subject |
| Tokens.New | crates/users-service/src/tokens.rs:21-25 | the claims carry the user's e-mail and the given expiration |
| Tokens.WithValidDuration | crates/users-service/src/tokens.rs:29-33 | the claims carry the user's e-mail and expire exactly the duration after now |
| Tokens.Email | crates/users-service/src/tokens.rs:36-38 | the e-mail and the expiration together rebuild the claims |
| Tokens.ExpirationTimeOf | crates/users-service/src/tokens.rs:39-41 | the e-mail and the expiration together rebuild the claims |
| Tokens.WithValidDurationClaims | crates/users-service/src/tokens.rs:29-33 | `with_valid_duration` expires exactly the duration after now, for the user's e-mail |
| Tokens.WithValidDurationIsNew | crates/users-service/src/tokens.rs:21-33 | a duration from now gives the same claims as its end instant |
| Tokens.Accessors | crates/users-service/src/tokens.rs:36-41 | the accessors return the stored fields |
| Tokens.NegativeDurationExpired | crates/users-service/src/tokens.rs:32 | a negative duration gives an expiration before now |
| Auth.New | crates/users-api/src/auth.rs:34-36 | no fixed salt is configured |
| Auth.WithSingleSalt | crates/users-api/src/auth.rs:27-30 | the given valid salt text is fixed for every hash |
| Auth.FromSalt | crates/users-api/src/auth.rs:58-62 | the given salt is fixed for every hash |
| Auth.SaltFor | crates/users-api/src/auth.rs:41 | a fixed salt is always used; without one, the freshly generated salt is |
| Auth.HashPassword | crates/users-api/src/auth.rs:39-46 | hashing fails exactly when the hasher fails, as `InvalidPasswordHash` with its message; otherwise it gives the record's string form |
| Auth.VerifyPassword | crates/users-api/src/auth.rs:49-55 | an unparseable hash is `InvalidPasswordHash` whatever the password; a parsed one succeeds exactly when it matches, else `IncorrectPassword` |
| Auth.FixedSaltIgnoresGenerated | crates/users-api/src/auth.rs:41 | with a fixed salt the generated salt has no influence on the hash |
| Auth.VerifyHashed | crates/users-api/src/auth.rs:39-55 | a password verifies against its own hash, in either salt mode |
| Auth.WrongPasswordRejected | crates/users-api/src/auth.rs:49-55 | another password is `IncorrectPassword` against that hash |
| Auth.FreshSaltsGiveDistinctHashes | crates/users-api/src/auth.rs:34-41 | without a fixed salt, two different drawn salts give different hashes of the same password |
| Errors.StatusCode | crates/users-api/src/error.rs:23-26 | every error is answered with 401 Unauthorized |
| Errors.FromJwt | crates/users-api/src/error.rs:17-18 | a JWT error becomes `JwtError` holding that same error |
| Errors.FromPassword | crates/users-api/src/error.rs:19-20 | a password error becomes `PasswordError` holding that same error |
| Errors.UnknownUserLooksLikeWrongPassword | crates/users-api/src/error.rs:24-26 | an unknown user and a wrong password get the same status |
| Errors.MalformedHashIsUnauthorized | crates/users-api/src/error.rs:20-26 | a malformed stored hash is answered with 401 as well |
| AuthService.AuthEndpoint.ValidateToken | crates/users-api/src/auth.rs:12-16 | the answer is the implementation's answer for that token, and one more call is counted |
| Authenticator.New | crates/users-service/src/authenticator.rs:31-37 | the authenticator keeps the given secret as its key |
| Authenticator.CreateToken | crates/users-service/src/authenticator.rs:40-50 | it signs the claims {user's e-mail, now plus the duration}; a signing error comes back as `JwtError` |
| Authenticator.ValidateToken | crates/users-service/src/authenticator.rs:54-70 | a verification error comes back as `JwtError` with no expiry check; otherwise `TokenExpired(exp)` exactly when exp is before now, else `Ok(exp)`; every success is not past its expiration |
| Authenticator.ValidateTokenHandler | crates/users-service/src/authenticator.rs:73-85 | a missing header is `TokenParseError`; otherwise it validates the parsed bearer |
| Authenticator.ValidateCreated | crates/users-service/src/authenticator.rs:94-101 | a token it created validates to its embedded expiration until that expiration, inclusive |
| Authenticator.CreatedExpires | crates/users-service/src/authenticator.rs:65-67 | after that it is `TokenExpired` at the embedded expiration |
| Authenticator.NegativeDurationIsExpired | crates/users-service/src/authenticator.rs:65-66 | a token made with a negative duration is reported expired at once |
| Authenticator.ThirtyDayScenario | crates/users-service/src/authenticator.rs:40-70 | a 30-day token for alice@example.com validates 29 days later to T0 plus 30 days, and is expired at T0 plus 30 days when checked 31 days later |
| Authenticator.HandlerAcceptsIssuedHeader | crates/users-service/src/authenticator.rs:73-85 | the `Bearer ` header value of an issued token is accepted by the endpoint until the token expires |
| Guard.Presented | crates/users-api/src/guard.rs:35-38 | a token is presented exactly when the header is there, and it is the parsed bearer |
| Guard.Revalidate | crates/users-api/src/guard.rs:52-62 | one endpoint call; the request passes exactly when the endpoint answers `Ok`, and exactly then the token is cached with the answered expiration; no other token's presence changes |
| Guard.Decide | crates/users-api/src/guard.rs:34-66 | at most one endpoint call, and with none the cache is unchanged; only a presented token can pass; no other token's presence in the cache changes |
| Guard.DecideCorrected | crates/users-api/src/guard.rs:34-66 | the intended `check` keeps the same bounds: at most one call, an unchanged cache without one, passing only with a presented token, other tokens untouched |
| Guard.TokenCache.Get | crates/users-api/src/guard.rs:41 | the lookup finds an entry exactly when the token is cached, with its expiration |
| Guard.TokenCache.Remove | crates/users-api/src/guard.rs:49 | the entry for the token is gone and nothing else changes |
| Guard.TokenCache.Insert | crates/users-api/src/guard.rs:54-56 | the token now maps to the given expiration and nothing else changes |
| Guard.AuthorizationGuard.constructor | crates/users-api/src/guard.rs:22-30 | the guard keeps the shared cache and the endpoint it is given |
| Guard.AuthorizationGuard.Check | crates/users-api/src/guard.rs:34-66 | the outcome, the cache afterwards and the number of endpoint calls are those of `Decide`, the guard as written |
| Guard.AuthorizationGuard.CheckCorrected | crates/users-api/src/guard.rs:34-66 | the same with the intended cache-hit test, specified by `DecideCorrected` |
| Guard.NoHeaderRefused | crates/users-api/src/guard.rs:35-36 | without the header the request is refused, no call is made and the cache is unchanged |
| Guard.AuthorizedIff | crates/users-api/src/guard.rs:34-66 | a request passes exactly when its token is cached with an expiration before now, or the endpoint accepts it |
| Guard.EndpointCalls | crates/users-api/src/guard.rs:41-52 | the endpoint is asked at most once, and exactly when a presented token is not served by the hit test |
| Guard.CacheAfterCall | crates/users-api/src/guard.rs:52-62 | after a call the token is cached exactly when accepted, with the answered expiration; failures are never remembered |
| Guard.OthersUntouched | crates/users-api/src/guard.rs:41-58 | no other token's entry changes |
| Guard.ExpiredEntryAccepted | crates/users-api/src/guard.rs:41-43 | a token cached with an expiration before now passes with no call and no change |
| Guard.StaleTokenPasses | crates/users-api/src/guard.rs:41-43 | a token recorded to expire at 5 passes at 10 although the endpoint rejects everything |
| Guard.StaleTokenRefusedWhenCorrected | crates/users-api/src/guard.rs:41-62 | the intended guard refuses it after one call and evicts it |
| Guard.LiveEntryRevalidated | crates/users-api/src/guard.rs:44-52 | a cached token that has not expired is evicted and sent to the endpoint again |
| Guard.AsWrittenRepeatsCalls | crates/users-api/src/guard.rs:41-58 | as written, a freshly cached token costs another call on the next request before it expires |
| Guard.CorrectedNeverAcceptsExpired | crates/users-api/src/guard.rs:41-58 | with a sound endpoint, the intended guard only passes a token cached as not yet expired |
| Guard.CorrectedCacheServesRepeat | crates/users-api/src/guard.rs:41-56 | after the intended guard accepts a token, later requests up to its expiration pass from the cache with no call |
| Guard.CorrectedAuthorizedIff | crates/users-api/src/guard.rs:34-66 | the intended guard passes a request exactly when its token is cached as not yet expired or the endpoint accepts it |
| Guard.CorrectedFrame | crates/users-api/src/guard.rs:41-62 | the intended guard calls at most once, keeps other entries and never caches a refused token |
| ServiceEndpoint.EndpointSound | crates/users-service/src/authenticator.rs:65-69 | the users service never vouches for a token past its expiration |
| ServiceEndpoint.CorrectedGuardNeverAcceptsExpired | crates/users-api/src/guard.rs:41-58 | the intended guard backed by the users service lets no expired token through |
| ServiceEndpoint.CorrectedGuardCachesIssuedToken | crates/users-api/src/guard.rs:41-58 | an issued token is validated once and then served from the cache until it expires |
| ServiceEndpoint.GuardAcceptsExpiredIssuedToken | crates/users-api/src/guard.rs:34-66 | as written, the guard caches an issued token on a request before it expires, then lets it pass after expiry with no call, although the service would refuse it |
| Actions.SplitOnce | crates/users-service/src/actions.rs:91-93 | there is no split exactly when the text has no `:`; otherwise the text is the part before, `:` and the rest, and the part before holds no `:` |
| Actions.ExtractCredentials | crates/users-service/src/actions.rs:76-100 | a missing header, a `Bearer ` value and another scheme are told apart exactly; credentials come from a `Basic ` value exactly when its decoding splits at the first `:`, and are then the two parts |
| Actions.PrefixesExclusive | crates/users-service/src/actions.rs:77-79 | a value that starts with `Basic ` does not start with `Bearer `, so the order of the two tests does not matter |
| Actions.Message | crates/users-service/src/actions.rs:83-99 | every rejection is answered with a non-empty message |
| Actions.LoginStatus | crates/users-service/src/actions.rs:68-121 | only the unimplemented re-authentication has no status; an authentication failure gets 401 |
| Actions.LoginUser | crates/users-service/src/actions.rs:68-121 | the `todo!` branch is reached exactly for a `Bearer ` value, and a rejection exactly for a refused header, with the same reason. For credentials naming a stored account: no stored hash gives `PasswordError(NoPasswordFound)`, a failed verification its `PasswordError`, a failed signing its error, and otherwise the answer is that account's name and e-mail with the `Bearer ` form of the token `create_token` signs for that account's user for thirty days. An unknown identifier gives `NoUserFound` |
| Actions.CreateUser | crates/users-service/src/actions.rs:32-60 | a username with `@` is refused and nothing is stored; a failed sign-up stores nothing; a successful one adds exactly the new, previously free e-mail and keeps every old account |
| Actions.SplitOnceJoin | crates/users-service/src/actions.rs:91-94 | the identifier is the text up to the first `:` and the password all the rest, further colons included |
| Actions.BasicIsNotBearer | crates/users-service/src/actions.rs:77-79 | a `Basic ` value never reaches the `Bearer ` branch |
| Actions.ExtractBasic | crates/users-service/src/actions.rs:79-94 | a Basic header built from an identifier without `:` and any password gives them back |
| Actions.BasicNotBase64 | crates/users-service/src/actions.rs:85-89 | a Basic value that is not padded base64url is refused |
| Actions.BasicNotUtf8 | crates/users-service/src/actions.rs:89 | decoded bytes that are not UTF-8 are refused |
| Actions.BasicWithoutColon | crates/users-service/src/actions.rs:91-93 | decoded text without `:` is `bad auth` |
| Actions.LoginDispatch | crates/users-service/src/actions.rs:76-100 | no header and another scheme are 406 with the source's messages; `Bearer ` reaches the unimplemented branch |
| Actions.UnknownUserAndWrongPasswordAlike | crates/users-service/src/actions.rs:104-107 | an unknown e-mail is `NoUserFound`, a wrong password `IncorrectPassword`, and both are 401 |
| Actions.LoginSucceedsIff | crates/users-service/src/actions.rs:102-120 | a login succeeds exactly when the credentials name a stored account whose hash verifies the password and a token can be signed for that account's user, and the value sent back is that token's `Bearer ` form |
| Actions.LoginIssuesThirtyDayToken | crates/users-service/src/actions.rs:113-120 | a successful login's bearer token verifies to claims for the looked-up e-mail, expiring thirty days after now; it validates until then and expires a second later |
| Actions.AtSignRefused | crates/users-service/src/actions.rs:38-40 | a username with `@` is refused with its message before hashing or storage |
| Actions.CreatedIff | crates/users-service/src/actions.rs:38-59 | sign-up succeeds exactly when the username has no `@`, the password hashes and the e-mail is free, and then adds exactly that account |
| Actions.CreateKeepsKeyed | crates/users-service/src/user.rs:30-40 | sign-up keeps every account filed under its own e-mail |
| Actions.SignUpThenLogIn | crates/users-service/src/actions.rs:32-121 | a user who signed up logs in with the same credentials and the returned header value validates for thirty days |

## Left out

- Cryptography. HMAC-SHA384, the JWT encoding and Argon2 are functions whose laws are
  predicates in lemma preconditions. Tamper detection, i.e. a changed byte being rejected,
  is not stated, because it would be a law of the abstract codec rather than a property of
  this code.
- Concurrency. The `RwLock`, the separate read and write lock acquisitions and their races
  are not modelled; `check` is one sequential step. Sharing is modelled: every guard built on
  the same `TokenCache` object sees its updates.
- Lossy UTF-8. `from_utf8_lossy` in the header parser, the bearer rendering and the token
  verification is left out, because token contents are modelled as text. `Header.HeaderMap`
  therefore holds text values.
- Header validity when a response is built. actix's `insert_header` check is not modelled;
  `Header.TryIntoValue` states the check on its own.
- The clock and the random salt. `SystemTime::now()` is a parameter, and the validator
  receives the same instant as the guard. `SaltString::generate` is the `generated` parameter.
- Time. Instants are whole seconds. chrono's overflow panics on extreme dates are left out.
- The database and async code. diesel queries, `web::block`, the connection pool and the
  response builders are left out. The user table is a map from e-mail to account. Its
  duplicate-e-mail check and insert follow crates/users-service/src/user.rs:30-40.
- Auth.WithSingleSalt: it requires a valid salt text, because the source panics on any other
  (`expect`). Salt text validity is approximated by the alphabet and the length limits.
- ServiceEndpoint.Endpoint: the repository has no `AuthService` implementation that calls the
  users service. The adapter that sends `Bearer ` and the token to the `GET /` handler is
  assumed, and the HTTP transport between the services is not modelled.
- UsersApi.Days: chrono's panic for a day count whose seconds overflow `i64` is not modelled. Durations are unbounded integers, and the only day count used is 30.
- Actions.LoginStatus: the `todo!` branch panics, so it is given no status.
- Actions.Message: the decoder's own error text for `NotBase64` and `NotUtf8` (the `Display` of
  `base64::DecodeError` and `FromUtf8Error`, actions.rs:88-89) is not modelled. A fixed
  description stands for it.
- The client's standard base64 (crates/common/src/utils.rs, used by
  crates/users-api/src/client.rs) is not part of this model. As a result, the model does not
  capture that the client's encoding agrees with the server's base64url decoding only when
  it contains no `+` or `/`.
- Network client, routing, configuration, logging: not part of this model.
- `Clone` on tokens is the identity on values and needs no member.

## Findings

| source | as written | input that shows it | evidently intended | confidence | as-written member | corrected member |
|---|---|---|---|---|---|---|
| crates/users-api/src/guard.rs:42 | a cached token is accepted without validation when its recorded expiration is before now; one still valid is evicted and re-validated | cache {t ↦ 5}, request presenting t at now = 10, endpoint rejecting every token: authorized, no call made, entry kept | accept from the cache while now is not past the expiration, re-validate once it is | high; not executed | Guard.StaleTokenPasses | Guard.CorrectedNeverAcceptsExpired |

The corrected test is `Guard.DecideCorrected`, implemented by
`Guard.AuthorizationGuard.CheckCorrected`. `Guard.CorrectedCacheServesRepeat`,
`ServiceEndpoint.CorrectedGuardNeverAcceptsExpired` and
`ServiceEndpoint.CorrectedGuardCachesIssuedToken` prove the intended behaviour about it.
`Guard.AuthorizationGuard.Check` keeps the guard as written.
