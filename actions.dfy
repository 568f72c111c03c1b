/**
 * The login and sign-up actions of the users service (crates/users-service/src/actions.rs):
 * how the `Authorization` header of a login request is dispatched on its scheme, how Basic
 * credentials are decoded and split, and what each outcome answers. The user table is a
 * map from e-mail to account, standing for the database queries of
 * crates/users-service/src/user.rs.
 */
module Actions {
  import opened Wrappers
  import opened Bytes
  import opened UsersApi
  import opened Bearer
  import Header
  import Utf8
  import Base64Url
  import Auth
  import Jwt
  import Errors
  import Authenticator
  import Tokens

  /** The raw request headers: lower-case name to value bytes. */
  type RawHeaders = map<string, seq<byte>>

  /** The bytes of `Bearer `. */
  const BEARER_BYTES: seq<byte> := [66, 101, 97, 114, 101, 114, 32]

  /** The bytes of `Basic `. */
  const BASIC_BYTES: seq<byte> := [66, 97, 115, 105, 99, 32]

  /** The validity of a login token: thirty days. */
  const LOGIN_DAYS := 30

  /** `b.starts_with(prefix)`. */
  predicate StartsWith(b: seq<byte>, prefix: seq<byte>) {
    |prefix| <= |b| && b[..|prefix|] == prefix
  }

  /** The reasons a login request is answered 406 Not Acceptable. */
  datatype Rejection =
    | NoAuthorizationHeader
    | InvalidScheme
    | NotBase64
    | NotUtf8
    | BadAuth

  /** The body of the 406 answer. The three fixed texts are those of `login_user`; for the
      two decoding errors `login_user` sends the decoder's own error text, which depends on
      the input and is stood for here by a fixed description. */
  function Message(r: Rejection): (m: string)
    ensures |m| > 0
  {
    match r
    case NoAuthorizationHeader => "no AUTHORIZATION header"
    case InvalidScheme => "invalid authorization scheme"
    case NotBase64 => "base64 decode error"
    case NotUtf8 => "invalid utf-8"
    case BadAuth => "bad auth"
  }

  /** `s.split_once(sep)`: the text before the first `sep` and all the text after it. */
  function SplitOnce(s: string, sep: char): (r: Option<(string, string)>)
    ensures r.None? <==> sep !in s
    ensures r.Some? ==> s == r.value.0 + [sep] + r.value.1 && sep !in r.value.0
  {
    if s == [] then None
    else if s[0] == sep then Some(([], s[1..]))
    else
      match SplitOnce(s[1..], sep)
      case None => None
      case Some((before, after)) => Some(([s[0]] + before, after))
  }

  /** What the dispatch on the `Authorization` header of a login request gives. */
  datatype Extracted =
    | Credentials(identifier: string, password: string)
    | BearerReauth
    | Refused(rejection: Rejection)

  /** The header dispatch of `login_user`: no header, a `Bearer ` value (re-authentication,
      not implemented), a `Basic ` value (base64url with padding, then UTF-8, then split at
      the first `:`), or another scheme. */
  function ExtractCredentials(headers: RawHeaders): (r: Extracted)
    ensures Header.Name() !in headers <==> r == Refused(NoAuthorizationHeader)
    ensures r.BearerReauth? <==> Header.Name() in headers && StartsWith(headers[Header.Name()], BEARER_BYTES)
    ensures r == Refused(InvalidScheme) <==>
      Header.Name() in headers && !StartsWith(headers[Header.Name()], BEARER_BYTES) && !StartsWith(headers[Header.Name()], BASIC_BYTES)
    ensures r.Credentials? ==>
      && Header.Name() in headers && StartsWith(headers[Header.Name()], BASIC_BYTES)
      && var decoded := Base64Url.Decode(headers[Header.Name()][|BASIC_BYTES|..]);
         && decoded.Some? && Utf8.Decode(decoded.value).Some?
         && r.identifier + [':'] + r.password == Utf8.Decode(decoded.value).value
    ensures r.Credentials? ==> ':' !in r.identifier
    ensures Header.Name() in headers && StartsWith(headers[Header.Name()], BASIC_BYTES) ==>
      var decoded := Base64Url.Decode(headers[Header.Name()][|BASIC_BYTES|..]);
      decoded.Some? && Utf8.Decode(decoded.value).Some? && ':' in Utf8.Decode(decoded.value).value ==>
        var parts := SplitOnce(Utf8.Decode(decoded.value).value, ':').value;
        r == Credentials(parts.0, parts.1)
  {
    if Header.Name() !in headers then Refused(NoAuthorizationHeader)
    else
      var value := headers[Header.Name()];
      PrefixesExclusive(value);
      if StartsWith(value, BEARER_BYTES) then BearerReauth
      else if StartsWith(value, BASIC_BYTES) then
        match Base64Url.Decode(value[|BASIC_BYTES|..])
        case None => Refused(NotBase64)
        case Some(bytes) =>
          match Utf8.Decode(bytes)
          case None => Refused(NotUtf8)
          case Some(text) =>
            match SplitOnce(text, ':')
            case None => Refused(BadAuth)
            case Some((identifier, password)) => Credentials(identifier, password)
      else Refused(InvalidScheme)
  }

  /** A stored user: its public part and, when one is stored, its password hash. */
  datatype Account = Account(user: User, passwordHash: Option<string>)

  /** The user table, keyed by e-mail. */
  type Directory = map<string, Account>

  /** Every account is filed under its own e-mail. */
  predicate Keyed(db: Directory) {
    forall email :: email in db ==> db[email].user.email == email
  }

  /** `UserInfo`: the JSON body of a successful login. */
  datatype UserInfo = UserInfo(username: string, email: string)

  /** How `login_user` answers. */
  datatype LoginOutcome =
    | LoggedIn(info: UserInfo, authorization: string)
    | Rejected(rejection: Rejection)
    | Unauthorized(error: Errors.AuthError)
    | Unimplemented

  /** The HTTP status of each outcome; the unimplemented branch panics and has none. */
  function LoginStatus(o: LoginOutcome): (r: Option<int>)
    ensures r.None? <==> o.Unimplemented?
    ensures o.Unauthorized? ==> r == Some(Errors.UNAUTHORIZED)
  {
    match o
    case LoggedIn(_, _) => Some(200)
    case Rejected(_) => Some(406)
    case Unauthorized(e) => Some(Errors.StatusCode(e))
    case Unimplemented => None
  }

  /** `login_user`: look the identifier up as an e-mail, verify the password against the
      stored hash, and issue a thirty-day token sent back as the `Authorization` value. */
  function LoginUser(headers: RawHeaders, hasher: Auth.PasswordAuth, argon: Auth.Argon2,
                     auth: Authenticator.Authenticator, jwt: Jwt.Codec, db: Directory, now: ExpirationTime)
    : (r: LoginOutcome)
    ensures r.Unimplemented? <==> ExtractCredentials(headers).BearerReauth?
    ensures r.Rejected? <==> ExtractCredentials(headers).Refused?
    ensures r.Rejected? ==> r.rejection == ExtractCredentials(headers).rejection
    ensures r.LoggedIn? ==>
      && ExtractCredentials(headers).Credentials? && ExtractCredentials(headers).identifier in db
      && var account := db[ExtractCredentials(headers).identifier];
         && account.passwordHash.Some?
         && Auth.VerifyPassword(hasher, Utf8.Encode(ExtractCredentials(headers).password), account.passwordHash.value, argon).Ok?
         && r.info == UserInfo(account.user.username, account.user.email)
         && |r.authorization| >= |BEARER_PREFIX| && r.authorization[..|BEARER_PREFIX|] == BEARER_PREFIX
    ensures ExtractCredentials(headers).Credentials? && ExtractCredentials(headers).identifier !in db ==>
      r == Unauthorized(Errors.NoUserFound(ExtractCredentials(headers).identifier))
    ensures var x := ExtractCredentials(headers);
      x.Credentials? && x.identifier in db && db[x.identifier].passwordHash.None? ==>
      r == Unauthorized(Errors.FromPassword(Auth.NoPasswordFound))
    ensures var x := ExtractCredentials(headers);
      x.Credentials? && x.identifier in db && db[x.identifier].passwordHash.Some? ==>
      var verified := Auth.VerifyPassword(hasher, Utf8.Encode(x.password), db[x.identifier].passwordHash.value, argon);
      var issued := Authenticator.CreateToken(auth, jwt, db[x.identifier].user, Days(LOGIN_DAYS), now);
      && (verified.Err? ==> r == Unauthorized(Errors.FromPassword(verified.error)))
      && (verified.Ok? && issued.Err? ==> r == Unauthorized(issued.error))
      && (verified.Ok? && issued.Ok? ==>
            r == LoggedIn(UserInfo(db[x.identifier].user.username, db[x.identifier].user.email), Display(issued.value)))
  {
    match ExtractCredentials(headers)
    case BearerReauth => Unimplemented
    case Refused(r) => Rejected(r)
    case Credentials(identifier, password) =>
      if identifier !in db then Unauthorized(Errors.NoUserFound(identifier))
      else
        var account := db[identifier];
        match account.passwordHash
        case None => Unauthorized(Errors.FromPassword(Auth.NoPasswordFound))
        case Some(hash) =>
          match Auth.VerifyPassword(hasher, Utf8.Encode(password), hash, argon)
          case Err(e) => Unauthorized(Errors.FromPassword(e))
          case Ok(_) =>
            match Authenticator.CreateToken(auth, jwt, account.user, Days(LOGIN_DAYS), now)
            case Err(e) => Unauthorized(e)
            case Ok(token) => LoggedIn(UserInfo(account.user.username, account.user.email), Display(token))
  }

  /** `CreateUserBody`. */
  datatype CreateUserBody = CreateUserBody(email: string, username: string, password: string)

  /** How `create_user` answers. */
  datatype CreateOutcome = Created | NotAcceptable(message: string) | InternalServerError

  /** `create_user`: a username with `@` is refused before anything else; otherwise the
      password is hashed and the user stored, unless the e-mail is taken. `generated` is the
      salt a fresh `PasswordAuth` would draw. */
  function CreateUser(body: CreateUserBody, hasher: Auth.PasswordAuth, generated: Auth.SaltString,
                      argon: Auth.Argon2, db: Directory)
    : (r: (CreateOutcome, Directory))
    ensures '@' in body.username ==> r == (NotAcceptable("username can not contain @"), db)
    ensures r.0 != Created ==> r.1 == db
    ensures r.0 == Created ==> body.email !in db && r.1.Keys == db.Keys + {body.email}
    ensures r.0 == Created ==> forall e :: e in db ==> r.1[e] == db[e]
  {
    if '@' in body.username then (NotAcceptable("username can not contain @"), db)
    else
      match Auth.HashPassword(hasher, Utf8.Encode(body.password), generated, argon)
      case Err(_) => (InternalServerError, db)
      case Ok(hashed) =>
        if body.email in db then (InternalServerError, db)
        else (Created, db[body.email := Account(User(body.username, body.email), Some(hashed))])
  }

  /** The `Authorization` value a client sends to log in: `Basic ` and the base64url
      form of `identifier:password`. */
  function BasicHeader(identifier: string, password: string): RawHeaders {
    map[Header.Name() := BASIC_BYTES + Base64Url.Encode(Utf8.Encode(identifier + [':'] + password))]
  }

  // ---------------------------------------------------------------- credentials

  /** Splitting at the first `:` takes the identifier up to it and all the rest, further
      colons included, as the password. */
  lemma {:induction false} SplitOnceJoin(identifier: string, password: string)
    requires ':' !in identifier
    ensures SplitOnce(identifier + [':'] + password, ':') == Some((identifier, password))
  {
    var s := identifier + [':'] + password;
    if identifier == [] {
      assert s[1..] == password;
    } else {
      assert s[1..] == identifier[1..] + [':'] + password;
      assert s[0] == identifier[0];
      SplitOnceJoin(identifier[1..], password);
      assert [identifier[0]] + identifier[1..] == identifier;
    }
  }

  /** The dispatch on a Basic header built from the credentials gives them back. */
  lemma ExtractBasic(identifier: string, password: string)
    requires ':' !in identifier
    ensures ExtractCredentials(BasicHeader(identifier, password)) == Credentials(identifier, password)
  {
    var text := identifier + [':'] + password;
    var value := BASIC_BYTES + Base64Url.Encode(Utf8.Encode(text));
    assert value[..|BASIC_BYTES|] == BASIC_BYTES;
    assert value[|BASIC_BYTES|..] == Base64Url.Encode(Utf8.Encode(text));
    BasicIsNotBearer(value);
    Base64Url.DecodeEncode(Utf8.Encode(text));
    Utf8.DecodeEncode(text);
    SplitOnceJoin(identifier, password);
  }

  /** A `Basic ` value is not a `Bearer ` one: they differ in their second byte. */
  lemma BasicIsNotBearer(value: seq<byte>)
    requires StartsWith(value, BASIC_BYTES)
    ensures !StartsWith(value, BEARER_BYTES)
  {
    assert value[..|BASIC_BYTES|][1] == value[1];
    if |BEARER_BYTES| <= |value| {
      assert value[..|BEARER_BYTES|][1] == value[1];
    }
  }

  /** No value starts with both `Basic ` and `Bearer `. */
  lemma PrefixesExclusive(value: seq<byte>)
    ensures StartsWith(value, BASIC_BYTES) ==> !StartsWith(value, BEARER_BYTES)
  {
    if StartsWith(value, BASIC_BYTES) {
      BasicIsNotBearer(value);
    }
  }

  /** A Basic value that is not valid padded base64url is refused as such. */
  lemma BasicNotBase64(headers: RawHeaders)
    requires Header.Name() in headers && StartsWith(headers[Header.Name()], BASIC_BYTES)
    requires Base64Url.Decode(headers[Header.Name()][|BASIC_BYTES|..]).None?
    ensures ExtractCredentials(headers) == Refused(NotBase64)
  {
    BasicIsNotBearer(headers[Header.Name()]);
  }

  /** Decoded bytes that are not UTF-8 are refused as such. */
  lemma BasicNotUtf8(headers: RawHeaders)
    requires Header.Name() in headers && StartsWith(headers[Header.Name()], BASIC_BYTES)
    requires var d := Base64Url.Decode(headers[Header.Name()][|BASIC_BYTES|..]); d.Some? && Utf8.Decode(d.value).None?
    ensures ExtractCredentials(headers) == Refused(NotUtf8)
  {
    BasicIsNotBearer(headers[Header.Name()]);
  }

  /** Decoded text without a `:` is `bad auth`. */
  lemma BasicWithoutColon(headers: RawHeaders)
    requires Header.Name() in headers && StartsWith(headers[Header.Name()], BASIC_BYTES)
    requires var d := Base64Url.Decode(headers[Header.Name()][|BASIC_BYTES|..]);
      d.Some? && Utf8.Decode(d.value).Some? && ':' !in Utf8.Decode(d.value).value
    ensures ExtractCredentials(headers) == Refused(BadAuth)
  {
    var value := headers[Header.Name()];
    BasicIsNotBearer(value);
    var text := Utf8.Decode(Base64Url.Decode(value[|BASIC_BYTES|..]).value).value;
    assert SplitOnce(text, ':').None?;
  }

  // ---------------------------------------------------------------- login

  /** A login request without the header, or with another scheme, is 406 with the
      source's message; a `Bearer ` one reaches the unimplemented branch. */
  lemma LoginDispatch(headers: RawHeaders, hasher: Auth.PasswordAuth, argon: Auth.Argon2,
                      auth: Authenticator.Authenticator, jwt: Jwt.Codec, db: Directory, now: ExpirationTime)
    ensures var o := LoginUser(headers, hasher, argon, auth, jwt, db, now);
      && (Header.Name() !in headers ==> o == Rejected(NoAuthorizationHeader) && Message(o.rejection) == "no AUTHORIZATION header")
      && (Header.Name() in headers && StartsWith(headers[Header.Name()], BEARER_BYTES) ==> o == Unimplemented)
      && ((Header.Name() in headers && !StartsWith(headers[Header.Name()], BEARER_BYTES) && !StartsWith(headers[Header.Name()], BASIC_BYTES))
            ==> o == Rejected(InvalidScheme) && Message(o.rejection) == "invalid authorization scheme" && LoginStatus(o) == Some(406))
  {
  }

  /** An unknown e-mail and a wrong password get the same answer status, 401. */
  lemma UnknownUserAndWrongPasswordAlike(identifier: string, password: string, wrong: string,
                                          hasher: Auth.PasswordAuth, generated: Auth.SaltString, argon: Auth.Argon2,
                                          auth: Authenticator.Authenticator, jwt: Jwt.Codec, db: Directory, now: ExpirationTime)
    requires ':' !in identifier && Auth.Sound(argon) && Auth.Binding(argon)
    requires identifier in db && Utf8.Encode(wrong) != Utf8.Encode(password)
    requires Auth.HashPassword(hasher, Utf8.Encode(password), generated, argon).Ok?
    requires db[identifier].passwordHash == Some(Auth.HashPassword(hasher, Utf8.Encode(password), generated, argon).value)
    requires "nobody" !in db
    ensures LoginUser(BasicHeader(identifier, wrong), hasher, argon, auth, jwt, db, now)
      == Unauthorized(Errors.PasswordError(Auth.IncorrectPassword))
    ensures LoginUser(BasicHeader("nobody", password), hasher, argon, auth, jwt, db, now)
      == Unauthorized(Errors.NoUserFound("nobody"))
    ensures LoginStatus(LoginUser(BasicHeader(identifier, wrong), hasher, argon, auth, jwt, db, now))
      == LoginStatus(LoginUser(BasicHeader("nobody", password), hasher, argon, auth, jwt, db, now)) == Some(401)
  {
    assert ':' !in "nobody";
    ExtractBasic(identifier, wrong);
    ExtractBasic("nobody", password);
    Auth.WrongPasswordRejected(hasher, Utf8.Encode(password), Utf8.Encode(wrong), generated, argon);
  }

  /** A login succeeds exactly when the credentials name a stored account whose hash
      verifies the password and a token can be signed for that account's user; the
      `Authorization` value sent back is that token's `Bearer ` form. */
  lemma LoginSucceedsIff(headers: RawHeaders, hasher: Auth.PasswordAuth, argon: Auth.Argon2,
                         auth: Authenticator.Authenticator, jwt: Jwt.Codec, db: Directory, now: ExpirationTime)
    ensures var o := LoginUser(headers, hasher, argon, auth, jwt, db, now);
      var x := ExtractCredentials(headers);
      && (o.LoggedIn? <==>
            && x.Credentials? && x.identifier in db && db[x.identifier].passwordHash.Some?
            && Auth.VerifyPassword(hasher, Utf8.Encode(x.password), db[x.identifier].passwordHash.value, argon).Ok?
            && Authenticator.CreateToken(auth, jwt, db[x.identifier].user, Days(LOGIN_DAYS), now).Ok?)
      && (o.LoggedIn? ==>
            o.authorization == Display(Authenticator.CreateToken(auth, jwt, db[x.identifier].user, Days(LOGIN_DAYS), now).value))
  {
  }

  /** A successful login issues a token valid for thirty days from now for the stored user
      and sends it back as `Bearer ` followed by the token. */
  lemma LoginIssuesThirtyDayToken(headers: RawHeaders, hasher: Auth.PasswordAuth, argon: Auth.Argon2,
                                  auth: Authenticator.Authenticator, jwt: Jwt.Codec, db: Directory, now: ExpirationTime)
    requires Keyed(db) && Jwt.RoundTrips(jwt)
    requires LoginUser(headers, hasher, argon, auth, jwt, db, now).LoggedIn?
    ensures var o := LoginUser(headers, hasher, argon, auth, jwt, db, now);
      var id := ExtractCredentials(headers).identifier;
      && id in db && o.info == UserInfo(db[id].user.username, id)
      && |o.authorization| >= |BEARER_PREFIX| && o.authorization[..|BEARER_PREFIX|] == BEARER_PREFIX
      && var token := BearerToken(o.authorization[|BEARER_PREFIX|..]);
         jwt.verify(auth.hmac, token.content) == Ok(Tokens.AuthenticatedUserToken(id, now + Days(LOGIN_DAYS)))
         && Authenticator.ValidateToken(auth, jwt, token, now) == Ok(now + Days(LOGIN_DAYS))
         && Authenticator.ValidateToken(auth, jwt, token, now + Days(LOGIN_DAYS)) == Ok(now + Days(LOGIN_DAYS))
         && Authenticator.ValidateToken(auth, jwt, token, now + Days(LOGIN_DAYS) + 1) == Err(Errors.TokenExpired(now + Days(LOGIN_DAYS)))
  {
    var id := ExtractCredentials(headers).identifier;
    var user := db[id].user;
    var token := Authenticator.CreateToken(auth, jwt, user, Days(LOGIN_DAYS), now).value;
    assert BearerToken(Display(token)[|BEARER_PREFIX|..]) == token;
    Authenticator.ValidateCreated(auth, jwt, user, Days(LOGIN_DAYS), now, now);
    Authenticator.ValidateCreated(auth, jwt, user, Days(LOGIN_DAYS), now, now + Days(LOGIN_DAYS));
    Authenticator.CreatedExpires(auth, jwt, user, Days(LOGIN_DAYS), now, now + Days(LOGIN_DAYS) + 1);
  }

  // ---------------------------------------------------------------- sign-up

  /** A username with `@` is refused with 406 before hashing or storing, whatever the
      hasher and the table. */
  lemma AtSignRefused(body: CreateUserBody, hasher: Auth.PasswordAuth, generated: Auth.SaltString, argon: Auth.Argon2, db: Directory)
    requires '@' in body.username
    ensures CreateUser(body, hasher, generated, argon, db) == (NotAcceptable("username can not contain @"), db)
  {
  }

  /** Sign-up succeeds exactly when the username has no `@`, the password hashes and the
      e-mail is free; then exactly that user is added, with the hash of the password. */
  lemma CreatedIff(body: CreateUserBody, hasher: Auth.PasswordAuth, generated: Auth.SaltString, argon: Auth.Argon2, db: Directory)
    ensures var (o, db2) := CreateUser(body, hasher, generated, argon, db);
      var h := Auth.HashPassword(hasher, Utf8.Encode(body.password), generated, argon);
      && (o == Created <==> '@' !in body.username && h.Ok? && body.email !in db)
      && (o == Created ==> db2 == db[body.email := Account(User(body.username, body.email), Some(h.value))])
      && (o != Created ==> db2 == db)
  {
  }

  /** Sign-up keeps every account filed under its own e-mail. */
  lemma CreateKeepsKeyed(body: CreateUserBody, hasher: Auth.PasswordAuth, generated: Auth.SaltString, argon: Auth.Argon2, db: Directory)
    requires Keyed(db)
    ensures Keyed(CreateUser(body, hasher, generated, argon, db).1)
  {
  }

  // ---------------------------------------------------------------- end to end

  /** A user who signed up logs in with the same e-mail and password, is answered with
      its own info and a `Bearer ` token, and that header value is accepted by the
      validation endpoint until thirty days later. */
  lemma SignUpThenLogIn(body: CreateUserBody, hasher: Auth.PasswordAuth, generated: Auth.SaltString, argon: Auth.Argon2,
                        auth: Authenticator.Authenticator, jwt: Jwt.Codec, db: Directory, now: ExpirationTime, later: ExpirationTime)
    requires Auth.Sound(argon) && Jwt.RoundTrips(jwt) && Jwt.Compact(jwt)
    requires ':' !in body.email
    requires CreateUser(body, hasher, generated, argon, db).0 == Created
    requires Authenticator.CreateToken(auth, jwt, User(body.username, body.email), Days(LOGIN_DAYS), now).Ok?
    requires now <= later <= now + Days(LOGIN_DAYS)
    ensures var db2 := CreateUser(body, hasher, generated, argon, db).1;
      var o := LoginUser(BasicHeader(body.email, body.password), hasher, argon, auth, jwt, db2, now);
      && o.LoggedIn? && o.info == UserInfo(body.username, body.email)
      && Authenticator.ValidateTokenHandler(auth, jwt, map[Header.Name() := o.authorization], later) == Ok(now + Days(LOGIN_DAYS))
  {
    var user := User(body.username, body.email);
    var hashed := Auth.HashPassword(hasher, Utf8.Encode(body.password), generated, argon);
    CreatedIff(body, hasher, generated, argon, db);
    var db2 := CreateUser(body, hasher, generated, argon, db).1;
    assert db2[body.email] == Account(user, Some(hashed.value));
    ExtractBasic(body.email, body.password);
    Auth.VerifyHashed(hasher, Utf8.Encode(body.password), generated, argon);
    var token := Authenticator.CreateToken(auth, jwt, user, Days(LOGIN_DAYS), now).value;
    assert LoginUser(BasicHeader(body.email, body.password), hasher, argon, auth, jwt, db2, now)
      == LoggedIn(UserInfo(body.username, body.email), Display(token));
    Authenticator.HandlerAcceptsIssuedHeader(auth, jwt, user, Days(LOGIN_DAYS), now, later);
  }
}
