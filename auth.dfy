/**
 * Password hashing (crates/users-api/src/auth.rs): `PasswordAuth`, which picks the
 * salt and maps the Argon2 library's failures to `PasswordError`s. Argon2 itself is
 * not modelled: it is a record of functions, with the properties stated as predicates.
 */
module Auth {
  import opened Wrappers
  import opened Bytes

  /** `PasswordError`. */
  datatype PasswordError = IncorrectPassword | InvalidPasswordHash(reason: string) | NoPasswordFound

  /** `SaltString`: a salt in its B64 text form. */
  datatype SaltString = SaltString(b64: string)

  /** A character the password-hash library accepts in a salt: `[a-zA-Z0-9/+.-]`. */
  predicate IsSaltChar(c: char) {
    ('a' <= c <= 'z') || ('A' <= c <= 'Z') || ('0' <= c <= '9') || c == '/' || c == '+' || c == '.' || c == '-'
  }

  /** What `SaltString::from_b64` accepts: 4 to 64 salt characters. */
  predicate IsSaltText(s: string) {
    4 <= |s| <= 64 && forall i :: 0 <= i < |s| ==> IsSaltChar(s[i])
  }

  /** A parsed password hash record (PHC string): algorithm and parameters, salt, digest. */
  datatype PasswordHash = PasswordHash(algorithm: string, salt: SaltString, digest: seq<byte>)

  /** `Argon2::default()`: hashing with a salt, the record's string form, parsing
      (`PasswordHash::new`) and the check behind `verify_password`. */
  datatype Argon2 = Argon2(
    hash: (seq<byte>, SaltString) -> Result<PasswordHash, string>,
    render: PasswordHash -> string,
    parse: string -> Result<PasswordHash, string>,
    matches: (seq<byte>, PasswordHash) -> bool)

  /** The record embeds the salt it was made with, its string form parses back to it,
      and it matches the password it was made from. */
  ghost predicate Sound(a: Argon2) {
    && (forall pw, s :: a.hash(pw, s).Ok? ==> a.hash(pw, s).value.salt == s)
    && (forall h :: a.parse(a.render(h)) == Ok(h))
    && (forall pw, s :: a.hash(pw, s).Ok? ==> a.matches(pw, a.hash(pw, s).value))
  }

  /** A record matches no password other than the one it was made from (an idealised
      collision resistance). */
  ghost predicate Binding(a: Argon2) {
    forall pw, other, s :: a.hash(pw, s).Ok? && a.matches(other, a.hash(pw, s).value) ==> other == pw
  }

  /** `PasswordAuth`: an optional fixed salt. */
  datatype PasswordAuth = PasswordAuth(salt: Option<SaltString>)

  /** `new`: no fixed salt, so every hash gets a freshly generated one. */
  function New(): (p: PasswordAuth)
    ensures p.salt.None?
  {
    PasswordAuth(None)
  }

  /** `with_single_salt`: one salt for every hash; the text must be a valid salt
      (the source panics otherwise). */
  function WithSingleSalt(salt: string): (p: PasswordAuth)
    requires IsSaltText(salt)
    ensures p.salt == Some(SaltString(salt))
  {
    PasswordAuth(Some(SaltString(salt)))
  }

  /** `From<SaltString>`. */
  function FromSalt(salt: SaltString): (p: PasswordAuth)
    ensures p.salt == Some(salt)
  {
    PasswordAuth(Some(salt))
  }

  /** The salt `hash_password` hashes with: the fixed one if there is one, otherwise
      `generated` (what `SaltString::generate(rand::thread_rng())` returned). */
  function SaltFor(p: PasswordAuth, generated: SaltString): (s: SaltString)
    ensures p.salt.Some? ==> s == p.salt.value
    ensures p.salt.None? ==> s == generated
  {
    match p.salt
    case Some(fixed) => fixed
    case None => generated
  }

  /** `hash_password`: the record's string form; a hasher failure is `InvalidPasswordHash`. */
  function HashPassword(p: PasswordAuth, password: seq<byte>, generated: SaltString, a: Argon2): (r: Result<string, PasswordError>)
    ensures a.hash(password, SaltFor(p, generated)).Err? <==> r.Err?
    ensures r.Err? ==> r.error == InvalidPasswordHash(a.hash(password, SaltFor(p, generated)).error)
    ensures r.Ok? ==> r.value == a.render(a.hash(password, SaltFor(p, generated)).value)
  {
    match a.hash(password, SaltFor(p, generated))
    case Err(e) => Err(InvalidPasswordHash(e))
    case Ok(h) => Ok(a.render(h))
  }

  /** `verify_password`: an unparseable record is `InvalidPasswordHash` before any comparison;
      a parsed record that does not match is `IncorrectPassword`. */
  function VerifyPassword(p: PasswordAuth, password: seq<byte>, hash: string, a: Argon2): (r: Result<(), PasswordError>)
    ensures a.parse(hash).Err? ==> r == Err(InvalidPasswordHash(a.parse(hash).error))
    ensures a.parse(hash).Ok? ==> (r.Ok? <==> a.matches(password, a.parse(hash).value))
    ensures a.parse(hash).Ok? && r.Err? ==> r.error == IncorrectPassword
  {
    match a.parse(hash)
    case Err(e) => Err(InvalidPasswordHash(e))
    case Ok(parsed) => if a.matches(password, parsed) then Ok(()) else Err(IncorrectPassword)
  }

  /** With a fixed salt every hash uses that salt, whatever salt would have been generated:
      equal passwords give equal records. */
  lemma FixedSaltIgnoresGenerated(p: PasswordAuth, password: seq<byte>, g1: SaltString, g2: SaltString, a: Argon2)
    requires p.salt.Some?
    ensures HashPassword(p, password, g1, a) == HashPassword(p, password, g2, a)
  {
  }

  /** Round trip: a password verifies against its own hash, in either salt mode. */
  lemma VerifyHashed(p: PasswordAuth, password: seq<byte>, generated: SaltString, a: Argon2)
    requires Sound(a) && HashPassword(p, password, generated, a).Ok?
    ensures VerifyPassword(p, password, HashPassword(p, password, generated, a).value, a) == Ok(())
  {
    var h := a.hash(password, SaltFor(p, generated)).value;
    assert a.parse(a.render(h)) == Ok(h);
  }

  /** A different password does not verify against the hash: `IncorrectPassword`. */
  lemma WrongPasswordRejected(p: PasswordAuth, password: seq<byte>, other: seq<byte>, generated: SaltString, a: Argon2)
    requires Sound(a) && Binding(a) && HashPassword(p, password, generated, a).Ok? && other != password
    ensures VerifyPassword(p, other, HashPassword(p, password, generated, a).value, a) == Err(IncorrectPassword)
  {
    var h := a.hash(password, SaltFor(p, generated)).value;
    assert a.parse(a.render(h)) == Ok(h);
  }

  /** Without a fixed salt, two hashes made with different generated salts differ, even
      for the same password. */
  lemma FreshSaltsGiveDistinctHashes(password: seq<byte>, g1: SaltString, g2: SaltString, a: Argon2)
    requires Sound(a) && g1 != g2
    requires HashPassword(New(), password, g1, a).Ok? && HashPassword(New(), password, g2, a).Ok?
    ensures HashPassword(New(), password, g1, a).value != HashPassword(New(), password, g2, a).value
  {
    var h1, h2 := a.hash(password, g1).value, a.hash(password, g2).value;
    assert a.parse(a.render(h1)) == Ok(h1);
    assert a.parse(a.render(h2)) == Ok(h2);
  }
}
