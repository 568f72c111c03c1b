/** The shared vocabulary of the users API crate (crates/users-api/src/lib.rs). */
module UsersApi {

  /** An absolute instant, as whole seconds since the Unix epoch (chrono's `DateTime<Utc>`). */
  type ExpirationTime = int

  /** A signed span of time in seconds (chrono's `Duration`). */
  type Duration = int

  const SECONDS_PER_DAY: Duration := 86400

  /** chrono's `Duration::days`: a span of exactly `n` whole days, of the sign of `n`. */
  function Days(n: int): (d: Duration)
    ensures d % SECONDS_PER_DAY == 0 && d / SECONDS_PER_DAY == n
    ensures (d < 0 <==> n < 0) && (d == 0 <==> n == 0)
  {
    n * SECONDS_PER_DAY
  }

  /** What the auth core reads of a user: its display name and its e-mail (the `User` trait's
      `username` and `email`); `email` is already in its string form. */
  datatype User = User(username: string, email: string)
}
