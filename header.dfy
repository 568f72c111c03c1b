/**
 * The `Authorization` header (crates/users-api/src/header.rs): building it from a
 * bearer token, rendering it as a header value, and parsing it from a request.
 *
 * Parsing does not strip a prefix: it applies Rust's `str::replace("Bearer ", "")`,
 * which deletes every non-overlapping occurrence of `Bearer `, found left to right.
 */
module Header {
  import opened Wrappers
  import opened Bearer

  /** A request's headers: lower-case header name to its (first) value, already turned into text. */
  type HeaderMap = map<string, string>

  /** The typed header; it holds only the token. */
  datatype Authorization = Authorization(bearer: BearerToken)

  /** actix's `ParseError`; the parser only produces `Incomplete`. */
  datatype ParseError = Incomplete

  /** http's `InvalidHeaderValue`. */
  datatype InvalidHeaderValue = InvalidHeaderValue

  /** `Authorization::new`. */
  function New(bearer: BearerToken): (a: Authorization)
    ensures a.bearer == bearer
  {
    Authorization(bearer)
  }

  /** `Header::name`: the header's (normalised, lower-case) name. */
  function Name(): (n: string)
    ensures n != [] && forall i :: 0 <= i < |n| ==> 'a' <= n[i] <= 'z'
  {
    "authorization"
  }

  /** A character whose UTF-8 bytes `HeaderValue::from_str` accepts: tab, or any byte
      from 32 up except DEL (127). Every non-ASCII character qualifies. */
  predicate IsValueChar(c: char) {
    c == '\t' || (32 <= c as int && c as int != 127)
  }

  /** `try_into_value`: the token's `Display` form as a header value, refused when it
      holds a character a header value may not carry. */
  function TryIntoValue(a: Authorization): (r: Result<string, InvalidHeaderValue>)
    ensures r.Ok? <==> forall i :: 0 <= i < |Display(a.bearer)| ==> IsValueChar(Display(a.bearer)[i])
    ensures r.Ok? ==> r.value == BEARER_PREFIX + a.bearer.content
  {
    var text := Display(a.bearer);
    if forall i :: 0 <= i < |text| ==> IsValueChar(text[i]) then Ok(text) else Err(InvalidHeaderValue)
  }

  /** `s.replace("Bearer ", "")`: scanning left to right, every occurrence that does not
      overlap an earlier removed one is deleted. */
  function RemoveBearer(s: string): (r: string)
    ensures |r| <= |s|
    ensures |s| < |BEARER_PREFIX| ==> r == s
    decreases |s|
  {
    if |s| < |BEARER_PREFIX| then s
    else if s[..|BEARER_PREFIX|] == BEARER_PREFIX then RemoveBearer(s[|BEARER_PREFIX|..])
    else [s[0]] + RemoveBearer(s[1..])
  }

  /** How many occurrences that left-to-right scan deletes. */
  function Removed(s: string): nat
    decreases |s|
  {
    if |s| < |BEARER_PREFIX| then 0
    else if s[..|BEARER_PREFIX|] == BEARER_PREFIX then 1 + Removed(s[|BEARER_PREFIX|..])
    else Removed(s[1..])
  }

  /** `Bearer ` occurs in `s` at position `i`. */
  predicate OccursAt(s: string, i: int) {
    0 <= i <= |s| - |BEARER_PREFIX| && s[i..i + |BEARER_PREFIX|] == BEARER_PREFIX
  }

  /** `s` has an occurrence of `Bearer ` somewhere. */
  predicate ContainsBearer(s: string) {
    exists i :: 0 <= i <= |s| && OccursAt(s, i)
  }

  /** `Header::parse`: a missing header is `Incomplete`; a present one always parses,
      to the token left after removing the `Bearer ` occurrences. */
  function Parse(headers: HeaderMap): (r: Result<Authorization, ParseError>)
    ensures r.Err? <==> Name() !in headers
    ensures r.Err? ==> r.error == Incomplete
    ensures r.Ok? ==> r.value.bearer.content == RemoveBearer(headers[Name()])
  {
    if Name() !in headers then Err(Incomplete)
    else Ok(Authorization(From(RemoveBearer(headers[Name()]))))
  }

  /** `new(b).bearer() == b`. */
  lemma NewBearer(b: BearerToken)
    ensures New(b).bearer == b
  {
  }

  /** Each removal shortens the text by exactly the length of `Bearer `. */
  lemma {:induction false} RemoveBearerLength(s: string)
    ensures |RemoveBearer(s)| == |s| - |BEARER_PREFIX| * Removed(s)
    decreases |s|
  {
    if |s| >= |BEARER_PREFIX| {
      if s[..|BEARER_PREFIX|] == BEARER_PREFIX {
        RemoveBearerLength(s[|BEARER_PREFIX|..]);
      } else {
        RemoveBearerLength(s[1..]);
      }
    }
  }

  /** An occurrence strictly inside `s` is an occurrence in `s[1..]`, one place earlier. */
  lemma ContainsBearerTail(s: string)
    requires |s| >= |BEARER_PREFIX| && ContainsBearer(s) && s[..|BEARER_PREFIX|] != BEARER_PREFIX
    ensures ContainsBearer(s[1..])
  {
    var i :| 0 <= i <= |s| && OccursAt(s, i);
    assert i != 0;
    assert s[1..][i - 1..i - 1 + |BEARER_PREFIX|] == s[i..i + |BEARER_PREFIX|];
    assert OccursAt(s[1..], i - 1);
  }

  /** An occurrence in `s[1..]` is an occurrence in `s`. */
  lemma ContainsBearerCons(s: string)
    requires s != [] && ContainsBearer(s[1..])
    ensures ContainsBearer(s)
  {
    var i :| 0 <= i <= |s[1..]| && OccursAt(s[1..], i);
    forall k | 0 <= k < |BEARER_PREFIX|
      ensures s[i + 1..i + 1 + |BEARER_PREFIX|][k] == BEARER_PREFIX[k]
    {
      assert s[1..][i..i + |BEARER_PREFIX|][k] == BEARER_PREFIX[k];
      assert s[1..][i..i + |BEARER_PREFIX|][k] == s[i + 1 + k];
    }
    assert s[i + 1..i + 1 + |BEARER_PREFIX|] == BEARER_PREFIX;
    assert OccursAt(s, i + 1);
  }

  /** The scan deletes something exactly when `Bearer ` occurs somewhere in the text. */
  lemma {:induction false} RemovedZeroIff(s: string)
    ensures Removed(s) == 0 <==> !ContainsBearer(s)
    decreases |s|
  {
    if |s| < |BEARER_PREFIX| {
      assert !ContainsBearer(s);
    } else if s[..|BEARER_PREFIX|] == BEARER_PREFIX {
      assert OccursAt(s, 0);
    } else {
      RemovedZeroIff(s[1..]);
      if ContainsBearer(s) {
        ContainsBearerTail(s);
      }
      if ContainsBearer(s[1..]) {
        ContainsBearerCons(s);
      }
    }
  }

  /** Text without any `Bearer ` comes through unchanged. */
  lemma {:induction false} RemoveBearerNoOccurrence(s: string)
    requires !ContainsBearer(s)
    ensures RemoveBearer(s) == s
    decreases |s|
  {
    if |s| >= |BEARER_PREFIX| {
      assert !OccursAt(s, 0);
      if ContainsBearer(s[1..]) {
        ContainsBearerCons(s);
      }
      RemoveBearerNoOccurrence(s[1..]);
      assert [s[0]] + s[1..] == s;
    }
  }

  /** `Bearer ` followed by content free of `Bearer ` parses to exactly that content. */
  lemma RemoveBearerPrefixed(t: string)
    requires !ContainsBearer(t)
    ensures RemoveBearer(BEARER_PREFIX + t) == t
  {
    assert (BEARER_PREFIX + t)[..|BEARER_PREFIX|] == BEARER_PREFIX;
    assert (BEARER_PREFIX + t)[|BEARER_PREFIX|..] == t;
    RemoveBearerNoOccurrence(t);
  }

  /** One step of the scan when `Bearer ` starts the text. */
  lemma RemoveMatch(s: string)
    requires |s| >= |BEARER_PREFIX| && s[..|BEARER_PREFIX|] == BEARER_PREFIX
    ensures RemoveBearer(s) == RemoveBearer(s[|BEARER_PREFIX|..])
  {
  }

  /** One step of the scan when the text starts differently from `Bearer ` at place `k`. */
  lemma RemoveSkip(s: string, k: nat)
    requires |s| >= |BEARER_PREFIX| && k < |BEARER_PREFIX| && s[k] != BEARER_PREFIX[k]
    ensures RemoveBearer(s) == [s[0]] + RemoveBearer(s[1..])
  {
    assert s[..|BEARER_PREFIX|][k] != BEARER_PREFIX[k];
  }

  /** A header of another scheme is taken whole as the token: `Basic xyz` becomes the token `Basic xyz`. */
  lemma ParseOtherScheme()
    ensures Parse(map[Name() := "Basic xyz"]) == Ok(Authorization(BearerToken("Basic xyz")))
  {
    RemoveSkip("Basic xyz", 1);
    assert "Basic xyz"[1..] == "asic xyz";
    RemoveSkip("asic xyz", 0);
    assert "asic xyz"[1..] == "sic xyz";
    RemoveSkip("sic xyz", 0);
    assert "sic xyz"[1..] == "ic xyz";
    assert RemoveBearer("Basic xyz") == "Basic xyz";
  }

  /** Occurrences after the first are deleted too: `Bearer aBearer b` becomes `ab`. */
  lemma EveryOccurrenceRemoved()
    ensures RemoveBearer("Bearer aBearer b") == "ab"
  {
    RemoveMatch("Bearer aBearer b");
    assert "Bearer aBearer b"[7..] == "aBearer b";
    RemoveSkip("aBearer b", 0);
    assert "aBearer b"[1..] == "Bearer b";
    RemoveMatch("Bearer b");
    assert "Bearer b"[7..] == "b";
  }

  /** One deletion can join the text around it into a fresh `Bearer `, which stays in
      the token: `BeBearer arer ` becomes `Bearer `. */
  lemma RemovalCanFormNewOccurrence()
    ensures RemoveBearer("BeBearer arer ") == "Bearer "
  {
    RemoveSkip("BeBearer arer ", 2);
    assert "BeBearer arer "[1..] == "eBearer arer ";
    RemoveSkip("eBearer arer ", 0);
    assert "eBearer arer "[1..] == "Bearer arer ";
    RemoveMatch("Bearer arer ");
    assert "Bearer arer "[7..] == "arer ";
  }

  /** Round trip: the header value rendered for a token parses back to a header with
      that token, whenever the token's content has no `Bearer ` in it. */
  lemma ParseTryIntoValue(b: BearerToken)
    requires TryIntoValue(New(b)).Ok? && !ContainsBearer(b.content)
    ensures Parse(map[Name() := TryIntoValue(New(b)).value]) == Ok(New(b))
  {
    RemoveBearerPrefixed(b.content);
  }
}
