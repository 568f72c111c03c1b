/**
 * The bearer token (crates/users-api/src/bearer.rs): an immutable, opaque string of
 * token characters with structural equality, rendered as `Bearer <content>`.
 */
module Bearer {

  /** The scheme prefix that `Display` writes and the header parser removes. */
  const BEARER_PREFIX: string := "Bearer "

  /** `BearerToken(Box<[u8]>)`; equality and hashing are those of the content. */
  datatype BearerToken = BearerToken(content: string)

  /** `From<B: AsRef<[u8]>>`: copies the given content. */
  function From(b: string): (t: BearerToken)
    ensures t.content == b
  {
    BearerToken(b)
  }

  /** `Deref`: the token's content. */
  function Deref(t: BearerToken): (b: string)
    ensures From(b) == t
  {
    t.content
  }

  /** `Display`: the literal `Bearer ` followed by the content. */
  function Display(t: BearerToken): (s: string)
    ensures |s| == |BEARER_PREFIX| + |t.content|
    ensures s[..|BEARER_PREFIX|] == BEARER_PREFIX && s[|BEARER_PREFIX|..] == t.content
  {
    BEARER_PREFIX + t.content
  }

  /** Conversion keeps the content exactly: dereferencing `From(b)` gives `b`. */
  lemma DerefFrom(b: string)
    ensures Deref(From(b)) == b
  {
  }

  /** Every token arises from its own content, so `From` and `Deref` are inverse. */
  lemma FromDeref(t: BearerToken)
    ensures From(Deref(t)) == t
  {
  }

  /** Two tokens are equal exactly when their contents are. */
  lemma EqualityIsStructural(a: BearerToken, b: BearerToken)
    ensures a == b <==> Deref(a) == Deref(b)
  {
  }

  /** The rendering determines the token: distinct tokens render differently. */
  lemma DisplayInjective(a: BearerToken, b: BearerToken)
    ensures Display(a) == Display(b) ==> a == b
  {
    if Display(a) == Display(b) {
      assert a.content == Display(a)[|BEARER_PREFIX|..];
    }
  }
}
