/** Reading the token out of an `Authorization` header: the header must start
    with the seven characters `Bearer `, and the token is the second field of
    the header split on single spaces (JavaScript's `split(' ')`, which keeps
    empty fields). */
module BearerHeader {
  import opened AuthTypes

  const Scheme := "Bearer "

  /** Joins fields with one space between neighbours; the inverse of Split. */
  function Join(fields: seq<string>): string {
    if |fields| == 0 then ""
    else if |fields| == 1 then fields[0]
    else fields[0] + " " + Join(fields[1..])
  }

  /** `s.split(' ')`: the maximal space-free pieces between spaces, empty
      pieces included, so that joining them back gives `s`. */
  function Split(s: string): (fields: seq<string>)
    ensures |fields| >= 1
    ensures forall i :: 0 <= i < |fields| ==> ' ' !in fields[i]
    ensures Join(fields) == s
    ensures |fields| == 1 <==> ' ' !in s
    decreases |s|
  {
    if s == [] then [""]
    else if s[0] == ' ' then [""] + Split(s[1..])
    else
      var rest := Split(s[1..]);
      assert rest[0] == rest[..1][0];
      [[s[0]] + rest[0]] + rest[1..]
  }

  predicate HasScheme(header: string) {
    |header| >= |Scheme| && header[..|Scheme|] == Scheme
  }

  /** The token the Verify handler hands to the verifier, or None when the
      header is missing, empty or not a `Bearer ` header (no verification then). */
  function ExtractToken(header: Option<string>): (token: Option<Token>)
    ensures token.Some? <==> header.Some? && HasScheme(header.value)
    ensures token.Some? ==> ' ' !in token.value
  {
    match header
    case None => None
    case Some(h) =>
      if h == "" || !HasScheme(h) then None
      else
        assert h[6] == ' ';
        Some(Split(h)[1])
  }
}
