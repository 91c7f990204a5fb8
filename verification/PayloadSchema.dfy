/** The request-body schema shared by POST /register and POST /login: a JSON
    object with exactly the keys `username` (a string of 3 to 30 ASCII letters
    and digits) and `password` (a string at least 6 UTF-16 code units long). */
module PayloadSchema {
  import opened AuthTypes

  /** A member of the JSON request body: a string, or any other JSON value. */
  datatype Json = JString(s: string) | JOther

  type Payload = map<string, Json>

  const UsernameKey := "username"
  const PasswordKey := "password"
  const MinUsername := 3
  const MaxUsername := 30
  const MinPassword := 6

  predicate IsAlphanumeric(c: char) {
    'a' <= c <= 'z' || 'A' <= c <= 'Z' || '0' <= c <= '9'
  }

  /** Length as JavaScript counts it: characters outside the Basic Multilingual
      Plane take two UTF-16 code units. */
  function Utf16Length(s: string): (n: nat)
    ensures |s| <= n <= 2 * |s|
    ensures (forall i :: 0 <= i < |s| ==> s[i] as int <= 0xFFFF) ==> n == |s|
    ensures |s| == 1 ==> n == (if s[0] as int > 0xFFFF then 2 else 1)
  {
    if s == [] then 0
    else (if s[0] as int > 0xFFFF then 2 else 1) + Utf16Length(s[1..])
  }

  /** Code units add up over concatenation, so each character contributes
      its own one or two units wherever it stands. */
  lemma {:induction false} Utf16Concat(a: string, b: string)
    ensures Utf16Length(a + b) == Utf16Length(a) + Utf16Length(b)
    decreases |a|
  {
    if a == [] {
      assert a + b == b;
    } else {
      assert (a + b)[0] == a[0] && (a + b)[1..] == a[1..] + b;
      Utf16Concat(a[1..], b);
    }
  }

  ghost predicate ValidUsername(u: string) {
    MinUsername <= |u| <= MaxUsername && forall i :: 0 <= i < |u| ==> IsAlphanumeric(u[i])
  }

  ghost predicate ValidPassword(p: string) {
    Utf16Length(p) >= MinPassword
  }

  /** The body is acceptable: both keys hold valid strings and nothing else is present. */
  ghost predicate WellFormed(p: Payload) {
    && UsernameKey in p && p[UsernameKey].JString? && ValidUsername(p[UsernameKey].s)
    && PasswordKey in p && p[PasswordKey].JString? && ValidPassword(p[PasswordKey].s)
    && p.Keys <= {UsernameKey, PasswordKey}
  }

  /** `Joi.string().alphanum().min(3).max(30).required()`: rules are tried in
      the order they are written and the first failure is reported. */
  function CheckUsername(p: Payload): (r: Result<string, ValidationError>)
    ensures r.Success? <==> UsernameKey in p && p[UsernameKey].JString? && ValidUsername(p[UsernameKey].s)
    ensures r.Success? ==> r.value == p[UsernameKey].s
  {
    if UsernameKey !in p then Failure(Required(UsernameKey))
    else match p[UsernameKey]
      case JOther => Failure(NotAString(UsernameKey))
      case JString(u) =>
        if u == "" then Failure(Empty(UsernameKey))
        else if exists i :: 0 <= i < |u| && !IsAlphanumeric(u[i]) then Failure(NotAlphanumeric)
        else if |u| < MinUsername then Failure(TooShort(UsernameKey, MinUsername))
        else if |u| > MaxUsername then Failure(TooLong(MaxUsername))
        else Success(u)
  }

  /** `Joi.string().min(6).required()`. */
  function CheckPassword(p: Payload): (r: Result<string, ValidationError>)
    ensures r.Success? <==> PasswordKey in p && p[PasswordKey].JString? && ValidPassword(p[PasswordKey].s)
    ensures r.Success? ==> r.value == p[PasswordKey].s
  {
    if PasswordKey !in p then Failure(Required(PasswordKey))
    else match p[PasswordKey]
      case JOther => Failure(NotAString(PasswordKey))
      case JString(pw) =>
        if pw == "" then Failure(Empty(PasswordKey))
        else if Utf16Length(pw) < MinPassword then Failure(TooShort(PasswordKey, MinPassword))
        else Success(pw)
  }

  /** The register and login schemas (they are the same schema): the declared
      keys are checked in order, then keys the schema does not declare are refused. */
  function Validate(p: Payload): (r: Result<Credentials, ValidationError>)
    ensures r.Success? <==> WellFormed(p)
    ensures r.Success? ==> r.value == Credentials(p[UsernameKey].s, p[PasswordKey].s)
    ensures r.Success? ==> ValidUsername(r.value.username) && ValidPassword(r.value.password)
    ensures r.Failure? && r.error.NotAllowed? ==> r.error.keys != {} && r.error.keys !! {UsernameKey, PasswordKey}
  {
    match CheckUsername(p)
    case Failure(e) => Failure(e)
    case Success(u) =>
      match CheckPassword(p)
      case Failure(e) => Failure(e)
      case Success(pw) =>
        var extra := p.Keys - {UsernameKey, PasswordKey};
        if extra != {} then Failure(NotAllowed(extra))
        else Success(Credentials(u, pw))
  }
}
