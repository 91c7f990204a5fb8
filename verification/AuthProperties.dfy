/** Properties of the authentication service that relate several requests or
    several inputs: header parsing, the login anti-enumeration rule, what a
    registration makes possible afterwards, and the expiry of issued tokens. */
module AuthProperties {
  import opened AuthTypes
  import opened PayloadSchema
  import opened Bcrypt
  import opened JsonWebToken
  import opened BearerHeader
  import opened AuthRoutes

  // ---------------------------------------------------------------- header

  /** Splitting a string that starts with a non-space character puts that
      character in front of the first field of the rest. */
  lemma SplitCons(c: char, t: string)
    requires c != ' '
    ensures Split([c] + t) == [[c] + Split(t)[0]] + Split(t)[1..]
  {
  }

  /** Splitting a space-free word followed by a space yields that word first. */
  lemma {:induction false} SplitAfterWord(w: string, rest: string)
    requires ' ' !in w
    ensures Split(w + " " + rest) == [w] + Split(rest)
    decreases |w|
  {
    if w == [] {
      assert w + " " + rest == [' '] + rest;
      assert ([' '] + rest)[1..] == rest;
    } else {
      var w' := w[1..];
      assert w == [w[0]] + w';
      SplitAfterWord(w', rest);
      assert w + " " + rest == [w[0]] + (w' + " " + rest);
      SplitCons(w[0], w' + " " + rest);
      assert [w[0]] + w' == w;
    }
  }

  /** Split undoes Join on fields that contain no space. */
  lemma {:induction false} SplitJoin(fields: seq<string>)
    requires |fields| >= 1
    requires forall i :: 0 <= i < |fields| ==> ' ' !in fields[i]
    ensures Split(Join(fields)) == fields
    decreases |fields|
  {
    if |fields| > 1 {
      SplitJoin(fields[1..]);
      SplitAfterWord(fields[0], Join(fields[1..]));
      assert [fields[0]] + fields[1..] == fields;
    } else {
      assert Join(fields) == fields[0];
    }
  }

  /** The token taken from `Bearer <rest>` is the first space-delimited word of
      `rest`: a space-free prefix of it that is all of `rest` or is followed by
      a space. */
  lemma BearerTokenIsFirstWord(rest: string)
    ensures ExtractToken(Some(Scheme + rest)).Some?
    ensures var t := ExtractToken(Some(Scheme + rest)).value;
            && ' ' !in t
            && t <= rest
            && (t == rest || rest[|t|] == ' ')
  {
    var h := Scheme + rest;
    assert h[..|Scheme|] == Scheme;
    assert h == "Bearer" + " " + rest;
    SplitAfterWord("Bearer", rest);
    var fields := Split(rest);
    if |fields| > 1 {
      assert Join(fields) == fields[0] + " " + Join(fields[1..]);
      assert rest[..|fields[0]|] == fields[0];
    }
  }

  /** A space-free token sent as `Bearer <token>` reaches the verifier unchanged. */
  lemma BearerRoundTrip(token: Token)
    requires ' ' !in token
    ensures ExtractToken(Some(Scheme + token)) == Some(token)
  {
    BearerTokenIsFirstWord(token);
  }

  // ----------------------------------------------------------------- login

  /** Anti-enumeration: a login for an unknown username and a login for a
      known username with a wrong password get byte-identical replies. */
  lemma LoginCannotEnumerateUsers(svc: AuthService, unknown: Payload, wrong: Payload, env1: Env, env2: Env)
    requires Validate(unknown).Success? && Validate(wrong).Success?
    requires SelectUser !in env1.failing && SelectUser !in env2.failing && ComparePassword !in env2.failing
    requires Validate(unknown).value.username !in svc.users
    requires var c := Validate(wrong).value;
             c.username in svc.users && !svc.hasher.compare(c.password, svc.users[c.username].passwordHash)
    ensures svc.Login(unknown, env1) == svc.Login(wrong, env2) == InvalidCredentials
  {
  }

  /** For a user whose row holds the bcrypt hash of `pw`, a login succeeds
      when the presented password has the same 72-byte bcrypt key as `pw`,
      and a password with another key gets the generic 401. */
  lemma LoginChecksStoredHash(svc: AuthService, payload: Payload, env: Env, pw: string, salt: Salt)
    requires Bcrypt.Sound(svc.hasher)
    requires Validate(payload).Success?
    requires env.failing == {}
    requires var u := Validate(payload).value.username;
             u in svc.users && svc.users[u].passwordHash == svc.hasher.hash(pw, salt)
    ensures var c := Validate(payload).value;
            Key(c.password) == Key(pw) ==>
              svc.Login(payload, env) ==
                Reply(200, false, "Login successful",
                      Session(svc.users[c.username].id, c.username,
                              svc.jwt.sign(Claims(svc.users[c.username].id, c.username), env.now)))
    ensures var c := Validate(payload).value;
            Key(c.password) != Key(pw) && '\0' !in c.password && '\0' !in pw ==>
              svc.Login(payload, env) == InvalidCredentials
  {
  }

  /** bcrypt's 72-byte limit seen from the login route: once the registered
      password is 72 UTF-8 bytes long, any password that starts with those
      72 bytes logs in, whatever follows them. */
  lemma LoginIgnoresBytesPast72(svc: AuthService, payload: Payload, env: Env,
                                prefix: string, registeredTail: string, presentedTail: string, salt: Salt)
    requires Bcrypt.Sound(svc.hasher)
    requires Validate(payload).Success?
    requires env.failing == {}
    requires |Utf8(prefix)| >= MaxKeyBytes
    requires Validate(payload).value.password == prefix + presentedTail
    requires var u := Validate(payload).value.username;
             u in svc.users && svc.users[u].passwordHash == svc.hasher.hash(prefix + registeredTail, salt)
    ensures svc.Login(payload, env).Status() == 200
  {
    KeyIgnoresTail(prefix, registeredTail);
    KeyIgnoresTail(prefix, presentedTail);
    LoginChecksStoredHash(svc, payload, env, prefix + registeredTail, salt);
  }

  // -------------------------------------------------------------- register

  /** A second registration of a username gets 400 "Username already exists",
      whatever password it carries, and leaves the table as the first left it. */
  lemma RegisterTwiceRejected(users: Users, nextId: nat, hasher: Hasher, jwt: Signer,
                              first: Payload, second: Payload, env1: Env, env2: Env)
    requires RegisterOutcome(users, nextId, hasher, jwt, first, env1).response.Status() == 201
    requires Validate(second).Success?
    requires Validate(second).value.username == Validate(first).value.username
    requires SelectUser !in env2.failing
    ensures var r1 := RegisterOutcome(users, nextId, hasher, jwt, first, env1);
            var r2 := RegisterOutcome(r1.users, r1.nextId, hasher, jwt, second, env2);
            r2.response == UsernameTaken && r2.users == r1.users && r2.nextId == r1.nextId
  {
  }

  /** A successful registration stores a hash, never the submitted password. */
  lemma StoredHashIsNotPlaintext(users: Users, nextId: nat, hasher: Hasher, jwt: Signer, payload: Payload, env: Env)
    requires Bcrypt.Sound(hasher)
    requires RegisterOutcome(users, nextId, hasher, jwt, payload, env).response.Status() == 201
    ensures var c := Validate(payload).value;
            var r := RegisterOutcome(users, nextId, hasher, jwt, payload, env);
            && c.username in r.users
            && r.users[c.username].passwordHash == hasher.hash(c.password, env.salt)
            && r.users[c.username].passwordHash != c.password
  {
  }

  /** The row a successful registration stores holds the bcrypt hash of the
      submitted password, so the same credentials log in afterwards and get
      the same identity; a password with another bcrypt key is refused with
      the generic 401. */
  lemma RegisterThenLogin(svc: AuthService, before: Users, nextId: nat, reg: Payload, env: Env,
                          login: Payload, later: Env)
    requires Bcrypt.Sound(svc.hasher)
    requires var r := RegisterOutcome(before, nextId, svc.hasher, svc.jwt, reg, env);
             r.response.Status() == 201 && svc.users == r.users
    requires Validate(login).Success?
    requires Validate(login).value.username == Validate(reg).value.username
    requires later.failing == {}
    ensures var pw := Validate(reg).value.password;
            var other := Validate(login).value.password;
            Key(other) == Key(pw) ==>
              svc.Login(login, later).Status() == 200 &&
              svc.Login(login, later).data.userId == RegisterOutcome(before, nextId, svc.hasher, svc.jwt, reg, env).response.data.userId
    ensures var pw := Validate(reg).value.password;
            var other := Validate(login).value.password;
            Key(other) != Key(pw) && '\0' !in pw && '\0' !in other ==>
              svc.Login(login, later) == InvalidCredentials
  {
    var c := Validate(reg).value;
    LoginChecksStoredHash(svc, login, later, c.password, env.salt);
  }

  // ---------------------------------------------------------------- verify

  /** A token a login or registration issued at time `t` is accepted by
      GET /verify until `t + ttl`, with the identity it was issued for, and
      refused as expired from then on. */
  lemma IssuedTokenLifetime(svc: AuthService, c: Claims, t: Time, now: Time)
    requires JsonWebToken.Sound(svc.jwt)
    ensures var header := Some(Scheme + svc.jwt.sign(c, t));
            && (t <= now < t + svc.jwt.ttl ==>
                  svc.Verify(header, now) == Reply(200, false, "Token is valid", Identity(c.userId, c.username)))
            && (t + svc.jwt.ttl <= now ==> svc.Verify(header, now) == TokenExpired)
  {
    BearerRoundTrip(svc.jwt.sign(c, t));
  }

  /** With the default lifetime, a token is still accepted one second
      before 24 hours have passed and is expired at 24 hours. */
  lemma DefaultLifetime(svc: AuthService, c: Claims, t: Time)
    requires JsonWebToken.Sound(svc.jwt) && svc.jwt.ttl == DefaultTtl
    ensures svc.Verify(Some(Scheme + svc.jwt.sign(c, t)), t + 86399)
              == Reply(200, false, "Token is valid", Identity(c.userId, c.username))
    ensures svc.Verify(Some(Scheme + svc.jwt.sign(c, t)), t + 86400) == TokenExpired
  {
    IssuedTokenLifetime(svc, c, t, t + 86399);
    IssuedTokenLifetime(svc, c, t, t + 86400);
  }

  /** The body `{username: u, password: pw}`. */
  function Body(u: string, pw: string): Payload {
    map[UsernameKey := JString(u), PasswordKey := JString(pw)]
  }

  /** A body whose two fields satisfy the schema is accepted as those credentials. */
  lemma BodyAccepted(u: string, pw: string)
    requires ValidUsername(u) && ValidPassword(pw)
    ensures Validate(Body(u, pw)) == Success(Credentials(u, pw))
  {
  }

  /** Both bodies of the end-to-end sequence pass the schema. */
  lemma AliceBodiesValid()
    ensures Validate(Body("alice1", "secret1")) == Success(Credentials("alice1", "secret1"))
    ensures Validate(Body("alice1", "wrong1")) == Success(Credentials("alice1", "wrong1"))
  {
    assert ValidUsername("alice1");
    assert Utf16Length("secret1") == 7 && Utf16Length("wrong1") == 6;
    BodyAccepted("alice1", "secret1");
    BodyAccepted("alice1", "wrong1");
  }

  /** "wrong" is five code units long, one short of the password minimum. */
  lemma ShortPasswordRefused()
    ensures Validate(Body("alice1", "wrong")).Failure?
  {
    assert Utf16Length("wrong") == 5;
  }

  /** The two passwords of the sequence have different bcrypt keys. */
  lemma AliceKeysDiffer()
    ensures Key("wrong1") != Key("secret1")
    ensures '\0' !in "secret1" && '\0' !in "wrong1"
  {
    assert |Utf8("secret1")| == 7 && |Utf8("wrong1")| == 6;
  }

  /** After `u` registered with `pw`, a login with a password whose bcrypt
      key differs gets the generic 401. */
  lemma OtherPasswordRefused(svc: AuthService, before: Users, nextId: nat, env: Env, later: Time,
                             u: string, pw: string, other: string)
    requires Bcrypt.Sound(svc.hasher)
    requires Validate(Body(u, pw)) == Success(Credentials(u, pw))
    requires Validate(Body(u, other)) == Success(Credentials(u, other))
    requires Key(other) != Key(pw) && '\0' !in pw && '\0' !in other
    requires u !in before
    requires env.failing == {}
    requires svc.users == RegisterOutcome(before, nextId, svc.hasher, svc.jwt, Body(u, pw), env).users
    ensures svc.Login(Body(u, other), Env(later, 0, {})) == InvalidCredentials
  {
    RegisterThenLogin(svc, before, nextId, Body(u, pw), env, Body(u, other), Env(later, 0, {}));
  }

  /** After alice1 registered with "secret1", a login with "wrong1" gets
      the generic 401. */
  lemma AliceWrongPassword(svc: AuthService, before: Users, nextId: nat, env: Env, later: Time)
    requires Bcrypt.Sound(svc.hasher)
    requires "alice1" !in before
    requires env.failing == {}
    requires svc.users == RegisterOutcome(before, nextId, svc.hasher, svc.jwt, Body("alice1", "secret1"), env).users
    ensures svc.Login(Body("alice1", "wrong1"), Env(later, 0, {})) == InvalidCredentials
  {
    AliceBodiesValid();
    AliceKeysDiffer();
    OtherPasswordRefused(svc, before, nextId, env, later, "alice1", "secret1", "wrong1");
  }

  /** After alice1 registered with "secret1", a login with "secret1" succeeds. */
  lemma AliceRightPassword(svc: AuthService, before: Users, nextId: nat, env: Env, later: Time)
    requires Bcrypt.Sound(svc.hasher)
    requires "alice1" !in before
    requires env.failing == {}
    requires svc.users == RegisterOutcome(before, nextId, svc.hasher, svc.jwt, Body("alice1", "secret1"), env).users
    ensures svc.Login(Body("alice1", "secret1"), Env(later, 0, {})).Status() == 200
  {
    AliceBodiesValid();
    RegisterThenLogin(svc, before, nextId, Body("alice1", "secret1"), env, Body("alice1", "secret1"), Env(later, 0, {}));
  }

  /** The request sequence the service is built for: register alice1, verify
      the issued token, get 400 for a password below the schema's minimum,
      fail to log in with a wrong password, log in with the right one, and
      call GET /verify without a header. */
  lemma EndToEnd(svc: AuthService, before: Users, nextId: nat, env: Env, later: Time)
    requires Bcrypt.Sound(svc.hasher) && JsonWebToken.Sound(svc.jwt)
    requires "alice1" !in before
    requires env.failing == {}
    requires env.now <= later < env.now + svc.jwt.ttl
    requires svc.users == RegisterOutcome(before, nextId, svc.hasher, svc.jwt, Body("alice1", "secret1"), env).users
    ensures var r := RegisterOutcome(before, nextId, svc.hasher, svc.jwt, Body("alice1", "secret1"), env);
            && r.response.Status() == 201
            && r.response.data.username == "alice1"
            && svc.Verify(Some(Scheme + r.response.data.token), later)
                 == Reply(200, false, "Token is valid", Identity(nextId, "alice1"))
            && svc.Login(Body("alice1", "wrong"), Env(later, 0, {})).BadRequest?
            && svc.Login(Body("alice1", "wrong1"), Env(later, 0, {})) == InvalidCredentials
            && svc.Login(Body("alice1", "secret1"), Env(later, 0, {})).Status() == 200
            && svc.Verify(None, later) == TokenRequired
  {
    AliceBodiesValid();
    var r := RegisterOutcome(before, nextId, svc.hasher, svc.jwt, Body("alice1", "secret1"), env);
    assert r.response.data == Session(nextId, "alice1", svc.jwt.sign(Claims(nextId, "alice1"), env.now));
    IssuedTokenLifetime(svc, Claims(nextId, "alice1"), env.now, later);
    ShortPasswordRefused();
    AliceWrongPassword(svc, before, nextId, env, later);
    AliceRightPassword(svc, before, nextId, env, later);
  }
}
