/** The three route handlers of the authentication service — POST /register,
    POST /login and GET /verify — over an in-memory user table. The table maps
    each username to its row (id, password hash), as the `users` table with
    its unique username column does; `nextId` plays the id sequence. */
module AuthRoutes {
  import opened AuthTypes
  import opened PayloadSchema
  import opened Bcrypt
  import opened JsonWebToken
  import opened BearerHeader

  /** A row of the `users` table, keyed by its username. */
  datatype UserRow = UserRow(id: UserId, passwordHash: string)

  type Users = map<string, UserRow>

  /** Every id was handed out by the sequence, and no two users share one. */
  ghost predicate TableInvariant(users: Users, nextId: nat) {
    && (forall u :: u in users ==> users[u].id < nextId)
    && (forall u, v :: u in users && v in users && u != v ==> users[u].id != users[v].id)
  }

  /** What one POST /register request leaves behind. */
  datatype Registration = Registration(response: Response, users: Users, nextId: nat)

  /** POST /register, as a function of the table before the request: validate,
      look the username up, hash, insert, sign. Only a request that reaches the
      insert changes the table, and it adds exactly one row: the new username
      with a fresh id and the bcrypt hash of the password. */
  function RegisterOutcome(users: Users, nextId: nat, hasher: Hasher, jwt: Signer, payload: Payload, env: Env)
    : (r: Registration)
    ensures TableInvariant(users, nextId) ==> TableInvariant(r.users, r.nextId)
    ensures r.users == users || (
              && Validate(payload).Success?
              && var c := Validate(payload).value;
              && c.username !in users
              && r.users == users[c.username := UserRow(nextId, hasher.hash(c.password, env.salt))]
              && r.nextId == nextId + 1)
    ensures r.users == users ==> r.nextId == nextId
    ensures r.users != users <==>
              && Validate(payload).Success?
              && Validate(payload).value.username !in users
              && env.failing !! {SelectUser, HashPassword, InsertUser}
    ensures r.response.Status() == 201 <==>
              && Validate(payload).Success?
              && Validate(payload).value.username !in users
              && env.failing !! {SelectUser, HashPassword, InsertUser, SignToken}
    ensures r.response.Status() == 201 ==>
              var c := Validate(payload).value;
              r.response == Reply(201, false, "User registered successfully",
                                   Session(nextId, c.username, jwt.sign(Claims(nextId, c.username), env.now)))
    ensures r.response == UsernameTaken <==>
              Validate(payload).Success? && SelectUser !in env.failing && Validate(payload).value.username in users
    ensures r.response.BadRequest? <==> Validate(payload).Failure?
    ensures || r.response.BadRequest?
            || r.response == UsernameTaken
            || r.response.Status() == 201
            || r.response == InternalError
  {
    match Validate(payload)
    case Failure(e) => Registration(BadRequest(e), users, nextId)
    case Success(c) =>
      if SelectUser in env.failing then Registration(InternalError, users, nextId)
      else if c.username in users then Registration(UsernameTaken, users, nextId)
      else if HashPassword in env.failing then Registration(InternalError, users, nextId)
      else if InsertUser in env.failing then Registration(InternalError, users, nextId)
      else
        var users' := users[c.username := UserRow(nextId, hasher.hash(c.password, env.salt))];
        if SignToken in env.failing then Registration(InternalError, users', nextId + 1)
        else
          var token := jwt.sign(Claims(nextId, c.username), env.now);
          Registration(Reply(201, false, "User registered successfully", Session(nextId, c.username, token)),
                       users', nextId + 1)
  }

  /** How GET /verify answers what the token verifier said. */
  function VerdictResponse(v: Verdict): (r: Response)
    ensures r.Status() == 200 <==> v.Decoded?
    ensures v.Decoded? ==> r == Reply(200, false, "Token is valid", Identity(v.claims.userId, v.claims.username))
    ensures r.Status() == 401 <==> v.Expired? || v.Malformed?
    ensures r.Status() == 500 <==> v.OtherError?
    ensures !v.Decoded? ==> r.Reply? && r.error && r.data == NoData
    ensures v.Expired? ==> r.message == "Token expired"
    ensures v.Malformed? ==> r.message == "Invalid token"
    ensures v.OtherError? ==> r == InternalError
  {
    match v
    case Decoded(c) => Reply(200, false, "Token is valid", Identity(c.userId, c.username))
    case Expired => TokenExpired
    case Malformed => TokenInvalid
    case OtherError => InternalError
  }

  /** The service: the user table it shares with every request, and the
      process-wide bcrypt and jwt configuration fixed at start-up. */
  class AuthService {
    var users: Users
    var nextId: nat
    const hasher: Hasher
    const jwt: Signer

    ghost predicate Valid()
      reads this
    {
      TableInvariant(users, nextId)
    }

    /** An empty table whose id sequence starts at 1. */
    constructor (hasher: Hasher, jwt: Signer)
      ensures Valid()
      ensures users == map[] && nextId == 1
      ensures this.hasher == hasher && this.jwt == jwt
    {
      this.users := map[];
      this.nextId := 1;
      this.hasher := hasher;
      this.jwt := jwt;
    }

    /** POST /register: a request whose body fails the schema is answered 400
        before the handler runs; every collaborator failure after that is 500. */
    method Register(payload: Payload, env: Env) returns (response: Response)
      requires Valid()
      modifies this
      ensures Valid()
      ensures Registration(response, users, nextId) == RegisterOutcome(old(users), old(nextId), hasher, jwt, payload, env)
    {
      var checked := Validate(payload);
      if checked.Failure? {
        return BadRequest(checked.error);
      }
      var c := checked.value;
      if SelectUser in env.failing {
        return InternalError;
      }
      if c.username in users {
        return UsernameTaken;
      }
      if HashPassword in env.failing {
        return InternalError;
      }
      var hashed := hasher.hash(c.password, env.salt);
      if InsertUser in env.failing {
        return InternalError;
      }
      var id := nextId;
      users := users[c.username := UserRow(id, hashed)];
      nextId := nextId + 1;
      if SignToken in env.failing {
        return InternalError;
      }
      var token := jwt.sign(Claims(id, c.username), env.now);
      response := Reply(201, false, "User registered successfully", Session(id, c.username, token));
    }

    /** POST /login: an unknown username and a wrong password get the very
        same 401 reply; a matching password gets 200 with the stored identity
        and a fresh token. The table is only read. */
    function Login(payload: Payload, env: Env): (r: Response)
      reads this
      ensures r.BadRequest? <==> Validate(payload).Failure?
      ensures r == InvalidCredentials <==>
                && Validate(payload).Success?
                && SelectUser !in env.failing
                && var c := Validate(payload).value;
                && (|| c.username !in users
                    || (ComparePassword !in env.failing && !hasher.compare(c.password, users[c.username].passwordHash)))
      ensures r.Status() == 200 <==>
                && Validate(payload).Success?
                && env.failing !! {SelectUser, ComparePassword, SignToken}
                && var c := Validate(payload).value;
                && c.username in users
                && hasher.compare(c.password, users[c.username].passwordHash)
      ensures r.Status() == 200 ==>
                var u := Validate(payload).value.username;
                var id := users[u].id;
                r == Reply(200, false, "Login successful", Session(id, u, jwt.sign(Claims(id, u), env.now)))
      ensures r.BadRequest? || r == InvalidCredentials || r.Status() == 200 || r == InternalError
    {
      match Validate(payload)
      case Failure(e) => BadRequest(e)
      case Success(c) =>
        if SelectUser in env.failing then InternalError
        else if c.username !in users then InvalidCredentials
        else
          var row := users[c.username];
          if ComparePassword in env.failing then InternalError
          else if !hasher.compare(c.password, row.passwordHash) then InvalidCredentials
          else if SignToken in env.failing then InternalError
          else Reply(200, false, "Login successful", Session(row.id, c.username, jwt.sign(Claims(row.id, c.username), env.now)))
    }

    /** GET /verify: a missing or non-`Bearer ` header is refused without
        consulting the verifier; otherwise the verifier's verdict on the
        extracted token decides the reply. The user table is never read. */
    function Verify(authorization: Option<string>, now: Time): (r: Response)
      ensures ExtractToken(authorization).None? ==> r == TokenRequired
      ensures ExtractToken(authorization).Some? ==>
                r == VerdictResponse(jwt.verify(ExtractToken(authorization).value, now))
      ensures r == TokenRequired <==> authorization.None? || !HasScheme(authorization.value)
    {
      match ExtractToken(authorization)
      case None => TokenRequired
      case Some(token) => VerdictResponse(jwt.verify(token, now))
    }
  }
}
