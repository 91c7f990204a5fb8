/** Values shared by the three route handlers of the authentication service:
    identifiers, the collaborators' failure points, and the HTTP replies. */
module AuthTypes {

  datatype Option<+T> = None | Some(value: T)

  datatype Result<+R, +E> = Success(value: R) | Failure(error: E)

  /** Database-assigned user id (a SERIAL column). */
  type UserId = nat

  /** Seconds on the service's clock. */
  type Time = nat

  /** The random salt bcrypt draws for one hashing call. */
  type Salt = nat

  /** A signed bearer token as handed to clients. */
  type Token = string

  /** The collaborator calls a handler makes that can throw. A thrown call is
      caught by the handler's catch-all and answered with 500. */
  datatype Call =
    | SelectUser       // pool.query('SELECT ... WHERE username = $1')
    | HashPassword     // bcrypt.hash
    | InsertUser       // pool.query('INSERT ... RETURNING id, username'), including a
                       // unique-constraint violation raised by a concurrent insert
    | ComparePassword  // bcrypt.compare
    | SignToken        // jwt.sign

  /** Everything a request sees from outside the service: the clock, the salt
      bcrypt would draw, and which collaborator calls throw. */
  datatype Env = Env(now: Time, salt: Salt, failing: set<Call>)

  /** A validated request body. */
  datatype Credentials = Credentials(username: string, password: string)

  /** Why the payload schema rejected a request body; the first failing rule wins. */
  datatype ValidationError =
    | Required(field: string)
    | NotAString(field: string)
    | Empty(field: string)
    | NotAlphanumeric
    | TooShort(field: string, limit: nat)
    | TooLong(limit: nat)
    | NotAllowed(keys: set<string>)

  /** The `data` member of a reply body. */
  datatype Data =
    | NoData
    | Identity(userId: UserId, username: string)
    | Session(userId: UserId, username: string, token: Token)

  /** A handler's reply `{error, message, data}` with its status code, or the
      400 the framework sends when the payload schema rejects the body (the
      handler never runs then). */
  datatype Response =
    | Reply(status: nat, error: bool, message: string, data: Data)
    | BadRequest(reason: ValidationError)
  {
    function Status(): nat {
      if Reply? then status else 400
    }
  }

  const InternalError := Reply(500, true, "Internal server error", NoData)
  const UsernameTaken := Reply(400, true, "Username already exists", NoData)
  const InvalidCredentials := Reply(401, true, "Invalid username or password", NoData)
  const TokenRequired := Reply(401, true, "Access token required", NoData)
  const TokenExpired := Reply(401, true, "Token expired", NoData)
  const TokenInvalid := Reply(401, true, "Invalid token", NoData)
}
