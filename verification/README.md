# Credential service: register, login, verify

A Dafny model of the request-decision logic of a small credential-issuance
service (`src/routes/auth.js`). The service registers users in a `users`
table, authenticates username/password pairs, and issues and checks JWT
bearer tokens. Three HTTP routes are modelled:

- **POST /register** validates the body, checks whether the username is
  taken, hashes the password with bcrypt, inserts the row and signs a token.
- **POST /login** validates the body, looks the user up, compares the
  password against the stored hash and signs a token.
- **GET /verify** reads the `Authorization: Bearer <token>` header and maps
  what the token verifier says to a reply.

Every branch ends in an exact reply: a status, the `error` flag, the
`message` and the `data` payload.

Modules, one per concern:

- `AuthTypes`: identifiers, the reply shape and its fixed replies, and `Env`.
  `Env` holds what a request sees from outside: the clock, the salt bcrypt
  would draw, and the set of collaborator calls that throw.
- `PayloadSchema`: the Joi schema shared by register and login, as
  `Validate`, a function that returns the credentials or the first failing rule.
- `Bcrypt`: the password hasher as a pair of functions, `hash(password, salt)`
  and `compare(password, hash)`. bcrypt hashes only the first 72 bytes of the
  password's UTF-8 encoding; `Key` is that prefix. The predicate `Bcrypt.Sound`
  states the library's promise in terms of `Key`:
  - a password matches every hash made from a password with the same key;
  - a password with a different key does not match (stated only for passwords
    without a NUL character);
  - a hash is never the password itself.

  This is an assumption about bcrypt. It is used as a precondition of the
  lemmas that need it and is never proved.
- `JsonWebToken`: the token issuer and verifier as a pair of functions,
  `sign(claims, time)` and `verify(token, time) -> Decoded | Expired | Malformed | OtherError`,
  plus the configured lifetime (24 hours by default). The predicate
  `JsonWebToken.Sound` is the assumed library promise: tokens contain no
  spaces, verify to their claims before expiry, and are expired afterwards.
- `BearerHeader`: JavaScript's `split(' ')` with its inverse `Join`, and the
  extraction of the token from the header.
- `AuthRoutes`: the class `AuthService`. It holds the user table (a map from
  username to `(id, passwordHash)`), the id sequence, and the bcrypt and jwt
  configuration as constants. `Register` is a method that changes the table
  and is proved against the pure `RegisterOutcome`. `Login` is a function
  that only reads the table. `Verify` is a function without a `reads` clause,
  so it cannot depend on the table.
- `AuthProperties`: lemmas that relate several requests or inputs.

Behaviour of the code worth noting:

- An INSERT rejected by the unique constraint (a concurrent registration of
  the same name) is answered 500 "Internal server error" by the catch-all.
  It is not answered 400 "Username already exists".
- If signing the token throws after the INSERT has succeeded, the reply is
  500 but the new row stays in the table.
- A login with the 5-character password `wrong` is refused with 400 by the
  schema, which requires at least 6, before the handler runs, even when the
  username exists. `EndToEnd` states that 400, and uses `wrong1` for the
  wrong-password 401.

## Model

| member | source | states |
|---|---|---|
| `PayloadSchema.Utf16Length` | src/routes/auth.js:9 | the password length is counted in UTF-16 code units: a single character outside the Basic Multilingual Plane counts two and any other counts one; the total lies between the character count and twice it, and equals it for text inside the Basic Multilingual Plane |
| `PayloadSchema.Utf16Concat` | src/routes/auth.js:9 | the code-unit length of a concatenation is the sum of the parts' lengths, so each character adds its own one or two units |
| `PayloadSchema.CheckUsername` | src/routes/auth.js:8 | a username passes exactly when it is present, is a string, and has 3 to 30 ASCII letters or digits; the value passed on is that string |
| `PayloadSchema.CheckPassword` | src/routes/auth.js:9 | a password passes exactly when it is present, is a string, and is at least 6 UTF-16 code units long |
| `PayloadSchema.Validate` | src/routes/auth.js:7-15 | a body is accepted exactly when both fields are valid and no other key is present; the credentials are the submitted strings; a rejection for extra keys names only undeclared keys |
| `AuthProperties.BodyAccepted` | src/routes/auth.js:7-15 | a body `{username, password}` whose fields satisfy the username and password rules is accepted as exactly those credentials |
| `BearerHeader.Split` | src/routes/auth.js:172 | `split(' ')` yields at least one field, no field contains a space, joining the fields with spaces gives back the header, and there is one field exactly when there is no space |
| `BearerHeader.ExtractToken` | src/routes/auth.js:163-172 | a token is extracted exactly when the header is present and starts with `Bearer `; the extracted token contains no space |
| `AuthProperties.SplitAfterWord` | src/routes/auth.js:172 | splitting a space-free word followed by a space and a rest gives that word and then the fields of the rest |
| `AuthProperties.SplitJoin` | src/routes/auth.js:172 | `Split` undoes `Join` for any non-empty list of space-free fields |
| `AuthProperties.BearerTokenIsFirstWord` | src/routes/auth.js:165-172 | for `Bearer <rest>` the token is the first word of the rest: a space-free prefix that is all of the rest or is followed by a space |
| `AuthProperties.BearerRoundTrip` | src/routes/auth.js:165-173 | a space-free token sent as `Bearer <token>` reaches the verifier unchanged |
| `AuthRoutes.RegisterOutcome` | src/routes/auth.js:43-90 | the table changes exactly when a valid body names a new username and the lookup, the hash and the INSERT all succeed; the change adds one row holding the next id and the bcrypt hash of the password, and otherwise the id sequence is untouched; the id invariant is kept; 201 happens exactly for a new valid username with no failing call, and carries the new id, the username and a token for them; 400 "Username already exists" happens exactly for a taken name when the lookup works; 400 for a bad body happens exactly when validation fails; every outcome is one of those or the generic 500 |
| `AuthRoutes.AuthService.Register` | src/routes/auth.js:43-90 | the handler's steps leave the reply, the table and the id sequence that `RegisterOutcome` prescribes, and keep the table invariant |
| `AuthRoutes.AuthService.Login` | src/routes/auth.js:105-154 | 400 happens exactly for a bad body; 401 "Invalid username or password" happens exactly for an unknown user or a wrong password; 200 "Login successful" happens exactly when the stored hash matches and no call fails, and carries the stored id, the username and a token for them; every outcome is one of those or the generic 500 |
| `AuthRoutes.VerdictResponse` | src/routes/auth.js:173-203 | 200 "Token is valid" with the decoded id and username exactly on success; 401 "Token expired" or 401 "Invalid token" for the two client-side failures; the generic 500 for any other error |
| `AuthRoutes.AuthService.Verify` | src/routes/auth.js:161-205 | a missing or non-`Bearer ` header gets 401 "Access token required" without consulting the verifier, and exactly those headers do; otherwise the verifier's verdict on the extracted token decides the reply |
| `AuthProperties.LoginCannotEnumerateUsers` | src/routes/auth.js:115-132 | an unknown username and a wrong password for a known one get identical replies |
| `AuthProperties.LoginChecksStoredHash` | src/routes/auth.js:122-145 | for a row holding the bcrypt hash of `pw`, a login presenting a password with the same 72-byte key as `pw` gets 200 with the stored id, the username and a fresh token; a password with a different key (neither containing NUL) gets the generic 401 |
| `Bcrypt.Utf8Char` | src/routes/auth.js:62 | a character is encoded in one to four bytes, the count fixed by its range; the lead byte announces the count, later bytes are continuation bytes, and the payload bits give the character back |
| `Bcrypt.Utf8CharPrefixFree` | src/routes/auth.js:62 | no character's encoding is a prefix of another's: equal byte streams start with the same character |
| `Bcrypt.Utf8` | src/routes/auth.js:62 | the UTF-8 encoding bcrypt receives is one to four bytes per character, and one byte per character for ASCII text |
| `Bcrypt.Utf8Injective` | src/routes/auth.js:62 | different passwords have different UTF-8 encodings |
| `Bcrypt.Utf8Concat` | src/routes/auth.js:62 | UTF-8 encoding distributes over concatenation |
| `Bcrypt.Key` | src/routes/auth.js:62 | the part of a password bcrypt hashes is the prefix of its UTF-8 encoding of exactly 72 bytes, or all of it when the encoding is shorter |
| `Bcrypt.KeyIgnoresTail` | src/routes/auth.js:62 | once a password's encoding reaches 72 bytes, appending anything leaves its key unchanged |
| `AuthProperties.LoginIgnoresBytesPast72` | src/routes/auth.js:122-145 | when the registered password and the presented one share a prefix of at least 72 UTF-8 bytes, the login succeeds whatever follows, because the schema sets no maximum password length |
| `AuthProperties.RegisterTwiceRejected` | src/routes/auth.js:47-58 | after a successful registration, registering the same name again with any password gets 400 "Username already exists" and leaves the table alone |
| `AuthProperties.StoredHashIsNotPlaintext` | src/routes/auth.js:60-68 | after a 201 the new row holds the bcrypt hash of the submitted password, salted with the request's salt, and never the password itself |
| `AuthProperties.RegisterThenLogin` | src/routes/auth.js:60-145 | after a successful registration, any password with the registered password's 72-byte key logs in with the id the registration returned, and a password with another key (neither containing NUL) gets the generic 401 |
| `AuthProperties.IssuedTokenLifetime` | src/routes/auth.js:18-28 | a token issued at `t` and sent as a bearer header verifies to its claims until `t + ttl` and is answered "Token expired" from then on, under the jwt assumption |
| `AuthProperties.DefaultLifetime` | src/routes/auth.js:22 | with the default `24h` lifetime a token is accepted 86399 seconds after issue and expired at 86400 |
| `AuthProperties.ShortPasswordRefused` | src/routes/auth.js:14 | the five-character password `wrong` fails the login schema |
| `AuthProperties.OtherPasswordRefused` | src/routes/auth.js:60-145 | after `u` registered with `pw`, a login of `u` with a valid password whose bcrypt key differs gets the generic 401 |
| `AuthProperties.EndToEnd` | src/routes/auth.js:43-205 | register `alice1`/`secret1` gets 201; its token verifies to `alice1`; the too-short password `wrong` gets 400; the wrong password `wrong1` gets 401; the right one gets 200; a request with no header gets "Access token required" |

## Left out

- bcrypt internals (salt generation, the cost factor 10, timing and
  constant-time comparison) are left out. The salt is an input, and the
  round trip of hash and compare is the assumption `Bcrypt.Sound`. Its
  72-byte key is modelled as the first 72 bytes of the UTF-8 encoding.
- Bcrypt.Sound: makes no promise that a password containing a NUL character
  is refused. bcrypt appends a NUL to the key bytes and repeats the result
  cyclically, so `abcdef` and `abcdef\0abcdef` produce the same key stream.
  So `LoginChecksStoredHash` and `RegisterThenLogin` state the 401 half only
  for passwords without one.
- Strings are sequences of Unicode scalar values, so unpaired UTF-16
  surrogates are not modelled. A JSON body can carry them. The schema counts
  each as one code unit. Node's UTF-8 conversion for bcrypt turns each into
  U+FFFD, so different such passwords can share a bcrypt key and log in
  against each other's hash. The "different key gets 401" halves of
  `LoginChecksStoredHash` and `RegisterThenLogin` say nothing about them.
- JWT signing, the secret, signature checking and the clock are left out.
  They are the functions of a `Signer` and the time parameter. Parsing the
  `JWT_EXPIRES_IN` duration string is left out too; the lifetime is a number
  of seconds, 24 hours by default.
- Postgres and the SQL text are left out. The table is a map, and each
  query's failure is a member of `Env.failing`.
- RegisterOutcome: when an INSERT fails, the model does not advance the id
  sequence. Postgres may already have drawn a value from it (a unique
  violation does), so later ids in the model can be lower than the ones
  Postgres hands out. About ids, the model claims only that they are fresh
  and unique (`TableInvariant`), not their exact values.
- Concurrent registrations are left out. The race between the lookup and
  the INSERT appears only as an `InsertUser` failure that gives 500.
- `src/server.js` is not part of this model: server set-up, CORS, logging and
  the process exit on an unhandled rejection. Its Boom-to-JSON formatting of
  schema failures appears only as the `BadRequest(reason)` reply with status
  400. The text of Joi's error message is not modelled.
- A request body that is not a JSON object (for example, no body at all) is
  left out. Bodies are maps from key to a string or some other JSON value.
- `jwt.verify` errors are grouped by name. A `NotBeforeError` has its own
  name, so it falls under `OtherError` and gets 500. Claims of a validly
  signed token that lack `userId` or `username` are not modelled.
- `console.error` logging and loading the environment with dotenv are left out.
