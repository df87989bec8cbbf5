# Guestbook user store and refresh-token store, in Dafny

This project models the two persistence services of a small guestbook REST
backend:

- **UsersService**: the `users` table (a map from id to row) and the append-only
  `active_logs` audit table (a sequence). It covers creating a user together with
  its "create" log row in one transaction, the username, credential and admin
  checks, the paged user listing (query construction and page arithmetic), and
  editing and deleting a user, each followed by a log insert.
- **AuthenticationsService**: the `authentications` table of refresh tokens. A token
  is active while a row carries it, and it is revoked once its rows are deleted.

The SQL statements become updates of in-memory tables. BEGIN/COMMIT/ROLLBACK
on the checked-out client becomes a snapshot of both tables that is restored on
failure. A statement sent to the pool commits on its own. What the database
driver does beyond the tables (a connection fault, an empty `RETURNING` set, a
constraint the model does not track) is an input to the operation. Each
`INSERT ... RETURNING id` of the user store takes a `Database.InsertReply`.
Each SELECT, UPDATE and DELETE, and the refresh-token INSERT, takes a
`Database.Reply`, and a fault there surfaces as that statement's plain `Error`.
BEGIN, COMMIT and ROLLBACK take no input; see "## Left out".
Primary-key collisions do follow from the tables: such an insert raises
PostgreSQL's duplicate-key error, which names the violated constraint
(`Database.DuplicateKey`). `bcrypt` is an arbitrary hash function
`hashFn(password, salt)`. A digest carries its cost and salt, and `Compare`
rehashes with that salt. The random id suffixes (nanoid), the salts and the
timestamps are parameters.

Errors are one closed datatype, `Errors.Error`. The four ClientError subclasses
carry their status codes: 401, 403, 404, and 400 inherited by InvariantError.
There is also a plain `Error`, which has no status code.

## Behaviour as written

The model follows the code, including these places where it departs from
what it was evidently meant to do:

- `verifyUsername` throws "Username sudah digunakan" when NO row has the
  username (src/services/postgre/UsersService.js:80-82). So `addUserService`
  refuses every fresh username, and it gets as far as the user INSERT only
  for a username that is already taken. Without a UNIQUE constraint on
  `users.username`, as the model's table has none, that INSERT then stores a
  duplicate: `Users.UsernameCheckIsInverted` shows both outcomes, and
  `Users.UsersService.AddUserService` ensures that every success repeats an
  existing username. Where the table does declare `username UNIQUE`, that
  INSERT is rejected too (a driver fault in the
  model). Then `addUserService` never succeeds.
- `editUser` and `deleteUser` send their UPDATE/DELETE and the log INSERT to the
  pool, not to the client holding the transaction
  (src/services/postgre/UsersService.js:201,218,251,268). Their catch block does
  not ROLLBACK either. A failed log insert therefore leaves the edit or delete in
  place. `Users.EditIsNotAtomic` shows this. Every error is rethrown as a plain
  `Error` with a fixed message, so a missing id also surfaces as a plain Error,
  not as the InvariantError that was thrown inside.
- `getAllUsers` returns `users.rows`, where `users` is an array, so `data` is
  undefined (src/services/postgre/UsersService.js:173). In the model it is `None`.
- `addRefreshToken` inserts into column `refreshToken`
  (src/services/postgre/AuthenticationsService.js:16). The table has columns
  `id` and `token`, the one verify and delete match on (lines 30, 43).
  PostgreSQL resolves an INSERT's column list before its VALUES, so it rejects
  the statement with `column "refreshtoken" of relation "authentications" does
  not exist`. The parameters are also passed under the key `value` (line 17),
  which the driver does not read, so `$1` and `$2` would stay unbound even
  with that column. Either way the operation always throws a plain error,
  inserts nothing and never returns an id. Its own checks at lines 21-25 are
  unreachable, and no token is ever made verifiable
  (`Authentications.AddedTokenIsNotFound`).

## Model

| member | source | states |
|---|---|---|
| `Errors.Error.StatusCode` | src/exceptions/ClientError.js:1-7 | client errors and only they have a status code: 401 for authentication, 403 for authorization, 404 for not found, 400 for invariant (inherited default), the given one for a bare ClientError |
| `Errors.Error.Name` | src/exceptions/ClientError.js:5 | the `name` each class sets; only a plain Error is named "Error" |
| `Errors.NameIdentifiesClass` | src/exceptions/AuthenticationError.js:6 | two errors have the same name exactly when they are instances of the same class |
| `Errors.NewClientError` | src/exceptions/ClientError.js:2-4 | a ClientError built without a status code gets 400, one built with a code keeps it |
| `Authentications.Without` | src/services/postgre/AuthenticationsService.js:42-47 | the table after the DELETE holds no row with the token and keeps every row with another token |
| `Authentications.Matching` | src/services/postgre/AuthenticationsService.js:29-31 | the rows a `WHERE token = u` lookup sees are exactly the table's rows carrying u |
| `Authentications.DeleteAbsentIsNoop` | src/services/postgre/AuthenticationsService.js:41-48 | deleting a token that no row carries leaves the table unchanged (and does not fail) |
| `Authentications.DeleteIdempotent` | src/services/postgre/AuthenticationsService.js:41-48 | deleting a token twice leaves the same table as deleting it once |
| `Authentications.DeleteKeepsOtherTokens` | src/services/postgre/AuthenticationsService.js:43 | deleting token t leaves the rows of every other token unchanged, in order and multiplicity |
| `Authentications.DeletesCommute` | src/services/postgre/AuthenticationsService.js:43 | revoking two tokens in either order gives the same table |
| `Authentications.StoredIsMatching` | src/services/postgre/AuthenticationsService.js:29-36 | the existence check and the matching rows describe one lookup: a token is stored exactly when the lookup sees some row |
| `Authentications.AuthenticationsService.AddRefreshToken` | src/services/postgre/AuthenticationsService.js:12-26 | every call rejects with a plain Error and changes no row: the driver's fault if the connection fails, otherwise PostgreSQL's error for the missing `refreshtoken` column; no id is returned |
| `Authentications.AuthenticationsService.VerifyRefreshToken` | src/services/postgre/AuthenticationsService.js:28-39 | passes exactly when the SELECT runs and some row carries the token; otherwise InvariantError "Refresh token tidak valid", or the driver's plain error when the SELECT faults; reads only |
| `Authentications.AuthenticationsService.DeleteRefreshToken` | src/services/postgre/AuthenticationsService.js:41-48 | when the DELETE runs, removes every row carrying the token and no other and raises nothing, even if no row matched; only a driver fault fails it, leaving the table unchanged; every other token's rows stay as they were |
| `Authentications.RevokeThenVerify` | src/services/postgre/AuthenticationsService.js:36-47 | after a delete that ran, verifying the token fails with InvariantError (revocation) |
| `Authentications.AddedTokenIsNotFound` | src/services/postgre/AuthenticationsService.js:12-37 | on any table, addRefreshToken fails with the missing-column error, and verifying the token afterwards passes exactly when a row already carried it, so a token only added never verifies |
| `Users.CreateLogPersists` | src/services/postgre/UsersService.js:45-57 | appending a log row keeps every recorded creation |
| `Users.AuditedAfter` | src/services/postgre/UsersService.js:45-57 | appending a log row keeps the audit invariant for a user table whose new ids that row records as created |
| `Users.BuildUsersQuery` | src/services/postgre/UsersService.js:130-166 | conditions start with `is_active = true`; a truthy position and then a truthy role get placeholders $1, $2 in order; LIMIT is $(len-1) bound to the limit and OFFSET is $len bound to the offset; the count values are the values minus the last two; under both bindings the WHERE clause accepts exactly the active users that match each truthy filter |
| `Users.WhereOfFilters` | src/services/postgre/UsersService.js:130-146 | the built WHERE clause accepts a user exactly when the user is active and matches the truthy filters, under the full values and the count values alike |
| `Users.CountOfListed` | src/services/postgre/UsersService.js:163-169 | the `SELECT COUNT(*)` over a WHERE clause that means the listing filters counts exactly the users the listing covers |
| `Users.TotalPages` | src/services/postgre/UsersService.js:170 | `Math.ceil(totalItems / limit)`: for a positive limit the least page count covering all items; Infinity for limit 0 with items, NaN for 0/0 |
| `Users.CeilingBounds` | src/services/postgre/UsersService.js:170 | the integer ceiling quotient c satisfies (c-1)*limit < total <= c*limit |
| `Users.UsersService.Hash` | src/services/postgre/UsersService.js:23 | a digest records cost 10 and the salt it was made with |
| `Users.UsersService.Compare` | src/services/postgre/UsersService.js:97 | `bcrypt.compare` accepts exactly when hashing the password with the digest's own salt reproduces the digest's hash |
| `Users.UsersService.CompareAcceptsHash` | src/services/postgre/UsersService.js:23-97 | compare accepts the password a digest was made from, for every salt |
| `Users.UsersService.CompareOtherPassword` | src/services/postgre/UsersService.js:97 | compare accepts a different password only when its hash collides under the same salt |
| `Users.UsersService.InsertUser` | src/services/postgre/UsersService.js:29-41 | the user INSERT adds the row under its id unless the driver faults or the id is taken (the `users_pkey` duplicate-key error), and reports no row when the driver returns none |
| `Users.UsersService.InsertLog` | src/services/postgre/UsersService.js:45-57 | the log INSERT appends the entry unless the driver faults or the log id is taken (the `active_logs_pkey` duplicate-key error) |
| `Users.UsersService.AddUserService` | src/services/postgre/UsersService.js:16-71 | on success exactly one user row `user-`+key storing Hash(password) and one log row ("create", "users", user_id = target_id = the new id) are added and {userId, activeLogId} returned; on every failure (a faulted or failed username check, user insert, log insert) both tables are unchanged and the first error is returned as thrown; a success only ever stores a username that was already taken; the audit invariant is kept |
| `Users.UsersService.VerifyUsername` | src/services/postgre/UsersService.js:73-83 | passes exactly when the SELECT runs and some user has the username; otherwise InvariantError "Username sudah digunakan", or the driver's plain error when the SELECT faults; reads only |
| `Users.UsersService.VerifyUserCredential` | src/services/postgre/UsersService.js:85-104 | returns the id of a row with that username whose digest accepts the password; unknown username and wrong password both raise AuthenticationError with the same message; a faulted SELECT propagates the driver's plain error |
| `Users.UsersService.VerifyAdmin` | src/services/postgre/UsersService.js:106-125 | unknown id raises InvariantError, a non-admin role raises AuthorizationError, otherwise returns role "admin"; a faulted SELECT propagates the driver's plain error; reads only |
| `Users.UsersService.GetAllUsers` | src/services/postgre/UsersService.js:127-183 | page and limit default to 1 and 10 and are echoed back; succeeds exactly when both queries run and LIMIT and OFFSET = (page-1)*limit lie in PostgreSQL's bigint range 0..2^63-1; totalItems counts the active users matching the filters; totalPages is the ceiling; data is undefined; every failure is the plain Error "Gagal mengambil data pengguna" |
| `Users.UsersService.EditUser` | src/services/postgre/UsersService.js:185-236 | a missing id or failed UPDATE changes nothing; otherwise the row gets the new fields, a fresh Hash(password) and updated_at, and a log row ("edit", user_id = adminId, target_id = id) is appended; a failed log insert keeps the edit; every error is the plain Error "Gagal mengedit data pengguna" |
| `Users.UsersService.DeleteUser` | src/services/postgre/UsersService.js:238-286 | a missing id or failed DELETE changes nothing; otherwise the row is removed and a log row ("delete", user_id = adminId, target_id = id) is appended; a failed log insert keeps the deletion; every error is the plain Error "Gagal menghapus data pengguna" |
| `Users.UsernameCheckIsInverted` | src/services/postgre/UsersService.js:73-83 | with one user "a1" in the table, creating "b2" fails with InvariantError and creating a second "a1" succeeds |
| `Users.EditIsNotAtomic` | src/services/postgre/UsersService.js:201-232 | an edit whose log insert faults returns the plain error while the row keeps the new name and no log row is written |

## Left out

- src/tokenize/TokenManager.js is not part of this model. Its JWT signing and verification is a library wrapper; every decode or signature failure there becomes InvariantError.
- The HTTP layer (src/server.js, src/api/), the Joi validators and the error-to-status mapping are not part of this model. They are framework wiring.
- `mapDBToModelUsers` is not part of this model: its source is not available. The listing's rows do not matter anyway, because the returned `data` is undefined. So the ORDER BY and the row window LIMIT/OFFSET selects are not modelled, only the count.
- Connection handling (`connect`, `release`), the SQL text and `console.error` logging are left out. A ROLLBACK that fails, or one issued with no open transaction, is not modelled.
- A UNIQUE constraint on `users.username` (the schema is not in the source) is not part of the table state. An insert or update rejected by it is covered by the driver-fault input.
- JavaScript's dynamic values are left out. Arguments are strings, booleans and integers, never `undefined` or `null` columns, except that position and role filters may be absent or empty (falsy) and page and limit may be absent. Fractional or string page and limit values are not modelled.
- Concurrency and isolation levels are left out: races between two requests on the same rows or username.
- Authentications.AuthenticationsService.AddRefreshToken: its message assumes the table has the columns `id` and `token` and no `refreshtoken` column, as verify and delete imply. If the table did have that column, the statement would instead fail on the unbound `$1` ("there is no parameter $1"). It would still be a plain Error with no row written.
- The duplicate-key messages assume PostgreSQL's default constraint names, `users_pkey` and `active_logs_pkey`, since the schema is not in the source.
- Errors.Error.Name: `PlainError` also stands for the `DatabaseError` that node-postgres raises for an error the server reports, such as the duplicate-key and missing-column errors. That class is named "error", in lower case, but the model names every plain error "Error". Its SQLSTATE `code` and other fields are not modelled either.
- The four ClientError subclasses (src/exceptions/AuthenticationError.js:1, AuthorizationError.js:1, InvariantError.js:1, NotFoundError.js:1) load their parent with `require` inside an ES module, so as written neither they nor the services that import them would load. The model takes each class as its constructor reads.
- BEGIN, COMMIT and ROLLBACK are taken to succeed. A failure of one of them is not modelled.
- Users.UsersService.EditUser, Users.UsersService.DeleteUser: on every failure after BEGIN the client is released with its transaction still open, because the catch blocks have no ROLLBACK. On success the COMMIT ends that transaction, which holds no statement. An editUser whose `bcrypt.hash` throws fails before BEGIN. What a later user of that pooled connection then sees is not modelled.
- Users.UsersService.GetAllUsers: page and limit are exact integers. The source multiplies and divides them as JavaScript doubles, which round above 2^53. Near the bigint bound, that rounding can change whether PostgreSQL accepts the OFFSET. The model does not capture this.
- Users.TotalPages: defined only for limit >= 0, because the SELECT with a negative LIMIT already raised before the division is reached.
- Users.UsersService.VerifyUserCredential: when several rows share a username, PostgreSQL returns them in an unspecified order. The model checks an arbitrary one of them, so success is fully determined only when all those rows agree on the password.
