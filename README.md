# User CRUD service: use cases over an abstract user table

This project models the use-case layer of a small REST service for user
records (create, list, fetch one, partial update, delete), together with
the MySQL repository those use cases call and the error middleware that
turns their errors into HTTP responses. The `users` table is modelled as
an in-memory class, `UserRepository.UserTable`. It holds `rows`, a map from
id to `User`, and `nextId`, which stands in for AUTO_INCREMENT. The read-only
queries (`findById`, `findAll`, `findByEmail`) are functions of `rows`. The
writing statements (`create`, `update`, `delete`) are methods that change
the table. The UPDATE field/value builder is a method that pushes onto two
sequences, and it is proved against the store's meaning of the SET list.

The use cases with side effects (Create, Update, Delete) are methods that
take the table object and say, in terms of the old table:
- what the new table is;
- what the result is;
- that a failed call changes nothing;
- that new ids are fresh;
- that email uniqueness across rows is preserved.

The read-only use cases (GetAll, GetById) are functions of the rows. A
response is a `UserResponse`, a datatype with no password field. `Error` is
either the program's `AppError(message, statusCode)` or an unexpected error.
`ErrorHandler.Handle` maps it to a status code and a JSON body.

Files, one module each: `wrappers.dfy` (Option/Result/Outcome),
`domain.dfy` (entity, projection, input records, errors),
`user_repository.dfy`, one file per use case, `error_handler.dfy`, and
`scenario.dfy`. The scenario file is a client that replays the request
sequence POST, POST with the same email, GET, PUT `{name}`, DELETE, GET,
using only the contracts.

Modelling choices:
- Optional body fields are `Option<string>`. They are tested by JavaScript
  truthiness (`Domain.Supplied`), so `Some("")` counts as absent, as in
  `if (data.name)`.
- bcrypt is a function-valued parameter `hash`. Nothing is assumed about it,
  except that Update requires its outputs to be non-empty. The repository
  tests the truthiness of the already-hashed password, so an empty digest
  would silently drop the password from the SET list.
- Timestamps are opaque integers. The caller supplies the current time as
  `now`. `create` stamps both created_at and updated_at. The table definition
  is not part of this model. updated_at is taken to be declared
  `ON UPDATE CURRENT_TIMESTAMP`: an UPDATE moves it to `now` only when some
  column actually gets a different value, and a statement that rewrites a row
  with its current values leaves updated_at alone (`UserRepository.Stamped`).
- An update with no supplied field builds `UPDATE users SET  WHERE id = ?`.
  The store rejects that statement. It is modelled as the unexpected error
  `SqlSyntaxError`, which leaves the table unchanged and which errorHandler
  turns into a 500.
- After the UPDATE, `update` reads the row back with `findById` and returns
  it with `user!`. That is null when the row is missing, and destructuring
  null in the use case throws a TypeError. The model carries that path (as
  `UnexpectedError`), but it is unreachable because the use case checks that
  the row exists first.
- `findAll` orders by created_at descending. MySQL leaves the order of equal
  timestamps open, so the model lists the larger id first. `findByEmail`
  has no ORDER BY, so when several rows match, the model returns the first
  one in listing order.
- The AppError class and the User entity file are not part of this model.
  Their shapes are the ones used at
  src/application/use-cases/UpdateUserUseCase.ts:12 and
  src/application/dtos/UserDTO.ts:13-19, with `password` added to the
  entity.

## Model

| member | source | states |
|---|---|---|
| `Domain.ToResponse` | src/application/use-cases/CreateUserUseCase.ts:22-24 | the response is the row with only the password removed: putting the row's password back gives the row itself |
| `Domain.Supplied` | src/infrastructure/repositories/MysqlUserRepository.ts:49-51 | the JavaScript truthiness of an optional string field: an absent field and the empty string are not supplied, any other string is |
| `Domain.ResponseOmitsPassword` | src/application/dtos/UserDTO.ts:13-19 | two rows that differ only in their password give the same response, so no response carries the password |
| `UserRepository.FindById` | src/infrastructure/repositories/MysqlUserRepository.ts:26-33 | the result is absent exactly when no row has that id; otherwise it is that row, and its id is the requested id |
| `UserRepository.ListingKeys` | src/infrastructure/repositories/MysqlUserRepository.ts:18-24 | the listing holds every key of the table exactly once, in created_at-descending order |
| `UserRepository.FindAll` | src/infrastructure/repositories/MysqlUserRepository.ts:18-24 | every row is returned once (as many entries as rows, each row present), each entry is the stored row under its listed key, newest first; an empty table gives an empty sequence |
| `UserRepository.FindByEmail` | src/infrastructure/repositories/MysqlUserRepository.ts:35-42 | the result is absent exactly when no row has the email; when present it is a stored row with that email |
| `UserRepository.BuildUpdate` | src/infrastructure/repositories/MysqlUserRepository.ts:44-53 | fields hold exactly the supplied (truthy) columns, in the fixed order name, email, password; values line up with fields by position, plus one final value, the id; the field list is empty exactly when nothing is supplied |
| `UserRepository.ApplySetColumns` | src/infrastructure/repositories/MysqlUserRepository.ts:54-57 | executing a SET list of distinct columns gives each listed column its own value and leaves every other column, the id and the timestamps as they were |
| `UserRepository.UpdateStatementPatches` | src/infrastructure/repositories/MysqlUserRepository.ts:44-57 | the built statement, run on a row and stamped by `ON UPDATE CURRENT_TIMESTAMP`, changes exactly the supplied fields to their new values and keeps the rest |
| `UserRepository.SameNameKeepsRow` | src/infrastructure/repositories/MysqlUserRepository.ts:49-57 | re-sending a row's current name leaves the row, updated_at included, as it was |
| `UserRepository.NewNameStampsRow` | src/infrastructure/repositories/MysqlUserRepository.ts:49-57 | sending a different, non-empty name moves updated_at to the current time |
| `UserRepository.UserTable.Create` | src/infrastructure/repositories/MysqlUserRepository.ts:8-16 | inserts one row under the previously unused id `nextId`, with the given name, email and password; returns that row; other rows are unchanged; the counter only grows |
| `UserRepository.UserTable.Update` | src/infrastructure/repositories/MysqlUserRepository.ts:44-61 | with nothing supplied the statement fails and the table is unchanged; otherwise only the row with that id (if any) is patched, its updated_at moving to `now` only if a column changed, and the result is that row read back |
| `UserRepository.UserTable.Delete` | src/infrastructure/repositories/MysqlUserRepository.ts:63-68 | removes the row with that id and nothing else; an absent id changes nothing and is no error |
| `CreateUserUseCase.Execute` | src/application/use-cases/CreateUserUseCase.ts:8-25 | fails with ("Email already in use", 409) exactly when some row has the email, and then the table is unchanged; otherwise it adds exactly one row under a fresh id, with the given name and email and the hashed password, and returns that row without its password, which a following GetById returns too; email uniqueness is preserved |
| `GetAllUsersUseCase.Execute` | src/application/use-cases/GetAllUsersUseCase.ts:6-10 | one response per row returned by findAll, in the same order, each the row with only the password removed; every row appears; an empty table gives an empty sequence, not an error |
| `GetAllUsersUseCase.StripPasswords` | src/application/use-cases/GetAllUsersUseCase.ts:9 | every user of the input appears in the output without its password, at its own position, and a newest-first input stays newest first |
| `GetUserByIdUseCase.Execute` | src/application/use-cases/GetUserByIdUseCase.ts:6-15 | fails with ("User not found", 404) exactly when no row has the id; otherwise it returns that row without its password, with the requested id; it reads the table only |
| `UpdateUserUseCase.PatchKeepsEmailsUnique` | src/application/use-cases/UpdateUserUseCase.ts:14-20 | a partial update that does not move a row onto an email another row holds keeps emails unique |
| `UpdateUserUseCase.Execute` | src/application/use-cases/UpdateUserUseCase.ts:8-29 | 404 exactly when the id is absent; 409 exactly when a supplied email differs from the current one and some row holds it (an unchanged email is never a conflict); a storage failure exactly when nothing is supplied; every failure leaves the table unchanged; on success only that row changes, supplied fields take their new values (the password as hash(password)), the others keep theirs, and the response is the new row without its password, which a following GetById returns too; email uniqueness is preserved |
| `UpdateUserUseCase.HashAndUpdate` | src/application/use-cases/UpdateUserUseCase.ts:21-28 | a supplied password reaches the table only as its hash; the write fails exactly when nothing is supplied; on success it is the partial update of that row |
| `DeleteUserUseCase.Execute` | src/application/use-cases/DeleteUserUseCase.ts:6-13 | fails with ("User not found", 404) exactly when the id is absent, and then the table is unchanged; otherwise it removes that row only, after which GetById on it gives 404; email uniqueness is preserved |
| `ErrorHandler.Handle` | src/interfaces/middlewares/errorHandler.ts:4-25 | an AppError gives its own status code and message; any other error gives 500 with the fixed text "Internal server error"; the body status is always "error" |
| `ErrorHandler.UnexpectedErrorsLookAlike` | src/interfaces/middlewares/errorHandler.ts:19-24 | the text of an unexpected error never reaches the caller: all unexpected errors produce the same response |

## Left out

- The controller, the router with its composition root, and the app setup (CORS, JSON parsing, dotenv, the health endpoint) are not modelled. They are HTTP transport glue, and so are the status codes 200/201 and the message "User deleted successfully" that the controller adds.
- Request validation (the zod schemas and the `validate` middleware) is not modelled. The use cases accept any strings: the model handles the inputs validation would reject (for example an empty email) rather than assuming them away.
- bcrypt is a parameter. Its salt (two calls on the same password give different digests), its work factor and its one-wayness are not modelled.
- Timestamps are not generated. The caller supplies `now`.
- The MySQL driver, the connection pool and the SQL text are replaced by the in-memory table. Connection failures and constraint violations raised by the store are not modelled: `create` and `delete` never fail, and the malformed empty UPDATE is the only storage error. The table's own definition (a UNIQUE index on email, if any) is not part of this model. The repository does not check emails, and uniqueness is proved of the use cases.
- Concurrency is out of scope. This includes async/await interleaving and the race between the uniqueness check and the write. All properties are about calls made one after another.
- Logging of unexpected errors (`console.error`) is I/O and is left out.
- Turning the path parameter into a number (`Number(req.params.id)`, which may yield NaN) happens in the controller and is left out. Ids are integers.
- Emails are compared by exact string equality, in `findByEmail` and in the update's "email changed" test. The store's collation is not modelled: under MySQL's default case-insensitive collation, `findByEmail("A@x")` also finds a row holding "a@x", so Create would refuse an email that differs from a stored one only in letter case (the model accepts it), and a request changing a user's own email only in letter case would be refused by Update's lookup as a 409 (the model sees a different email, finds no other row holding it, and accepts it).
- The update use case overwrites `data.password` with its hash in the caller's body object. The model hashes into a copy of the body instead, so the caller's record is never changed, and that aliasing is not represented; nothing in the service reads the body after the call.
- UpdateUserUseCase.Execute: requires `hash` never to return the empty string, since bcrypt digests are 60-character strings; with an empty digest the source would drop the password from the SET list.
