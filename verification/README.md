# A verified model of the users CRUD service

The service (one Go file, `main.go`) exposes create, read, update and delete
on a single `users` table in Postgres. Its logic is two things: the e-mail
shape check `isValidEmail`, and the short-circuit pipelines of checks in the
`createUser`, `updateUser` and `deleteUser` handlers, where the first failing
check decides the HTTP reply. This project models both in Dafny and proves
what the pipelines promise: which check fires first, what a success does to
the table, and what it leaves alone.

Files:

- `options.dfy`: `Option`, for "no match" and "no rows".
- `email.dfy` (module `Email`): the character classes of the pattern
  `^[a-zA-Z0-9._%+-]+@[a-zA-Z0-9.-]+\.[a-zA-Z]{2,}$`. It also holds a
  recursive recogniser `IsValidEmail`, which splits at the first `@` and
  then at the last `.`. Next to it is the pattern read as a regular
  expression, `MatchesPattern`: "there is a split local `@` domain `.` tld".
  A proof shows the two agree on every string.
- `store.dfy` (module `UserStore`): the table as an immutable
  `map<int, Row>` whose keys are positive, because the ids come from
  `SERIAL`. Each SQL statement the handlers issue is a function or predicate
  over the map. Its doc comment names the statement and the line it stands for.
- `handlers.dfy` (module `Handlers`): the five handlers as pure functions.
  Each takes the table and the decoded request. It returns an `Outcome`: the
  reply (`HttpError(status, message)`, a user as JSON, the list, the JSON
  string `"User deleted"`, or `Fatal` for `log.Fatal`) and the table after
  the request.
- `properties.dfy` (module `HandlerProperties`): lemmas about the handlers.

Three environment facts enter as parameters:

- Decoding the JSON body is given as a `Payload`: either `Malformed` or the
  decoded `User`.
- The id that `INSERT ... RETURNING id` hands out is a parameter `newId`.
  It can be any positive id not yet in the table.
- A store error other than "no rows" is given as `faults`: the set of
  statements that fail if they are reached.

Three facts about `main.go` that the model follows and the lemmas state:

- A `PUT` identical to the stored row answers "No changes detected" only
  when the row exists. The row lookup (main.go:170-173) comes first, so an
  unknown id answers 404 "User not found" (`UpdateMissingIdNotFound`).
- The current-row lookup of `updateUser` answers 404 for any error of that
  query, not only for "no rows" (main.go:171, `UpdateCurrentQueryFault`).
- `updateUser` checks only emails for uniqueness (main.go:159), never names.
  So an update can give a second row a name already in use
  (`UpdateMayDuplicateNames`). Create keeps both names and emails unique,
  and update keeps emails unique.

## Model

| member | source | states |
|---|---|---|
| Email.IsValidEmailCorrect | main.go:208-211 | the recogniser accepts a string exactly when it is local `@` domain `.` tld with local non-empty over `[a-zA-Z0-9._%+-]`, domain non-empty over `[a-zA-Z0-9.-]` and tld two or more ASCII letters |
| Email.AcceptedShape | main.go:210 | an accepted address has exactly one `@`, is at least six characters long (so the empty string is rejected), and has a `.` followed only by two or more letters up to its end |
| Email.SplitIsFound | main.go:210 | for a string of the pattern's shape, the `@` is the first `@` and the separator of the tld is the last `.`, because the local class has no `@` and the tld class has no `.` |
| Email.AcceptedExample | main.go:210 | `a@b.co` is accepted |
| Email.RejectedTwoAts | main.go:210 | `a@@b.co` is rejected: the second `@` is outside every class after the first |
| Email.RejectedDigitInTld | main.go:210 | `a@b.c0m` is rejected: the tld must be letters only |
| Email.RejectedShortTld | main.go:210 | `a@b.c` is rejected: the tld needs at least two letters |
| UserStore.SelectAll | main.go:57-76 | the listed users are exactly the rows of the table, each with its own id |
| UserStore.SelectById | main.go:87 | the lookup by id finds a row exactly when the id is in the table, and then finds that row |
| UserStore.Insert | main.go:126 | the insert adds one row under the fresh id and changes no other row |
| UserStore.Update | main.go:182 | the update by id replaces the row at that id if there is one, keeps the set of ids, and changes no other row |
| UserStore.Delete | main.go:197 | the delete by id removes that id if present and changes no other row |
| Handlers.GetUsers | main.go:55-78 | the list holds a user exactly when the table has that row under that id; a failing query is fatal |
| Handlers.GetUser | main.go:81-95 | a user comes back exactly when the id is in the table and the query works, and it is that row under that id; otherwise, a missing row included, the process ends |
| Handlers.CreateUser | main.go:98-137 | create never ends the process; a malformed body answers 400 "Invalid request payload"; a 500 comes only from a failing lookup or insert; every error leaves the table unchanged; a 201 carries the fresh id and adds exactly that row, holding the reply's name and email, with no other row changed |
| Handlers.UpdateUser | main.go:140-189 | update replies with an error, the echoed body or a fatal end; a malformed body answers 400 "Invalid request payload" and an empty name or email 400 "Name and Email are required"; only a failing email query or `UPDATE` ends the process; 404 comes only from a failing row lookup or a missing id; only a 200 changes the table, and then only the row at the path id, which existed and now differs from what it held |
| Handlers.DeleteUser | main.go:192-205 | delete replies "User deleted" or ends the process, and it ends the process exactly when the `DELETE` fails; the fatal path changes nothing; otherwise the id is gone and no other row changed |
| HandlerProperties.CreateRejectsInvalidInput | main.go:106-110 | an empty name or an email outside the pattern gives 400 with the invalid-input message, whatever the table holds and whichever statements would fail, and the table is unchanged |
| HandlerProperties.CreateConflict | main.go:112-123 | for valid input, one stored row sharing the name or the email (either alone suffices) gives 409 and an unchanged table |
| HandlerProperties.CreateSucceedsIff | main.go:100-135 | create succeeds if and only if the body decoded, the name is non-empty, the email matches the pattern, no row has that name or that email, and neither the lookup nor the insert fails; the reply is the submitted user under the new id |
| HandlerProperties.CreateLookupFault | main.go:113-119 | for valid input, a failing name-or-email lookup answers 500 "Error checking for existing user" whatever the table holds, so before any conflict, and the table is unchanged |
| HandlerProperties.CreateInsertFault | main.go:126-131 | when the checks pass, a failing insert answers 500 "Error creating user" and the table is unchanged |
| HandlerProperties.CreatePreservesUniqueness | main.go:112-135 | create keeps names unique and emails unique across the table |
| HandlerProperties.CreateThenGet | main.go:126-135 | after a 201, fetching the new id returns the submitted name and email under that id |
| HandlerProperties.CreateTwiceConflicts | main.go:113-123 | posting the same user again after a 201 gives 409, never a second 201 |
| HandlerProperties.UpdateChecksOnlyPresence | main.go:148-152 | update checks only that name and email are non-empty; with no conflict and a real change to an existing row it answers 200 whether or not the email matches the pattern |
| HandlerProperties.UpdateAcceptsWhatCreateRejects | main.go:107 | the body with email `x` gets 400 from create but is stored by update |
| HandlerProperties.UpdateEmailQueryFault | main.go:157-162 | with both fields non-empty, a failing email query ends the process whatever the table holds, and the table is unchanged |
| HandlerProperties.UpdateMissingIdNotFound | main.go:168-174 | an id with no row, with an email no row holds, answers 404 "User not found" and leaves the table unchanged |
| HandlerProperties.UpdateCurrentQueryFault | main.go:170-174 | any failure of the current-row query answers 404 "User not found", even when the row exists |
| HandlerProperties.UpdateWriteFault | main.go:181-185 | a failing `UPDATE` on a real change to an existing row ends the process and changes nothing |
| HandlerProperties.UpdateConflictBeforeNotFound | main.go:157-174 | an email held by some row, sent to an id that does not exist, gives 409 and not 404 |
| HandlerProperties.UpdateConflict | main.go:157-166 | an email held by another row gives 409 and an unchanged table |
| HandlerProperties.UpdateKeepsOwnEmail | main.go:159 | in a table with unique emails, keeping one's own email is not a conflict: a rename succeeds and replaces just that row |
| HandlerProperties.UpdateNoChange | main.go:176-179 | sending a row's own name and email gives 400 "No changes detected" and an unchanged table, in a table where emails are unique (otherwise another row holding the same email makes the earlier conflict check answer 409) |
| HandlerProperties.UpdateSucceedsIff | main.go:142-187 | update succeeds if and only if the body decoded with both fields non-empty, no other row has the email, the row exists and differs from the submitted values, and none of the three statements fails |
| HandlerProperties.UpdateEchoesBody | main.go:187 | the 200 reply echoes the decoded body, including its own `id` field rather than the path id |
| HandlerProperties.UpdatePreservesUniqueEmails | main.go:157-187 | update keeps emails unique across the table |
| HandlerProperties.UpdateMayDuplicateNames | main.go:157-166 | update does not check names: from a table with unique names it can reach one with a repeated name |
| HandlerProperties.UpdateThenGet | main.go:182-187 | after a 200, fetching the path id returns the submitted name and email under the path id |
| HandlerProperties.DeleteIdempotent | main.go:197-203 | deleting twice gives the same reply and table as deleting once |
| HandlerProperties.DeleteMissingIsNoop | main.go:197-203 | deleting an id that is not there answers "User deleted" and changes nothing |
| HandlerProperties.DeleteThenGet | main.go:87-91 | after a delete, fetching that id takes the fatal path |
| HandlerProperties.ListAgreesWithGet | main.go:57-93 | the list holds a user exactly when fetching its id returns that user |
| HandlerProperties.Lifecycle | main.go:98-205 | on a table where the names and emails are free: POST, GET, PUT, GET, DELETE, GET give 201, the created user, 200 echoing the new values, the new values, "User deleted", and the fatal path |

## Left out

- HTTP routing, the content-type middleware and server start-up
  (main.go:36-52, 44): framework plumbing. Every handler is called directly.
- JSON decoding and encoding: a body is `Malformed` or an already-decoded
  `User`. `http.Error` appends a newline to its message; the model keeps the
  message only.
- The Postgres connection, table creation and the `SERIAL` sequence
  (main.go:23-33): the inserted row's id is any positive id not in the table.
- Store errors other than "no rows": these include driver failures, scan
  errors and strings longer than the `VARCHAR(255)` columns (main.go:30)
  whose excess characters are not all spaces. They are modelled only as the
  statement being in `faults`, which leads to 500, 404 or `Fatal` as the
  code does. `log.Fatal` is the reply `Fatal`; the process ending and
  `log.Println` are not modelled.
- Silent truncation to `VARCHAR(255)`: Postgres stores a longer string
  whose excess characters are all spaces cut to 255 characters, without an
  error. The model stores strings whole, so these lemmas do not hold of the
  service for such strings (one line each below).
- HandlerProperties.CreateThenGet: GET returns the truncated name, not the submitted one.
- HandlerProperties.CreatePreservesUniqueness: `x` followed by 255 spaces and `x` followed by
  256 spaces pass the `name = $1` check as different names, then are stored
  as the same name.
- HandlerProperties.UpdateThenGet: GET returns the truncated name or email.
- HandlerProperties.UpdatePreservesUniqueEmails: an email of another row followed by enough
  spaces passes the `email = $1` check, then is stored as that email.
- The existence test `existingUser.ID != 0` (main.go:120, 163) is modelled
  as "the query returned a row". These agree because every stored id is
  positive.
- Path ids that are not numbers: the id is an `int`. The conversion
  happens inside Postgres.
- The race between the uniqueness check and the write when requests run
  concurrently: the model is sequential.
- Handlers.GetUsers: returns the set of users; the order of the JSON array is store-defined and not modelled.
- Go's regexp works on UTF-8 runes; the model works on Dafny `char`s. Every
  class in the pattern is ASCII, so the two agree on what is accepted.
