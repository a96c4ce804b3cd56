# Recipe backend: a verified model of its handlers

The server is a small session-authenticated recipe backend. Users sign up
with a username and a password, log in and out, check who they are, list
their own recipes and create new ones. A bcrypt wrapper hashes and checks
passwords, a relational database stores two tables (`users` and `recipes`),
and a signed session cookie holds the logged-in user's id.

This project models that logic without the web framework, the ORM and the
hashing library:

- `credentials.dfy` (module `Credentials`): the hashing library as two
  uninterpreted function values, `hash(password, salt)` and
  `check(hash, password)`. The random salt is a parameter. Either call may
  refuse a password and raise `ValueError`, so each returns a `Result`; which
  passwords are refused depends on the library version (a NUL byte, or more
  than 72 bytes). The predicate `Sound` says that a hash the library produced
  for a non-empty password accepts that password and no other. It is an
  assumption, never proved: the lemmas that rely on it say so with a
  `requires`. Real bcrypt does not fully meet it. Versions that do not refuse
  long passwords only use the first 72 bytes, so two long passwords that
  share those bytes are both accepted, and the "no other" half of `Sound`
  fails for them. `SignupThenWrongPassword` therefore says nothing about such
  passwords under those versions.
- `models.dfy` (module `Models`): the `User` entity as a class. Its
  `passwordHash` is set in place by a write-only setter and read back only
  through `VerifyPassword`/`Authenticate`. The other columns never change
  after construction, so they are constants. `Recipe` is a value. Building
  one runs the instructions validator (at least 50 characters).
- `store.dfy` (module `Database`): a snapshot of the state (both tables in
  insertion order, the session's `user_id` entry, the next id of each table),
  the store invariant, and the three queries the handlers issue.
- `handlers.dfy` (module `Handlers`): the six handlers as transitions
  `Store -> (Store, Response)`. `CheckSession` and `ListRecipes` only read, so
  they return a `Response` alone. Every refusal (401, 404, 422) returns the
  store it was given: it either returns before writing or its write is
  rolled back. The crashes (500) differ. A crashing login changes nothing,
  and neither does a recipe whose minutes the database refuses at commit.
  But when the session user is missing, recipe creation crashes after its
  commit, so the new recipe stays stored.
- `app.dfy` (module `App`): the `Server` class, whose fields are the tables,
  the session and the id counters. Its methods `Signup`, `Login`, `Logout` and
  `CreateRecipe` follow the handlers step by step: build the user object,
  set its password, add and commit, set or pop the session. Each is proved to
  make exactly the transition of its `Handlers` function and to keep the
  store invariant.
- `invariants.dfy` (module `Invariants`): every handler preserves the store
  invariant. The invariant says that usernames are unique, ids are positive
  and increasing, and every stored recipe has a title and instructions of at
  least 50 characters.
- `properties.dfy` (module `Properties`): the behaviour of each handler and
  how the handlers combine.
- `scenarios.dfy` (module `Scenarios`): client runs of a `Server` object.

Points where the model follows the code closely:

- Logout checks whether the `user_id` key is present. The other handlers
  check whether its value is truthy (absent and `0` are falsy). Both tests are
  modelled. `PresenceIsTruthiness` shows they agree in a valid store, because
  ids start at 1.
- `minutes_to_complete` falls back to 0 when it is absent or 0
  (`MinutesOrZero`).
- `minutes_to_complete` is an `Integer` column (server/models.py:42). The
  model takes SQLite's range, 64-bit signed (`FitsColumn`). A value outside
  it makes the commit at server/app.py:138 raise `OverflowError`, which the
  handler's `except` clause does not list. The answer is then a 500 with
  nothing stored (`CreateRecipeAppends`, `MinutesColumnBoundary`).
- Recipe creation does not check that the session's user still exists. When
  the user is missing, the recipe is committed, and then building the
  response dereferences the missing owner and raises. The model answers
  `SERVER_ERROR` (500) with the recipe stored. `SessionResolvesPreserved`
  shows this cannot happen in a run that starts from an empty database.
- Login with a known username and no password passes `None` to the hashing
  library, which raises. A password the library refuses raises in the same
  way. Both are modelled as a 500 that changes nothing. An unknown username,
  with or without a password, gets the uniform 401.
- Signup checks that the password is present before the setter runs. The
  setter's own emptiness check therefore never fires from Signup, but the
  library can still refuse a non-empty password. The `ValueError` handler at
  server/app.py:32-33 catches that refusal and answers 422 with the
  library's message, before anything is added (`SignupRefusedPassword`).
- A failed validation or a violated unique constraint is rolled back, so the
  id counters do not move either. The database hands out the next id after
  the largest one, and nothing is ever deleted.

## Model

| member | source | states |
|---|---|---|
| `Models.HashPassword` | server/models.py:24-28 | an absent or empty password is refused with "Password cannot be empty."; any other password yields what the library gives for it: its hash, or the library's refusal |
| `Models.User.constructor` | server/app.py:24 | a new user object carries the given id, username, bio and image URL and has no hash yet |
| `Models.User.SetPassword` | server/models.py:24-28 | an absent or empty password raises "Password cannot be empty.", and a password the library refuses raises the library's error; both leave the stored hash as it was; otherwise the hash of the password is stored; no other field can change |
| `Models.User.ReadPasswordHash` | server/models.py:20-22 | reading the password hash through its public attribute always raises "password_hash is not a readable attribute" |
| `Models.User.VerifyPassword` | server/models.py:30-31 | answers what the library's check gives for the candidate against the stored hash: accepted, rejected, or raised |
| `Models.User.Authenticate` | server/models.py:33-34 | gives the same answer as `VerifyPassword` for every candidate |
| `Models.User.Load` | server/app.py:69 | the object loaded from a stored row has that row's columns and hash |
| `Models.User.Row` | server/models.py:12-16 | the persisted row carries the object's id, username and hash, and the same public fields |
| `Models.ValidateInstructions` | server/models.py:45-49 | instructions are accepted exactly when they have at least 50 characters, and then they are returned unchanged; shorter ones raise |
| `Models.NewRecipe` | server/app.py:130-136 | building a recipe succeeds exactly when the instructions pass the validator, and then has the given columns |
| `Database.UniqueUsernames` | server/models.py:13 | no two stored users share a username |
| `Database.UserIdsOrdered` | server/models.py:12 | user ids are positive, strictly increasing in insertion order and below the next id |
| `Database.RecipesWellFormed` | server/models.py:39-49 | every stored recipe has a non-empty title, instructions of at least 50 characters, minutes within the column's range, and an id that is positive, increasing and below the next id |
| `Database.FitsColumn` | server/models.py:42 | an integer fits the `Integer` column exactly when it lies in the 64-bit signed range SQLite stores |
| `Database.Valid` | server/models.py:12-14 | the store invariant: the three predicates above, both counters at least 1, and a session id, when present, at least 1 |
| `Database.SessionUser` | server/app.py:48-50 | the session names a user exactly when its `user_id` is present and non-zero |
| `Database.FindById` | server/app.py:52-54 | finds the row with the given primary key, or reports that no row has it |
| `Database.FindByUsername` | server/app.py:69 | finds the first row with exactly that username, or reports that no row has it |
| `Database.OwnedBy` | server/app.py:100 | the filtered recipes all belong to the given user and are no more than the table holds |
| `Handlers.MinutesOrZero` | server/app.py:125 | an absent minutes value becomes 0, a present one is kept (0 stays 0) |
| `Handlers.Signup` | server/app.py:12-44 | signup answers 201 or 422; a 422 leaves the store as it was; a 201 leaves recipes alone and sets the session to the new user's id |
| `Handlers.CheckSession` | server/app.py:46-61 | the session check answers 200, 401 or 404, and 200 exactly when it returns a user |
| `Handlers.Login` | server/app.py:63-79 | login answers 200, 401 or 500; anything but 200 leaves the store as it was; a 200 changes only the session, which then names a user |
| `Handlers.Logout` | server/app.py:81-87 | logout answers 204 or 401 and always leaves the session empty, with everything else unchanged |
| `Handlers.ListRecipes` | server/app.py:90-115 | the listing answers 200, 401 or 404, 200 exactly when it returns a list, and never more entries than stored recipes |
| `Handlers.CreateRecipe` | server/app.py:117-154 | recipe creation answers 201, 401, 422 or 500 (a refused commit, or a missing owner after the commit); 401 and 422 leave the store as it was; users and session never change, and at most one recipe is added |
| `Invariants.SignupPreservesValid` | server/models.py:13-14 | signup keeps usernames unique and ids increasing below the counter |
| `Invariants.LoginPreservesValid` | server/app.py:69-79 | login keeps the store invariant |
| `Invariants.LogoutPreservesValid` | server/app.py:81-87 | logout keeps the store invariant |
| `Invariants.CreateRecipePreservesValid` | server/models.py:39-49 | every stored recipe keeps a non-empty title, instructions of at least 50 characters and an increasing id |
| `App.Server.constructor` | server/models.py:9-43 | a new server starts with empty tables, no session and both id counters at 1 |
| `App.Server.Signup` | server/app.py:12-44 | the method makes exactly the signup transition and keeps the store invariant |
| `App.Server.Login` | server/app.py:63-79 | the method makes exactly the login transition and keeps the store invariant |
| `App.Server.Logout` | server/app.py:81-87 | the method makes exactly the logout transition and keeps the store invariant |
| `App.Server.CreateRecipe` | server/app.py:117-154 | the method makes exactly the recipe-creation transition and keeps the store invariant |
| `Properties.OwnedByMembers` | server/app.py:100 | a recipe is listed for a user exactly when it is stored and owned by that user |
| `Properties.OwnedByAppend` | server/app.py:100 | the listing keeps store order: a recipe inserted last is listed last |
| `Properties.FirstMatchFound` | server/app.py:69 | a row carrying the username with no earlier namesake is exactly the one `.first()` returns |
| `Properties.FindByUsernameUnique` | server/models.py:13 | with unique usernames, the lookup by username finds the one row that carries it |
| `Properties.SignupOutcomes` | server/app.py:20-44 | signup answers 201 or 422; 201 exactly when username and password are present and non-empty, the library accepts the password and the username is not taken; 422 leaves the store unchanged |
| `Properties.SignupRequiresCredentials` | server/app.py:20-21 | a missing or empty username or password answers 422 "Username and password are required" with users, recipes and session unchanged |
| `Properties.SignupRefusedPassword` | server/app.py:24-33 | a present password the library refuses answers 422 with the library's message and changes nothing |
| `Properties.SignupDuplicate` | server/app.py:35-37 | a taken username, with a password the library accepts, answers 422 "Username already exists" with the store and session unchanged |
| `Properties.SignupCreates` | server/app.py:28-44 | a successful signup appends exactly one row with a fresh id and the password's hash, sets the session to it, leaves recipes alone and answers only the public fields |
| `Properties.SignupTwice` | server/app.py:35-37 | signing up a second time with the same username is refused with 422 and the store, the first user's row included, unchanged; with an accepted password the refusal is "Username already exists" |
| `Properties.LoginSucceedsIff` | server/app.py:69-77 | login answers 200 exactly when a row carries the username and the library's check accepts the password against that row's hash; the session then names that user and the answer carries its public fields |
| `Properties.LoginFailsUniformly` | server/app.py:67-79 | login crashes (500) exactly when the username matches a row and the check against the first such row raises (missing password, or a password the library refuses); every other failure, unknown user or wrong password alike, gets the same 401 "Invalid username or password"; no failure changes anything |
| `Properties.SignupThenLogin` | server/app.py:69-77 | assuming the library is sound, the credentials just signed up log that user in |
| `Properties.SignupThenWrongPassword` | server/app.py:69-79 | assuming the library is sound, any other password is refused with 401, or crashes with 500 when the library refuses it, and nothing changes |
| `Properties.PresenceIsTruthiness` | server/app.py:83 | in a valid store, logout's presence test and the truthiness test of the other handlers agree |
| `Properties.LogoutTwice` | server/app.py:83-87 | logout with a session clears it and answers 204; a second logout answers 401 |
| `Properties.CheckSessionAfterLogout` | server/app.py:48-50 | after logout the session check answers 401 |
| `Properties.CheckSessionOutcomes` | server/app.py:46-61 | the session check answers 401 without a session user, 404 exactly when that user is not stored, and 200 with its public fields whenever it is stored |
| `Properties.ListRecipesOutcomes` | server/app.py:91-115 | the listing answers 401 and 404 as the session check does, and when the session user is stored answers 200, listing the session user's recipes in store order, each with that user's public fields |
| `Properties.ListRecipesOnlyOwn` | server/app.py:100-115 | every listed entry is a stored recipe of the session user |
| `Properties.CreateRecipeNeedsSession` | server/app.py:118-120 | without a session user, recipe creation answers 401 and changes nothing |
| `Properties.CreateRecipeRejects` | server/app.py:127-141 | a missing or empty title or instructions, or instructions under 50 characters, answer 422 "Invalid recipe data" with the store unchanged |
| `Properties.CreateRecipeAppends` | server/app.py:125-154 | otherwise, minutes outside the column's range crash the commit and nothing is stored; any other value appends exactly one recipe owned by the session user, absent minutes stored as 0, answering 201 with the owner's public fields exactly when the owner is stored, else crashing after the commit |
| `Properties.MinutesColumnBoundary` | server/app.py:130-138 | minutes of 2^63 - 1 are stored; 2^63 makes the commit raise, answering 500 with the store unchanged |
| `Properties.CreateThenList` | server/app.py:100-154 | a created recipe then appears last in the user's listing |
| `Properties.InstructionsBoundary` | server/models.py:47 | 49 characters of instructions are refused and 50 accepted |
| `Properties.SessionResolvesPreserved` | server/app.py:30 | if the session names a stored user, it still does after any handler |
| `Properties.SessionResolvesNoNotFound` | server/app.py:52-54 | while the session names a stored user, no 404 is answered, and a recipe-creation crash stores nothing (only the refused commit is left) |
| `Properties.EmptyStore` | server/models.py:9-43 | an empty database with no session satisfies the store invariant |
| `Scenarios.PasswordRoundTrip` | server/models.py:24-34 | assuming the library is sound, setting a password and checking it succeeds exactly when the password is non-empty and the library accepts it |
| `Scenarios.AnaScenario` | server/app.py:117-154 | with the library accepting "pw123": sign up "ana"; a recipe with no title is refused; a "Soup" recipe with 50-character instructions is created with minutes 0 and owned by "ana" |
| `Scenarios.LogoutScenario` | server/app.py:81-87 | with the library accepting "pw123": after signup, logout answers 204, a second logout 401, and the session check 401 |

## Left out

- Request parsing, JSON encoding, resource routing (server/app.py:156-160), `app.run` and `db.create_all` (server/app.py:163-167): these are framework plumbing. A request body is a record of optional fields.
- The ORM's session, query API, backrefs and serializer mixin. The database is an in-memory store; commit and rollback are "apply the write" and "leave the store unchanged".
- The internals of bcrypt. `hash` and `check` are uninterpreted, and the only statement about them is the assumption `Sound`. Which passwords a given version refuses, and the 72-byte truncation of versions that do not refuse, are not modelled (see `Sound` above).
- The `print` of the new user's hash at server/app.py:26: it is output only.
- The `config` module is not part of this model.
- A body that is not a JSON object, and field values of the wrong type (a number where a string is expected, a string for minutes). The model's fields are strings, and minutes is an integer.
- Handlers.CreateRecipe: the minutes column's range is SQLite's 64-bit signed one. A backend with 32-bit integer columns refuses values from 2^31 on with a `DataError`, which is also uncaught (a 500 with nothing stored). The model stores those values instead. The backend is chosen in the `config` module, which is not part of this model.
- App.Server.CreateRecipe: follows `Handlers.CreateRecipe`, so it has the same 64-bit assumption about the minutes column.
- Properties.CreateRecipeAppends: states the 64-bit range only; under a 32-bit backend its "exactly one recipe appended" does not hold for minutes from 2^31 to 2^63 - 1.
- Concurrent requests, including two signups racing on the unique constraint: the model is sequential.
- Foreign-key enforcement on `recipes.user_id` (server/models.py:43): it depends on the database backend. The model does not enforce it, which is how the crash after a recipe insert arises.
- The id of a new user is fixed when the object is built rather than at flush time. It is the same value either way: the next id of the table.
- Only one client's session is modelled. Other clients touch the shared tables only through the same handlers.
