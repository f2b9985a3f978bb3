# Beauty Assistant user accounts, in Dafny

This project models the account core of the Beauty Assistant backend: the
`users` table and the two routes that use it.

- `POST /auth/register` validates the request body against its schema. It
  then refuses the request if any stored user has the same email or the same
  username. Next it refuses a password that differs from its confirmation.
  Otherwise it inserts one row holding the password verbatim and returns the
  row's public fields.
- `POST /auth/login` takes the first row, in table order, whose username or
  email equals the supplied identifier. It succeeds when that row's stored
  password equals the supplied one. It then returns the constant token
  `"fake-jwt-token"`, the token type `"bearer"` and the row's id, email,
  username and full name. Both ways of failing give the same error.

Modules, one per source file or concern:

- `Wrappers` (wrappers.dfy): `Option` and `Result`.
- `Schemas` (schemas.dfy): the request and response bodies of
  fastapi/schemas/user.py and their field constraints as predicates. For
  each constrained request body (registration, update, password change) a
  function lists the violated fields; the list is empty exactly when the
  body is valid. The clock type `Timestamp` is defined here once.
- `Models` (models.dfy): the `User` row of fastapi/models.py, the VARCHAR
  column bounds, the column defaults, and `TableValid`. `TableValid` says
  that emails are unique, usernames are unique, ids are positive, increasing
  and below the next auto-increment value, and every row fits its columns.
  It also says every stored password has at least 8 characters, so it is
  never empty, and every username has 3 to 50. Registration is the only
  writer, and it admits only such values.
- `Query` (query.dfy): the ORM's `query(User).filter(p).first()`, as the
  index of the first row satisfying `p`.
- `Auth` (auth.dfy): the errors and responses of fastapi/main.py, `Login` as
  a function over the table, and `Rejection`, the specification of why
  registration refuses a request. The class `UserTable` holds the rows and
  the auto-increment counter. Its method `Register` runs the route's guards
  step by step and appends the row. It keeps `TableValid`, leaves the table
  unchanged on every error, and appends exactly the candidate row on success.
- `AuthProperties` (auth_properties.dfy): lemmas relating several calls.

Decisions where the sources disagree or say nothing:

- The route reads `user_data.confirm_password` (fastapi/main.py:130). The
  `UserCreate` schema declares no such field (fastapi/schemas/user.py:15-17).
  The model gives the registration body a `confirmPassword` field with no
  constraint, as the route reads it. As written, the pydantic v2 model drops
  the undeclared field. So every request that passes the duplicate check
  raises AttributeError at main.py:130 (status 500), and no registration
  succeeds. The model describes the route's intended input instead.
- The route reads `login_data.username` (fastapi/main.py:168). The
  `UserLogin` schema declares `email` (fastapi/schemas/user.py:33). The model
  gives the login body one `identifier`, compared with both columns as the
  route does. As written, a body without `email` is refused with 422, and a
  body with it raises AttributeError at main.py:168 (status 500), so no login
  succeeds. The model describes the route's intended input instead.
- The database is MySQL (fastapi/database.py:14). The model assumes the
  server runs in strict SQL mode; nothing in the repository sets it. In that
  mode an over-long VARCHAR value makes the insert fail, and the session's
  rollback leaves the table unchanged. An id past the signed 32-bit range of
  the `Integer` id column (fastapi/models.py:18) fails the insert the same
  way. The model reports both as `StorageRejected` (an unhandled error,
  status 500). The schema bounds usernames by 50 and full names by 200, so
  those always fit. The schema puts no maximum on the password
  (fastapi/schemas/user.py:17) while its column holds 255 characters, so a
  longer password reaches the commit and fails there. In the program an
  email longer than its 255-character column is expected to be refused
  earlier by the `EmailStr` validator (fastapi/schemas/user.py:10). The
  model leaves that validator out, so in the model such an email also
  reaches the commit.
- Body validation happens before the route's own code runs. It is modelled
  as the first guard of `Register`, which fails with `InvalidRequest` and the
  list of failing fields (status 422).
- Ids come from a counter that starts at 1 and grows by one per insert. This
  stands in for MySQL's auto-increment. Contracts rely only on new ids being
  larger than every stored id and at most 2147483647.
- The database clock is a `now` parameter of `Register`. `created_at` takes
  its value; `updated_at` stays empty on insert, because it is set only when
  a row is updated.

One consequence of the code as written is proved rather than corrected. The
duplicate check compares email with email and username with username. A user
whose email equals an earlier user's username is therefore admitted. A login
with that email then acts exactly as a login on the table before the newcomer
was added: the earlier row is picked out first, so the login either fails or
logs in as the earlier user (`EmailLoginReachesEarlierRow`). When the two
passwords differ, the newcomer cannot log in by email with their own
password (`EmailLoginFailsWithOwnPassword`; `EmailLoginShadowedByUsername`
is a concrete example). The mirror case holds as well: a newcomer whose
username is an earlier user's email is admitted, and a login with that
username reaches the earlier row (`UsernameLoginReachesEarlierRow`). In a
valid table at most two rows can match one identifier, and only crosswise
(`TwoMatchesAreCrossed`, `AtMostTwoMatches`).

## Model

| member | source | states |
|---|---|---|
| `Schemas.CreateViolations` | fastapi/schemas/user.py:8-17 | a registration body is accepted exactly when its username has 3 to 50 characters, its full name is absent or at most 200, and its password has at least 8; each failing field is reported, and no other |
| `Schemas.UpdateViolations` | fastapi/schemas/user.py:69-72 | an update is accepted exactly when a present username has 3 to 50 characters and a present full name at most 200; absent fields never fail |
| `Schemas.PasswordChangeViolations` | fastapi/schemas/user.py:84-87 | a password change fails only on a new password shorter than 8 characters |
| `Schemas.CurrentPasswordUnconstrained` | fastapi/schemas/user.py:86 | the current password never affects whether a password change is valid |
| `Models.NewUser` | fastapi/models.py:18-25 | a new row has is_active true unless a value is given, created_at equal to the clock, updated_at unset, and the given id, email, username, full name and password |
| `Models.IdsDistinct` | fastapi/models.py:18 | in a valid table no two rows share an id, and no row has the next id to be assigned |
| `Query.First` | fastapi/main.py:167-169 | the result is the least index whose row satisfies the filter, or None exactly when no row does |
| `Query.FirstIsUnique` | fastapi/main.py:167-169 | at most one index is the first match |
| `Auth.Candidate` | fastapi/main.py:138-143 | the inserted row carries the request's email, username and full name, the supplied password verbatim, is_active true, and the next id |
| `Auth.Rejection` | fastapi/main.py:119-147 | the duplicate error has status 400 and the message "Email or username already registered", the mismatch error status 400 and "Passwords do not match"; an invalid body is refused with its violations; otherwise any row with the same email or username gives the duplicate error whatever the passwords; otherwise a differing confirmation gives the mismatch error; otherwise a row that does not fit its columns (a string too long, or an id past the INT range) is refused by the database; the request is admitted exactly when none of these applies |
| `Auth.Login` | fastapi/main.py:166-187 | login succeeds exactly when the first row whose username or email equals the identifier stores the supplied password, and then returns the constant bearer token with that row's id, email, username and full name; every failure is the one invalid-credentials error, status 401 with the message "Invalid credentials" |
| `Auth.AdmittedKeepsTableValid` | fastapi/main.py:119-147 | inserting an admitted row keeps emails unique, usernames unique, ids increasing, every row within its columns, every stored password at least 8 characters and every username 3 to 50 |
| `Auth.UserTable.constructor` | fastapi/models.py:16-18 | a new table is empty, valid, and hands out id 1 first |
| `Auth.UserTable.Register` | fastapi/main.py:104-149 | the table stays valid (unique emails and usernames, non-empty passwords, ids in range); an error occurs exactly when `Rejection` names one and leaves rows and counter unchanged; success appends exactly the candidate row, advances the counter and returns that row's response |
| `AuthProperties.LoginAfterRegistration` | fastapi/main.py:138-187 | after a registration, logging in with the new username or email and the chosen password returns the new row's public fields, provided no earlier row is matched by that identifier |
| `AuthProperties.RegisteringAgainConflicts` | fastapi/main.py:119-127 | after a registration, any valid request sharing its email or its username is refused as a duplicate |
| `AuthProperties.TwoMatchesAreCrossed` | fastapi/main.py:167-169 | in a valid table, two rows matched by one identifier are matched one by username and the other by email |
| `AuthProperties.AtMostTwoMatches` | fastapi/main.py:167-169 | in a valid table no identifier matches three rows |
| `AuthProperties.LoginUnaffectedByLaterRows` | fastapi/main.py:167-175 | once an identifier matches a row, rows inserted later never change the login result for it |
| `AuthProperties.EmailLoginReachesEarlierRow` | fastapi/main.py:119-175 | when an admitted newcomer's email is an earlier user's username, a login with that email and any password gives exactly the result it gave before the newcomer was added: it fails or logs in as the earlier user |
| `AuthProperties.EmailLoginFailsWithOwnPassword` | fastapi/main.py:119-175 | when an admitted newcomer's email is an earlier user's username and their passwords differ, the newcomer's login with that email and their own password fails with the invalid-credentials error |
| `AuthProperties.UsernameLoginReachesEarlierRow` | fastapi/main.py:119-175 | when an admitted newcomer's username is an earlier user's email, a login with that username and any password gives exactly the result it gave before the newcomer was added |
| `AuthProperties.EmailLoginShadowedByUsername` | fastapi/main.py:119-175 | an example table where the newcomer is admitted, fails to log in by email with their own password, and logs in by username |
| `AuthProperties.CommitFailsOnlyOnIdEmailOrPassword` | fastapi/models.py:18-22 | for a body valid under the modelled schema, the new row fits its columns exactly when the id is at most 2147483647 and email and password have at most 255 characters |
| `AuthProperties.ResponsesOmitPassword` | fastapi/schemas/user.py:46-51 | neither the registration response nor the login response depends on the stored password |

## Left out

- Email validation (`EmailStr`): its rules belong to a library that is not part of this model. Besides checking the format, it strips whitespace, accepts the `Name <address>` form and normalises the address (for example a lower-case domain), and that normalised value is what the route stores and compares. The model's `email` stands for the value after the validator, as an opaque string.
- The email and username filters run in MySQL, whose default collation in MySQL 8.0 (utf8mb4_0900_ai_ci) compares strings without regard to case and accents. The model compares emails and usernames exactly. Passwords are compared in Python (fastapi/main.py:171), exactly, as the model does.
- `.first()` is called without `order_by` (fastapi/main.py:121, 169), so SQL does not fix which matching row comes back. The model assumes table order, which is insertion order and here also id order. `Login`, `TwoMatchesAreCrossed`, `LoginUnaffectedByLaterRows` and the two email-login lemmas rely on that assumption.
- Timestamps are natural numbers supplied by the caller. The update rule for updated_at is only reflected by leaving it unset on insert, since no route updates a row.
- Password hashing and JWT issuance do not exist in the code. The model stores and compares the plaintext password and returns the constant token, as written.
- Concurrency: two registrations racing between the duplicate check and the commit are not modelled; the model is sequential. For the same reason the database's own unique constraints never fire in the model, and `AdmittedKeepsTableValid` shows the check already rules them out.
- Login is a function, so it cannot change the table. No attempt at logging or rate limiting exists in the code to model.
- HTTP dispatch, CORS and the exception-to-response mapping: errors are a datatype carrying their status code and detail message only.
- The routes `/`, `/health`, `/analysis/face` and `/recommendations`: they return fixed literals or probe the database.
- The `FaceAnalysis`, `Product` and `Recommendation` tables: no operation reads or writes them.
- The `UserUpdate` and `PasswordChange` bodies have no route; only their field constraints are modelled.
- The response-model validation of the registration response is not modelled; the stored values already passed the request schema.
- fastapi/database.py, fastapi/config.py, fastapi/start_server.py and fastapi/schemas/__init__.py: session plumbing, settings, start-up scripting and re-exports.
- Models.NewUser: the database-side parts of the defaults (server_default, onupdate) are represented only by the values they give on insert.
