# Todo API backend: authentication, ownership and task table

This project models the core of a FastAPI todo backend in Dafny and proves
properties of the model. The model covers:

- sign-up and sign-in over an in-memory user table (`users_db`), keyed by
  lower-cased email, with bcrypt password hashes and seven-day HS256 access
  tokens;
- bearer-token verification (`decode_token`, `get_user_from_token`) and the
  401 gate in front of the protected routes;
- the ownership guard, which hides other users' data behind a 404;
- the six task routes and the service functions over the `tasks` table;
- the request and response schemas with their length constraints;
- the rewriting of the database URL for the asyncpg driver;
- the `APIResponse` envelope.

Modules follow the source files.

- `Auth` (`src/api/auth.py`):
  - `UserStore` is a class whose `users` map is the module-level dict.
  - `Signup` is a method that updates it.
  - `Signin` is a function that reads it.
  - `CreateAccessToken` gives the token sign-in hands out.
- `Security` (`src/core/security.py`) and `Middleware` (`src/core/middleware.py`):
  - Both are pure functions returning an `Outcome`, which is either
    `Return(value)` or `Raise(exception)`.
  - A pydantic `ValidationError` raised at `src/core/security.py:49` is not
    caught by the handlers at lines 50-53, so it escapes. `DecodeToken`
    models this as `Raise(ValidationError)`, so `DecodeToken` is not total.
- `Deps` (`src/api/deps.py`): the ownership guard.
- `TaskService` (`src/services/task_service.py`):
  - `TaskTable` is a class whose `rows` map stands for the `tasks` table.
  - `get_task` is a function.
  - `get_tasks` is a read-only method that builds the listing.
  - The four mutations are methods whose contracts state the whole new table.
- `TaskRoutes` (`src/api/tasks.py`): the handlers, in the source's order:
  1. body or query validation (422);
  2. `verify_user_access` (404);
  3. lookup (404);
  4. the table operation;
  5. conversion to the response model.
- `TaskModels`, `UserModels` (`src/models/`): the records and their validators.
- `Config` (`src/core/config.py`): `Settings` and its two derived properties.
- `Responses` (`src/api/responses.py`): the envelope.
- Supporting modules:
  - `Text` models the Python string operations the source uses:
    `startswith`, `in`, `replace`, `split(...)[0]`, `strip` and `lower`.
  - `Uuids` models `str(UUID)` and `UUID(str)`.
  - `Jwt` and `Bcrypt` are symbolic models of PyJWT and passlib's bcrypt:
    - A JWT is the compact serialisation of section 7.1 of RFC 7515, under
      the HS256 algorithm of section 3.2 of RFC 7518.
    - A token is represented by its header algorithm, its claims and a
      signature tag `Hmac(alg, key, claims)`.
    - A digest is its salt and an image of the password.

The clock (`datetime.utcnow`), `uuid4` and the bcrypt salt are parameters:
`now` in POSIX seconds, a fresh id and a salt. The signing secret
`BETTER_AUTH_SECRET` and the database URL are parameters too.

Where the code and its documentation differ, the model follows the code.
Two places matter:

- `get_optional_user` is described as returning `None` for any invalid
  token. It still raises when `decode_token` lets a `ValidationError` out.
- A title of only spaces passes `TaskCreate` and `TaskUpdate` validation.
  It is then stripped to `""`, stored, and fails the `TaskResponse`
  response model. FastAPI answers 500, and the row stays committed.

## Model

| member | source | states |
|---|---|---|
| Auth.HashPassword | src/api/auth.py:26-28 | the digest carries the salt drawn and the password verifies against it |
| Auth.VerifyPassword | src/api/auth.py:31-33 | accepts exactly the passwords that rehash to the stored digest under the digest's own salt |
| Auth.CreateAccessToken | src/api/auth.py:36-46 | an HS256 token signed with the secret, carrying exactly the claims `sub`, `email`, `name`, `exp` and `iat`, with `name` as given, and validating as a `TokenPayload` with `sub` the user id, the email, `iat` the issue time and `exp` seven days later |
| Auth.TokenValidForSevenDays | src/api/auth.py:38-46 | from its issue time on, an issued token decodes under the same secret if and only if fewer than seven days have passed |
| Auth.IssuedTokenIdentifiesUser | src/core/security.py:56-72 | within its lifetime, a token issued for `str(u)` resolves to the identity `u` with the issued email |
| Auth.IssuedTokenExpires | src/core/security.py:50-53 | from seven days after issue on, the token resolves to no identity |
| Auth.NewUserRecord | src/api/auth.py:68-75 | the stored entry has the id `str(uuid)`, the lower-cased email, the name and a digest the password verifies against |
| Auth.UserStore.constructor | src/api/auth.py:23 | the user table starts empty |
| Auth.UserStore.Signup | src/api/auth.py:49-77 | 422 for an invalid body; 400 `DUPLICATE_EMAIL` with the table unchanged when the lower-cased email is taken; otherwise exactly one entry is added under the lower-cased email and the reply carries only the message and the new id; the store stays keyed by lower-case email with parsable ids |
| Auth.UserStore.Signin | src/api/auth.py:80-118 | 422 for an invalid body; the same 401 `INVALID_CREDENTIALS` exactly when the email is unknown or the password does not verify; otherwise a token for the stored id, email and name, type `bearer`, and the stored user's public view; in a valid store nothing else can happen |
| Auth.SigninIgnoresCase | src/api/auth.py:85-88 | two emails with the same lower-case form sign in alike, including whether they pass the email check |
| Auth.RegisteredUserSignsIn | src/api/auth.py:109-118 | a signed-up user signs in with their password under any letter case of the email and gets the id sign-up returned |
| Auth.WrongPasswordRefused | src/api/auth.py:99-106 | any other password gets the 401 an unknown email gets |
| Auth.SigninTokenAuthenticates | src/api/auth.py:109 | the sign-in token resolves, for seven days, to the user's id and lower-cased email |
| Bcrypt.Hash | src/api/auth.py:26-28 | passlib's `hash` as a symbolic digest that carries its salt; a definition, whose properties are stated by `Bcrypt.HashSalted` and `Bcrypt.VerifyHash` |
| Bcrypt.Verify | src/api/auth.py:31-33 | passlib's `verify`: re-hash under the digest's salt and compare; a definition, whose property is stated by `Bcrypt.VerifyHash` |
| Bcrypt.VerifyHash | src/api/auth.py:31-33 | a password verifies against its own hash |
| Bcrypt.HashSalted | src/api/auth.py:26-28 | two hashes of a password with different salts differ |
| Jwt.Decode | src/core/security.py:44-48 | decoding succeeds if and only if the token parses, its algorithm is allowed, its signature is the key's tag and any `exp` is an integer still in the future; the result is the claims |
| Jwt.DecodeEncode | src/core/security.py:44-48 | decoding an encoded claim set with the same key gives it back while `now < exp` |
| Jwt.DecodeOtherKey | src/core/security.py:44-48 | a different key makes decoding fail |
| Jwt.DecodeOtherAlgorithm | src/core/security.py:47 | an algorithm outside the allow-list makes decoding fail |
| Jwt.DecodeTampered | src/core/security.py:44-48 | claims changed under an old signature fail |
| Jwt.DecodeExpired | src/core/security.py:50-51 | a signed token fails as expired once `now >= exp` |
| Security.ValidatePayload | src/core/security.py:17-23 | the claims validate if and only if `sub` is a string and `email`, `exp` and `iat` are absent, null or of their type; `sub`, `email`, `exp` and `iat` are carried over |
| Security.DecodeToken | src/core/security.py:33-53 | `None` for every token `jwt.decode` rejects; the validated payload for every token it accepts whose claims validate; raises `ValidationError` exactly when decoding succeeds and validation fails; a payload only from an HS256 token signed with the secret |
| Security.GetUserFromToken | src/core/security.py:56-74 | `None` when `decode_token` gives `None` or `sub` is not a UUID; its exceptions pass through; otherwise the identity `{UUID(sub), email}` |
| Security.IdentityOnlyFromHs256 | src/core/security.py:14 | an identity comes only from a token with the HS256 header and the secret's HS256 signature |
| Security.ExpiredTokenYieldsNone | src/core/security.py:50-51 | an expired token yields no identity |
| Security.OtherSecretYieldsNone | src/core/security.py:52-53 | a token signed under another key yields no identity |
| Middleware.GetCurrentUser | src/core/middleware.py:13-50 | 401 `AUTHENTICATION_REQUIRED` without credentials; 401 `INVALID_TOKEN` when the token yields no identity; every 401 carries `WWW-Authenticate: Bearer`; a `ValidationError` raised by `get_user_from_token` passes through unchanged (a 500, not a 401); otherwise the verified identity unchanged |
| Middleware.GetOptionalUser | src/core/middleware.py:53-65 | `None` without credentials, otherwise exactly `get_user_from_token`'s result; it raises only when `decode_token` does |
| Middleware.OptionalAgreesWithRequired | src/core/middleware.py:38-65 | the two gates accept the same identities |
| Deps.VerifyUserAccess | src/api/deps.py:10-28 | returns with no effect if and only if the URL's user id is the caller's id; otherwise 404 `NOT_FOUND` "Resource not found", never 403 |
| Deps.AccessIgnoresEmail | src/api/deps.py:21 | the decision does not depend on the caller's email |
| TaskModels.NewTask | src/models/task.py:20-29 | a new row has the given owner, title and description, is not completed, and has both times set to now |
| TaskModels.ToResponse | src/models/task.py:45-52 | a row converts to `TaskResponse` with every field copied if and only if its title and description satisfy the `TaskBase` bounds; otherwise a response validation error |
| TaskModels.ToResponses | src/api/tasks.py:19 | a list converts element by element and fails if any element fails |
| UserModels.SignupConstraints | src/models/user.py:14-15 | a sign-up with a password under 8 characters, an empty name or a name over 100 characters is refused |
| UserModels.LoginPasswordUnconstrained | src/models/user.py:18-22 | sign-in validity does not depend on the password |
| TaskService.InsertKeepsElements | src/services/task_service.py:36-38 | inserting into the listing adds the task and keeps every other |
| TaskService.InsertKeepsOrder | src/services/task_service.py:36 | inserting keeps the listing ordered by `created_at` descending |
| TaskService.InsertKeepsDistinct | src/services/task_service.py:38 | inserting a new task keeps the listing free of repeats |
| TaskService.TrimmedOrNone | src/services/task_service.py:108 | `strip() or None`: `None` exactly for whitespace-only text, otherwise the stripped text |
| TaskService.CreatedTask | src/services/task_service.py:78-82 | the new row has the owner, the stripped title, the description stripped when non-empty and `None` when empty or absent, and the column defaults |
| TaskService.UpdatedTask | src/services/task_service.py:105-110 | the title is stripped only when given; the description becomes `strip() or None` only when given; `updated_at` is set; id, owner, completion and `created_at` are unchanged |
| TaskService.ToggledTask | src/services/task_service.py:130-131 | completion is negated, `updated_at` is set, and nothing else changes |
| TaskService.ToggleTwice | src/services/task_service.py:130 | toggling twice restores the task apart from `updated_at` |
| TaskService.TaskTable.constructor | src/models/task.py:20-23 | the table starts empty and every row is stored under its id |
| TaskService.TaskTable.GetTask | src/services/task_service.py:41-59 | a task exactly when a row has both that id and that owner |
| TaskService.TaskTable.GetTasks | src/services/task_service.py:13-38 | exactly the owner's rows that pass the filter: `pending` keeps incomplete rows, `completed` keeps complete ones, and anything else keeps all; each row once, `created_at` non-increasing |
| TaskService.TaskTable.CreateTask | src/services/task_service.py:62-86 | the table gains exactly the created row under its fresh id |
| TaskService.TaskTable.UpdateTask | src/services/task_service.py:89-113 | the row is replaced by its update and nothing else changes |
| TaskService.TaskTable.ToggleTaskCompletion | src/services/task_service.py:116-134 | the row is replaced by its toggled form and nothing else changes |
| TaskService.TaskTable.DeleteTask | src/services/task_service.py:137-149 | exactly that row is removed |
| TaskService.WhitespaceTitleStoredEmpty | src/services/task_service.py:80 | a valid whitespace-only title is stored empty and the created row fails `TaskResponse` |
| TaskService.WhitespaceTitleUpdateStoredEmpty | src/services/task_service.py:106 | the same for an update |
| TaskService.CreatedTaskFitsResponse | src/services/task_service.py:78-82 | a valid create whose title has a visible character gives a row that fits `TaskResponse` |
| TaskService.BlankDescriptionCreateVersusUpdate | src/services/task_service.py:81 | a whitespace-only description is stored as `""` by create and as `None` by update |
| TaskRoutes.Respond | src/api/tasks.py:36 | a returned value is sent with the route's status code; an exception passes through |
| TaskRoutes.GetTasks | src/api/tasks.py:19-33 | 422 for a status other than `pending` or `completed`; the 404 denial for another user's URL; otherwise the caller's listing, validated as `TaskResponse`s, with 200, or the 500 `ResponseValidationError` when a listed row fails `TaskResponse`'s bounds, as a title left empty by `strip()` does |
| TaskRoutes.CreateTask | src/api/tasks.py:36-48 | 422 or the denial leave the table unchanged; otherwise exactly the created row is added, other users' rows never change, and the reply is its validated `TaskResponse` with status 201, or the 500 `ResponseValidationError` when the stored row fails `TaskResponse`'s bounds, as a title left empty by `strip()` does |
| TaskRoutes.GetTask | src/api/tasks.py:51-68 | the denial for another user's URL; 404 "Task not found" exactly when the caller owns no task with that id; otherwise that task validated as a `TaskResponse` with 200, or the 500 `ResponseValidationError` when the row fails `TaskResponse`'s bounds, as a title left empty by `strip()` does |
| TaskRoutes.UpdateTask | src/api/tasks.py:71-90 | 422, the denial or a missing task leave the table unchanged; otherwise only the caller's row is updated; other users' rows never change |
| TaskRoutes.DeleteTask | src/api/tasks.py:93-111 | the denial or a missing task leave the table unchanged; otherwise only that row is removed and the answer is 204 with no body |
| TaskRoutes.ToggleTaskCompletion | src/api/tasks.py:114-132 | the denial or a missing task leave the table unchanged; otherwise only that row is toggled |
| TaskRoutes.DenialIndistinguishableFromMissing | src/api/tasks.py:64-67 | the denial and a missing task share status 404, code `NOT_FOUND` and the empty headers; only the message differs |
| TaskRoutes.ForeignTaskReadsAsMissing | src/api/tasks.py:62-67 | another user's task reads as missing |
| Config.RewriteScheme | src/core/config.py:36-37 | a leading `postgresql://` is replaced once by `postgresql+asyncpg://`; any other URL is kept |
| Config.DropSslmode | src/core/config.py:39-43 | with `?sslmode=`, the result is the prefix before its first occurrence and contains none; with neither marker, the URL is unchanged |
| Config.OtherSslmodeKept | src/core/config.py:41-42 | a URL in the `&sslmode=` case that holds none of the three removable values (only `&sslmode=verify-full`, say) is kept as it is |
| Config.RemoveTrailing | src/core/config.py:42 | removing a pattern from `base + pattern` removes exactly that ending, when `base` does not hold the pattern and the pattern's first character does not recur in it |
| Config.TrailingSslmodeDropped | src/core/config.py:41-42 | a trailing `&sslmode=require`, `&sslmode=prefer` or `&sslmode=disable` is removed and nothing else, after any parameters (with `&` or not) that hold no `?sslmode=` and none of the three removable values; so an `&sslmode=verify-full` before it stays |
| Config.DropSslmodeKeepsAsyncScheme | src/core/config.py:38-42 | the `sslmode` step never alters a leading asyncpg scheme |
| Config.Settings.AsyncDatabaseUrl | src/core/config.py:32-43 | a `postgresql://` URL comes out with the asyncpg scheme whatever its parameters; with `?sslmode=` the result is a prefix of the rewritten URL without the marker; with neither marker it is the rewritten URL |
| Config.Settings.RequiresSsl | src/core/config.py:45-48 | true if and only if `sslmode=require` or `neon.tech` occurs at some position of the raw URL |
| Config.WithDefaults | src/core/config.py:19-30 | the two required fields as given; frontend URL `http://localhost:3000`, debug off, name `Todo API`, version `1.0.0` |
| Text.ContainsIffOccurs | src/core/config.py:48 | the recursive substring test agrees with the positional one, both ways |
| Text.SplitHeadCutsAtFirst | src/core/config.py:40 | `split(sep)[0]` is the prefix before the first `sep`, and the whole text when `sep` is absent |
| Text.ReplaceKeepsPrefix | src/core/config.py:42 | a prefix that never starts the pattern passes through `replace` unchanged |
| Text.StripEmptyIff | src/services/task_service.py:80 | `strip()` gives the empty string if and only if every character is whitespace |
| Text.StripSlice | src/services/task_service.py:80 | `strip()` gives a contiguous slice of its input |
| Text.LowerIdempotent | src/api/auth.py:57 | lower-casing twice is lower-casing once |
| Uuids.ParseFormat | src/core/security.py:71 | `UUID(str(u)) == u` |
| Uuids.Format | src/api/auth.py:68 | `str(u)` is 36 characters with hyphens at positions 8, 13, 18 and 23 |
| Uuids.Parse | src/core/security.py:71 | `UUID(s)`: drops `urn:` and `uuid:`, strips braces, drops hyphens and reads exactly 32 hexadecimal digits of either case; `None` for the `ValueError`; a definition, whose round trip is stated by `Uuids.ParseFormat` |
| Jwt.Encode | src/api/auth.py:46 | the token carries the given algorithm and claims |
| Text.StartsWith | src/core/config.py:36 | Python's `s.startswith(p)`; a definition used by every `Config` contract |
| Text.Contains | src/core/config.py:39 | Python's `p in s`, by recursion; agrees with some position holding `p` (see `Text.ContainsIffOccurs`) |
| Text.Replace | src/core/config.py:37 | Python's `s.replace(pat, repl, count)`: non-overlapping occurrences left to right, all of them for a negative count; a definition, whose properties are stated by `Text.ReplaceAbsent`, `Text.ReplaceOnceAtStart` and `Text.ReplaceKeepsPrefix` |
| Text.SplitHead | src/core/config.py:40 | Python's `s.split(sep)[0]`; a definition, whose property is stated by `Text.SplitHeadCutsAtFirst` |
| Text.Trim | src/services/task_service.py:80 | Python's `s.strip()` over the characters `str.isspace()` accepts; a definition, whose properties are stated by `Text.StripSlice` and `Text.StripEmptyIff` |
| Text.Lower | src/api/auth.py:57 | Python's `s.lower()` on ASCII letters; a definition, whose properties are stated by `Text.LowerMapsEachChar` and `Text.LowerIdempotent` |
| UserModels.IsEmail | src/models/user.py:13 | the stand-in for `EmailStr`: exactly one `@`, with text on both sides (see the `EmailStr` line under Left out); a definition |
| UserModels.LowerKeepsEmail | src/api/auth.py:57 | lower-casing keeps a text an email or a non-email, since it changes no `@` |
| UserModels.UserCreate.Valid | src/models/user.py:10-15 | a well-formed email, a password of at least 8 characters and a name of 1 to 100 |
| UserModels.UserLogin.Valid | src/models/user.py:18-22 | a well-formed email; any password |
| TaskModels.TaskCreate.Valid | src/models/task.py:13-17 | a title of 1 to 200 characters and a description absent or at most 1000 |
| TaskModels.TaskUpdate.Valid | src/models/task.py:38-42 | each field may be absent; a given title has 1 to 200 characters and a given description at most 1000 |
| TaskRoutes.ValidStatusQuery | src/api/tasks.py:24 | no status, or exactly `pending` or `completed` |
| TaskService.Selected | src/services/task_service.py:29-34 | the row belongs to the user; `pending` keeps incomplete rows, `completed` complete ones, anything else every row |
| Responses.Unwrap | src/api/responses.py:17-22 | a well-formed envelope yields data if and only if it is a success; well-formedness (data and no error on success, an error and no data on failure) is the model's reader invariant, which `APIResponse` itself does not enforce |
| Responses.Success | src/api/responses.py:24-27 | `ok(d)` is a well-formed success with data `d` and no error |
| Responses.Failure | src/api/responses.py:29-32 | `fail(c, m)` is a well-formed failure with no data and the error `{c, m}` |
| Responses.SuccessIsNotFailure | src/api/responses.py:20-32 | `ok` and `fail` results always differ in `success` |

## Left out

- I/O and frameworks are not modelled:
  - SQLAlchemy, sessions, `commit` and `refresh`, async/await;
  - the engine and its SSL context (`src/core/database.py`);
  - app wiring and CORS (`src/main.py`);
  - the health route (`src/api/health.py`);
  - `get_settings` and its environment loading; the model builds `Settings` from the two required values given as parameters.
- The clock, `uuid4` and the bcrypt salt are parameters:
  - `create_task` takes its fresh id as a precondition that it is not yet a key.
  - One `now` stands for the separate clock reads in `create_access_token` and in the task column defaults.
  - Times are whole seconds, not `datetime`, and PyJWT's conversion of `datetime` to a timestamp is not modelled.
- `Auth.UserRecord` keeps `created_at` as the integer `now` rather than an ISO text.
- Crypto internals are abstract:
  - HMAC-SHA-256, base64url and bcrypt's cost, one-wayness and constant-time comparison are not modelled.
  - A malformed token is one constructor.
- Auth.WrongPasswordRefused: holds for the symbolic digest. Real bcrypt compares only the first 72 bytes of a password, so two passwords that agree on those bytes verify alike.
- PyJWT's checks of `iat`, `nbf`, `aud` and `iss` are not modelled; only `exp` and the signature are.
- `Jwt.Decode` refuses every `exp` that is not an integer. PyJWT converts `exp` with `int()`, so it also accepts a numeric string or a float. Only a token signed with the secret can carry such a claim, and the application's own tokens carry an integer.
- `EmailStr` is replaced by a simple predicate (one `@`, not at either end), and the model keys users on the lower-cased text as sent. Pydantic's `EmailStr` also turns a `Name <addr>` form into the bare address, strips surrounding spaces and normalises the domain (IDNA, Unicode). So `" A@b.c"` and `"a@b.c"` are two different users in the model but the same user in the program.
- Lower-casing covers ASCII letters only. `strip` removes the characters for which `str.isspace()` holds, listed out in `Text.Whitespace`.
- UUID parsing follows `UUID(str)` for hyphens, braces and the `urn:uuid:` prefix. It does not model the leniency of `int(..., 16)` toward signs, `0x`, underscores or surrounding whitespace.
- Parsing of the path parameters `user_id` and `task_id` is not modelled: a malformed UUID gets 422 before the handler runs, and the handlers take `Uuid` values.
- The `HTTPBearer` parsing of the `Authorization` header is not modelled; `Middleware` takes the token or its absence.
- Order of equal timestamps: `TaskService.TaskTable.GetTasks` stands for the SQL engine's `ORDER BY created_at DESC`. Tasks with equal `created_at` may come in any order, and the contract allows any.
- `MessageResponse` (`src/api/responses.py:35-38`) is unused by the routes and is not modelled.
