# Authentication core of alx-backend-user-data, modelled in Dafny

This project models the authentication core of a small Flask teaching
repository in four parts:

- **Request gate (0x01 and 0x02).** `require_auth` decides which paths skip
  authentication. The 0x01 version treats prefixes in either direction as
  exempt. The 0x02 version recognises prefixes only through `*` wildcards;
  besides those it exempts a listed trailing-`/` path and a path whose
  `path + "/"` is listed. The gate also reads
  the `Authorization` header and the session cookie. 0x01's `before_request`
  turns all of this into "go on", 401 or 403.
- **Basic authentication (0x02 `BasicAuth`).** Five stages take an
  `Authorization: Basic ...` header apart and resolve it to a stored user.
- **Sessions (0x02).**
  - `SessionAuth` keeps a dictionary from session id to user id. It is a
    class attribute, so every session-based auth object shares it.
  - `SessionExpAuth` stamps each session with its creation time and lets it
    expire.
  - `SessionDBAuth` also persists `UserSession(user_id, session_id)` records.
    Lookups and logouts go to those records.
- **User authentication service (0x03).**
  - `DB` keeps the `users` table (`add_user`, `find_user_by`,
    `update_user`).
  - `Auth` builds registration, login, sessions and password resets on top
    of `DB`.
- **Log redaction (0x00).** `filter_datum` rewrites every
  `field=<value><sep>` of a log line to `field=<redaction><sep>`.

Each source file is one Dafny module:

| module | source file |
|---|---|
| `Auth01` | `0x01-Basic_authentication/api/v1/auth/auth.py` |
| `App01` | `0x01-Basic_authentication/api/v1/app.py` |
| `Auth02` | `0x02-Session_authentication/api/v1/auth/auth.py` |
| `BasicAuth` | `0x02-Session_authentication/api/v1/auth/basic_auth.py` |
| `SessionAuth` | `0x02-Session_authentication/api/v1/auth/session_auth.py` |
| `SessionExpAuth` | `0x02-Session_authentication/api/v1/auth/session_exp_auth.py` |
| `SessionDBAuth` | `0x02-Session_authentication/api/v1/auth/session_db_auth.py` |
| `UserDB` | `0x03-user_authentication_service/db.py` |
| `UserAuthService` | `0x03-user_authentication_service/auth.py` |
| `FilteredLogger` | `0x00-personal_data/filtered_logger.py` |

`PolicyCompare` relates the two `require_auth` rules. `Values`, `Strings` and
`Http` hold the shared vocabulary:

- Python's `None` becomes `Option`.
- An argument whose type the code checks at run time is an `Arg`: `Null`,
  `Text(s)` or `Other`.
- A raised exception is `Raise(exc)` in `Py<T> = Ret(value) | Raise(exc)`.
- A request is its path, headers and cookies.

## Form of the model

- **Pure code becomes functions.** The `require_auth` rules, the header and
  cookie accessors, the `BasicAuth` stages and `before_request` are functions
  over values, with lemmas about them.
- **State that the source changes in place becomes classes.**
  - The shared session dictionary is one `SessionTable` object.
    `SessionAuth`, `SessionExpAuth` and `SessionDBAuth` hold it by
    reference.
  - Inheritance is composition: `SessionExpAuth.base` and
    `SessionDBAuth.exp`.
  - The `UserSession` records are a `UserSessionStore`.
  - The `users` table is the `DB` class.
  - The 0x03 `Auth` owns a `DB`.

  Methods that write carry `modifies` and state the whole new state.
- **Search loops become methods with loop invariants.** These are
  `find_user_by`, `update_user`, `SessionDBAuth.user_id_for_session_id` and
  the `filter_datum` field loop. Each is proved equal to a recursive function
  (`FindBy`, `ApplyUpdates`, `RecordedUser`, `FilterAll`). The properties are
  proved about those functions.
- **External pieces become parameters:**
  - `uuid4()` is `newId` or `newToken`.
  - `datetime.now()` is `now`, an integer count of microseconds.
  - `SESSION_DURATION` is the outcome of `int(...)`, as an `Option<int>`.
  - bcrypt is a `hashpw(password, salt)` / `checkpw(password, stored)` pair.
  - base64 and UTF-8 decoding are partial functions.
  - `User.search`, `User.get` and `is_valid_password` are functions.

Some behaviour of the code a reader may not expect, kept in the model:

- **Expiry boundary.** A `SessionExpAuth` session is still valid at the
  instant `created_at + session_duration` and expires one microsecond later
  (`window < now`). This is `ValidWithinWindow`.
- **Duration 0.** A duration of 0, which is also what a missing or invalid
  `SESSION_DURATION` gives, does not mean "no limit". The session is valid
  only up to the instant it was created (`ZeroDurationExpiresAtOnce`).
- **Invalid UTF-8.** A Basic token whose bytes are not valid UTF-8 raises
  `UnicodeDecodeError` out of `decode_base64_authorization_header`. It is
  not treated as a missing header (`DecodeBase64AuthorizationHeader`).
- **0x01 exemption rule.** The 0x01 rule exempts a path that is a *prefix*
  of an excluded entry. For example `/api` is exempt because
  `/api/v1/status/` is listed (`PrefixOfEntryExempt`, `ApiRootExempt`).
- **0x02 exemption rule.** The 0x02 rule does not exempt a path listed
  verbatim without a trailing `/` (`VerbatimPathNotExempt`).
- **`current_user` under `SessionExpAuth`.** `SessionExpAuth` inherits
  `current_user`, which reads the dictionary directly. It does no expiry
  check and hands `User.get` the stored `{"user_id", "created_at"}` value.
  `SessionAuth.SessionAuth.CurrentUser` passes the raw `Entry` to its
  `userGet` parameter for the same reason.
- **Logout under `SessionDBAuth`.** `destroy_session` removes only the first
  `UserSession` record and leaves the dictionary entry.
- **`update_password(None, ...)`.** `find_user_by(reset_token=None)` matches
  the first user that has no reset token, so this call resets that user's
  password (`UserAuthService.Auth.UpdatePassword`).

## Model

| member | source | states |
|---|---|---|
| Auth01.RequireAuth | 0x01-Basic_authentication/api/v1/auth/auth.py:23-24 | a missing path, a missing exclusion list or an empty one always requires authentication |
| Auth01.ScanExcluded | 0x01-Basic_authentication/api/v1/auth/auth.py:30-37 | the exclusion loop returns early only when some entry exempts the path; `ScanExcludedIff` gives the converse |
| Auth01.ScanExcludedIff | 0x01-Basic_authentication/api/v1/auth/auth.py:30-37 | the exclusion loop returns early exactly when some entry is a prefix of the path, has the path as prefix, or is a `*` wildcard whose stem is a prefix of the path |
| Auth01.RequireAuthExempt | 0x01-Basic_authentication/api/v1/auth/auth.py:23-40 | for a non-empty list: a path ending in `/` is exempt iff listed verbatim; any other path is exempt iff some entry exempts it |
| Auth01.SlashSuffixSubsumed | 0x01-Basic_authentication/api/v1/auth/auth.py:38-39 | the final `path + "/"` test never decides: whenever it would succeed, the loop has already returned |
| Auth01.SlashPathIgnoresWildcard | 0x01-Basic_authentication/api/v1/auth/auth.py:26-28 | `/a/b/` with `["/a/*"]` requires authentication: wildcards are not consulted for a trailing-`/` path |
| Auth01.PrefixOfEntryExempt | 0x01-Basic_authentication/api/v1/auth/auth.py:30-32 | a path that is a prefix of an entry is exempt (`/api` given `/api/v1/status/`) |
| Auth01.AuthorizationHeader | 0x01-Basic_authentication/api/v1/auth/auth.py:53-60 | `None` for a missing request or header, otherwise the raw `Authorization` value unchanged |
| Auth01.CurrentUser | 0x01-Basic_authentication/api/v1/auth/auth.py:62-64 | always `None` |
| App01.BeforeRequest | 0x01-Basic_authentication/api/v1/app.py:42-56 | `before_request` aborts only with 401 or 403 |
| App01.GateOutcomes | 0x01-Basic_authentication/api/v1/app.py:51-56 | 401 iff guarded and no header; 403 iff guarded, header present and no user; through iff unguarded or header and user both present |
| App01.NoForbiddenWithoutHeader | 0x01-Basic_authentication/api/v1/app.py:53-56 | a request without `Authorization` is never refused with 403 |
| App01.OpenPagesExempt | 0x01-Basic_authentication/api/v1/app.py:46-52 | the status, unauthorized and forbidden pages are open, with and without their trailing `/` |
| App01.ApiRootExempt | 0x01-Basic_authentication/api/v1/app.py:46-52 | `/api` itself is open, being a prefix of a listed page |
| Auth02.RequireAuth | 0x02-Session_authentication/api/v1/auth/auth.py:24-25 | a missing path, a missing exclusion list or an empty one always requires authentication |
| Auth02.ScanWildcards | 0x02-Session_authentication/api/v1/auth/auth.py:31-34 | the wildcard loop returns early only when some `*` entry's stem is a prefix of the path; `ScanWildcardsIff` gives the converse |
| Auth02.ScanWildcardsIff | 0x02-Session_authentication/api/v1/auth/auth.py:31-34 | the wildcard loop returns early exactly when some `*` entry's stem is a prefix of the path |
| Auth02.RequireAuthExempt | 0x02-Session_authentication/api/v1/auth/auth.py:24-37 | for a non-empty list, exempt iff: a trailing-`/` path is listed, or a wildcard matches, or `path + "/"` is listed |
| Auth02.StarExemptsEverything | 0x02-Session_authentication/api/v1/auth/auth.py:31-34 | a lone `*` entry exempts every path |
| Auth02.VerbatimPathNotExempt | 0x02-Session_authentication/api/v1/auth/auth.py:27-37 | `/a` listed verbatim without trailing `/` still requires authentication |
| Auth02.AuthorizationHeader | 0x02-Session_authentication/api/v1/auth/auth.py:50-57 | `None` for a missing request or header, otherwise the raw `Authorization` value |
| Auth02.CurrentUser | 0x02-Session_authentication/api/v1/auth/auth.py:59-61 | always `None` |
| Auth02.SessionCookie | 0x02-Session_authentication/api/v1/auth/auth.py:69-71 | the cookie named by `SESSION_NAME` when request, setting and cookie are all present, `None` otherwise |
| PolicyCompare.NoSlashV2ExemptImpliesV1Exempt | 0x02-Session_authentication/api/v1/auth/auth.py:31-36 | on paths without trailing `/`, every path the 0x02 rule exempts the 0x01 rule exempts too |
| PolicyCompare.SlashV1ExemptImpliesV2Exempt | 0x02-Session_authentication/api/v1/auth/auth.py:27-29 | on paths with trailing `/`, every path the 0x01 rule exempts the 0x02 rule exempts too |
| PolicyCompare.VerbatimPathDiffers | 0x02-Session_authentication/api/v1/auth/auth.py:31-37 | `/a` with `["/a"]` is exempt under 0x01 and guarded under 0x02 |
| PolicyCompare.WildcardUnderSlashDiffers | 0x02-Session_authentication/api/v1/auth/auth.py:27-34 | `/a/b/` with `["/a/*"]` is guarded under 0x01 and exempt under 0x02 |
| BasicAuth.ExtractBase64AuthorizationHeader | 0x02-Session_authentication/api/v1/auth/basic_auth.py:26-33 | a result exactly for a string header starting with `"Basic "` |
| Strings.RemoveAll | 0x02-Session_authentication/api/v1/auth/basic_auth.py:33 | `str.replace(pat, "")`: removal adds no character the string did not hold; its meaning is stated by `RemoveAllAbsent`, `RemoveAllLeading`, `RemoveAllKeepsPrefix` and `RemoveAllShrinks` |
| Strings.RemoveAllAbsent | 0x02-Session_authentication/api/v1/auth/basic_auth.py:33 | removing a pattern that does not occur leaves the string unchanged |
| Strings.RemoveAllLeading | 0x02-Session_authentication/api/v1/auth/basic_auth.py:33 | a leading occurrence is dropped and removal goes on with the rest |
| Strings.RemoveAllKeepsPrefix | 0x02-Session_authentication/api/v1/auth/basic_auth.py:33 | text in which no occurrence starts is kept in order and removal goes on after it, so every occurrence, wherever it lies, is removed and the text around it kept |
| Strings.RemoveAllMiddleExample | 0x02-Session_authentication/api/v1/auth/basic_auth.py:33 | `"xBasic y"` becomes `"xy"` |
| Strings.RemoveAllShrinks | 0x02-Session_authentication/api/v1/auth/basic_auth.py:33 | removal never makes the string longer |
| BasicAuth.ExtractToken | 0x02-Session_authentication/api/v1/auth/basic_auth.py:33 | `"Basic " + t` gives back `t` when `t` holds no further `"Basic "` |
| BasicAuth.ExtractShrinks | 0x02-Session_authentication/api/v1/auth/basic_auth.py:33 | the token is never longer than the header after its prefix |
| BasicAuth.DecodeBase64AuthorizationHeader | 0x02-Session_authentication/api/v1/auth/basic_auth.py:47-56 | `None` for a missing or non-string token or a base64 failure; `UnicodeDecodeError` exactly when the bytes are not UTF-8; otherwise the decoded text |
| BasicAuth.ExtractUserCredentials | 0x02-Session_authentication/api/v1/auth/basic_auth.py:70-78 | credentials exactly for a string with a `:`; the email has no `:` and `email + ":" + password` is the input |
| Strings.IndexOf | 0x02-Session_authentication/api/v1/auth/basic_auth.py:76 | the first `:` of the string: it is there and none comes before it |
| BasicAuth.CredentialsRoundTrip | 0x02-Session_authentication/api/v1/auth/basic_auth.py:76-77 | splitting `email + ":" + password` gives both back for a colon-free email, colons in the password kept |
| BasicAuth.FirstValid | 0x02-Session_authentication/api/v1/auth/basic_auth.py:103-106 | the first user whose password is valid, and none exactly when no user's password is valid |
| BasicAuth.UserObjectFromCredentials | 0x02-Session_authentication/api/v1/auth/basic_auth.py:94-108 | a user only for string credentials and a successful search; it is the first found with a valid password, and one is returned whenever any found user's password is valid |
| BasicAuth.CurrentUser | 0x02-Session_authentication/api/v1/auth/basic_auth.py:110-117 | the five stages composed: only `UnicodeDecodeError` escapes, and a user is found only under a header starting with `"Basic "` |
| BasicAuth.NoHeaderNoUser | 0x02-Session_authentication/api/v1/auth/basic_auth.py:110-117 | no `Authorization` header, no user |
| BasicAuth.CurrentUserEndToEnd | 0x02-Session_authentication/api/v1/auth/basic_auth.py:110-117 | a well-formed Basic header resolves to the first searched user whose password verifies, and to none when none does |
| BasicAuth.SearchFailureIsNoUser | 0x02-Session_authentication/api/v1/auth/basic_auth.py:99-108 | when the user search raises, nobody is authenticated |
| SessionAuth.SessionAuth.CreateSession | 0x02-Session_authentication/api/v1/auth/session_auth.py:15-30 | nothing for a missing or non-string user id; otherwise the new id maps to the user id in the shared dictionary and resolves to it |
| SessionAuth.SessionAuth.UserIdForSessionId | 0x02-Session_authentication/api/v1/auth/session_auth.py:32-45 | the stored value exactly when the id is a string key of the dictionary |
| SessionAuth.SessionAuth.CurrentUser | 0x02-Session_authentication/api/v1/auth/session_auth.py:47-57 | no user without a cookie; otherwise `User.get` of the raw stored value |
| SessionAuth.SessionAuth.DestroySession | 0x02-Session_authentication/api/v1/auth/session_auth.py:59-71 | true exactly when the cookie names a stored session, which is then removed and no longer resolves; otherwise nothing changes |
| SessionAuth.SharedAcrossInstances | 0x02-Session_authentication/api/v1/auth/session_auth.py:13 | a session created through one auth object is seen through another: the dictionary is shared |
| SessionExpAuth.ExpiringLookup | 0x02-Session_authentication/api/v1/auth/session_exp_auth.py:33-49 | raises exactly for a bare user id (no `.get`); nothing for a missing entry or a `created_at` of `None`; the user id for a `created_at` of `0`; a returned user id is the stored one |
| SessionExpAuth.ValidWithinWindow | 0x02-Session_authentication/api/v1/auth/session_exp_auth.py:46-49 | a session stamped at `t` is valid exactly while `now <= t + duration` |
| SessionExpAuth.ZeroDurationExpiresAtOnce | 0x02-Session_authentication/api/v1/auth/session_exp_auth.py:46-49 | with duration 0 a session is valid only up to its creation instant |
| SessionExpAuth.ExpiryIsMonotone | 0x02-Session_authentication/api/v1/auth/session_exp_auth.py:40-49 | once a lookup finds nothing, every later lookup of the same value finds nothing |
| SessionExpAuth.DurationSetting | 0x02-Session_authentication/api/v1/auth/session_exp_auth.py:14-17 | the parsed `SESSION_DURATION`, or 0 when it is missing or not an integer |
| SessionExpAuth.SessionExpAuth.constructor | 0x02-Session_authentication/api/v1/auth/session_exp_auth.py:12-17 | the duration is fixed at construction from the setting |
| SessionExpAuth.SessionExpAuth.CreateSession | 0x02-Session_authentication/api/v1/auth/session_exp_auth.py:19-31 | the parent's id, whose value becomes the user id stamped with `now`; with a non-negative duration it resolves at once |
| SessionExpAuth.SessionExpAuth.UserIdForSessionId | 0x02-Session_authentication/api/v1/auth/session_exp_auth.py:33-49 | `None` for a non-string id, otherwise the expiring lookup of the stored value |
| SessionExpAuth.SessionExpAuth.DestroySession | 0x02-Session_authentication/api/v1/auth/session_auth.py:59-71 | the inherited logout through the expiring lookup: `False` with no change when it finds nothing (no request, no cookie, expired, unknown), and an expired session stays stored; a bare user id raises; otherwise `True` and the cookie's entry is removed |
| SessionDBAuth.FirstRecord | 0x02-Session_authentication/api/v1/auth/session_db_auth.py:27-30 | the first record of a session id, and none exactly when no record has it |
| SessionDBAuth.RecordedUser | 0x02-Session_authentication/api/v1/auth/session_db_auth.py:27-31 | a user is found only from a stored record of that session, and nothing only when no record has the session id; `RecordedAfterAppend` and `GoneAfterRemove` state its meaning after a save and a removal |
| SessionDBAuth.RemoveAt | 0x02-Session_authentication/api/v1/auth/session_db_auth.py:43 | removing one record keeps the others in order |
| SessionDBAuth.RecordedAfterAppend | 0x02-Session_authentication/api/v1/auth/session_db_auth.py:18-19 | a record saved for a new session id is what a lookup of that id finds |
| SessionDBAuth.GoneAfterRemove | 0x02-Session_authentication/api/v1/auth/session_db_auth.py:41-44 | after its only record is removed, a session id finds no user |
| SessionDBAuth.SessionDBAuth.CreateSession | 0x02-Session_authentication/api/v1/auth/session_db_auth.py:10-20 | the parent writes the dictionary; a record is saved and the id returned only for a non-empty id; a fresh id then resolves to the user |
| SessionDBAuth.SessionDBAuth.UserIdForSessionId | 0x02-Session_authentication/api/v1/auth/session_db_auth.py:22-31 | the user of the first record of the session, with no expiry test |
| SessionDBAuth.SessionDBAuth.DestroySession | 0x02-Session_authentication/api/v1/auth/session_db_auth.py:33-45 | true exactly when the cookie's session has a record; then the first such record is removed and nothing else changes |
| UserDB.FieldOf | 0x03-user_authentication_service/db.py:66-68 | the five column names and only those name a column |
| UserDB.Set | 0x03-user_authentication_service/db.py:82-83 | `setattr` sets the named column and leaves every other column as it was |
| UserDB.FirstRowWith | 0x03-user_authentication_service/db.py:69-71 | the first row holding the value in the column, and none exactly when no row does |
| UserDB.FindBy | 0x03-user_authentication_service/db.py:65-72 | a found index is a row of the table; the only exceptions are `NoResultFound` and `InvalidRequestError` |
| UserDB.FindByNoResult | 0x03-user_authentication_service/db.py:66-72 | `NoResultFound` exactly when every keyword names a column and matches no row, in particular for no keywords |
| UserDB.FindByDecidedAt | 0x03-user_authentication_service/db.py:66-71 | once the keywords before `k` have missed, keyword `k` decides: unknown column raises, a match returns the first row, a miss passes on |
| UserDB.FindByOne | 0x03-user_authentication_service/db.py:66-72 | one column keyword finds the first row holding its value, else `NoResultFound` |
| UserDB.ApplyUpdates | 0x03-user_authentication_service/db.py:81-85 | the `setattr` loop of `update_user` raises nothing but `ValueError`; `ApplyUpdatesFrame`, `ApplyUpdatesSets` and `ApplyUpdatesStopsAt` state its meaning, including the writes that stay made when it raises |
| UserDB.ApplyUpdatesFrame | 0x03-user_authentication_service/db.py:81-85 | the update succeeds exactly when every keyword names a column, fails only with `ValueError`, and a column no keyword names keeps its value |
| UserDB.ApplyUpdatesSets | 0x03-user_authentication_service/db.py:81-85 | a column keyword that no later keyword names again ends up holding its value, provided every keyword up to it names a column; a later keyword that raises does not undo it |
| UserDB.ApplyUpdatesStopsAt | 0x03-user_authentication_service/db.py:81-85 | the first keyword naming no column raises `ValueError`, and the user then holds exactly the writes of the keywords before it |
| UserDB.PartialWriteExample | 0x03-user_authentication_service/db.py:81-85 | `email="x", bogus=None`: `ValueError`, with the email already written |
| UserDB.NextId | 0x03-user_authentication_service/db.py:46-48 | the id the next row gets is positive and larger than every integer id in the table |
| UserDB.NextIdSequential | 0x03-user_authentication_service/db.py:46-48 | on a table numbered 1, 2, ... the next id is its length plus one |
| UserDB.FirstRowWithAppend | 0x03-user_authentication_service/db.py:46-49 | an added row with a value no earlier row holds is the row that value finds |
| UserDB.SequentialIdFinds | 0x03-user_authentication_service/db.py:77 | on a table numbered in order, id `i + 1` finds row `i` |
| UserDB.DB.constructor | 0x03-user_authentication_service/db.py:18-24 | the table starts empty |
| UserDB.DB.AddUser | 0x03-user_authentication_service/db.py:35-49 | appends one row with the next id, the email and hash, no session and no token, and returns it |
| UserDB.DB.FindUserBy | 0x03-user_authentication_service/db.py:51-72 | the nested search loop returns exactly what `FindBy` specifies |
| UserDB.DB.UpdateUser | 0x03-user_authentication_service/db.py:74-87 | `ValueError` and no change for an unknown id; otherwise the `setattr` loop on the first row with that id, every other row untouched |
| UserAuthService.RowIdFindsRow | 0x03-user_authentication_service/auth.py:96 | the found user's own id finds that same row again |
| UserAuthService.SetKeepsIds | 0x03-user_authentication_service/auth.py:96 | writing a column other than `id` keeps the table numbered in order |
| UserAuthService.WrittenValueFindsRow | 0x03-user_authentication_service/auth.py:95-97 | a value no row held, written to one row, finds that row |
| UserAuthService.SameColumnSameFind | 0x03-user_authentication_service/auth.py:158-162 | rewriting a row without touching column `f` changes no lookup on `f`: a reset keeps the email lookup |
| UserAuthService.ClearedValueFails | 0x03-user_authentication_service/auth.py:117-123 | once the only row holding a value has it cleared to `None`, the value matches no row |
| UserAuthService.ConsumedTokenFails | 0x03-user_authentication_service/auth.py:152-162 | after a reset, a token only the reset row held matches no row |
| UserAuthService.Auth.constructor | 0x03-user_authentication_service/auth.py:34-35 | a fresh, empty database |
| UserAuthService.Auth.RegisterUser | 0x03-user_authentication_service/auth.py:37-58 | `ValueError` and no change for a known email; otherwise one new row with the hashed password, which the email then finds |
| UserAuthService.Auth.ValidLogin | 0x03-user_authentication_service/auth.py:60-78 | false for an unknown email, otherwise bcrypt's verdict on the first row with that email |
| UserAuthService.Auth.CreateSession | 0x03-user_authentication_service/auth.py:80-97 | `None` and no change for an unknown email; otherwise the new id is written to that row and returned |
| UserAuthService.Auth.GetUserFromSessionId | 0x03-user_authentication_service/auth.py:99-115 | no user for a missing id or one no row holds, otherwise the first row holding it |
| UserAuthService.Auth.DestroySession | 0x03-user_authentication_service/auth.py:117-123 | nothing for `None`, `ValueError` for an unknown id, otherwise that row's session cleared |
| UserAuthService.Auth.GetResetPasswordToken | 0x03-user_authentication_service/auth.py:125-142 | `ValueError` for an unknown email; otherwise the new token is written to that row and returned |
| UserAuthService.Auth.UpdatePassword | 0x03-user_authentication_service/auth.py:144-162 | `ValueError` when no row holds the token; otherwise that row gets the new hash and loses its token |
| UserAuthService.RegisterThenLogin | 0x03-user_authentication_service/auth.py:37-78 | a newly registered user logs in with their password |
| UserAuthService.CreateThenResolve | 0x03-user_authentication_service/auth.py:80-115 | a fresh session id resolves to the row of the email it was created for |
| UserAuthService.CreateThenDestroy | 0x03-user_authentication_service/auth.py:80-123 | a fresh session id, once destroyed through its user's id, resolves to no user |
| UserAuthService.ResetTokenSingleUse | 0x03-user_authentication_service/auth.py:125-162 | a reset token works once, and the new password then logs in |
| FilteredLogger.LazyEnd | 0x00-personal_data/filtered_logger.py:34 | the lazy `.*?` stops at the nearest separator reachable without crossing a newline, and at none when a newline or the end comes first |
| FilteredLogger.MatchEnd | 0x00-personal_data/filtered_logger.py:34 | a match at the head exactly when the line starts with `field=` and the lazy scan finds a separator; it ends right after that separator |
| FilteredLogger.SubNoKey | 0x00-personal_data/filtered_logger.py:34 | a line without `field=` is unchanged by that field's pass |
| FilteredLogger.SubCopiesHead | 0x00-personal_data/filtered_logger.py:34 | where no match starts (no `field=`, or no separator reachable after it), one character is copied and the scan moves on |
| FilteredLogger.NoSeparatorNoMatch | 0x00-personal_data/filtered_logger.py:34 | with no separator from where a value would begin, no match starts |
| FilteredLogger.SubNoSeparator | 0x00-personal_data/filtered_logger.py:34 | a line that starts with `field=` (or with other text no longer than it) and has no separator from index `m` on, with `m` at most the length of `field=`, is unchanged, even with separators before `m`; for a key further into the line, combine with `SubKeepsPrefix` |
| FilteredLogger.NewlineBeforeSeparator | 0x00-personal_data/filtered_logger.py:34 | a `field=` whose next separator lies beyond a newline is not matched and the scan moves on by one |
| FilteredLogger.SubKeepsPrefix | 0x00-personal_data/filtered_logger.py:34 | text before the first `field=` is kept, in order |
| FilteredLogger.SubRedactsValue | 0x00-personal_data/filtered_logger.py:33-34 | `field=v<sep>`, with `v` free of newlines and earlier separators, becomes `field=<redaction><sep>` and the scan goes on after it |
| FilteredLogger.Sub | 0x00-personal_data/filtered_logger.py:34 | one `re.sub` pass adds no character that is not in the line or the redaction; its meaning is stated by the `Sub...` lemmas above |
| FilteredLogger.FilterAll | 0x00-personal_data/filtered_logger.py:32-35 | the passes of the fields, in list order, add no character that is not in the message or the redaction; its meaning is stated by `FilterAllAppend` and `FilterAllNoKeys` |
| FilteredLogger.FilterAllAppend | 0x00-personal_data/filtered_logger.py:32-34 | the fields are applied in list order, each pass to the previous one's output |
| FilteredLogger.FilterAllNoKeys | 0x00-personal_data/filtered_logger.py:32-35 | a field list none of whose keys occurs (the empty list in particular) leaves the message unchanged |
| FilteredLogger.FilterDatum | 0x00-personal_data/filtered_logger.py:15-35 | the loop returns the fold `FilterAll` of the passes over the fields |

## Left out

- The Flask plumbing is not modelled: route handlers in both APIs, error handlers, CORS, blueprints, `app.run` and the `AUTH_TYPE` selection. `before_request` takes whether `auth` is set as a flag.
- The 0x01 `BasicAuth` is not part of this model. `before_request` takes its `current_user` as a parameter.
- 0x03 `user.py` is not part of this model. The `users` table has the five columns `id`, `email`, `hashed_password`, `session_id` and `reset_token`. `find_user_by` and `update_user` accept exactly those names. The source also accepts any other attribute of the `User` class, such as `__tablename__`, and the model does not.
- Header names are matched exactly. Flask's header lookup ignores case.
- `SESSION_NAME` is fixed for each auth object. The source reads it on every `session_cookie` call.
- Base64 and UTF-8 decoding are abstract partial functions. Python's lenient `b64decode` is not modelled.
- bcrypt is an abstract `hashpw`/`checkpw` pair with salts. The only property assumed is that a password checks against its own hashes, where a lemma needs it. Timing is not modelled.
- `uuid4()` and `datetime.now()` are parameters. Fresh ids are assumed only where a property needs them.
- `datetime` overflow is not modelled. A huge `SESSION_DURATION` makes `timedelta` raise `OverflowError`, while the model's times are unbounded integers.
- `User.get`, `User.search`, `is_valid_password`, `UserSession.search`, `save` and `remove` are parameters or a record sequence. Their storage and file persistence are not modelled.
- A non-string session id finds no entry. The source raises `TypeError` for an unhashable one, which is not modelled.
- The SQLAlchemy session, commit and the SQLite file are not modelled. Ids are assigned as SQLite assigns rowids: one more than the largest id, and 1 for an empty table.
- `UserAuthService.Auth.RegisterUser`, `CreateSession`, `DestroySession`, `GetResetPasswordToken` and `UpdatePassword` require the ids to be numbered 1, 2, ... in row order. That is what `add_user` produces, and no `Auth` operation writes the `id` column. A table whose ids were changed through `DB.update_user` directly is outside this invariant.
- `filter_datum` treats the field names and the separator literally, so regex metacharacters in them are not modelled. Backslash escapes in the redaction string are not processed as `re.sub` would.
- `RedactingFormatter`, `get_logger`, `get_db` and `main` of the logger are not modelled: they are logging and database I/O.
- Concurrent access to the shared session dictionary is not modelled. The code has no locking, and the model is sequential.
