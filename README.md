# User services of a CRUD tutorial repository, modelled in Dafny

The repository holds several small web services that store users. This project models their
sequential core and proves properties of it:

- **The enhanced Flask service** (`rest_api/app_enhanced.py`). It has a SQLite `user` table with
  soft deletion and validates its input (the e-mail regex, the accumulated field errors and the
  password rule). It also handles registration, login and API keys, the paginated listing of
  active users, and the create, get, update and delete routes. Each route is a decision function
  (`EnhancedApi.RegisterOutcome`, `EnhancedApi.LoginOutcome`, …). The routes that write are also
  methods of the class `EnhancedApi.UserTable`. Each method updates `rows` and `count` in place
  and is proved to give that function's answer and to keep the table's invariant. The invariant
  is that ids run 1..count and that e-mails and API keys are unique.
- **The in-memory Flask service** (`rest_api/app.py`): a dict mutated in place, as the class
  `FlaskMemoryApi.UserStore`. One property is proved about it: when a new id `len(users) + 1` is
  still taken after a deletion, creating a user overwrites that entry.
- **The in-memory FastAPI service** (`fast_api/main2.py`), as the class `FastApiMemory.UserStore`.
- **The FastAPI mini project's `UserCRUD`** (`fast_api/mini_project/app/database/crud.py`). It
  has hard deletes, updates of exactly the fields the client set, and lookups that ignore
  `is_active`. It is modelled as the class `Crud.Database` together with decision functions.
- **The mini project's current-user dependencies and `/users` router guards**
  (`auth/dependencies.py`, `routers/users.py`). The dependencies resolve the user or answer 401
  or 400. The router answers 403 for a foreign id, 404 for a miss, 422 for an out-of-range
  query, and 500 for a row that no longer fits the `UserResponse` schema.

Python semantics that matter for the answers are written out:

- truthiness of JSON values;
- `re.match`, whose `$` also matches before a final newline;
- `str.strip()` over Python's whitespace set, and `lower()` on ASCII letters;
- SQLite's ascending-rowid order for `.first()`, `paginate` and `OFFSET/LIMIT`.

Password hashing and checking, token verification, random API keys and the clock are
uninterpreted. They are passed in as function-valued fields or parameters (`hash`,
`checkPassword`, `verifyPassword`, the token `subject`, `freshKey`, `now`).

Where the services' documented intent and their code disagree, the model follows the code:

- **Case-variant e-mails at registration.** An address that differs from a stored one only by
  case or surrounding whitespace passes the duplicate pre-check, because the pre-check compares
  the raw address. The insert then violates the unique constraint, and the blanket `except`
  answers 500, not a duplicate-e-mail error (`EnhancedApi.RegisterServerErrorIff`).
  The same holds for `create_user` and for updates.
- **Inactive users in the mini project.** An inactive user gets 400 "Inactive user", not 403.
- **No ownership checks in the Flask service.** `PUT` and `DELETE` on `/users/<id>` do not check
  ownership. Only the mini project's router enforces self-only writes.
- **Hard deletes in the mini project.** `UserCRUD` deletes rows physically, so a deleted e-mail is
  free again. Only the Flask service soft-deletes.
- **Update conflicts in the mini project.** A unique-e-mail conflict on update is not caught by
  `UserCRUD.update_user`, so the router answers 500.
- **Null fields in the mini project.** An update may set `name`, `email` or `is_active` to
  null. The row is written (the columns are taken to be nullable), and every later response
  that carries it fails response validation with 500.
- **Non-string fields in the Flask service.** Validation measures a name with `len`, so a list
  or dict name is checked by its item count and can draw the 422 length messages.
  - Registration answers 500 when a password is null, a boolean or a number, because `len`
    raises before the 422 check.
  - Once validation and the raw-e-mail pre-check pass, registration and `create_user` answer
    500 for a list or dict name, which has no `strip`. Registration also answers 500 for a list
    or dict password, which cannot be hashed.
  - At login, a falsy e-mail or password of any type gets 400. A truthy non-string e-mail gets
    500. A non-string password gets 401 when no active row has the e-mail, and 500 otherwise.
  - At update, a falsy non-string name or e-mail, or a list or dict name, gets past validation
    and then makes `strip` raise: 500.
- **Unreachable 404s in the mini project's router.** The 404 branches of update and delete cannot
  be reached: the caller's own row always exists (`UsersRouter.OwnRowIsNeverMissing`).

## Model

| member | source | states |
|---|---|---|
| Text.Strip | rest_api/app_enhanced.py:231-232 | `strip()` leaves the infix after the leading whitespace, with whitespace only after it and no whitespace at either end of the result |
| Text.StripTrimmed | rest_api/app_enhanced.py:231-232 | stripping a string with no whitespace at its ends returns it unchanged |
| Text.Lower | rest_api/app_enhanced.py:232 | `lower()` keeps the length, leaves no upper-case ASCII letter, keeps every other character and shifts each upper-case letter by 32 |
| Text.LowerIdempotent | rest_api/app_enhanced.py:232 | lower-casing twice equals lower-casing once |
| JsonValues.Len | rest_api/app_enhanced.py:217-218 | `len` is defined exactly for strings, lists and dicts, gives a string its character count and a list or dict its item count, and is 0 exactly for the falsy ones |
| Validation.SplitIsUnique | rest_api/app_enhanced.py:93 | a split L@D.T of the pattern can only sit at the first `@` and the last `.` |
| Validation.MatchesEmailIffShape | rest_api/app_enhanced.py:93-94 | the check at the first `@` and last `.` holds exactly when some split L@D.T of the whole string exists |
| Validation.ValidateEmail | rest_api/app_enhanced.py:91-94 | true exactly for the strings of the form L@D.T (L local characters, D domain characters, T two or more letters to the end), or such a string followed by one newline |
| Validation.TrailingNewlineAccepted | rest_api/app_enhanced.py:94 | a valid address followed by "\n" is accepted |
| Validation.RequiredErrors | rest_api/app_enhanced.py:104-106 | at most one message per required field; no message exactly when every required field is present and truthy |
| Validation.RequiredErrorsConcat | rest_api/app_enhanced.py:104-106 | the messages follow the order of `required_fields`: those for a list split in two are those of its first part followed by those of its second |
| Validation.BothMissingInFieldOrder | rest_api/app_enhanced.py:98-106 | with name and e-mail both missing, the default list gives "name is required" then "email is required" |
| Validation.RequiredErrorsExact | rest_api/app_enhanced.py:104-106 | "<f> is required" is reported exactly when f is required and absent or falsy |
| Validation.FieldErrors | rest_api/app_enhanced.py:108-118 | one message per failing check; each message appears exactly when its condition holds, the name measured by `len` (characters of a string, items of a list or dict); the e-mail message comes first |
| Validation.ValidateUserData | rest_api/app_enhanced.py:96-120 | the required-field messages come first, then the format and length messages; the list is empty exactly when the payload is acceptable |
| Validation.NameLengthBoundaries | rest_api/app_enhanced.py:114-118 | a name alone passes exactly when it is empty or has 2 to 100 characters |
| Validation.RegistrationErrors | rest_api/app_enhanced.py:213-219 | for a password whose `len` is defined: no error exactly when the payload is acceptable with name, e-mail and password required and the password length is not below 6 |
| Validation.RegistrationErrorsLayout | rest_api/app_enhanced.py:214-219 | the errors of `validate_user_data` come first, followed by exactly the password message when a present password is shorter than 6 and by nothing otherwise |
| Validation.EmptyPasswordReportedTwice | rest_api/app_enhanced.py:213-219 | an empty password ("", [] or {}) yields both "password is required" and the at-least-6 message |
| Rows.FirstMatch | rest_api/app_enhanced.py:163 | `.first()` of a filter: the smallest matching id, and None exactly when no row matches |
| Rows.RowsBetween | fast_api/mini_project/app/database/crud.py:45 | the rows in ascending id order, each at its own id |
| Pagination.PaginationError | rest_api/app_enhanced.py:412-415 | no error exactly when page ≥ 1 and 1 ≤ per_page ≤ 100; page < 1 reports the page message; otherwise an out-of-range per_page reports the per-page message |
| Pagination.PageWindow | rest_api/app_enhanced.py:420-424 | at most per_page items, the ones starting at (page−1)·per_page; a page past the end is empty, not an error |
| Pagination.PageCount | rest_api/app_enhanced.py:431 | the number of pages is the ceiling of total / per_page, and 0 only for no items |
| Pagination.PageMeta | rest_api/app_enhanced.py:427-437 | `page`, `per_page`, `total` and `authenticated` are the given values; `pages`, `has_next`, `has_prev`, `next_page` and `prev_page` agree with the page count and the page number |
| Pagination.HasNextIffNextPageNonEmpty | rest_api/app_enhanced.py:432 | `has_next` holds exactly when the next page is not empty |
| Pagination.ItemOnItsPage | rest_api/app_enhanced.py:420-424 | the k-th item is shown on page k / per_page + 1 at position k mod per_page |
| Pagination.TwentyFiveAtTenPerPage | rest_api/app_enhanced.py:420-437 | 25 items at 10 per page give 3 pages, a full first page and an empty fourth page |
| EnhancedApi.ToDict | rest_api/app_enhanced.py:35-43 | the public dict has exactly id, name, email, created_at, updated_at and is_active, each holding the row's value, and never the password hash or the API key |
| EnhancedApi.EmailTaken | rest_api/app_enhanced.py:225-226 | the e-mail lookup finds a row exactly when some row, active or not, holds that e-mail |
| EnhancedApi.ActiveById | rest_api/app_enhanced.py:451-452 | `get(id)` with the inactive guard finds the row exactly when it exists and is active |
| EnhancedApi.InsertKeepsDense | rest_api/app_enhanced.py:236-237 | adding a row at count+1 keeps the ids exactly 1..count+1 |
| EnhancedApi.InsertedHoldsEmailAlone | rest_api/app_enhanced.py:28 | a row added with an unused e-mail is the only row holding it |
| EnhancedApi.InsertKeepsInvariant | rest_api/app_enhanced.py:28-30 | inserting at the next id with an unused e-mail and no key keeps ids dense and e-mails and keys unique |
| EnhancedApi.ReplaceKeepsInvariant | rest_api/app_enhanced.py:28-30 | rewriting a row keeps the invariant when its e-mail and key clash with no other row |
| EnhancedApi.ActiveUsers | rest_api/app_enhanced.py:418 | `filter_by(is_active=True)`: only active rows, each at its own id, in ascending id order |
| EnhancedApi.ActiveUsersComplete | rest_api/app_enhanced.py:418 | every active row is in the filtered list |
| EnhancedApi.NewRegisteredUser | rest_api/app_enhanced.py:230-234 | the new row has id count+1, is active, has no key, stores the stripped name, the lower-cased and stripped e-mail and the hash of the password, and is created and updated now |
| EnhancedApi.RegisterOutcome | rest_api/app_enhanced.py:204-252 | 400 for an empty body; 500 when `len` of the password raises; 422 with every validation error; 422 "Email already exists" when the raw e-mail is stored; 500 when, past those checks, the name or password is not a string or the normalised e-mail is stored; success exactly when none of these applies; every field of the new row |
| EnhancedApi.RegisterServerErrorIff | rest_api/app_enhanced.py:217-252 | registration answers 500 exactly when the password has no `len`, or when the payload is valid and the raw e-mail free but the name or password is not a string or the normalised e-mail is stored |
| EnhancedApi.ActiveByEmail | rest_api/app_enhanced.py:269 | the lowest-id active row with that e-mail; none exactly when no active row has it |
| EnhancedApi.LoginOutcome | rest_api/app_enhanced.py:254-291 | 400 for an empty body or a missing e-mail or password; 500 for a non-string e-mail; 401 "Invalid email or password" when no active row has the normalised e-mail or the password does not check; 500 for a NULL hash or a non-string password; success names an active row with the normalised e-mail whose hash the password checks against |
| EnhancedApi.LoginSucceedsIffCredentialsMatch | rest_api/app_enhanced.py:269-274 | with unique e-mails, login succeeds exactly when e-mail and password are strings and an active row with the normalised e-mail has a hash the password checks against |
| EnhancedApi.CheckApiKey | rest_api/app_enhanced.py:157-164 | a non-empty header yields the active row holding that key; none means no active row holds it |
| EnhancedApi.IssueApiKeyOutcome | rest_api/app_enhanced.py:293-320 | 404 for a missing or inactive identity; 500 "Failed to generate API key" when the row is active and another row already holds the fresh key; success, with the fresh key, exactly when the row is active and no other row holds that key |
| EnhancedApi.IssueApiKeyKeepsInvariant | rest_api/app_enhanced.py:305-308 | storing an issued key keeps the table invariant |
| EnhancedApi.NewApiKeyRevokesOld | rest_api/app_enhanced.py:305-306 | after a new key is issued, the new key identifies the row and the earlier key identifies nobody |
| EnhancedApi.GetOutcome | rest_api/app_enhanced.py:447-458 | success exactly for an active row, answering its public dict, which holds no password hash and no API key; otherwise 404 |
| EnhancedApi.Authenticated | rest_api/app_enhanced.py:393-405 | the listing is authenticated exactly when the JWT identity names a row or a non-empty API key belongs to an active row |
| EnhancedApi.ListOutcome | rest_api/app_enhanced.py:386-445 | 400 exactly on a pagination error; otherwise the page-th window of the active rows, with the page metadata of the active-row total and `authenticated` as `Authenticated` decides for the token identity and the API-key header |
| EnhancedApi.ListingShowsOnlyActiveRows | rest_api/app_enhanced.py:418-424 | a page holds at most per_page rows, all active, stored at their ids, by ascending id |
| EnhancedApi.EveryActiveUserIsListed | rest_api/app_enhanced.py:418-424 | every active row appears on some page |
| EnhancedApi.NewCreatedUser | rest_api/app_enhanced.py:480-483 | the created row has id count+1, is active, has no password hash and no key, stores the stripped name and the normalised e-mail, and is created and updated now |
| EnhancedApi.CreateOutcome | rest_api/app_enhanced.py:460-496 | as registration with name and e-mail required: 400; 422 with the errors; 422 "Email already exists" for a stored raw e-mail; 500 "Failed to create user" when, past those checks, the name is not a string or the normalised e-mail is stored; success exactly when none of these applies; every field of the new row |
| EnhancedApi.Patched | rest_api/app_enhanced.py:521-527 | only the name and e-mail present in the payload change (stripped, and lower-cased for the e-mail); id, hash, key, creation time and activity are kept |
| EnhancedApi.HeldByOther | rest_api/app_enhanced.py:28 | true exactly when a row other than the given id holds the e-mail |
| EnhancedApi.UpdateOutcome | rest_api/app_enhanced.py:498-537 | 404 for a missing or inactive row before anything else, whatever the body holds; 400 and 422 as validation says; "Email already exists" exactly when a differing string e-mail is stored as submitted; past those checks, 500 with the route's message when the name or e-mail is not a string or another row holds the patched e-mail; success exactly otherwise, with the patched row |
| EnhancedApi.DeleteOutcome | rest_api/app_enhanced.py:539-559 | success (204) exactly for an active row, otherwise 404 |
| EnhancedApi.LoginFindsInsertedRow | rest_api/app_enhanced.py:269-274 | a row just inserted, active, with a fresh e-mail and a matching hash, is the row that login finds |
| EnhancedApi.RegisterThenLogin | rest_api/app_enhanced.py:230-274 | whoever registers can log in with the same e-mail and password, and the token names the new row, provided the checker accepts what the hasher produced |
| EnhancedApi.SoftDeletedUserIsGone | rest_api/app_enhanced.py:547-550 | after a soft delete, get, delete, update and key issuance answer 404, listing and login never show the row, yet its e-mail stays taken and re-registering it is refused |
| EnhancedApi.UserTable.Register | rest_api/app_enhanced.py:204-252 | answers as `RegisterOutcome`; on success exactly the new row is added, otherwise the table is unchanged; the invariant is kept |
| EnhancedApi.UserTable.CreateUser | rest_api/app_enhanced.py:460-496 | answers as `CreateOutcome`; on success exactly the new row is added, otherwise nothing changes; the invariant is kept |
| EnhancedApi.UserTable.IssueApiKey | rest_api/app_enhanced.py:293-320 | answers as `IssueApiKeyOutcome`; on success the row's key is replaced, otherwise nothing changes |
| EnhancedApi.UserTable.UpdateUser | rest_api/app_enhanced.py:342-384 | `update_profile` and `update_user`: answer as `UpdateOutcome`; on success only that row is replaced, otherwise nothing changes; the invariant is kept |
| EnhancedApi.UserTable.DeleteUser | rest_api/app_enhanced.py:539-559 | answers as `DeleteOutcome`; on success the row is only marked inactive and stays in the table |
| FlaskMemoryApi.Status | rest_api/app.py:23-32 | 404 exactly for a miss, 201 exactly for a creation |
| FlaskMemoryApi.DenseSize | rest_api/app.py:30 | a dict whose ids are exactly 1..n holds n users |
| FlaskMemoryApi.CreateGrowsIffFresh | rest_api/app.py:30-31 | creating grows the dict by one exactly when `len(users)+1` is free; otherwise the size stays the same |
| FlaskMemoryApi.DeleteThenCreateOverwrites | rest_api/app.py:30-31 | after users 1..n and the deletion of one of 1..n−1, the next creation overwrites user n and the dict does not grow |
| FlaskMemoryApi.UserStore.GetUsers | rest_api/app.py:14-16 | the whole dict, unchanged |
| FlaskMemoryApi.UserStore.GetUser | rest_api/app.py:19-24 | 404 exactly when the id is absent or its value is falsy; otherwise the stored value |
| FlaskMemoryApi.UserStore.CreateUser | rest_api/app.py:27-32 | writes the body at `len(users)+1`, replacing what is there, and returns that id |
| FlaskMemoryApi.UserStore.UpdateUser | rest_api/app.py:35-41 | 404 and no change for an absent id; otherwise the whole value is replaced |
| FlaskMemoryApi.UserStore.DeleteUser | rest_api/app.py:44-49 | 404 and no change for an absent id; otherwise exactly that id is removed and its value returned |
| FastApiMemory.Status | fast_api/main2.py:19-42 | 400 exactly for a taken id at creation, 404 exactly for a miss |
| FastApiMemory.Detail | fast_api/main2.py:19-42 | a detail exactly for the error replies: "User ID already exists" with 400, "User not found" with 404 |
| FastApiMemory.CreateThenDeleteRestores | fast_api/main2.py:20-43 | inserting a fresh id grows the dict by one, and deleting it again restores the dict |
| FastApiMemory.UserStore.CreateUser | fast_api/main2.py:16-21 | 400 and no change for a taken id; otherwise exactly that id is added and the size grows by one |
| FastApiMemory.UserStore.ReadUser | fast_api/main2.py:24-28 | 404 exactly for an absent id; otherwise the stored user |
| FastApiMemory.UserStore.UpdateUser | fast_api/main2.py:31-36 | 404 for an absent id and never an insert; otherwise the value is replaced and the key set is unchanged |
| FastApiMemory.UserStore.DeleteUser | fast_api/main2.py:39-44 | 404 and no change for an absent id; otherwise exactly that id is removed and its user returned |
| FastApiMemory.UserStore.ListUsers | fast_api/main2.py:47-49 | the whole dict |
| Crud.UserById | fast_api/mini_project/app/database/crud.py:31-34 | the row with that id, active or not, and None exactly when the id is absent |
| Crud.HighestId | fast_api/mini_project/app/database/crud.py:77 | the largest id in use up to a bound, and no id in use above it |
| Crud.NextIdAfterDelete | fast_api/mini_project/app/database/crud.py:71-79 | after a delete the next rowid is one more than the largest remaining id: unchanged below the top, and the top id is given out again when the id below it is in use |
| Crud.UserByEmail | fast_api/mini_project/app/database/crud.py:37-40 | a row whose e-mail equals the argument, active or not, and None exactly when no row has it |
| Crud.UsersPage | fast_api/mini_project/app/database/crud.py:43-46 | at most `limit` rows, the ones from offset `skip` in id order |
| Crud.Authenticate | fast_api/mini_project/app/database/crud.py:82-89 | the row with that e-mail if the password verifies against its hash, whatever `is_active` is; None exactly when no such row verifies |
| Crud.NewRow | fast_api/mini_project/app/database/crud.py:13-19 | the row stores the hash of the password with the name, e-mail and age, and is active |
| Crud.CreateOutcome | fast_api/mini_project/app/database/crud.py:11-28 | rejected with "User with this email already exists" exactly when the e-mail is stored; otherwise the new row, which keeps the invariant |
| Crud.ApplyUpdate | fast_api/mini_project/app/database/crud.py:57-62 | every field the client set is written, null included; every unset field is kept, as are the id and the hash |
| Crud.ApplyUpdateIdempotent | fast_api/mini_project/app/database/crud.py:57-62 | applying an update twice is applying it once |
| Crud.UpdateOutcome | fast_api/mini_project/app/database/crud.py:49-68 | None exactly for an absent id; the row unchanged for an empty update; a rejection exactly when the resulting e-mail is another row's; otherwise the updated row |
| Crud.UpdateKeepsInvariant | fast_api/mini_project/app/database/crud.py:59-64 | an accepted update keeps ids and unique e-mails intact |
| Crud.CreateThenAuthenticate | fast_api/mini_project/app/database/crud.py:82-89 | whoever was created authenticates with the same e-mail and password, given a verifier that accepts each password against its own hash |
| Crud.DeleteIsHard | fast_api/mini_project/app/database/crud.py:71-79 | after a delete neither the id nor the e-mail finds the row, and every other id finds what it found before |
| Crud.Database.CreateUser | fast_api/mini_project/app/database/crud.py:11-28 | answers as `CreateOutcome`; adds exactly the new row at the next id, or changes nothing |
| Crud.Database.UpdateUser | fast_api/mini_project/app/database/crud.py:49-68 | answers as `UpdateOutcome`; replaces only that row, or changes nothing |
| Crud.Database.DeleteUser | fast_api/mini_project/app/database/crud.py:71-79 | true exactly when the id was present; the row is removed and the next rowid becomes one more than the largest remaining id |
| AuthDependencies.CurrentUser | fast_api/mini_project/app/auth/dependencies.py:11-28 | 401 "Could not validate credentials" for a failed token or an unknown subject; otherwise the stored row whose e-mail is the subject |
| AuthDependencies.CurrentActiveUser | fast_api/mini_project/app/auth/dependencies.py:30-34 | 400 "Inactive user" for an inactive current user; an active one is returned unchanged; 401 passes through |
| AuthDependencies.ActsOnlyAsActiveSubject | fast_api/mini_project/app/auth/dependencies.py:25-34 | a resolved user is the stored, active and only row whose e-mail is the subject |
| UsersRouter.ListUsers | fast_api/mini_project/app/routers/users.py:12-21 | the auth refusal first, then 422 outside skip ≥ 0 and 1 ≤ limit ≤ 1000, then 500 when a row of the page does not fit `UserResponse`; otherwise the store's page with skip and limit passed through |
| UsersRouter.GetUser | fast_api/mini_project/app/routers/users.py:23-36 | the auth refusal, else 404 for a missing row, 500 for a row that does not fit `UserResponse`, otherwise the row |
| UsersRouter.UpdateResponse | fast_api/mini_project/app/routers/users.py:38-59 | the auth refusal, then 403 for another user's id before any store access; 500 when the store rejects one's own update for an e-mail clash; 500 when the written row does not fit `UserResponse`; success exactly for one's own id with an update the store accepts and a row that fits |
| UsersRouter.DeleteResponse | fast_api/mini_project/app/routers/users.py:61-81 | the auth refusal, then 403 for another user's id; success exactly for one's own, present id |
| UsersRouter.OwnRowIsNeverMissing | fast_api/mini_project/app/routers/users.py:53-58 | the 404 answers of update and delete cannot occur; an allowed update fails only on the unique e-mail or on a row left outside `UserResponse` |
| UsersRouter.EmptyUpdateReturnsOwnRow | fast_api/mini_project/app/routers/users.py:53-59 | an allowed update with no field set returns the caller's row unchanged, or 500 when that row already has a null name or e-mail |
| UsersRouter.UpdateUser | fast_api/mini_project/app/routers/users.py:38-59 | answers as `UpdateResponse`; the store changes exactly for an allowed update the store accepts, even when the response then fails validation |
| UsersRouter.DeleteUser | fast_api/mini_project/app/routers/users.py:61-81 | answers as `DeleteResponse`; the store loses the row, and the next rowid is recomputed, only for an allowed delete |

## Left out

- Password hashing and checking (werkzeug, `auth/security.py`) are uninterpreted functions. `auth/security.py` is not part of this model. The login round trips assume that the checker accepts what the hasher produced for the same password.
- JWT issuance and verification (RFC 7519) are left out. The model receives what verification yields: an identity, or a subject e-mail, or `None`.
- AuthDependencies.CurrentUser: a request with no `Authorization: Bearer` header is refused by `OAuth2PasswordBearer` with 401 "Not authenticated" before the dependency runs. The model gives it the dependency's own 401 "Could not validate credentials".
- `secrets.token_urlsafe` is a parameter `freshKey`. `datetime.utcnow` is a parameter `now`, and timestamps are integers, so `isoformat()` is not modelled.
- Request bodies are JSON objects (`Payload`). A non-object JSON body (an array, a number) and a body that is not JSON are not modelled.
- EnhancedApi.RegisterOutcome, EnhancedApi.CreateOutcome, EnhancedApi.UpdateOutcome, Validation.FieldErrors and Validation.ValidateUserData require that a truthy `name` has a `len` (`UpdateOutcome` only when the row is active, since a missing or inactive row gets 404 before the body is read) (a string, a list or a dict) and that a truthy `email` is a string. Two inputs are not modelled, and both make validation raise and the handler answer 500: a truthy number or `true` as the name (`len` raises), and a truthy non-string e-mail (`re.match` raises). Falsy values of any type, list and dict names (422 or 500, as above) and non-string passwords are modelled.
- Text.Lower: lower-cases ASCII letters only. Python's `lower()` also maps non-ASCII letters; addresses that pass the regex are ASCII, but the e-mails submitted at login are not validated and may not be.
- EnhancedApi.UpdateOutcome: the uniqueness pre-check with a falsy non-string e-mail is taken to find no row. No stored e-mail equals null, `false` or `0`, and a list or dict cannot be bound; the handler answers 500 either way.
- Exceptions other than the unique-constraint violations (a lost database connection, a failing commit) and the 500 answers they cause are not modelled.
- `get_profile` (`GET /auth/profile`) only reads a row through the same guard as `get_user`; it is not modelled separately.
- The mini project's `User` table (`models/user.py`) is not part of this model. Its id is taken to be a plain integer primary key, without AUTOINCREMENT, so SQLite gives a new row one more than the largest id in use (`nextId`), and a deleted top id is given out again. Its unique constraint on `email` is assumed from the `ValueError` message in `create_user`, and Crud.NewRow's `is_active` of true is assumed to be that column's default, since `create_user` passes no `is_active`.
- Crud.UpdateOutcome: `name`, `email` and `is_active` are taken to be nullable, so an update that sets them to null is written. If `models/user.py` declares them NOT NULL, such an update raises an integrity error instead and answers 500 without writing.
- Pydantic's `EmailStr` check and schema coercion are not modelled. `UserCreate` and `UserUpdate` only give the record shapes and which fields are optional.
- UsersRouter.ListUsers: a query out of range answers 422 with one fixed detail. FastAPI's detail lists each failing constraint.
- SQLAlchemy sessions, `async`/`await`, and concurrent requests racing between a uniqueness pre-check and the commit are not modelled. Every route runs alone and atomically.
- The other files of the repository (static endpoints, `main1.py`, `main3.py` to `main5.py`, application start-up) are not modelled.
