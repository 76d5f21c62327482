/**
 * The enhanced Flask service (rest_api/app_enhanced.py): a SQLite `user` table with soft
 * deletion, registration and login, API keys, and the user CRUD routes.
 *
 * Each route is a decision function that says what the handler answers for a given table,
 * and, for the routes that write, a method of `UserTable` that performs the write.
 * Password hashing and checking are the table's function-valued fields `hash` and
 * `checkPassword`; random API keys and the clock are parameters.
 */
module EnhancedApi {
  import opened JsonValues
  import opened Text
  import opened Validation
  import opened Pagination
  import Rows

  /** A row of the `user` table. Timestamps are abstract clock readings. */
  datatype User = User(
    id: int,
    name: string,
    email: string,
    passwordHash: Option<string>,
    apiKey: Option<string>,
    createdAt: int,
    updatedAt: int,
    isActive: bool)

  /** What a route answers: a success with status, message and data, or an error response. */
  datatype Outcome<T> =
    | Success(status: int, message: string, value: T)
    | Failure(status: int, message: string, errors: seq<string>)

  /** The data and `meta` of a listing. */
  datatype Listing = Listing(items: seq<User>, meta: Meta)

  const BodyMustBeJson := "Request body must be JSON"
  const ValidationFailed := "Validation failed"
  const EmailExists := "Email already exists"
  const EmailMustBeUnique := "Email must be unique"
  const UserNotFound := "User not found"
  const CredentialsRequired := "Email and password are required"
  const InvalidCredentials := "Invalid email or password"
  const RegisterFailed := "Failed to register user"
  const LoginFailed := "Failed to login"
  const ApiKeyFailed := "Failed to generate API key"
  const CreateFailed := "Failed to create user"
  const UpdateFailed := "Failed to update user"
  const ProfileUpdateFailed := "Failed to update profile"
  const UserRegistered := "User registered successfully"
  const LoginSuccessful := "Login successful"
  const ApiKeyGenerated := "API key generated successfully"
  const UserCreated := "User created successfully"
  const UserUpdated := "User updated successfully"
  const ProfileUpdated := "Profile updated successfully"
  const UserDeleted := "User deleted successfully"

  /** `User.to_dict`: the public representation, without the password hash or the API key. */
  function ToDict(u: User): (d: map<string, Json>)
    ensures d.Keys == {"id", "name", "email", "created_at", "updated_at", "is_active"}
    ensures "password_hash" !in d && "api_key" !in d
    ensures d["id"] == JNum(u.id) && d["name"] == JStr(u.name) && d["email"] == JStr(u.email)
    ensures d["created_at"] == JNum(u.createdAt) && d["updated_at"] == JNum(u.updatedAt)
    ensures d["is_active"] == JBool(u.isActive)
  {
    map["id" := JNum(u.id), "name" := JStr(u.name), "email" := JStr(u.email),
        "created_at" := JNum(u.createdAt), "updated_at" := JNum(u.updatedAt),
        "is_active" := JBool(u.isActive)]
  }

  // ---------------------------------------------------------------------------------------
  // The table and its invariant
  // ---------------------------------------------------------------------------------------

  /** Rows are never removed and SQLite gives a new row the largest id plus one: ids are 1..count. */
  ghost predicate Dense(rows: map<int, User>, count: nat)
  {
    && (forall id :: id in rows <==> 1 <= id <= count)
    && (forall id :: id in rows ==> rows[id].id == id)
  }

  /** The `unique=True` constraint on `email`. */
  ghost predicate UniqueEmails(rows: map<int, User>)
  {
    forall i, j :: i in rows && j in rows && rows[i].email == rows[j].email ==> i == j
  }

  /** The `unique=True` constraint on `api_key` (NULLs do not collide). */
  ghost predicate UniqueApiKeys(rows: map<int, User>)
  {
    forall i, j :: i in rows && j in rows && rows[i].apiKey.Some? && rows[i].apiKey == rows[j].apiKey ==> i == j
  }

  ghost predicate TableInvariant(rows: map<int, User>, count: nat)
  {
    Dense(rows, count) && UniqueEmails(rows) && UniqueApiKeys(rows)
  }

  /** `User.query.filter_by(email=email).first()` finds a row, active or not. */
  function EmailTaken(rows: map<int, User>, count: nat, email: string): (taken: bool)
    requires Dense(rows, count)
    ensures taken <==> exists id :: id in rows && rows[id].email == email
  {
    Rows.FirstMatch(rows, (u: User) => u.email == email, 1, count + 1).Some?
  }

  /** `User.query.get(id)` followed by the `not user or not user.is_active` guard. */
  function ActiveById(rows: map<int, User>, id: int): (r: Option<User>)
    ensures r.Some? <==> id in rows && rows[id].isActive
    ensures r.Some? ==> r.value == rows[id]
  {
    if id in rows && rows[id].isActive then Some(rows[id]) else None
  }

  /** Adding a row at the next id keeps the ids dense. */
  lemma InsertKeepsDense(rows: map<int, User>, count: nat, u: User)
    requires Dense(rows, count) && u.id == count + 1
    ensures Dense(rows[u.id := u], count + 1)
  {
  }

  /** A row added with an unused e-mail is the only row holding it. */
  lemma InsertedHoldsEmailAlone(rows: map<int, User>, u: User, rows': map<int, User>)
    requires forall id :: id in rows ==> rows[id].email != u.email
    requires rows' == rows[u.id := u]
    ensures forall id :: id in rows' && rows'[id].email == u.email ==> id == u.id
  {
  }

  /** Adding a row at the next id, with an unused e-mail and no API key, keeps the invariant. */
  lemma InsertKeepsInvariant(rows: map<int, User>, count: nat, u: User)
    requires TableInvariant(rows, count)
    requires u.id == count + 1 && u.apiKey == None
    requires forall id :: id in rows ==> rows[id].email != u.email
    ensures TableInvariant(rows[u.id := u], count + 1)
  {
  }

  /**
   * Rewriting a row keeps the invariant when its e-mail is not another row's and its API key
   * is unchanged or held by no other row.
   */
  lemma ReplaceKeepsInvariant(rows: map<int, User>, count: nat, u: User)
    requires TableInvariant(rows, count) && u.id in rows
    requires forall id :: id in rows && id != u.id ==> rows[id].email != u.email
    requires u.apiKey == rows[u.id].apiKey || forall id :: id in rows && id != u.id ==> rows[id].apiKey != u.apiKey
    ensures TableInvariant(rows[u.id := u], count)
  {
  }

  /** The active rows with ids 1..n, by ascending id: `User.query.filter_by(is_active=True)`. */
  function ActiveUsers(rows: map<int, User>, n: nat): (us: seq<User>)
    requires forall id :: 1 <= id <= n ==> id in rows && rows[id].id == id
    ensures forall i :: 0 <= i < |us| ==> 1 <= us[i].id <= n && us[i] == rows[us[i].id] && us[i].isActive
    ensures forall i, j :: 0 <= i < j < |us| ==> us[i].id < us[j].id
  {
    if n == 0 then []
    else ActiveUsers(rows, n - 1) + (if rows[n].isActive then [rows[n]] else [])
  }

  /** No active row is left out of `ActiveUsers`. */
  lemma {:induction false} ActiveUsersComplete(rows: map<int, User>, n: nat, id: int)
    requires forall id :: 1 <= id <= n ==> id in rows && rows[id].id == id
    requires 1 <= id <= n && rows[id].isActive
    ensures rows[id] in ActiveUsers(rows, n)
  {
    if id < n {
      ActiveUsersComplete(rows, n - 1, id);
    }
  }

  /** The string a field holds, or "" when it holds none. */
  function FieldText(data: Payload, field: string): string
  {
    if field in data && data[field].JStr? then data[field].s else ""
  }

  /** The e-mail as submitted. */
  function RawEmail(data: Payload): string
  {
    FieldText(data, EmailField)
  }

  /** The e-mail as register, create and update store it: `email.lower().strip()`. */
  function NormalizeEmail(raw: string): string
  {
    Strip(Lower(raw))
  }

  /** Validation passed, so each required field is present and truthy. */
  lemma RequiredSupplied(data: Payload, required: seq<string>, i: int)
    requires Acceptable(data, required) && 0 <= i < |required|
    ensures required[i] in data && Truthy(data[required[i]])
  {
  }

  // ---------------------------------------------------------------------------------------
  // Authentication routes
  // ---------------------------------------------------------------------------------------

  /** The new row of a registration that passed its checks, at id `count + 1`. */
  function NewRegisteredUser(count: nat, data: Payload, hash: string -> string, now: int): (u: User)
    requires Validatable(data) && Acceptable(data, RegisterRequired)
    requires NameField in data && data[NameField].JStr? && PasswordField in data && data[PasswordField].JStr?
    ensures u.id == count + 1 && u.isActive && u.apiKey == None
    ensures u.name == Strip(FieldText(data, NameField)) && u.email == NormalizeEmail(RawEmail(data))
    ensures u.passwordHash == Some(hash(FieldText(data, PasswordField)))
    ensures u.createdAt == now && u.updatedAt == now
  {
    User(count + 1, Strip(data[NameField].s), NormalizeEmail(RawEmail(data)),
         Some(hash(data[PasswordField].s)), None, now, now, true)
  }

  /**
   * `POST /auth/register`. The duplicate pre-check looks for the e-mail as submitted, but the
   * row stores it lower-cased and stripped; when only the normalized form is taken, the unique
   * constraint rejects the commit and the handler answers 500. A password whose `len` raises
   * (null, a boolean, a number), a list or dict name that has no `strip`, or a list or dict
   * password that `set_password` cannot hash, is a 500 too.
   */
  function RegisterOutcome(rows: map<int, User>, count: nat, data: Payload, hash: string -> string, now: int): (r: Outcome<User>)
    requires Dense(rows, count)
    requires Validatable(data)
    ensures data == map[] ==> r == Failure(400, BodyMustBeJson, [])
    ensures data != map[] && !PasswordMeasurable(data) ==> r == Failure(500, RegisterFailed, [])
    ensures data != map[] && PasswordMeasurable(data) && RegistrationErrors(data) != [] ==>
      r == Failure(422, ValidationFailed, RegistrationErrors(data))
    ensures data != map[] && PasswordMeasurable(data) && RegistrationErrors(data) == []
            && EmailTaken(rows, count, RawEmail(data)) ==>
      r == Failure(422, EmailExists, [EmailMustBeUnique])
    ensures data != map[] && PasswordMeasurable(data) && RegistrationErrors(data) == []
            && !EmailTaken(rows, count, RawEmail(data))
            && (!(NameField in data && data[NameField].JStr? && PasswordField in data && data[PasswordField].JStr?)
                || EmailTaken(rows, count, NormalizeEmail(RawEmail(data)))) ==>
      r == Failure(500, RegisterFailed, [])
    ensures r.Success? <==>
      && data != map[] && PasswordMeasurable(data) && RegistrationErrors(data) == []
      && NameField in data && data[NameField].JStr? && PasswordField in data && data[PasswordField].JStr?
      && !EmailTaken(rows, count, RawEmail(data))
      && !EmailTaken(rows, count, NormalizeEmail(RawEmail(data)))
    ensures r.Success? ==>
      && r.status == 201 && r.value.id == count + 1 && r.value.isActive && r.value.apiKey == None
      && r.value.name == Strip(FieldText(data, NameField))
      && r.value.email == NormalizeEmail(RawEmail(data))
      && r.value.passwordHash == Some(hash(FieldText(data, PasswordField)))
      && r.value.createdAt == now && r.value.updatedAt == now
  {
    if data == map[] then Failure(400, BodyMustBeJson, [])
    else if !PasswordMeasurable(data) then Failure(500, RegisterFailed, [])
    else
      var errors := RegistrationErrors(data);
      if errors != [] then Failure(422, ValidationFailed, errors)
      else if EmailTaken(rows, count, RawEmail(data)) then Failure(422, EmailExists, [EmailMustBeUnique])
      else if !(NameField in data && data[NameField].JStr? && PasswordField in data && data[PasswordField].JStr?)
      then Failure(500, RegisterFailed, [])
      else
        var user := NewRegisteredUser(count, data, hash, now);
        if EmailTaken(rows, count, user.email) then Failure(500, RegisterFailed, [])
        else Success(201, UserRegistered, user)
  }

  /** `User.query.filter_by(email=..., is_active=True).first()`: the lowest-id active row with that e-mail. */
  function ActiveByEmail(rows: map<int, User>, count: nat, email: string): (r: Option<int>)
    requires Dense(rows, count)
    ensures r.Some? ==> r.value in rows && rows[r.value].email == email && rows[r.value].isActive
    ensures r.Some? ==> forall id :: id in rows && id < r.value ==> !(rows[id].email == email && rows[id].isActive)
    ensures r.None? <==> !exists id :: id in rows && rows[id].email == email && rows[id].isActive
  {
    Rows.FirstMatch(rows, (u: User) => u.email == email && u.isActive, 1, count + 1)
  }

  /**
   * `POST /auth/login`: only active rows are searched, and an unknown e-mail and a wrong
   * password give the same answer. The identity put in the token is the row's id.
   * A truthy e-mail that is not a string has no `lower`, a row created without a password has a
   * NULL hash and a password that is not a string cannot be hashed: each raises, and the answer is 500.
   */
  function LoginOutcome(rows: map<int, User>, count: nat, data: Payload, checkPassword: (string, string) -> bool): (r: Outcome<int>)
    requires Dense(rows, count)
    ensures data == map[] ==> r == Failure(400, BodyMustBeJson, [])
    ensures data != map[] && !(Supplied(data, EmailField) && Supplied(data, PasswordField)) ==> r == Failure(400, CredentialsRequired, [])
    ensures Supplied(data, EmailField) && Supplied(data, PasswordField) && !data[EmailField].JStr? ==>
      r == Failure(500, LoginFailed, [])
    ensures Supplied(data, EmailField) && Supplied(data, PasswordField) && data[EmailField].JStr?
            && ActiveByEmail(rows, count, NormalizeEmail(data[EmailField].s)).None? ==>
      r == Failure(401, InvalidCredentials, [])
    ensures Supplied(data, EmailField) && Supplied(data, PasswordField) && data[EmailField].JStr?
            && ActiveByEmail(rows, count, NormalizeEmail(data[EmailField].s)).Some? ==>
      var user := rows[ActiveByEmail(rows, count, NormalizeEmail(data[EmailField].s)).value];
      && ((user.passwordHash.None? || !data[PasswordField].JStr?) ==> r == Failure(500, LoginFailed, []))
      && ((user.passwordHash.Some? && data[PasswordField].JStr?
           && !checkPassword(user.passwordHash.value, data[PasswordField].s)) ==> r == Failure(401, InvalidCredentials, []))
    ensures r.Failure? && r.status == 401 ==> r == Failure(401, InvalidCredentials, [])
    ensures r.Success? ==>
      && Supplied(data, EmailField) && Supplied(data, PasswordField)
      && data[EmailField].JStr? && data[PasswordField].JStr?
      && r.status == 200 && r.value in rows && rows[r.value].isActive
      && rows[r.value].email == NormalizeEmail(data[EmailField].s)
      && rows[r.value].passwordHash.Some?
      && checkPassword(rows[r.value].passwordHash.value, data[PasswordField].s)
  {
    if data == map[] then Failure(400, BodyMustBeJson, [])
    else if !Supplied(data, EmailField) || !Supplied(data, PasswordField) then Failure(400, CredentialsRequired, [])
    else if !data[EmailField].JStr? then Failure(500, LoginFailed, [])
    else
      match ActiveByEmail(rows, count, NormalizeEmail(data[EmailField].s))
      case None => Failure(401, InvalidCredentials, [])
      case Some(id) =>
        if rows[id].passwordHash.None? || !data[PasswordField].JStr? then Failure(500, LoginFailed, [])
        else if !checkPassword(rows[id].passwordHash.value, data[PasswordField].s) then Failure(401, InvalidCredentials, [])
        else Success(200, LoginSuccessful, id)
  }

  /**
   * With unique e-mails, login succeeds exactly when an active row has the normalized e-mail,
   * a password hash, and a hash the password checks against.
   */
  lemma LoginSucceedsIffCredentialsMatch(rows: map<int, User>, count: nat, data: Payload, checkPassword: (string, string) -> bool)
    requires TableInvariant(rows, count)
    requires Supplied(data, EmailField) && Supplied(data, PasswordField)
    ensures LoginOutcome(rows, count, data, checkPassword).Success? <==>
      data[EmailField].JStr? && data[PasswordField].JStr? &&
      exists id :: id in rows && rows[id].isActive && rows[id].email == NormalizeEmail(data[EmailField].s)
                   && rows[id].passwordHash.Some? && checkPassword(rows[id].passwordHash.value, data[PasswordField].s)
  {
  }

  /** `check_api_key`: the active row holding the key sent in `X-API-Key`, if the header is non-empty. */
  function CheckApiKey(rows: map<int, User>, count: nat, header: Option<string>): (r: Option<User>)
    requires Dense(rows, count)
    ensures r.Some? ==> header.Some? && header.value != "" && r.value.id in rows && rows[r.value.id] == r.value
                        && r.value.isActive && r.value.apiKey == header
    ensures r.None? && header.Some? && header.value != "" ==>
      forall id :: id in rows && rows[id].isActive ==> rows[id].apiKey != header
  {
    if header.None? || header.value == "" then None
    else
      match Rows.FirstMatch(rows, (u: User) => u.apiKey == header && u.isActive, 1, count + 1)
      case None => None
      case Some(id) => Some(rows[id])
  }

  /** `POST /auth/api-key` for the token identity `identity`: the new key replaces any earlier one. */
  function IssueApiKeyOutcome(rows: map<int, User>, count: nat, identity: int, freshKey: string): (r: Outcome<string>)
    requires Dense(rows, count)
    ensures ActiveById(rows, identity).None? ==> r == Failure(404, UserNotFound, [])
    ensures r.Success? ==> r.status == 200 && r.value == freshKey && identity in rows && rows[identity].isActive
    ensures r.Success? <==> ActiveById(rows, identity).Some?
                            && forall id :: id in rows && id != identity ==> rows[id].apiKey != Some(freshKey)
    ensures ActiveById(rows, identity).Some? && (exists id :: id in rows && id != identity && rows[id].apiKey == Some(freshKey)) ==>
      r == Failure(500, ApiKeyFailed, [])
  {
    match ActiveById(rows, identity)
    case None => Failure(404, UserNotFound, [])
    case Some(user) =>
      if Rows.FirstMatch(rows, (u: User) => u.apiKey == Some(freshKey) && u.id != identity, 1, count + 1).Some?
      then Failure(500, ApiKeyFailed, [])
      else Success(200, ApiKeyGenerated, freshKey)
  }

  /** The row after a new API key was stored on it. */
  function WithApiKey(rows: map<int, User>, id: int, key: string, now: int): map<int, User>
    requires id in rows
  {
    rows[id := rows[id].(apiKey := Some(key), updatedAt := now)]
  }

  lemma IssueApiKeyKeepsInvariant(rows: map<int, User>, count: nat, identity: int, freshKey: string, now: int)
    requires TableInvariant(rows, count)
    requires IssueApiKeyOutcome(rows, count, identity, freshKey).Success?
    ensures TableInvariant(WithApiKey(rows, identity, freshKey, now), count)
  {
  }

  // ---------------------------------------------------------------------------------------
  // User routes
  // ---------------------------------------------------------------------------------------

  /** `GET /users/<id>`: the public dict of an active row; inactive rows are not found. */
  function GetOutcome(rows: map<int, User>, id: int): (r: Outcome<map<string, Json>>)
    ensures r.Success? <==> id in rows && rows[id].isActive
    ensures r.Success? ==> r.status == 200 && r.value == ToDict(rows[id])
    ensures r.Success? ==> "password_hash" !in r.value && "api_key" !in r.value
    ensures r.Failure? ==> r == Failure(404, UserNotFound, [])
  {
    match ActiveById(rows, id)
    case None => Failure(404, UserNotFound, [])
    case Some(user) => Success(200, "", ToDict(user))
  }

  /** The requester of `GET /users` is identified by a JWT identity (any row) or by an API key. */
  function Authenticated(rows: map<int, User>, count: nat, jwtIdentity: Option<int>, apiKeyHeader: Option<string>): (b: bool)
    requires Dense(rows, count)
    ensures b <==>
      || (jwtIdentity.Some? && jwtIdentity.value != 0 && jwtIdentity.value in rows)
      || (apiKeyHeader.Some? && apiKeyHeader.value != ""
          && exists id :: id in rows && rows[id].isActive && rows[id].apiKey == apiKeyHeader)
  {
    (jwtIdentity.Some? && jwtIdentity.value != 0 && jwtIdentity.value in rows)
    || CheckApiKey(rows, count, apiKeyHeader).Some?
  }

  /**
   * `GET /users?page=&per_page=`: the page-th window of the active rows, and its metadata, which
   * says whether the requester was identified by a token identity or an API key.
   */
  function ListOutcome(rows: map<int, User>, count: nat, page: int, perPage: int,
                       jwtIdentity: Option<int>, apiKeyHeader: Option<string>): (r: Outcome<Listing>)
    requires Dense(rows, count)
    ensures r.Failure? <==> PaginationError(page, perPage).Some?
    ensures r.Failure? ==> r == Failure(400, PaginationError(page, perPage).value, [])
    ensures r.Success? ==>
      && r.status == 200
      && r.value.items == PageWindow(ActiveUsers(rows, count), page, perPage)
      && r.value.meta == PageMeta(|ActiveUsers(rows, count)|, page, perPage,
                                  Authenticated(rows, count, jwtIdentity, apiKeyHeader))
  {
    match PaginationError(page, perPage)
    case Some(message) => Failure(400, message, [])
    case None =>
      var active := ActiveUsers(rows, count);
      var authenticated := Authenticated(rows, count, jwtIdentity, apiKeyHeader);
      Success(200, "", Listing(PageWindow(active, page, perPage), PageMeta(|active|, page, perPage, authenticated)))
  }

  /** A page of the listing holds at most `perPage` active rows of the table, by ascending id. */
  lemma ListingShowsOnlyActiveRows(rows: map<int, User>, count: nat, page: int, perPage: int)
    requires Dense(rows, count) && page >= 1 && perPage >= 1
    ensures var items := PageWindow(ActiveUsers(rows, count), page, perPage);
      && |items| <= perPage
      && (forall i :: 0 <= i < |items| ==> items[i].id in rows && rows[items[i].id] == items[i] && items[i].isActive)
      && (forall i, j :: 0 <= i < j < |items| ==> items[i].id < items[j].id)
  {
    var active := ActiveUsers(rows, count);
    var items := PageWindow(active, page, perPage);
    var start := PageStart(page, perPage);
    forall i | 0 <= i < |items|
      ensures items[i].id in rows && rows[items[i].id] == items[i] && items[i].isActive
    {
      assert items[i] == active[start + i];
    }
    forall i, j | 0 <= i < j < |items|
      ensures items[i].id < items[j].id
    {
      assert items[i] == active[start + i] && items[j] == active[start + j];
    }
  }

  /** Every active row is listed on some page. */
  lemma EveryActiveUserIsListed(rows: map<int, User>, count: nat, perPage: int, id: int)
    requires Dense(rows, count) && 1 <= perPage <= MaxPerPage
    requires id in rows && rows[id].isActive
    ensures exists page :: page >= 1 && rows[id] in ListOutcome(rows, count, page, perPage, None, None).value.items
  {
    var active := ActiveUsers(rows, count);
    ActiveUsersComplete(rows, count, id);
    var k :| 0 <= k < |active| && active[k] == rows[id];
    var page, pos := ItemOnItsPage(active, perPage, k);
    var w := PageWindow(active, page, perPage);
    assert w[pos] == rows[id];
    assert ListOutcome(rows, count, page, perPage, None, None).value.items == w;
  }

  /** The new row of a direct creation that passed its checks: no password, no key. */
  function NewCreatedUser(count: nat, data: Payload, now: int): (u: User)
    requires Validatable(data) && Acceptable(data, DefaultRequired)
    requires NameField in data && data[NameField].JStr?
    ensures u.id == count + 1 && u.isActive && u.apiKey == None && u.passwordHash == None
    ensures u.name == Strip(FieldText(data, NameField)) && u.email == NormalizeEmail(RawEmail(data))
    ensures u.createdAt == now && u.updatedAt == now
  {
    User(count + 1, Strip(data[NameField].s), NormalizeEmail(RawEmail(data)), None, None, now, now, true)
  }

  /** `POST /users`: as registration, with the default required fields and no password. */
  function CreateOutcome(rows: map<int, User>, count: nat, data: Payload, now: int): (r: Outcome<User>)
    requires Dense(rows, count)
    requires Validatable(data)
    ensures data == map[] ==> r == Failure(400, BodyMustBeJson, [])
    ensures data != map[] && ValidateUserData(data, DefaultRequired) != [] ==>
      r == Failure(422, ValidationFailed, ValidateUserData(data, DefaultRequired))
    ensures data != map[] && ValidateUserData(data, DefaultRequired) == [] && EmailTaken(rows, count, RawEmail(data)) ==>
      r == Failure(422, EmailExists, [EmailMustBeUnique])
    ensures data != map[] && ValidateUserData(data, DefaultRequired) == [] && !EmailTaken(rows, count, RawEmail(data))
            && (!(NameField in data && data[NameField].JStr?) || EmailTaken(rows, count, NormalizeEmail(RawEmail(data)))) ==>
      r == Failure(500, CreateFailed, [])
    ensures r.Success? <==>
      && data != map[] && ValidateUserData(data, DefaultRequired) == []
      && NameField in data && data[NameField].JStr?
      && !EmailTaken(rows, count, RawEmail(data))
      && !EmailTaken(rows, count, NormalizeEmail(RawEmail(data)))
    ensures r.Success? ==>
      && r.status == 201 && r.value.id == count + 1 && r.value.isActive
      && r.value.passwordHash == None && r.value.apiKey == None
      && r.value.name == Strip(FieldText(data, NameField))
      && r.value.email == NormalizeEmail(RawEmail(data))
      && r.value.createdAt == now && r.value.updatedAt == now
  {
    if data == map[] then Failure(400, BodyMustBeJson, [])
    else
      var errors := ValidateUserData(data, DefaultRequired);
      if errors != [] then Failure(422, ValidationFailed, errors)
      else if EmailTaken(rows, count, RawEmail(data)) then Failure(422, EmailExists, [EmailMustBeUnique])
      else if !(NameField in data && data[NameField].JStr?) then Failure(500, CreateFailed, [])
      else
        var user := NewCreatedUser(count, data, now);
        if EmailTaken(rows, count, user.email) then Failure(500, CreateFailed, [])
        else Success(201, UserCreated, user)
  }

  /** The row with the fields of `data` applied: only the keys present change. */
  function Patched(user: User, data: Payload, now: int): (u: User)
    requires TextFields(data)
    ensures u.id == user.id && u.passwordHash == user.passwordHash && u.apiKey == user.apiKey
    ensures u.createdAt == user.createdAt && u.isActive == user.isActive && u.updatedAt == now
    ensures NameField !in data ==> u.name == user.name
    ensures EmailField !in data ==> u.email == user.email
    ensures NameField in data ==> u.name == Strip(data[NameField].s)
    ensures EmailField in data ==> u.email == NormalizeEmail(data[EmailField].s)
  {
    user.(name := if NameField in data then Strip(data[NameField].s) else user.name,
          email := if EmailField in data then NormalizeEmail(data[EmailField].s) else user.email,
          updatedAt := now)
  }

  /**
   * The uniqueness pre-check of an update: it runs only when the submitted e-mail differs from
   * the stored one, and looks for it as submitted. A non-string e-mail matches no stored row.
   */
  predicate EmailClash(rows: map<int, User>, count: nat, user: User, data: Payload)
    requires Dense(rows, count)
  {
    EmailField in data && data[EmailField].JStr? && data[EmailField].s != user.email
    && EmailTaken(rows, count, data[EmailField].s)
  }

  /** A row other than `id` holds `email`: committing it there violates the unique constraint. */
  function HeldByOther(rows: map<int, User>, count: nat, id: int, email: string): (held: bool)
    requires Dense(rows, count)
    ensures held <==> exists other :: other in rows && other != id && rows[other].email == email
  {
    Rows.FirstMatch(rows, (u: User) => u.email == email && u.id != id, 1, count + 1).Some?
  }

  /**
   * `PUT /users/<id>` and, with `profile`, `PUT /auth/profile` for the token identity `id`.
   * There is no ownership check. A name or e-mail that is present but not a string (only a
   * falsy one gets past validation) has no `strip`, and the handler answers 500, as it does
   * when the commit meets another row's e-mail.
   */
  function UpdateOutcome(rows: map<int, User>, count: nat, id: int, data: Payload, now: int, profile: bool): (r: Outcome<User>)
    requires Dense(rows, count)
    requires ActiveById(rows, id).Some? ==> Validatable(data)
    ensures ActiveById(rows, id).None? ==> r == Failure(404, UserNotFound, [])
    ensures ActiveById(rows, id).Some? && data == map[] ==> r == Failure(400, BodyMustBeJson, [])
    ensures ActiveById(rows, id).Some? && data != map[] && ValidateUserData(data, []) != [] ==>
      r == Failure(422, ValidationFailed, ValidateUserData(data, []))
    ensures r == Failure(422, EmailExists, [EmailMustBeUnique]) <==>
      && ActiveById(rows, id).Some? && data != map[] && ValidateUserData(data, []) == []
      && EmailClash(rows, count, rows[id], data)
    ensures r.Success? <==>
      && ActiveById(rows, id).Some? && data != map[] && ValidateUserData(data, []) == []
      && !EmailClash(rows, count, rows[id], data)
      && TextFields(data) && !HeldByOther(rows, count, id, Patched(rows[id], data, now).email)
    ensures r.Success? ==>
      && r.status == 200 && r.value == Patched(rows[id], data, now)
      && r.message == (if profile then ProfileUpdated else UserUpdated)
      && (forall other :: other in rows && other != id ==> rows[other].email != r.value.email)
    ensures ActiveById(rows, id).Some? && data != map[] && ValidateUserData(data, []) == []
            && !EmailClash(rows, count, rows[id], data)
            && (!TextFields(data) || HeldByOther(rows, count, id, Patched(rows[id], data, now).email)) ==>
      r == Failure(500, if profile then ProfileUpdateFailed else UpdateFailed, [])
    ensures r.Failure? && r.status == 500 ==> r.message == (if profile then ProfileUpdateFailed else UpdateFailed)
  {
    match ActiveById(rows, id)
    case None => Failure(404, UserNotFound, [])
    case Some(user) =>
      if data == map[] then Failure(400, BodyMustBeJson, [])
      else
        var errors := ValidateUserData(data, []);
        if errors != [] then Failure(422, ValidationFailed, errors)
        else if EmailClash(rows, count, user, data) then Failure(422, EmailExists, [EmailMustBeUnique])
        else if !TextFields(data) then Failure(500, if profile then ProfileUpdateFailed else UpdateFailed, [])
        else
          var updated := Patched(user, data, now);
          if HeldByOther(rows, count, id, updated.email)
          then Failure(500, if profile then ProfileUpdateFailed else UpdateFailed, [])
          else Success(200, if profile then ProfileUpdated else UserUpdated, updated)
  }

  /** `DELETE /users/<id>`: a soft delete of an active row, with no ownership check. */
  function DeleteOutcome(rows: map<int, User>, id: int): (r: Outcome<()>)
    ensures r.Success? <==> id in rows && rows[id].isActive
    ensures r.Success? ==> r.status == 204 && r.message == UserDeleted
    ensures r.Failure? ==> r == Failure(404, UserNotFound, [])
  {
    match ActiveById(rows, id)
    case None => Failure(404, UserNotFound, [])
    case Some(_) => Success(204, UserDeleted, ())
  }

  /** The table after a soft delete of row `id`. */
  function Deactivated(rows: map<int, User>, id: int, now: int): map<int, User>
    requires id in rows
  {
    rows[id := rows[id].(isActive := false, updatedAt := now)]
  }

  // ---------------------------------------------------------------------------------------
  // Properties that relate several routes
  // ---------------------------------------------------------------------------------------

  /**
   * A row just added at the next id, active, holding an e-mail no other row has and a hash the
   * password checks against, is the row a login with that e-mail and password finds.
   */
  lemma LoginFindsInsertedRow(rows: map<int, User>, count: nat, u: User, login: Payload,
                              checkPassword: (string, string) -> bool)
    requires Dense(rows, count) && u.id == count + 1 && u.isActive
    requires forall id :: id in rows ==> rows[id].email != u.email
    requires Supplied(login, EmailField) && Supplied(login, PasswordField)
    requires login[EmailField].JStr? && login[PasswordField].JStr?
    requires u.email == NormalizeEmail(login[EmailField].s)
    requires u.passwordHash.Some? && checkPassword(u.passwordHash.value, login[PasswordField].s)
    ensures Dense(rows[u.id := u], count + 1)
    ensures LoginOutcome(rows[u.id := u], count + 1, login, checkPassword) == Success(200, LoginSuccessful, u.id)
  {
    InsertKeepsDense(rows, count, u);
    var rows' := rows[u.id := u];
    InsertedHoldsEmailAlone(rows, u, rows');
    var found := ActiveByEmail(rows', count + 1, u.email);
    assert rows'[u.id].email == u.email && rows'[u.id].isActive;
  }

  /**
   * Whoever registers can log in with the same e-mail and password, and the token names the
   * new row, provided that the password checker accepts what the hasher produced.
   */
  lemma RegisterThenLogin(rows: map<int, User>, count: nat, data: Payload, hash: string -> string,
                          checkPassword: (string, string) -> bool, now: int, u: User)
    requires Dense(rows, count)
    requires Validatable(data)
    requires forall p :: checkPassword(hash(p), p)
    requires RegisterOutcome(rows, count, data, hash, now) == Success(201, UserRegistered, u)
    ensures Dense(rows[u.id := u], count + 1)
    ensures LoginOutcome(rows[u.id := u], count + 1,
                         map[EmailField := JStr(RawEmail(data)), PasswordField := JStr(FieldText(data, PasswordField))],
                         checkPassword)
      == Success(200, LoginSuccessful, u.id)
  {
    var login := map[EmailField := JStr(RawEmail(data)), PasswordField := JStr(FieldText(data, PasswordField))];
    RequiredSupplied(data, RegisterRequired, 1);
    RequiredSupplied(data, RegisterRequired, 2);
    assert Supplied(login, EmailField) && Supplied(login, PasswordField);
    assert !EmailTaken(rows, count, u.email);
    LoginFindsInsertedRow(rows, count, u, login, checkPassword);
  }

  /**
   * A soft-deleted user is gone for every route (get, update, delete, a new API key, login,
   * listing), yet its e-mail stays taken, so registering it again is refused.
   */
  lemma SoftDeletedUserIsGone(rows: map<int, User>, count: nat, id: int, now: int,
                              data: Payload, hash: string -> string, checkPassword: (string, string) -> bool, key: string)
    requires TableInvariant(rows, count)
    requires DeleteOutcome(rows, id).Success?
    requires Validatable(data)
    ensures var after := Deactivated(rows, id, now);
      && TableInvariant(after, count)
      && GetOutcome(after, id) == Failure(404, UserNotFound, [])
      && DeleteOutcome(after, id) == Failure(404, UserNotFound, [])
      && UpdateOutcome(after, count, id, data, now, false) == Failure(404, UserNotFound, [])
      && IssueApiKeyOutcome(after, count, id, key) == Failure(404, UserNotFound, [])
      && (forall u :: u in ActiveUsers(after, count) ==> u.id != id)
      && EmailTaken(after, count, rows[id].email)
      && (RawEmail(data) == rows[id].email ==> !RegisterOutcome(after, count, data, hash, now).Success?)
    ensures var after := Deactivated(rows, id, now);
      forall r :: r == LoginOutcome(after, count, data, checkPassword) && r.Success? ==> r.value != id
  {
    var after := Deactivated(rows, id, now);
    assert after[id].email == rows[id].email;
  }

  /** A new API key replaces the old one: the old key no longer identifies anyone, the new one does. */
  lemma NewApiKeyRevokesOld(rows: map<int, User>, count: nat, identity: int, freshKey: string, now: int)
    requires TableInvariant(rows, count)
    requires IssueApiKeyOutcome(rows, count, identity, freshKey).Success?
    ensures var after := WithApiKey(rows, identity, freshKey, now);
      && CheckApiKey(after, count, Some(freshKey)) == (if freshKey == "" then None else Some(after[identity]))
      && (rows[identity].apiKey.Some? && rows[identity].apiKey != Some(freshKey) ==>
            CheckApiKey(after, count, rows[identity].apiKey) == None)
  {
    var after := WithApiKey(rows, identity, freshKey, now);
    IssueApiKeyKeepsInvariant(rows, count, identity, freshKey, now);
    if freshKey != "" {
      var r := CheckApiKey(after, count, Some(freshKey));
      assert after[identity].apiKey == Some(freshKey) && after[identity].isActive;
      assert r.Some?;
    }
  }

  /**
   * Registration fails with 500 exactly when the password has no length, or when the payload
   * passes validation and the pre-check but the name or the password is not a string or the
   * lower-cased, stripped address is already stored: an address that differs from a stored one
   * only by case or surrounding whitespace gets 500, not 422.
   */
  lemma RegisterServerErrorIff(rows: map<int, User>, count: nat, data: Payload, hash: string -> string, now: int)
    requires TableInvariant(rows, count)
    requires Validatable(data) && data != map[]
    ensures RegisterOutcome(rows, count, data, hash, now) == Failure(500, RegisterFailed, []) <==>
      || !PasswordMeasurable(data)
      || (&& RegistrationErrors(data) == []
          && !EmailTaken(rows, count, RawEmail(data))
          && (!(NameField in data && data[NameField].JStr? && PasswordField in data && data[PasswordField].JStr?)
              || EmailTaken(rows, count, NormalizeEmail(RawEmail(data)))))
  {
  }

  // ---------------------------------------------------------------------------------------
  // The table, updated in place by the writing routes
  // ---------------------------------------------------------------------------------------

  class UserTable {
    var rows: map<int, User>
    var count: nat
    const hash: string -> string

    ghost predicate Valid()
      reads this
    {
      TableInvariant(rows, count)
    }

    constructor (hash: string -> string)
      ensures Valid() && rows == map[] && count == 0
      ensures this.hash == hash
    {
      rows := map[];
      count := 0;
      this.hash := hash;
    }

    /** `register`: validate, pre-check the submitted e-mail, insert the row and commit. */
    method Register(data: Payload, now: int) returns (r: Outcome<User>)
      requires Valid() && Validatable(data)
      modifies this
      ensures Valid()
      ensures r == RegisterOutcome(old(rows), old(count), data, hash, now)
      ensures r.Success? ==> rows == old(rows)[r.value.id := r.value] && count == old(count) + 1
      ensures r.Failure? ==> rows == old(rows) && count == old(count)
    {
      if data == map[] {
        return Failure(400, BodyMustBeJson, []);
      }
      var errors := ValidateUserData(data, RegisterRequired);
      if PasswordField in data {
        var length := Len(data[PasswordField]);
        if length.None? {
          // `len` raises on a null, boolean or number password
          return Failure(500, RegisterFailed, []);
        }
        if length.value < 6 {
          errors := errors + [PasswordTooShort];
        }
      }
      assert errors == RegistrationErrors(data);
      if errors != [] {
        return Failure(422, ValidationFailed, errors);
      }
      if EmailTaken(rows, count, RawEmail(data)) {
        return Failure(422, EmailExists, [EmailMustBeUnique]);
      }
      RequiredSupplied(data, RegisterRequired, 0);
      RequiredSupplied(data, RegisterRequired, 2);
      if !data[NameField].JStr? {
        // a list or dict name has no `strip`
        return Failure(500, RegisterFailed, []);
      }
      if !data[PasswordField].JStr? {
        // `set_password` cannot hash a list or a dict
        return Failure(500, RegisterFailed, []);
      }
      var user := NewRegisteredUser(count, data, hash, now);
      if EmailTaken(rows, count, user.email) {
        // the unique constraint rejects the commit and the session is rolled back
        return Failure(500, RegisterFailed, []);
      }
      InsertKeepsInvariant(rows, count, user);
      rows := rows[user.id := user];
      count := count + 1;
      r := Success(201, UserRegistered, user);
    }

    /** `create_user`: as `Register` without a password. */
    method CreateUser(data: Payload, now: int) returns (r: Outcome<User>)
      requires Valid() && Validatable(data)
      modifies this
      ensures Valid()
      ensures r == CreateOutcome(old(rows), old(count), data, now)
      ensures r.Success? ==> rows == old(rows)[r.value.id := r.value] && count == old(count) + 1
      ensures r.Failure? ==> rows == old(rows) && count == old(count)
    {
      if data == map[] {
        return Failure(400, BodyMustBeJson, []);
      }
      var errors := ValidateUserData(data, DefaultRequired);
      if errors != [] {
        return Failure(422, ValidationFailed, errors);
      }
      if EmailTaken(rows, count, RawEmail(data)) {
        return Failure(422, EmailExists, [EmailMustBeUnique]);
      }
      RequiredSupplied(data, DefaultRequired, 0);
      if !data[NameField].JStr? {
        // a list or dict name has no `strip`
        return Failure(500, CreateFailed, []);
      }
      var user := NewCreatedUser(count, data, now);
      if EmailTaken(rows, count, user.email) {
        return Failure(500, CreateFailed, []);
      }
      InsertKeepsInvariant(rows, count, user);
      rows := rows[user.id := user];
      count := count + 1;
      r := Success(201, UserCreated, user);
    }

    /** `generate_user_api_key`: store a freshly generated key on the caller's row. */
    method IssueApiKey(identity: int, freshKey: string, now: int) returns (r: Outcome<string>)
      requires Valid()
      modifies this
      ensures Valid() && count == old(count)
      ensures r == IssueApiKeyOutcome(old(rows), old(count), identity, freshKey)
      ensures r.Success? ==> rows == WithApiKey(old(rows), identity, freshKey, now)
      ensures r.Failure? ==> rows == old(rows)
    {
      var user := ActiveById(rows, identity);
      if user.None? {
        return Failure(404, UserNotFound, []);
      }
      if Rows.FirstMatch(rows, (u: User) => u.apiKey == Some(freshKey) && u.id != identity, 1, count + 1).Some? {
        return Failure(500, ApiKeyFailed, []);
      }
      IssueApiKeyKeepsInvariant(rows, count, identity, freshKey, now);
      rows := WithApiKey(rows, identity, freshKey, now);
      r := Success(200, ApiKeyGenerated, freshKey);
    }

    /** `update_user` (and `update_profile` when `profile`): change the fields present in `data`. */
    method UpdateUser(id: int, data: Payload, now: int, profile: bool) returns (r: Outcome<User>)
      requires Valid() && (ActiveById(rows, id).Some? ==> Validatable(data))
      modifies this
      ensures Valid() && count == old(count)
      ensures r == UpdateOutcome(old(rows), old(count), id, data, now, profile)
      ensures r.Success? ==> rows == old(rows)[id := r.value]
      ensures r.Failure? ==> rows == old(rows)
    {
      var user := ActiveById(rows, id);
      if user.None? {
        return Failure(404, UserNotFound, []);
      }
      if data == map[] {
        return Failure(400, BodyMustBeJson, []);
      }
      var errors := ValidateUserData(data, []);
      if errors != [] {
        return Failure(422, ValidationFailed, errors);
      }
      if EmailClash(rows, count, user.value, data) {
        return Failure(422, EmailExists, [EmailMustBeUnique]);
      }
      if !TextFields(data) {
        // a null, false, 0, [] or {} name or e-mail has no `strip`
        return Failure(500, if profile then ProfileUpdateFailed else UpdateFailed, []);
      }
      var updated := Patched(user.value, data, now);
      if HeldByOther(rows, count, id, updated.email) {
        return Failure(500, if profile then ProfileUpdateFailed else UpdateFailed, []);
      }
      ReplaceKeepsInvariant(rows, count, updated);
      rows := rows[id := updated];
      r := Success(200, if profile then ProfileUpdated else UserUpdated, updated);
    }

    /** `delete_user`: mark the row inactive; it stays in the table. */
    method DeleteUser(id: int, now: int) returns (r: Outcome<()>)
      requires Valid()
      modifies this
      ensures Valid() && count == old(count)
      ensures r == DeleteOutcome(old(rows), id)
      ensures r.Success? ==> rows == Deactivated(old(rows), id, now)
      ensures r.Failure? ==> rows == old(rows)
    {
      var user := ActiveById(rows, id);
      if user.None? {
        return Failure(404, UserNotFound, []);
      }
      ReplaceKeepsInvariant(rows, count, rows[id].(isActive := false, updatedAt := now));
      rows := Deactivated(rows, id, now);
      r := Success(204, UserDeleted, ());
    }
  }
}
