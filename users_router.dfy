/**
 * The `/users` routes of the FastAPI mini project
 * (fast_api/mini_project/app/routers/users.py). Every route first resolves the current active
 * user; update and delete then allow only the user's own id, before the store is touched.
 */
module UsersRouter {
  import opened JsonValues
  import opened Crud
  import opened AuthDependencies

  /** A route's answer: the response body, or an HTTP error with its detail. */
  datatype Response<T> = Ok(value: T) | HttpError(status: int, detail: string)

  const UserNotFound := "User not found"
  const OnlyOwnProfile := "You can only update your own profile"
  const OnlyOwnAccount := "You can only delete your own account"
  const UserDeletedMessage := "User deleted successfully"
  /** The 422 of FastAPI's query validation; its detail lists the failing constraints. */
  const QueryOutOfRange := "Query parameter out of range"
  /** An exception the route does not catch. */
  const InternalServerError := "Internal Server Error"
  const MaxLimit := 1000

  /**
   * The row fits the `UserResponse` schema, whose `name`, `email` and `is_active` are not
   * optional: a row an update has set one of them to null on fails response validation.
   */
  predicate Presentable(u: DbUser)
  {
    u.name.Some? && u.email.Some? && u.isActive.Some?
  }

  predicate AllPresentable(us: seq<DbUser>)
  {
    forall i :: 0 <= i < |us| ==> Presentable(us[i])
  }

  /** The `skip` and `limit` query constraints: `skip >= 0`, `1 <= limit <= 1000`. */
  predicate QueryInRange(skip: int, limit: int)
  {
    skip >= 0 && 1 <= limit <= MaxLimit
  }

  /** `GET /users/`: the `skip`/`limit` page of all users, for an active caller. */
  function ListUsers(rows: map<int, DbUser>, nextId: int, subject: Option<string>, skip: int, limit: int): (r: Response<seq<DbUser>>)
    requires StoreInvariant(rows, nextId)
    ensures CurrentActiveUser(rows, nextId, subject).Refused? ==>
      r == HttpError(CurrentActiveUser(rows, nextId, subject).status, CurrentActiveUser(rows, nextId, subject).detail)
    ensures CurrentActiveUser(rows, nextId, subject).Resolved? && !QueryInRange(skip, limit) ==>
      r == HttpError(422, QueryOutOfRange)
    ensures CurrentActiveUser(rows, nextId, subject).Resolved? && QueryInRange(skip, limit)
            && !AllPresentable(UsersPage(rows, nextId, skip, limit)) ==>
      r == HttpError(500, InternalServerError)
    ensures r.Ok? <==>
      && CurrentActiveUser(rows, nextId, subject).Resolved? && QueryInRange(skip, limit)
      && AllPresentable(UsersPage(rows, nextId, skip, limit))
    ensures r.Ok? ==> r.value == UsersPage(rows, nextId, skip, limit) && |r.value| <= limit
  {
    match CurrentActiveUser(rows, nextId, subject)
    case Refused(status, detail) => HttpError(status, detail)
    case Resolved(_) =>
      if !QueryInRange(skip, limit) then HttpError(422, QueryOutOfRange)
      else
        var page := UsersPage(rows, nextId, skip, limit);
        if !AllPresentable(page) then HttpError(500, InternalServerError) else Ok(page)
  }

  /** `GET /users/{user_id}`: any user, active or not, for an active caller; 404 for a missing id. */
  function GetUser(rows: map<int, DbUser>, nextId: int, subject: Option<string>, userId: int): (r: Response<DbUser>)
    requires StoreInvariant(rows, nextId)
    ensures CurrentActiveUser(rows, nextId, subject).Refused? ==>
      r == HttpError(CurrentActiveUser(rows, nextId, subject).status, CurrentActiveUser(rows, nextId, subject).detail)
    ensures CurrentActiveUser(rows, nextId, subject).Resolved? ==>
      && (r.Ok? <==> userId in rows && Presentable(rows[userId]))
      && (r.Ok? ==> r.value == rows[userId])
      && (userId !in rows ==> r == HttpError(404, UserNotFound))
      && (userId in rows && !Presentable(rows[userId]) ==> r == HttpError(500, InternalServerError))
  {
    match CurrentActiveUser(rows, nextId, subject)
    case Refused(status, detail) => HttpError(status, detail)
    case Resolved(_) =>
      match UserById(rows, userId)
      case None => HttpError(404, UserNotFound)
      case Some(user) => if Presentable(user) then Ok(user) else HttpError(500, InternalServerError)
  }

  /** The store is written only when the caller is active and acts on its own id. */
  predicate MayWrite(rows: map<int, DbUser>, nextId: int, subject: Option<string>, userId: int)
    requires StoreInvariant(rows, nextId)
  {
    CurrentActiveUser(rows, nextId, subject).Resolved? && CurrentActiveUser(rows, nextId, subject).user.id == userId
  }

  /**
   * `PUT /users/{user_id}`: 403 for another user's id; 404 when the store finds no row; 500
   * when the store rejects the e-mail, or when the row it wrote no longer fits `UserResponse`.
   */
  function UpdateResponse(rows: map<int, DbUser>, nextId: int, subject: Option<string>, userId: int, data: UserUpdate): (r: Response<DbUser>)
    requires StoreInvariant(rows, nextId)
    ensures CurrentActiveUser(rows, nextId, subject).Refused? ==>
      r == HttpError(CurrentActiveUser(rows, nextId, subject).status, CurrentActiveUser(rows, nextId, subject).detail)
    ensures CurrentActiveUser(rows, nextId, subject).Resolved? && !MayWrite(rows, nextId, subject, userId) ==>
      r == HttpError(403, OnlyOwnProfile)
    ensures MayWrite(rows, nextId, subject, userId) && UpdateOutcome(rows, userId, data).Updated?
            && !Presentable(UpdateOutcome(rows, userId, data).user) ==>
      r == HttpError(500, InternalServerError)
    ensures MayWrite(rows, nextId, subject, userId) && UpdateOutcome(rows, userId, data).UpdateRejected? ==>
      r == HttpError(500, InternalServerError)
    ensures r.Ok? <==>
      && MayWrite(rows, nextId, subject, userId) && UpdateOutcome(rows, userId, data).Updated?
      && Presentable(UpdateOutcome(rows, userId, data).user)
    ensures r.Ok? ==> r.value == UpdateOutcome(rows, userId, data).user
  {
    match CurrentActiveUser(rows, nextId, subject)
    case Refused(status, detail) => HttpError(status, detail)
    case Resolved(current) =>
      if current.id != userId then HttpError(403, OnlyOwnProfile)
      else
        match UpdateOutcome(rows, userId, data)
        case NoSuchUser => HttpError(404, UserNotFound)
        case UpdateRejected => HttpError(500, InternalServerError)
        case Updated(user) => if Presentable(user) then Ok(user) else HttpError(500, InternalServerError)
  }

  /** `DELETE /users/{user_id}`: 403 for another user's id; 404 when the store deletes nothing. */
  function DeleteResponse(rows: map<int, DbUser>, nextId: int, subject: Option<string>, userId: int): (r: Response<string>)
    requires StoreInvariant(rows, nextId)
    ensures CurrentActiveUser(rows, nextId, subject).Refused? ==>
      r == HttpError(CurrentActiveUser(rows, nextId, subject).status, CurrentActiveUser(rows, nextId, subject).detail)
    ensures CurrentActiveUser(rows, nextId, subject).Resolved? && !MayWrite(rows, nextId, subject, userId) ==>
      r == HttpError(403, OnlyOwnAccount)
    ensures r.Ok? <==> MayWrite(rows, nextId, subject, userId) && userId in rows
    ensures r.Ok? ==> r.value == UserDeletedMessage
  {
    match CurrentActiveUser(rows, nextId, subject)
    case Refused(status, detail) => HttpError(status, detail)
    case Resolved(current) =>
      if current.id != userId then HttpError(403, OnlyOwnAccount)
      else if userId !in rows then HttpError(404, UserNotFound)
      else Ok(UserDeletedMessage)
  }

  /**
   * The caller's own row always exists when the guards pass, so the 404 branches of update and
   * delete cannot be reached: an update succeeds unless the unique e-mail rejects it or it
   * leaves the row outside `UserResponse`.
   */
  lemma OwnRowIsNeverMissing(rows: map<int, DbUser>, nextId: int, subject: Option<string>, userId: int, data: UserUpdate)
    requires StoreInvariant(rows, nextId)
    ensures UpdateResponse(rows, nextId, subject, userId, data) != HttpError(404, UserNotFound)
    ensures DeleteResponse(rows, nextId, subject, userId) != HttpError(404, UserNotFound)
    ensures MayWrite(rows, nextId, subject, userId) ==>
      (UpdateResponse(rows, nextId, subject, userId, data).Ok? <==>
         !UpdateOutcome(rows, userId, data).UpdateRejected? && Presentable(ApplyUpdate(rows[userId], data)))
  {
    var current := CurrentActiveUser(rows, nextId, subject);
    if current.Resolved? {
      ActsOnlyAsActiveSubject(rows, nextId, subject);
    }
  }

  /**
   * A user who may update an account with no field set gets the row back unchanged, unless an
   * earlier update left its name or e-mail null.
   */
  lemma EmptyUpdateReturnsOwnRow(rows: map<int, DbUser>, nextId: int, subject: Option<string>, userId: int, data: UserUpdate)
    requires StoreInvariant(rows, nextId)
    requires MayWrite(rows, nextId, subject, userId) && NothingSet(data)
    ensures var own := CurrentActiveUser(rows, nextId, subject).user;
      UpdateResponse(rows, nextId, subject, userId, data) ==
        if Presentable(own) then Ok(own) else HttpError(500, InternalServerError)
  {
    ActsOnlyAsActiveSubject(rows, nextId, subject);
  }

  /** `update_user` with the store: guards first, then the store's update. */
  method UpdateUser(db: Database, subject: Option<string>, userId: int, data: UserUpdate) returns (r: Response<DbUser>)
    requires db.Valid()
    modifies db
    ensures db.Valid() && db.nextId == old(db.nextId)
    ensures r == UpdateResponse(old(db.rows), old(db.nextId), subject, userId, data)
    ensures var outcome := UpdateOutcome(old(db.rows), userId, data);
      db.rows == if MayWrite(old(db.rows), old(db.nextId), subject, userId) && outcome.Updated?
                 then old(db.rows)[userId := outcome.user] else old(db.rows)
  {
    var current := CurrentActiveUser(db.rows, db.nextId, subject);
    if current.Refused? {
      return HttpError(current.status, current.detail);
    }
    if current.user.id != userId {
      return HttpError(403, OnlyOwnProfile);
    }
    var updated := db.UpdateUser(userId, data);
    match updated
    case NoSuchUser => r := HttpError(404, UserNotFound);
    case UpdateRejected => r := HttpError(500, InternalServerError);
    case Updated(user) =>
      // the commit has happened; response validation can still fail
      r := if Presentable(user) then Ok(user) else HttpError(500, InternalServerError);
  }

  /** `delete_user` with the store: guards first, then the store's delete. */
  method DeleteUser(db: Database, subject: Option<string>, userId: int) returns (r: Response<string>)
    requires db.Valid()
    modifies db
    ensures db.Valid()
    ensures r == DeleteResponse(old(db.rows), old(db.nextId), subject, userId)
    ensures MayWrite(old(db.rows), old(db.nextId), subject, userId) ==>
      db.rows == old(db.rows) - {userId} && db.nextId == NextIdAfterDelete(old(db.rows), old(db.nextId), userId)
    ensures !MayWrite(old(db.rows), old(db.nextId), subject, userId) ==> db.rows == old(db.rows) && db.nextId == old(db.nextId)
  {
    var current := CurrentActiveUser(db.rows, db.nextId, subject);
    if current.Refused? {
      return HttpError(current.status, current.detail);
    }
    if current.user.id != userId {
      return HttpError(403, OnlyOwnAccount);
    }
    var deleted := db.DeleteUser(userId);
    if !deleted {
      return HttpError(404, UserNotFound);
    }
    r := Ok(UserDeletedMessage);
  }
}
