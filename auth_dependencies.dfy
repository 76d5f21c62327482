/**
 * The current-user dependencies of the FastAPI mini project
 * (fast_api/mini_project/app/auth/dependencies.py). Token verification is not modelled: the
 * caller passes what it yields, the subject e-mail of a valid token or `None`.
 */
module AuthDependencies {
  import opened JsonValues
  import opened Crud

  const CouldNotValidate := "Could not validate credentials"
  const InactiveUser := "Inactive user"

  /** The user a request acts as, or the HTTP error that ends it. */
  datatype Resolution = Resolved(user: DbUser) | Refused(status: int, detail: string)

  /** `get_current_user`: the row whose e-mail is the token's subject; 401 otherwise. */
  function CurrentUser(rows: map<int, DbUser>, nextId: int, subject: Option<string>): (r: Resolution)
    requires StoreInvariant(rows, nextId)
    ensures r.Refused? ==> r == Refused(401, CouldNotValidate)
    ensures r.Resolved? <==> subject.Some? && exists id :: id in rows && rows[id].email == subject
    ensures r.Resolved? ==> r.user.id in rows && rows[r.user.id] == r.user && r.user.email == subject
  {
    if subject.None? then Refused(401, CouldNotValidate)
    else
      match UserByEmail(rows, nextId, subject.value)
      case None => Refused(401, CouldNotValidate)
      case Some(user) => Resolved(user)
  }

  /** `is_active` is true: NULL and false both count as inactive. */
  predicate IsActive(u: DbUser)
  {
    u.isActive == Some(true)
  }

  /** `get_current_active_user`: the current user if active; 400 for an inactive one. */
  function CurrentActiveUser(rows: map<int, DbUser>, nextId: int, subject: Option<string>): (r: Resolution)
    requires StoreInvariant(rows, nextId)
    ensures CurrentUser(rows, nextId, subject).Refused? ==> r == CurrentUser(rows, nextId, subject)
    ensures CurrentUser(rows, nextId, subject).Resolved? && !IsActive(CurrentUser(rows, nextId, subject).user) ==>
      r == Refused(400, InactiveUser)
    ensures r.Resolved? <==> CurrentUser(rows, nextId, subject).Resolved? && IsActive(CurrentUser(rows, nextId, subject).user)
    ensures r.Resolved? ==> r == CurrentUser(rows, nextId, subject)
  {
    match CurrentUser(rows, nextId, subject)
    case Refused(status, detail) => Refused(status, detail)
    case Resolved(user) => if IsActive(user) then Resolved(user) else Refused(400, InactiveUser)
  }

  /** The only users a request can act as are stored, active rows whose e-mail is the subject. */
  lemma {:induction false} ActsOnlyAsActiveSubject(rows: map<int, DbUser>, nextId: int, subject: Option<string>)
    requires StoreInvariant(rows, nextId)
    requires CurrentActiveUser(rows, nextId, subject).Resolved?
    ensures var u := CurrentActiveUser(rows, nextId, subject).user;
      u.id in rows && rows[u.id] == u && u.email == subject && IsActive(u)
      && forall id :: id in rows && rows[id].email == subject ==> id == u.id
  {
    var u := CurrentActiveUser(rows, nextId, subject).user;
    assert u == CurrentUser(rows, nextId, subject).user;
  }
}
