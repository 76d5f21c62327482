/**
 * `UserCRUD` of the FastAPI mini project (fast_api/mini_project/app/database/crud.py): the
 * `users` table as a map from id to row, with hard deletes, partial updates and lookups that
 * ignore `is_active`. Password hashing and verification are the `Database`'s function-valued
 * fields `hash` and `verifyPassword`.
 */
module Crud {
  import opened JsonValues
  import Rows

  /** A row of the `users` table; `name`, `email` and `is_active` can be set to NULL by an update. */
  datatype DbUser = DbUser(
    id: int,
    name: Option<string>,
    email: Option<string>,
    age: Option<int>,
    hashedPassword: string,
    isActive: Option<bool>)

  /** The `UserCreate` request schema. */
  datatype UserCreate = UserCreate(name: string, email: string, age: Option<int>, password: string)

  /** A field of an update request: left out, or explicitly set (possibly to null). */
  datatype Patch<T> = Unset | Set(value: Option<T>)

  /** The `UserUpdate` request schema, remembering which fields the client set. */
  datatype UserUpdate = UserUpdate(name: Patch<string>, email: Patch<string>, age: Patch<int>, isActive: Patch<bool>)

  const EmailAlreadyExists := "User with this email already exists"

  /** What `create_user` gives: the stored row, or the `ValueError` it raises. */
  datatype CreateResult = Created(user: DbUser) | Rejected(message: string)

  /**
   * What `update_user` gives: `None` for a missing id, the row as stored afterwards, or the
   * integrity error of the `UPDATE`, which it does not catch.
   */
  datatype UpdateResult = NoSuchUser | Updated(user: DbUser) | UpdateRejected

  /** Rows sit at their own ids, below the next id to assign. */
  ghost predicate IdsBelow(rows: map<int, DbUser>, nextId: int)
  {
    forall id :: id in rows ==> 1 <= id < nextId && rows[id].id == id
  }

  /** The unique constraint on `email` (NULLs do not collide). */
  ghost predicate UniqueEmails(rows: map<int, DbUser>)
  {
    forall i, j :: i in rows && j in rows && rows[i].email.Some? && rows[i].email == rows[j].email ==> i == j
  }

  /**
   * `nextId` is the rowid SQLite gives the next insert into a table whose integer primary key
   * has no AUTOINCREMENT: one more than the largest id in use, 1 for an empty table.
   */
  ghost predicate StoreInvariant(rows: map<int, DbUser>, nextId: int)
  {
    nextId >= 1 && IdsBelow(rows, nextId) && (nextId == 1 || nextId - 1 in rows) && UniqueEmails(rows)
  }

  /** The largest id in `rows` that is at most `n`, or 0 when there is none. */
  function HighestId(rows: map<int, DbUser>, n: nat): (h: nat)
    ensures h <= n && (h == 0 || h in rows)
    ensures forall id :: h < id <= n ==> id !in rows
  {
    if n == 0 then 0 else if n in rows then n else HighestId(rows, n - 1)
  }

  /** The next rowid once `id` is deleted: deleting the row with the largest id frees that id again. */
  function NextIdAfterDelete(rows: map<int, DbUser>, nextId: int, id: int): (n: int)
    requires StoreInvariant(rows, nextId) && id in rows
    ensures StoreInvariant(rows - {id}, n)
    ensures id < nextId - 1 ==> n == nextId
    ensures id == nextId - 1 ==> n <= id && (id - 1 in rows || id == 1 ==> n == id)
  {
    var h := HighestId(rows - {id}, nextId - 1);
    assert id == nextId - 1 && 1 < id && id - 1 in rows ==> h == HighestId(rows - {id}, id - 1) == id - 1;
    h + 1
  }

  // ---------------------------------------------------------------------------------------
  // Reads
  // ---------------------------------------------------------------------------------------

  /** `get_user_by_id`: the row with that id, whatever its `is_active`. */
  function UserById(rows: map<int, DbUser>, id: int): (r: Option<DbUser>)
    ensures r.Some? <==> id in rows
    ensures r.Some? ==> r.value == rows[id]
  {
    if id in rows then Some(rows[id]) else None
  }

  /** `get_user_by_email`: the row whose e-mail equals `email`, whatever its `is_active`. */
  function UserByEmail(rows: map<int, DbUser>, nextId: int, email: string): (r: Option<DbUser>)
    requires StoreInvariant(rows, nextId)
    ensures r.Some? ==> r.value.id in rows && rows[r.value.id] == r.value && r.value.email == Some(email)
    ensures r.None? <==> forall id :: id in rows ==> rows[id].email != Some(email)
  {
    match Rows.FirstMatch(rows, (u: DbUser) => u.email == Some(email), 1, nextId)
    case None => None
    case Some(id) => Some(rows[id])
  }

  /** All rows by ascending id, the order in which SQLite returns an unordered `SELECT`. */
  function AllUsers(rows: map<int, DbUser>, nextId: int): seq<DbUser>
  {
    Rows.RowsBetween(rows, 1, nextId)
  }

  /** `get_users`: `OFFSET skip LIMIT limit` over all rows. */
  function UsersPage(rows: map<int, DbUser>, nextId: int, skip: nat, limit: nat): (r: seq<DbUser>)
    ensures var all := AllUsers(rows, nextId);
      && |r| == (if skip >= |all| then 0 else if |all| - skip < limit then |all| - skip else limit)
      && forall i :: 0 <= i < |r| ==> skip + i < |all| && r[i] == all[skip + i]
  {
    var all := AllUsers(rows, nextId);
    if skip >= |all| then []
    else all[skip..if |all| - skip < limit then |all| else skip + limit]
  }

  /** `authenticate_user`: the row with that e-mail if the password verifies; `is_active` is not looked at. */
  function Authenticate(rows: map<int, DbUser>, nextId: int, verifyPassword: (string, string) -> bool,
                        email: string, password: string): (r: Option<DbUser>)
    requires StoreInvariant(rows, nextId)
    ensures r.Some? ==> r.value.id in rows && rows[r.value.id] == r.value && r.value.email == Some(email)
                        && verifyPassword(password, r.value.hashedPassword)
    ensures r.None? <==> forall id :: id in rows && rows[id].email == Some(email) ==> !verifyPassword(password, rows[id].hashedPassword)
  {
    match UserByEmail(rows, nextId, email)
    case None => None
    case Some(user) => if verifyPassword(password, user.hashedPassword) then Some(user) else None
  }

  // ---------------------------------------------------------------------------------------
  // Writes, as decisions over the rows
  // ---------------------------------------------------------------------------------------

  /** Some row other than `except` holds the non-null e-mail `email`. */
  predicate EmailHeldByOther(rows: map<int, DbUser>, email: Option<string>, except: int)
  {
    email.Some? && exists id | id in rows :: id != except && rows[id].email == email
  }

  /** The row `create_user` inserts: the hash of the password, never the password itself. */
  function NewRow(id: int, data: UserCreate, hash: string -> string): (u: DbUser)
    ensures u.id == id && u.hashedPassword == hash(data.password) && u.isActive == Some(true)
    ensures u.name == Some(data.name) && u.email == Some(data.email) && u.age == data.age
  {
    DbUser(id, Some(data.name), Some(data.email), data.age, hash(data.password), Some(true))
  }

  /** `create_user`: the insert fails on the unique e-mail and is rolled back. */
  function CreateOutcome(rows: map<int, DbUser>, nextId: int, data: UserCreate, hash: string -> string): (r: CreateResult)
    requires StoreInvariant(rows, nextId)
    ensures r.Rejected? <==> exists id :: id in rows && rows[id].email == Some(data.email)
    ensures r.Rejected? ==> r.message == EmailAlreadyExists
    ensures r.Created? ==> r.user == NewRow(nextId, data, hash) && StoreInvariant(rows[nextId := r.user], nextId + 1)
  {
    if EmailHeldByOther(rows, Some(data.email), nextId) then Rejected(EmailAlreadyExists)
    else Created(NewRow(nextId, data, hash))
  }

  /** The client set no field: `model_dump(exclude_unset=True)` is empty. */
  predicate NothingSet(data: UserUpdate)
  {
    data.name.Unset? && data.email.Unset? && data.age.Unset? && data.isActive.Unset?
  }

  function ApplyField<T>(p: Patch<T>, current: Option<T>): Option<T>
  {
    if p.Set? then p.value else current
  }

  /** The row with the fields the client set written over it, null included. */
  function ApplyUpdate(u: DbUser, data: UserUpdate): (v: DbUser)
    ensures v.id == u.id && v.hashedPassword == u.hashedPassword
    ensures data.name.Unset? ==> v.name == u.name
    ensures data.email.Unset? ==> v.email == u.email
    ensures data.age.Unset? ==> v.age == u.age
    ensures data.isActive.Unset? ==> v.isActive == u.isActive
    ensures data.name.Set? ==> v.name == data.name.value
    ensures data.email.Set? ==> v.email == data.email.value
    ensures data.age.Set? ==> v.age == data.age.value
    ensures data.isActive.Set? ==> v.isActive == data.isActive.value
  {
    u.(name := ApplyField(data.name, u.name),
       email := ApplyField(data.email, u.email),
       age := ApplyField(data.age, u.age),
       isActive := ApplyField(data.isActive, u.isActive))
  }

  /** Applying the same update twice is applying it once. */
  lemma ApplyUpdateIdempotent(u: DbUser, data: UserUpdate)
    ensures ApplyUpdate(ApplyUpdate(u, data), data) == ApplyUpdate(u, data)
  {
  }

  /** The e-mail the row would have after the update. */
  function EmailAfter(u: DbUser, data: UserUpdate): Option<string>
  {
    ApplyField(data.email, u.email)
  }

  /**
   * `update_user`: `None` for a missing id; no write at all for an empty payload; otherwise an
   * `UPDATE` of exactly the fields set, which the unique e-mail can reject.
   */
  function UpdateOutcome(rows: map<int, DbUser>, id: int, data: UserUpdate): (r: UpdateResult)
    ensures r.NoSuchUser? <==> id !in rows
    ensures id in rows && NothingSet(data) ==> r == Updated(rows[id])
    ensures r.UpdateRejected? <==>
      id in rows && !NothingSet(data) && EmailHeldByOther(rows, EmailAfter(rows[id], data), id)
    ensures r.Updated? ==> id in rows && r.user == ApplyUpdate(rows[id], data)
  {
    if id !in rows then NoSuchUser
    else if NothingSet(data) then Updated(rows[id])
    else
      var updated := ApplyUpdate(rows[id], data);
      if EmailHeldByOther(rows, updated.email, id) then UpdateRejected else Updated(updated)
  }

  /** An accepted update keeps the store's invariant. */
  lemma UpdateKeepsInvariant(rows: map<int, DbUser>, nextId: int, id: int, data: UserUpdate)
    requires StoreInvariant(rows, nextId)
    requires UpdateOutcome(rows, id, data).Updated?
    ensures StoreInvariant(rows[id := UpdateOutcome(rows, id, data).user], nextId)
  {
  }

  /**
   * Whoever was created can authenticate with the same e-mail and password, provided the
   * verifier accepts each password against its own hash.
   */
  lemma CreateThenAuthenticate(rows: map<int, DbUser>, nextId: int, data: UserCreate,
                               hash: string -> string, verifyPassword: (string, string) -> bool)
    requires StoreInvariant(rows, nextId)
    requires forall p :: verifyPassword(p, hash(p))
    requires CreateOutcome(rows, nextId, data, hash).Created?
    ensures var u := CreateOutcome(rows, nextId, data, hash).user;
      Authenticate(rows[nextId := u], nextId + 1, verifyPassword, data.email, data.password) == Some(u)
  {
    var u := CreateOutcome(rows, nextId, data, hash).user;
    var after := rows[nextId := u];
    var found := UserByEmail(after, nextId + 1, data.email);
    assert after[nextId].email == Some(data.email);
    assert found.Some?;
    assert found.value.id == nextId;
  }

  /** After a delete the id is gone for every lookup, and nothing else changed. */
  lemma DeleteIsHard(rows: map<int, DbUser>, nextId: int, id: int, email: string)
    requires StoreInvariant(rows, nextId) && id in rows
    ensures UserById(rows - {id}, id) == None
    ensures rows[id].email == Some(email) ==>
      UserByEmail(rows - {id}, NextIdAfterDelete(rows, nextId, id), email) == None
    ensures forall other :: other != id ==> UserById(rows - {id}, other) == UserById(rows, other)
  {
  }

  // ---------------------------------------------------------------------------------------
  // The store, updated in place
  // ---------------------------------------------------------------------------------------

  class Database {
    var rows: map<int, DbUser>
    var nextId: int
    const hash: string -> string
    const verifyPassword: (string, string) -> bool

    ghost predicate Valid()
      reads this
    {
      StoreInvariant(rows, nextId)
    }

    constructor (hash: string -> string, verifyPassword: (string, string) -> bool)
      ensures Valid() && rows == map[] && nextId == 1
      ensures this.hash == hash && this.verifyPassword == verifyPassword
    {
      rows := map[];
      nextId := 1;
      this.hash := hash;
      this.verifyPassword := verifyPassword;
    }

    /** `create_user`: add the row and commit; on the integrity error, roll back and raise. */
    method CreateUser(data: UserCreate) returns (r: CreateResult)
      requires Valid()
      modifies this
      ensures Valid()
      ensures r == CreateOutcome(old(rows), old(nextId), data, hash)
      ensures r.Created? ==> rows == old(rows)[old(nextId) := r.user] && nextId == old(nextId) + 1
      ensures r.Rejected? ==> rows == old(rows) && nextId == old(nextId)
    {
      if EmailHeldByOther(rows, Some(data.email), nextId) {
        return Rejected(EmailAlreadyExists);
      }
      var user := NewRow(nextId, data, hash);
      rows := rows[nextId := user];
      nextId := nextId + 1;
      r := Created(user);
    }

    /** `update_user`: look the row up, then write the fields that were set, if any. */
    method UpdateUser(id: int, data: UserUpdate) returns (r: UpdateResult)
      requires Valid()
      modifies this
      ensures Valid() && nextId == old(nextId)
      ensures r == UpdateOutcome(old(rows), id, data)
      ensures r.Updated? ==> rows == old(rows)[id := r.user]
      ensures !r.Updated? ==> rows == old(rows)
    {
      var user := UserById(rows, id);
      if user.None? {
        return NoSuchUser;
      }
      if NothingSet(data) {
        return Updated(user.value);
      }
      var updated := ApplyUpdate(user.value, data);
      if EmailHeldByOther(rows, updated.email, id) {
        return UpdateRejected;
      }
      UpdateKeepsInvariant(rows, nextId, id, data);
      rows := rows[id := updated];
      r := Updated(updated);
    }

    /** `delete_user`: `False` for a missing id; otherwise the row is removed. */
    method DeleteUser(id: int) returns (deleted: bool)
      requires Valid()
      modifies this
      ensures Valid()
      ensures deleted <==> id in old(rows)
      ensures rows == old(rows) - {id}
      ensures nextId == if deleted then NextIdAfterDelete(old(rows), old(nextId), id) else old(nextId)
    {
      if id !in rows {
        return false;
      }
      nextId := NextIdAfterDelete(rows, nextId, id);
      rows := rows - {id};
      deleted := true;
    }
  }
}
