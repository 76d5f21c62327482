/**
 * The in-memory FastAPI service (fast_api/main2.py): a module-level dict from client-chosen
 * integer ids to validated `User` records.
 */
module FastApiMemory {
  import opened JsonValues

  /** The request model: a name, an age and an optional e-mail. */
  datatype User = User(name: string, age: int, email: Option<string>)

  /** What a route answers. */
  datatype Reply =
    | Created(user: User)
    | Found(user: User)
    | Updated(user: User)
    | Deleted(user: User)
    | Listed(users: map<int, User>)
    | AlreadyExists
    | NotFound

  /** The HTTP status of a reply, with the error details the routes raise. */
  function Status(r: Reply): (status: int)
    ensures status == 400 <==> r.AlreadyExists?
    ensures status == 404 <==> r.NotFound?
  {
    match r
    case AlreadyExists => 400
    case NotFound => 404
    case _ => 200
  }

  /** The `detail` of the `HTTPException` a route raises; successful replies carry none. */
  function Detail(r: Reply): (d: string)
    ensures d != "" <==> Status(r) != 200
    ensures Status(r) == 400 ==> d == "User ID already exists"
    ensures Status(r) == 404 ==> d == "User not found"
  {
    match r
    case AlreadyExists => "User ID already exists"
    case NotFound => "User not found"
    case _ => ""
  }

  /** Creating a user at a free id and then deleting it gives back the original dict. */
  lemma CreateThenDeleteRestores(m: map<int, User>, id: int, u: User)
    requires id !in m
    ensures (m[id := u] - {id}) == m
    ensures |m[id := u]| == |m| + 1
  {
    assert (m[id := u]).Keys == m.Keys + {id};
  }

  /** The module-level `users` dict and the routes over it. */
  class UserStore {
    var users: map<int, User>

    constructor ()
      ensures users == map[]
    {
      users := map[];
    }

    /** `create_user`: 400 for a taken id; otherwise exactly that id is added. */
    method CreateUser(id: int, user: User) returns (r: Reply)
      modifies this
      ensures id in old(users) ==> r == AlreadyExists && users == old(users)
      ensures id !in old(users) ==> r == Created(user) && users == old(users)[id := user]
      ensures id !in old(users) ==> |users| == |old(users)| + 1
    {
      if id in users {
        return AlreadyExists;
      }
      CreateThenDeleteRestores(users, id, user);
      users := users[id := user];
      r := Created(user);
    }

    /** `read_user`: the stored user, or 404. */
    function ReadUser(id: int): (r: Reply)
      reads this
      ensures r.NotFound? <==> id !in users
      ensures id in users ==> r == Found(users[id])
    {
      if id in users then Found(users[id]) else NotFound
    }

    /** `update_user`: 404 for an absent id (nothing is inserted); otherwise the value is replaced. */
    method UpdateUser(id: int, user: User) returns (r: Reply)
      modifies this
      ensures id !in old(users) ==> r == NotFound && users == old(users)
      ensures id in old(users) ==> r == Updated(user) && users == old(users)[id := user]
      ensures users.Keys == old(users).Keys
    {
      if id !in users {
        return NotFound;
      }
      users := users[id := user];
      r := Updated(user);
    }

    /** `delete_user`: 404 for an absent id; otherwise exactly that id is removed and returned. */
    method DeleteUser(id: int) returns (r: Reply)
      modifies this
      ensures id !in old(users) ==> r == NotFound && users == old(users)
      ensures id in old(users) ==> r == Deleted(old(users)[id]) && users == old(users) - {id}
    {
      if id !in users {
        return NotFound;
      }
      var deleted := users[id];
      users := users - {id};
      r := Deleted(deleted);
    }

    /** `list_users`: the whole dict. */
    function ListUsers(): (r: Reply)
      reads this
      ensures r.Listed? && r.users == users
    {
      Listed(users)
    }
  }
}
