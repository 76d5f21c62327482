/**
 * The in-memory Flask service (rest_api/app.py): a module-level dict from integer ids to
 * whatever JSON the client posted. New ids are `len(users) + 1`, so after a deletion a new
 * user can land on an id that is still taken and replace it.
 */
module FlaskMemoryApi {
  import opened JsonValues

  /** What a route answers. */
  datatype Reply =
    | AllUsers(users: map<int, Json>)
    | Fetched(user: Json)
    | Created(id: int, user: Json)
    | Updated(user: Json)
    | Deleted(user: Json)
    | NotFound

  /** The HTTP status of a reply. */
  function Status(r: Reply): (status: int)
    ensures status == 404 <==> r.NotFound?
    ensures status == 201 <==> r.Created?
  {
    match r
    case Created(_, _) => 201
    case NotFound => 404
    case _ => 200
  }

  /** The ids in use are exactly 1..n. */
  ghost predicate IdsUpTo(m: map<int, Json>, n: nat)
  {
    forall i :: i in m <==> 1 <= i <= n
  }

  /** A dict whose ids are exactly 1..n holds n users. */
  lemma {:induction false} DenseSize(m: map<int, Json>, n: nat)
    requires IdsUpTo(m, n)
    ensures |m| == n
  {
    if n == 0 {
      assert forall i :: i !in m;
      assert m == map[];
    } else {
      var rest := m - {n};
      assert IdsUpTo(rest, n - 1);
      DenseSize(rest, n - 1);
      assert m.Keys == rest.Keys + {n};
      assert |m.Keys| == |rest.Keys| + 1;
    }
  }

  /** The dict after `create_user` posts `data`: it is written at `len(users) + 1`. */
  function AfterCreate(m: map<int, Json>, data: Json): map<int, Json>
  {
    m[|m| + 1 := data]
  }

  /** Creating grows the dict by one exactly when `len(users) + 1` is a free id. */
  lemma CreateGrowsIffFresh(m: map<int, Json>, data: Json)
    ensures |AfterCreate(m, data)| == |m| + 1 <==> |m| + 1 !in m
    ensures |m| + 1 in m ==> |AfterCreate(m, data)| == |m|
  {
    if |m| + 1 in m {
      assert AfterCreate(m, data).Keys == m.Keys;
    } else {
      assert AfterCreate(m, data).Keys == m.Keys + {|m| + 1};
    }
  }

  /**
   * After users 1..n were created and one of 1..n-1 was deleted, the next creation gets id n,
   * which is still taken: user n is replaced and the dict does not grow.
   */
  lemma {:induction false} DeleteThenCreateOverwrites(m: map<int, Json>, n: nat, k: int, data: Json)
    requires IdsUpTo(m, n)
    requires 1 <= k < n
    ensures var after := AfterCreate(m - {k}, data);
      && |m - {k}| + 1 == n
      && n in m - {k}
      && after[n] == data
      && |after| == |m - {k}|
      && after.Keys == (m - {k}).Keys
  {
    var rest := m - {k};
    DenseSize(m, n);
    assert m.Keys == rest.Keys + {k};
    assert |rest| == n - 1;
  }

  /** The module-level `users` dict and the routes over it. */
  class UserStore {
    var users: map<int, Json>

    constructor ()
      ensures users == map[]
    {
      users := map[];
    }

    /** `get_users`: the whole dict, as stored. */
    function GetUsers(): (r: Reply)
      reads this
      ensures r.AllUsers? && r.users == users
    {
      AllUsers(users)
    }

    /** `get_user`: 404 when the id is absent or its value is falsy (null, "", 0, [], {} ...). */
    function GetUser(id: int): (r: Reply)
      reads this
      ensures r.NotFound? <==> id !in users || !Truthy(users[id])
      ensures !r.NotFound? ==> r == Fetched(users[id])
    {
      if id in users && Truthy(users[id]) then Fetched(users[id]) else NotFound
    }

    /** `create_user`: store the body at `len(users) + 1`, replacing what is there. */
    method CreateUser(data: Json) returns (r: Reply)
      modifies this
      ensures r == Created(|old(users)| + 1, data)
      ensures users == AfterCreate(old(users), data)
    {
      var id := |users| + 1;
      users := users[id := data];
      r := Created(id, data);
    }

    /** `update_user`: replace the whole value of an existing id. */
    method UpdateUser(id: int, data: Json) returns (r: Reply)
      modifies this
      ensures id !in old(users) ==> r == NotFound && users == old(users)
      ensures id in old(users) ==> r == Updated(data) && users == old(users)[id := data]
    {
      if id !in users {
        return NotFound;
      }
      users := users[id := data];
      r := Updated(data);
    }

    /** `delete_user`: remove an existing id and return what it held. */
    method DeleteUser(id: int) returns (r: Reply)
      modifies this
      ensures id !in old(users) ==> r == NotFound && users == old(users)
      ensures id in old(users) ==> r == Deleted(old(users)[id]) && users == old(users) - {id}
    {
      if id !in users {
        return NotFound;
      }
      var deleted := users[id];
      users := users - {id};
      r := Deleted(deleted);
    }
  }
}
