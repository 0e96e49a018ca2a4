/**
 * The user store: users keyed by their principal text. The main canister
 * and the controllers canister each keep one, with the same code.
 */
module Users {
  import W = Wrappers
  import T = Types
  import Table
  import opened Keys
  import opened Entities

  type UserTable = seq<(string, User)>

  /** Each user sits under their own principal text. */
  ghost predicate KeyedByPrincipal(t: UserTable) {
    forall i :: 0 <= i < |t| ==> t[i].1.userId.text == t[i].0
  }

  class UsersStore {
    /** `USERS`, in key order. */
    var users: UserTable

    ghost predicate Valid()
      reads this
    {
      Table.Sorted(users, StrLess) && KeyedByPrincipal(users)
    }

    constructor ()
      ensures Valid() && users == []
    {
      users := [];
    }

    /** `get_users`: every user, in key order. */
    function GetUsers(): (r: seq<User>)
      reads this
      ensures |r| == |users| && forall i :: 0 <= i < |r| ==> r[i] == users[i].1
    {
      Table.Values(users)
    }

    /** `get_user`: the caller's user, or `NotFound("USER_NOT_FOUND")`. */
    function GetUser(caller: T.Principal): (r: T.ApiResult<User>)
      reads this
      requires Valid()
      ensures r.Ok? <==> Table.Get(users, caller.text).Some?
      ensures r.Ok? ==> (caller.text, r.value) in users && r.value.userId.text == caller.text
      ensures r.Err? ==> r.error == T.NotFound("USER_NOT_FOUND")
    {
      match Table.Get(users, caller.text)
      case None => W.Err(T.NotFound("USER_NOT_FOUND"))
      case Some(u) =>
        var i :| 0 <= i < |users| && users[i] == (caller.text, u);
        W.Ok(u)
    }

    /**
     * `create_user`: fails with `AlreadyExists("USER_EXISTS")` when the caller
     * has a user; otherwise stores a user with no circuits, created now.
     */
    method CreateUser(caller: T.Principal, username: W.Option<string>, now: T.u64) returns (r: T.ApiResult<User>)
      requires Valid()
      modifies this
      ensures Valid()
      ensures r.Err? <==> Table.Get(old(users), caller.text).Some?
      ensures r.Err? ==> r.error == T.AlreadyExists("USER_EXISTS") && users == old(users)
      ensures r.Ok? ==> r.value == User(caller, username, now, [])
      ensures r.Ok? ==> users == Table.Put(old(users), caller.text, r.value, StrLess) && |users| == |old(users)| + 1
      ensures r.Ok? ==> GetUser(caller) == W.Ok(r.value)
      ensures Table.AgreeExcept(old(users), users, caller.text)
    {
      if Table.Get(users, caller.text).Some? {
        return W.Err(T.AlreadyExists("USER_EXISTS"));
      }
      var user := User(caller, username, now, []);
      StringOrder();
      forall k {
        Table.PutGet(users, caller.text, user, StrLess, k);
      }
      Table.PutSorted(users, caller.text, user, StrLess);
      Table.PutLength(users, caller.text, user, StrLess);
      Table.PutMembers(users, caller.text, user, StrLess);
      var updated := Table.Put(users, caller.text, user, StrLess);
      forall i | 0 <= i < |updated| ensures updated[i].1.userId.text == updated[i].0 {
        assert updated[i] in updated;
        if updated[i] != (caller.text, user) {
          var j :| 0 <= j < |users| && users[j] == updated[i];
        }
      }
      users := updated;
      return W.Ok(user);
    }
  }
}
