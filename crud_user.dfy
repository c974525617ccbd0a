/** The service functions over the `users` table. */
module UserCrud {
  import opened Wrappers
  import opened Models
  import opened Schemas
  import opened Db

  /** The outcome of `update_user`: the new read view, None for an absent
      id, or the integrity error the UNIQUE constraints raise at commit. */
  datatype UserUpdated =
    | Updated(view: UserRead)
    | NoSuchUser
    | UniqueViolation

  /** `views` is one read view (id, username, email) per stored user. */
  ghost predicate UserViewsOfAll(views: seq<UserRead>, users: map<int, User>) {
    && (forall i :: 0 <= i < |views| ==> views[i].id in users && views[i] == ReadUser(users[views[i].id]))
    && (forall k :: k in users ==> ReadUser(users[k]) in views)
    && (forall i, j :: 0 <= i < j < |views| ==> views[i].id != views[j].id)
  }

  /** `get_all_users`. */
  method GetAllUsers(db: Store) returns (views: seq<UserRead>)
    requires db.Valid()
    ensures UserViewsOfAll(views, db.users)
    ensures |views| == |db.users|
  {
    var rows := db.SelectUsers();
    UserListingCount(rows, db.users);
    views := seq(|rows|, i requires 0 <= i < |rows| => ReadUser(rows[i]));
    forall k | k in db.users
      ensures ReadUser(db.users[k]) in views
    {
      var i :| 0 <= i < |rows| && rows[i] == db.users[k];
      assert views[i] == ReadUser(db.users[k]);
    }
  }

  /** `get_user_by_id`: None exactly when no user has the id. */
  method GetUserById(db: Store, id: int) returns (view: Option<UserRead>)
    requires db.Valid()
    ensures view.None? <==> id !in db.users
    ensures view.Some? ==> view.value == ReadUser(db.users[id]) && view.value.id == id
  {
    var user := db.UserById(id);
    if user.None? {
      return None;
    }
    view := Some(ReadUser(user.value));
  }

  /** `delete_user`: False and nothing changed, or True and the user and
      every to-do they own are gone. */
  method DeleteUser(db: Store, id: int) returns (deleted: bool)
    requires db.Valid()
    modifies db`users, db`todos
    ensures db.Valid()
    ensures deleted <==> id in old(db.users)
    ensures !deleted ==> db.users == old(db.users) && db.todos == old(db.todos)
    ensures deleted ==> db.users == old(db.users) - {id} && db.todos == WithoutOwnedBy(old(db.todos), id)
  {
    var user := db.UserById(id);
    if user.None? {
      return false;
    }
    db.RemoveUser(id);
    deleted := true;
  }

  /** `update_user`: the `setattr` loop over the fields the request set,
      then the commit, which the UNIQUE constraints may reject. */
  method UpdateUser(db: Store, id: int, patch: UserUpdate) returns (r: UserUpdated)
    requires db.Valid()
    modifies db`users
    ensures db.Valid()
    ensures r == NoSuchUser <==> id !in old(db.users)
    ensures r == UniqueViolation <==>
      id in old(db.users) && !FitsUnique(old(db.users), PatchUser(old(db.users)[id], patch))
    ensures !r.Updated? ==> db.users == old(db.users)
    ensures r.Updated? ==>
      && db.users == old(db.users)[id := PatchUser(old(db.users)[id], patch)]
      && r.view == ReadUser(db.users[id])
  {
    var existing := db.UserById(id);
    if existing.None? {
      return NoSuchUser;
    }
    var u := existing.value;
    var fields := UserSetFields(patch);
    for i := 0 to |fields|
      invariant db.users == old(db.users)
      invariant u == ApplyUserFields(existing.value, fields[..i])
    {
      assert fields[..i + 1] == fields[..i] + [fields[i]];
      ApplyUserFieldsAppend(existing.value, fields[..i], [fields[i]]);
      u := SetUserAttr(u, fields[i]);
    }
    assert fields[..|fields|] == fields;
    ApplyUserSetFieldsIsPatch(existing.value, patch);
    var ok := db.PutUser(u);
    if !ok {
      return UniqueViolation;
    }
    r := Updated(ReadUser(u));
  }
}
