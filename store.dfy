/**
 * The database as the handlers see it through their session: the `users`
 * and `todos` tables keyed by primary key, the next autoincrement values,
 * and the session primitives (add + commit, commit of a changed row,
 * delete + commit, keyed and filtered selects). The UNIQUE constraints and
 * the delete cascade of the record definitions are enforced here.
 */
module Db {
  import opened Wrappers
  import opened Models

  /** Which rows a `select(ToDo)` keeps: all of them, or
      `.where(ToDo.user_id == uid)`. */
  datatype ToDoFilter = AnyOwner | OwnedBy(uid: int)

  predicate Matches(f: ToDoFilter, t: ToDo) {
    match f
    case AnyOwner => true
    case OwnedBy(uid) => t.userId == Some(uid)
  }

  /** `rows` holds exactly one copy of each row of `todos` that `f` keeps. */
  ghost predicate ListsExactly(rows: seq<ToDo>, todos: map<int, ToDo>, f: ToDoFilter) {
    && (forall i :: 0 <= i < |rows| ==> rows[i].id in todos && todos[rows[i].id] == rows[i] && Matches(f, rows[i]))
    && (forall k :: k in todos && Matches(f, todos[k]) ==> todos[k] in rows)
    && (forall i, j :: 0 <= i < j < |rows| ==> rows[i].id != rows[j].id)
  }

  /** `rows` holds exactly one copy of each row of `users`. */
  ghost predicate ListsAllUsers(rows: seq<User>, users: map<int, User>) {
    && (forall i :: 0 <= i < |rows| ==> rows[i].id in users && users[rows[i].id] == rows[i])
    && (forall k :: k in users ==> users[k] in rows)
    && (forall i, j :: 0 <= i < j < |rows| ==> rows[i].id != rows[j].id)
  }

  /** A sequence of pairwise distinct keys has as many elements as the set
      of its keys. */
  lemma {:induction false} DistinctKeysCount(ids: seq<int>)
    requires forall i, j :: 0 <= i < j < |ids| ==> ids[i] != ids[j]
    ensures |set i | 0 <= i < |ids| :: ids[i]| == |ids|
    decreases |ids|
  {
    if ids != [] {
      var n := |ids| - 1;
      var init := ids[..n];
      DistinctKeysCount(init);
      var s := set i | 0 <= i < |ids| :: ids[i];
      var t := set i | 0 <= i < |init| :: init[i];
      assert s == t + {ids[n]} by {
        forall x | x in s ensures x in t + {ids[n]} {
          var i :| 0 <= i < |ids| && ids[i] == x;
          if i < n { assert init[i] == x; }
        }
        forall x | x in t ensures x in s {
          var i :| 0 <= i < |init| && init[i] == x;
          assert ids[i] == x;
        }
      }
      assert ids[n] !in t;
    }
  }

  /** A full listing of `todos` has exactly one element per row. */
  lemma ToDoListingCount(rows: seq<ToDo>, todos: map<int, ToDo>)
    requires ToDosKeyed(todos) && ListsExactly(rows, todos, AnyOwner)
    ensures |rows| == |todos|
  {
    var ids := seq(|rows|, i requires 0 <= i < |rows| => rows[i].id);
    DistinctKeysCount(ids);
    var s := set i | 0 <= i < |ids| :: ids[i];
    assert s == todos.Keys by {
      forall k | k in todos.Keys ensures k in s {
        assert Matches(AnyOwner, todos[k]);
        var i :| 0 <= i < |rows| && rows[i] == todos[k];
        assert ids[i] == k;
      }
    }
  }

  /** A full listing of `users` has exactly one element per row. */
  lemma UserListingCount(rows: seq<User>, users: map<int, User>)
    requires UsersKeyed(users) && ListsAllUsers(rows, users)
    ensures |rows| == |users|
  {
    var ids := seq(|rows|, i requires 0 <= i < |rows| => rows[i].id);
    DistinctKeysCount(ids);
    var s := set i | 0 <= i < |ids| :: ids[i];
    assert s == users.Keys by {
      forall k | k in users.Keys ensures k in s {
        var i :| 0 <= i < |rows| && rows[i] == users[k];
        assert ids[i] == k;
      }
    }
  }

  /** Some element of a non-empty key set (the order in which the engine
      returns rows is not modelled). */
  method AnyKey(keys: set<int>) returns (k: int)
    requires keys != {}
    ensures k in keys
  {
    assert exists j :: j in keys by {
      if forall j :: j !in keys {
        assert false;
      }
    }
    k :| k in keys;
  }

  class Store {
    var todos: map<int, ToDo>
    var users: map<int, User>
    var nextToDoId: int
    var nextUserId: int

    /** Rows sit under their own key, keys are positive and below the next
        autoincrement value, and no two users share a username or an email. */
    ghost predicate Valid()
      reads this
    {
      && ToDosKeyed(todos) && UsersKeyed(users)
      && 1 <= nextToDoId && 1 <= nextUserId
      && (forall k :: k in todos ==> 1 <= k < nextToDoId)
      && (forall k :: k in users ==> 1 <= k < nextUserId)
      && UniqueUsernames(users) && UniqueEmails(users)
    }

    /** An empty database (`init_db` on a new file); the first row of each
        table gets id 1. */
    constructor ()
      ensures Valid()
      ensures todos == map[] && users == map[]
      ensures nextToDoId == 1 && nextUserId == 1
    {
      todos, users := map[], map[];
      nextToDoId, nextUserId := 1, 1;
    }

    // ----- todos table ------------------------------------------------

    /** `select(ToDo).where(ToDo.id == id)` with `scalar_one_or_none()`. */
    function ToDoById(id: int): (r: Option<ToDo>)
      reads this
      ensures r.None? <==> id !in todos
      ensures r.Some? ==> r.value == todos[id]
    {
      if id in todos then Some(todos[id]) else None
    }

    /** `session.add(ToDo(...))` + commit + refresh: the row gets the next
        id and nothing else in the database changes. */
    method InsertToDo(title: string, description: Option<string>, completed: bool, userId: Option<int>)
      returns (t: ToDo)
      requires Valid()
      modifies this`todos, this`nextToDoId
      ensures Valid()
      ensures t == ToDo(old(nextToDoId), title, description, completed, userId)
      ensures t.id !in old(todos)
      ensures todos == old(todos)[t.id := t]
    {
      t := ToDo(nextToDoId, title, description, completed, userId);
      todos := todos[t.id := t];
      nextToDoId := nextToDoId + 1;
    }

    /** Commit of a stored to-do whose attributes were assigned; the
        primary key stays as it was. */
    method PutToDo(t: ToDo)
      requires Valid() && t.id in todos
      modifies this`todos
      ensures Valid()
      ensures todos == old(todos)[t.id := t]
    {
      todos := todos[t.id := t];
    }

    /** `session.delete(todo)` + commit. */
    method RemoveToDo(id: int)
      requires Valid() && id in todos
      modifies this`todos
      ensures Valid()
      ensures todos == old(todos) - {id}
    {
      todos := todos - {id};
    }

    /** `select(ToDo)` (optionally filtered by owner) and `.scalars().all()`. */
    method SelectToDos(f: ToDoFilter) returns (rows: seq<ToDo>)
      requires Valid()
      ensures ListsExactly(rows, todos, f)
    {
      var rest := todos.Keys;
      rows := [];
      while rest != {}
        invariant rest <= todos.Keys
        invariant forall i :: 0 <= i < |rows| ==> rows[i].id in todos && todos[rows[i].id] == rows[i] && Matches(f, rows[i])
        invariant forall i :: 0 <= i < |rows| ==> rows[i].id !in rest
        invariant forall k :: k in todos && k !in rest && Matches(f, todos[k]) ==> todos[k] in rows
        invariant forall i, j :: 0 <= i < j < |rows| ==> rows[i].id != rows[j].id
        decreases rest
      {
        var k := AnyKey(rest);
        if Matches(f, todos[k]) {
          rows := rows + [todos[k]];
        }
        rest := rest - {k};
      }
    }

    // ----- users table ------------------------------------------------

    function UserById(id: int): (r: Option<User>)
      reads this
      ensures r.None? <==> id !in users
      ensures r.Some? ==> r.value == users[id]
    {
      if id in users then Some(users[id]) else None
    }

    /** `select(User).where(User.username == username)` with
        `scalar_one_or_none()`; the UNIQUE constraint makes the row, when
        there is one, the only candidate. */
    method UserByUsername(username: string) returns (r: Option<User>)
      requires Valid()
      ensures r.None? <==> !UsernameTaken(users, username)
      ensures r.Some? ==> r.value.id in users && users[r.value.id] == r.value && r.value.username == username
    {
      if exists k :: k in users && users[k].username == username {
        var k :| k in users && users[k].username == username;
        r := Some(users[k]);
      } else {
        r := None;
      }
    }

    /** `session.add(User(...))` + commit: the row gets the next id unless
        the username or the email is already stored, in which case the
        UNIQUE constraint rejects the commit and nothing changes. */
    method InsertUser(firstName: Option<string>, lastName: Option<string>, username: string,
                      email: string, hashedPassword: string)
      returns (r: Option<User>)
      requires Valid()
      modifies this`users, this`nextUserId
      ensures Valid()
      ensures r.None? <==> UsernameTaken(old(users), username) || EmailTaken(old(users), email)
      ensures r.None? ==> users == old(users) && nextUserId == old(nextUserId)
      ensures r.Some? ==> r.value == User(old(nextUserId), firstName, lastName, username, email, hashedPassword)
      ensures r.Some? ==> r.value.id !in old(users) && users == old(users)[r.value.id := r.value]
    {
      if UsernameTaken(users, username) || EmailTaken(users, email) {
        return None;
      }
      var u := User(nextUserId, firstName, lastName, username, email, hashedPassword);
      InsertKeepsUnique(users, u);
      users := users[u.id := u];
      nextUserId := nextUserId + 1;
      r := Some(u);
    }

    /** Commit of a stored user whose attributes were assigned; a username
        or email that another user holds makes the commit fail and leaves
        the table as it was. */
    method PutUser(u: User) returns (ok: bool)
      requires Valid() && u.id in users
      modifies this`users
      ensures Valid()
      ensures ok <==> FitsUnique(old(users), u)
      ensures users == if ok then old(users)[u.id := u] else old(users)
    {
      ok := FitsUnique(users, u);
      if ok {
        InsertKeepsUnique(users, u);
        users := users[u.id := u];
      }
    }

    /** `session.delete(user)` + commit; the relationship's cascade removes
        the user's to-dos with it. */
    method RemoveUser(id: int)
      requires Valid() && id in users
      modifies this`users, this`todos
      ensures Valid()
      ensures users == old(users) - {id}
      ensures todos == WithoutOwnedBy(old(todos), id)
    {
      users := users - {id};
      todos := WithoutOwnedBy(todos, id);
    }

    /** `select(User)` and `.scalars().all()`. */
    method SelectUsers() returns (rows: seq<User>)
      requires Valid()
      ensures ListsAllUsers(rows, users)
    {
      var rest := users.Keys;
      rows := [];
      while rest != {}
        invariant rest <= users.Keys
        invariant forall i :: 0 <= i < |rows| ==> rows[i].id in users && users[rows[i].id] == rows[i]
        invariant forall i :: 0 <= i < |rows| ==> rows[i].id !in rest
        invariant forall k :: k in users && k !in rest ==> users[k] in rows
        invariant forall i, j :: 0 <= i < j < |rows| ==> rows[i].id != rows[j].id
        decreases rest
      {
        var k := AnyKey(rest);
        rows := rows + [users[k]];
        rest := rest - {k};
      }
    }
  }
}
