/** The service functions over the `todos` table. */
module TodoCrud {
  import opened Wrappers
  import opened Models
  import opened Schemas
  import opened Db

  /** `views` is one read view per stored to-do, each exactly once. */
  ghost predicate ReadViewsOfAll(views: seq<ToDoRead>, todos: map<int, ToDo>) {
    && (forall i :: 0 <= i < |views| ==> views[i].id in todos && views[i] == ReadToDo(todos[views[i].id]))
    && (forall k :: k in todos ==> ReadToDo(todos[k]) in views)
    && (forall i, j :: 0 <= i < j < |views| ==> views[i].id != views[j].id)
  }

  /** `[ToDoRead.from_orm(todo) for todo in todos]`. */
  function ReadAll(rows: seq<ToDo>): (views: seq<ToDoRead>)
    ensures |views| == |rows|
    ensures forall i :: 0 <= i < |rows| ==> views[i] == ReadToDo(rows[i])
  {
    seq(|rows|, i requires 0 <= i < |rows| => ReadToDo(rows[i]))
  }

  /** `get_all_todos`: every stored to-do, whoever owns it, once. */
  method GetAllToDos(db: Store) returns (views: seq<ToDoRead>)
    requires db.Valid()
    ensures ReadViewsOfAll(views, db.todos)
    ensures |views| == |db.todos|
  {
    var rows := db.SelectToDos(AnyOwner);
    ToDoListingCount(rows, db.todos);
    views := ReadAll(rows);
    forall k | k in db.todos
      ensures ReadToDo(db.todos[k]) in views
    {
      assert Matches(AnyOwner, db.todos[k]);
      var i :| 0 <= i < |rows| && rows[i] == db.todos[k];
      assert views[i] == ReadToDo(db.todos[k]);
    }
  }

  /** `create_todo`: one new row built from the create record, with no
      owner, under a fresh id; the read view returned reproduces the
      record. */
  method CreateToDo(db: Store, c: ToDoCreate) returns (view: ToDoRead)
    requires db.Valid()
    modifies db`todos, db`nextToDoId
    ensures db.Valid()
    ensures view.id !in old(db.todos)
    ensures db.todos == old(db.todos)[view.id := ToDo(view.id, c.title, c.description, c.completed, None)]
    ensures BaseOf(view) == c && view == ReadToDo(db.todos[view.id])
  {
    var t := db.InsertToDo(c.title, c.description, c.completed, None);
    view := ReadToDo(t);
  }

  /** `update_todo`: the `setattr` loop over the fields the request set.
      An absent id gives None and changes nothing. */
  method UpdateToDo(db: Store, id: int, patch: ToDoUpdate) returns (view: Option<ToDoRead>)
    requires db.Valid()
    modifies db`todos
    ensures db.Valid()
    ensures id !in old(db.todos) ==> view == None && db.todos == old(db.todos)
    ensures id in old(db.todos) ==>
      && db.todos == old(db.todos)[id := PatchToDo(old(db.todos)[id], patch)]
      && view == Some(ReadToDo(db.todos[id]))
  {
    var existing := db.ToDoById(id);
    if existing.None? {
      return None;
    }
    var t := existing.value;
    var fields := ToDoSetFields(patch);
    for i := 0 to |fields|
      invariant db.todos == old(db.todos)
      invariant t == ApplyToDoFields(existing.value, fields[..i])
    {
      assert fields[..i + 1] == fields[..i] + [fields[i]];
      ApplyToDoFieldsAppend(existing.value, fields[..i], [fields[i]]);
      t := SetToDoAttr(t, fields[i]);
    }
    assert fields[..|fields|] == fields;
    ApplyToDoSetFieldsIsPatch(existing.value, patch);
    db.PutToDo(t);
    view := Some(ReadToDo(t));
  }

  /** `delete_todo`: True and the row is gone, or False and nothing
      changed. */
  method DeleteToDo(db: Store, id: int) returns (deleted: bool)
    requires db.Valid()
    modifies db`todos
    ensures db.Valid()
    ensures deleted <==> id in old(db.todos)
    ensures db.todos == old(db.todos) - {id}
    ensures !deleted ==> db.todos == old(db.todos)
  {
    var existing := db.ToDoById(id);
    if existing.None? {
      return false;
    }
    db.RemoveToDo(id);
    deleted := true;
  }
}
