/**
 * The JSON handlers over `/todos/`. They do what the service functions of
 * the to-do table do, with 404 branches where those return None or False,
 * so the model delegates to them. The extra `session.add` of an already
 * stored row changes nothing.
 */
module TodosApi {
  import opened Wrappers
  import opened Models
  import opened Schemas
  import opened Db
  import opened Http
  import TodoCrud

  const ToDoDeleted := "ToDo deleted"

  /** GET `/todos/`: every stored to-do, whoever owns it. */
  method ReadTodos(db: Store) returns (views: seq<ToDoRead>)
    requires db.Valid()
    ensures TodoCrud.ReadViewsOfAll(views, db.todos)
    ensures |views| == |db.todos|
  {
    views := TodoCrud.GetAllToDos(db);
  }

  /** POST `/todos/`. */
  method CreateTodo(db: Store, body: ToDoCreate) returns (r: Api<ToDoRead>)
    requires db.Valid()
    modifies db`todos, db`nextToDoId
    ensures db.Valid()
    ensures r.Json? && r.body.id !in old(db.todos)
    ensures db.todos == old(db.todos)[r.body.id := ToDo(r.body.id, body.title, body.description, body.completed, None)]
    ensures BaseOf(r.body) == body
  {
    var view := TodoCrud.CreateToDo(db, body);
    r := Json(view);
  }

  /** PUT `/todos/{todo_id}`: 404 for an absent id, otherwise only the
      fields present in the body are overwritten. */
  method UpdateTodo(db: Store, todoId: int, body: ToDoUpdate) returns (r: Api<ToDoRead>)
    requires db.Valid()
    modifies db`todos
    ensures db.Valid()
    ensures todoId !in old(db.todos) ==> r == JsonError(NotFound, ToDoNotFound) && db.todos == old(db.todos)
    ensures todoId in old(db.todos) ==>
      && db.todos == old(db.todos)[todoId := PatchToDo(old(db.todos)[todoId], body)]
      && r == Json(ReadToDo(db.todos[todoId]))
  {
    var view := TodoCrud.UpdateToDo(db, todoId, body);
    if view.None? {
      return JsonError(NotFound, ToDoNotFound);
    }
    r := Json(view.value);
  }

  /** DELETE `/todos/{todo_id}`. */
  method DeleteTodo(db: Store, todoId: int) returns (r: Api<Detail>)
    requires db.Valid()
    modifies db`todos
    ensures db.Valid()
    ensures todoId !in old(db.todos) ==> r == JsonError(NotFound, ToDoNotFound) && db.todos == old(db.todos)
    ensures todoId in old(db.todos) ==> r == Json(Detail(ToDoDeleted)) && db.todos == old(db.todos) - {todoId}
  {
    var deleted := TodoCrud.DeleteToDo(db, todoId);
    if !deleted {
      return JsonError(NotFound, ToDoNotFound);
    }
    r := Json(Detail(ToDoDeleted));
  }

  /** A body that sets only `completed` leaves title and description as
      they were. */
  lemma CompletedOnlyKeepsText(t: ToDo, done: bool)
    ensures var p := PatchToDo(t, ToDoUpdate(completed := Some(done)));
      p.title == t.title && p.description == t.description && p.completed == done
  {
  }
}
