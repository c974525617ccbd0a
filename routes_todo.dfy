/**
 * The form handlers under `/todos`: the per-user listing page and the
 * create, update and delete forms. The session is the `user_id` cookie,
 * already parsed to an integer (None when it is missing or empty).
 */
module TodoPages {
  import opened Wrappers
  import opened Models
  import opened Schemas
  import opened Db
  import opened Http

  const IndexTemplate := "index.html"

  /** The template and the context it is rendered with. */
  datatype IndexView = IndexView(template: string, user: Option<User>, todos: seq<ToDo>)

  /** GET `/todos/html`: no cookie, or one naming no user, gives no user
      and no to-dos; otherwise the user and exactly their to-dos. */
  method TodosHtml(db: Store, cookie: Option<int>) returns (v: IndexView)
    requires db.Valid()
    ensures cookie.None? || cookie.value !in db.users ==> v == IndexView(IndexTemplate, None, [])
    ensures cookie.Some? && cookie.value in db.users ==>
      v.template == IndexTemplate && v.user == Some(db.users[cookie.value]) && ListsExactly(v.todos, db.todos, OwnedBy(cookie.value))
  {
    v := IndexView(IndexTemplate, None, []);
    if cookie.Some? {
      var user := db.UserById(cookie.value);
      if user.Some? {
        var rows := db.SelectToDos(OwnedBy(user.value.id));
        v := IndexView(IndexTemplate, user, rows);
      }
    }
  }

  /** POST `/todos/create`: without a cookie, a redirect to the login page
      and no change; with one, a new to-do owned by the cookie's id (which
      is not checked against `users`), description "" when the form leaves
      it out, `completed` at its column default. */
  method CreateToDoHtml(db: Store, cookie: Option<int>, title: string, description: Option<string>)
    returns (p: Page)
    requires db.Valid()
    modifies db`todos, db`nextToDoId
    ensures db.Valid()
    ensures cookie.None? ==> p == Redirect(LoginUrl, SeeOther, KeepCookie) && db.todos == old(db.todos)
    ensures cookie.Some? ==> p == Redirect(TodosUrl, SeeOther, KeepCookie)
    ensures cookie.Some? ==>
      var id := old(db.nextToDoId);
      && id !in old(db.todos)
      && db.todos == old(db.todos)[id := ToDo(id, title, Some(description.GetOr("")), CompletedDefault, cookie)]
  {
    if cookie.None? {
      return Redirect(LoginUrl, SeeOther, KeepCookie);
    }
    var _ := db.InsertToDo(title, Some(description.GetOr("")), CompletedDefault, Some(cookie.value));
    p := Redirect(TodosUrl, SeeOther, KeepCookie);
  }

  /** What the update form writes: every field, with `completed` true
      exactly when the form value is the string "true". */
  function FormOverwrite(t: ToDo, title: string, description: Option<string>, completed: Option<string>): (r: ToDo)
    ensures r.id == t.id && r.userId == t.userId
    ensures r.title == title && r.description == Some(description.GetOr(""))
    ensures r.completed <==> completed == Some("true")
  {
    t.(title := title, description := Some(description.GetOr("")), completed := completed == Some("true"))
  }

  /** The form update is the partial update that sets all three fields. */
  lemma FormOverwriteIsFullPatch(t: ToDo, title: string, description: Option<string>, completed: Option<string>)
    ensures FormOverwrite(t, title, description, completed)
         == PatchToDo(t, ToDoUpdate(Some(title), Some(Some(description.GetOr(""))), Some(completed == Some("true"))))
  {
  }

  /** An unticked checkbox (no `completed` in the form) clears the flag,
      whatever it was. */
  lemma UntickedClears(t: ToDo, title: string, description: Option<string>)
    ensures !FormOverwrite(t, title, description, None).completed
  {
  }

  /** POST `/todos/update/{todo_id}`: 404 and no change for an absent id,
      otherwise the row is overwritten with the form and the browser is
      sent back to the list. The cookie is not consulted. */
  method UpdateToDoHtml(db: Store, todoId: int, title: string, description: Option<string>, completed: Option<string>)
    returns (p: Page)
    requires db.Valid()
    modifies db`todos
    ensures db.Valid()
    ensures todoId !in old(db.todos) ==> p == PageError(NotFound, ToDoNotFound) && db.todos == old(db.todos)
    ensures todoId in old(db.todos) ==>
      && p == Redirect(TodosUrl, SeeOther, KeepCookie)
      && db.todos == old(db.todos)[todoId := FormOverwrite(old(db.todos)[todoId], title, description, completed)]
  {
    var todo := db.ToDoById(todoId);
    if todo.None? {
      return PageError(NotFound, ToDoNotFound);
    }
    var t := todo.value;
    t := t.(title := title);
    t := t.(description := Some(description.GetOr("")));
    t := t.(completed := completed == Some("true"));
    db.PutToDo(t);
    p := Redirect(TodosUrl, SeeOther, KeepCookie);
  }

  /** POST `/todos/delete/{todo_id}`: 404 and no change for an absent id,
      otherwise exactly that row is removed. The cookie is not consulted. */
  method DeleteToDoHtml(db: Store, todoId: int) returns (p: Page)
    requires db.Valid()
    modifies db`todos
    ensures db.Valid()
    ensures todoId !in old(db.todos) ==> p == PageError(NotFound, ToDoNotFound) && db.todos == old(db.todos)
    ensures todoId in old(db.todos) ==>
      p == Redirect(TodosUrl, SeeOther, KeepCookie) && db.todos == old(db.todos) - {todoId}
  {
    var todo := db.ToDoById(todoId);
    if todo.None? {
      return PageError(NotFound, ToDoNotFound);
    }
    db.RemoveToDo(todoId);
    p := Redirect(TodosUrl, SeeOther, KeepCookie);
  }
}
