# To-do list application: the store and the request decisions

This project models the part of the to-do web application that can be
stated precisely: the two database tables (`users`, `todos`) with the
constraints their record definitions declare, the service functions that
create, list, partially update and delete their rows, the JSON and form
handlers built on them, and the registration, login and logout decisions.

The database is a class `Db.Store`. It has a `todos` map and a `users` map, both
keyed by primary key, and two counters that stand in for SQLite's
autoincrement. Its methods are the session operations the handlers use:
add and commit, commit of a changed row, delete and commit, and the keyed
and filtered selects. `Store.Valid()` is the invariant those operations keep:
- every row sits under its own id;
- ids are positive and below the next counter value;
- no two users share a username or an email.

The UNIQUE constraints are enforced by the store, as the database does:
an insert or commit that would break one fails and changes nothing. The
delete cascade of the user/to-do relationship is part of `RemoveUser`.

The request and response records are datatypes (`Schemas`), with the
pydantic defaults as constructor defaults. A partial update is modelled twice:
- as the list of fields that `dict(exclude_unset=True)` yields, applied one by
  one by the `setattr` loop (`ToDoSetFields`, `ApplyToDoFields`);
- as a field-wise reference definition (`PatchToDo`).

A lemma proves the two equal. The CRUD methods run the loop, and their
postconditions are stated with the reference definition.

The `user_id` cookie of a request is an already-parsed `Option<int>`. `None`
means the cookie is absent or empty, which is what `if user_id:` tests. A
response's effect on the cookie is a `CookieAction`. Password hashing is a
`Security.PasswordScheme` value (a hash function and a check function)
passed to the handlers. The one fact the login proof needs about it is
`Sound`: every password checks out against its own hash. It is a
precondition only where that proof needs it.

Behaviour of the code that the model keeps as written:
- `create_todo_html` does not check that the cookie's id names a user. SQLite
  leaves foreign keys unenforced by default, so a stale cookie creates a
  to-do with a dangling owner.
- `update_todo_html` and `delete_todo_html` do not look at the cookie at all.
- The JSON `create_todo` stores the new to-do with no owner (`user_id` NULL),
  so it never shows up on any user's list page.
- `if remember:` is Python truthiness, so an empty `remember` string gives a
  session cookie, like an absent one.

## Model

| member | source | states |
|---|---|---|
| `Models.WithoutOwnedBy` | app/database/models.py:18 | the cascade leaves exactly the to-dos whose owner is not the deleted user, unchanged |
| `Models.InsertKeepsUnique` | app/database/models.py:15-16 | storing a user whose username and email no other user holds keeps both UNIQUE constraints |
| `Schemas.ReadToDo` | app/schemas/todo.py:26-31 | the read view carries the id and the three base fields of the row |
| `Schemas.ReadUser` | app/schemas/user.py:18-25 | the user read view carries id, username and email and nothing else |
| `Schemas.ReadOfCreated` | app/schemas/todo.py:7-31 | reading back a row built from a create record gives the record's title, description and completed, with the row's id |
| `Schemas.ToDoSetFields` | app/database/crud/todo.py:31 | the entries of `dict(exclude_unset=True)`, at most three; what they do is fixed by `ApplyToDoSetFieldsIsPatch` |
| `Schemas.SetToDoAttr` | app/database/crud/todo.py:32 | one `setattr` never touches the id or the owner |
| `Schemas.ApplyToDoFields` | app/database/crud/todo.py:31-32 | the `setattr` loop never touches the id or the owner |
| `Schemas.PatchToDo` | app/schemas/todo.py:19-22 | a set field takes its new value, an unset one keeps the old value; id and owner never change |
| `Schemas.ApplyToDoFieldsAppend` | app/database/crud/todo.py:31-32 | running the loop over two lists in turn is running it over their concatenation |
| `Schemas.ApplyToDoSetFieldsIsPatch` | app/database/crud/todo.py:31-32 | the loop over the set fields computes exactly the field-wise partial update |
| `Schemas.EmptyToDoPatch` | app/schemas/todo.py:19-22 | an update record with every field left at its default changes nothing |
| `Schemas.ToDoPatchIdempotent` | app/database/crud/todo.py:31-32 | applying the same partial update twice equals applying it once |
| `Schemas.UserSetFields` | app/database/crud/user.py:50 | the entries of the user update's `dict(exclude_unset=True)`, at most two; what they do is fixed by `ApplyUserSetFieldsIsPatch` |
| `Schemas.SetUserAttr` | app/database/crud/user.py:51 | one `setattr` never touches the id or the stored hash |
| `Schemas.ApplyUserFields` | app/database/crud/user.py:50-51 | the loop never touches the id or the stored hash |
| `Schemas.PatchUser` | app/schemas/user.py:29-32 | username and email are overwritten only when set; the other columns keep their values |
| `Schemas.ApplyUserFieldsAppend` | app/database/crud/user.py:50-51 | the loop over a concatenation is the loop over each part in turn |
| `Schemas.ApplyUserSetFieldsIsPatch` | app/database/crud/user.py:50-51 | the loop over the set fields computes exactly the field-wise user update |
| `Db.Store.constructor` | app/database/db.py:36-38 | a new database has empty tables, satisfies the invariant `Valid()`, and gives id 1 to the first row of each table |
| `Db.Store.ToDoById` | app/database/crud/todo.py:27-28 | the lookup by id gives None exactly when no row has that id, otherwise that row |
| `Db.Store.InsertToDo` | app/database/models.py:25-29 | the new row gets a fresh id and the given columns; no other row changes |
| `Db.Store.PutToDo` | app/routes/todo.py:60-61 | a commit of a changed row replaces that row only |
| `Db.Store.RemoveToDo` | app/database/crud/todo.py:43-44 | deleting a row removes that key only |
| `Db.Store.SelectToDos` | app/routes/todo.py:21-22 | the select returns each row the filter keeps, exactly once, and no other row |
| `Db.ToDoListingCount` | app/database/crud/todo.py:13-14 | a full listing has as many elements as the table has rows |
| `Db.Store.UserById` | app/database/crud/user.py:28-29 | the lookup by id gives None exactly when no user has that id, otherwise that user |
| `Db.Store.UserByUsername` | app/routes/user.py:81-82 | the lookup by username gives None exactly when the username is free, otherwise the stored user with that name |
| `Db.Store.InsertUser` | app/database/models.py:15-17 | an insert fails with no change exactly when the username or the email is taken (`Models.UsernameTaken`, `Models.EmailTaken`); otherwise the user gets a fresh id and nothing else changes; `Valid()` is kept, including `Models.UniqueUsernames` and `Models.UniqueEmails` |
| `Db.Store.PutUser` | app/database/models.py:15-16 | a commit of a changed user succeeds exactly when it keeps both UNIQUE constraints; on failure nothing changes |
| `Db.Store.RemoveUser` | app/database/models.py:18 | deleting a user removes that user and every to-do they own, and nothing else |
| `Db.Store.SelectUsers` | app/database/crud/user.py:13-14 | the select returns each user exactly once |
| `Db.UserListingCount` | app/database/crud/user.py:13-14 | a full user listing has as many elements as the table has rows |
| `TodoCrud.ReadAll` | app/database/crud/todo.py:15 | the list comprehension gives the read view of each row, position by position |
| `TodoCrud.GetAllToDos` | app/database/crud/todo.py:12-15 | one read view per stored to-do, each exactly once, with nothing else |
| `TodoCrud.CreateToDo` | app/database/crud/todo.py:18-23 | one new row with the record's fields and no owner under a fresh id; existing rows unchanged; the returned view reproduces the record |
| `TodoCrud.UpdateToDo` | app/database/crud/todo.py:26-35 | absent id: None and no change; otherwise only that row changes, to the field-wise partial update, and its read view is returned |
| `TodoCrud.DeleteToDo` | app/database/crud/todo.py:38-45 | True exactly when the id was present; that key alone is removed; on False nothing changes |
| `UserCrud.GetAllUsers` | app/database/crud/user.py:12-15 | one (id, username, email) view per stored user, each exactly once |
| `UserCrud.GetUserById` | app/database/crud/user.py:27-32 | None exactly when no user has the id, otherwise that user's view |
| `UserCrud.DeleteUser` | app/database/crud/user.py:35-42 | False and no change for an absent id; otherwise the user and their to-dos are gone and nothing else changes |
| `UserCrud.UpdateUser` | app/database/crud/user.py:45-54 | absent id: no change; a result that breaks uniqueness: integrity error and no change; otherwise only that user changes, to the field-wise update |
| `TodosApi.ReadTodos` | app/routes/todos.py:17-21 | every stored to-do regardless of owner, each exactly once |
| `TodosApi.CreateTodo` | app/routes/todos.py:25-31 | inserts one to-do built from the body under a fresh id and returns it |
| `TodosApi.UpdateTodo` | app/routes/todos.py:35-48 | 404 "ToDo not found" and no change for an absent id; otherwise only the fields set in the body change |
| `TodosApi.DeleteTodo` | app/routes/todos.py:52-61 | 404 and no change for an absent id; otherwise that row alone is removed and the body is `{"detail": "ToDo deleted"}` |
| `TodosApi.CompletedOnlyKeepsText` | app/routes/todos.py:42-43 | a body that sets only `completed` leaves title and description unchanged |
| `TodoPages.TodosHtml` | app/routes/todo.py:13-26 | renders `index.html`; no cookie or an unknown user: no user and an empty list; otherwise that user and exactly their to-dos |
| `TodoPages.CreateToDoHtml` | app/routes/todo.py:29-42 | no cookie: redirect to the login page and no change; otherwise one new to-do owned by the cookie's id, description "" by default, not completed |
| `TodoPages.FormOverwrite` | app/routes/todo.py:57-59 | every field is overwritten; `completed` is true iff the form value is exactly "true" |
| `TodoPages.FormOverwriteIsFullPatch` | app/routes/todo.py:57-59 | the form update equals the partial update that sets all three fields |
| `TodoPages.UntickedClears` | app/routes/todo.py:50-59 | a form without `completed` leaves the to-do not completed |
| `TodoPages.UpdateToDoHtml` | app/routes/todo.py:45-62 | 404 and no change for an absent id; otherwise only that row is overwritten from the form, then a redirect to `/todos/html` |
| `TodoPages.DeleteToDoHtml` | app/routes/todo.py:65-76 | 404 and no change for an absent id; otherwise that row alone is removed, then a redirect to `/todos/html` |
| `UserPages.CheckRegistration` | app/routes/user.py:35-47 | a confirmation mismatch is reported first, whatever is stored; then both, email only or username only taken, each exactly in its case; otherwise accepted |
| `UserPages.RegisterError` | app/routes/user.py:36-47 | the message each rejection shows |
| `UserPages.RegisterErrorsDistinct` | app/routes/user.py:36-47 | the four rejections show four different messages |
| `UserPages.RegisterPost` | app/routes/user.py:23-62 | a rejection re-renders the form with its message and adds no user; acceptance adds exactly one user storing the hash of the password, then a 303 redirect to the login page |
| `UserPages.RememberAge` | app/routes/user.py:89-92 | a max-age of 2592000 s exactly when `remember` is present and non-empty, otherwise none |
| `UserPages.LoginPost` | app/routes/user.py:73-93 | a 303 redirect to `/todos/html` exactly when some user has the username and the password checks out, with cookie `user_id` set to that user's id (`UserPages.Authenticates`: the user exists, has the username, and the password checks out against the stored hash); any other case gives one generic error and no cookie |
| `UserPages.Logout` | app/routes/user.py:96-100 | a 303 redirect to the login page that deletes the `user_id` cookie |
| `UserPages.RegisterThenLogin` | app/routes/user.py:49-93 | after an accepted registration, logging in with the same username and password gets the new user's cookie, given a sound hashing scheme |

## Left out

- Password-reset tokens: no record definition or route for them exists in the modelled code.
- Password hashing: bcrypt is a foreign library. It is a `PasswordScheme` parameter, and its round trip is the `Sound` precondition. bcrypt salts each hash, so `hash` stands for the hashes of one run. No proof depends on two hashes of the same password being equal.
- `create_user` (app/database/crud/user.py:18-23) passes a `password` field that `User` has no column for. It is not modelled as succeeding.
- `UserCrud.UpdateUser`: the `password` field of `UserUpdate` is left out, because it would set an attribute that is not persisted.
- Schemas.ToDoUpdate, Schemas.UserUpdate: an explicit JSON `null` for `title`, `username` or `email` is not modelled. It fails at the NOT NULL constraint at commit, and the transaction rolls back.
- Schemas.ToDoUpdate: an explicit JSON `null` for `completed` is not modelled. The column is nullable (app/database/models.py:28), so the NULL is committed. The request then fails when `ToDoRead.from_orm` reads the row back. From then on every full listing fails on that row. `Models.ToDo.completed` is a `bool` and cannot hold NULL.
- Db.Store.InsertToDo, Db.Store.InsertUser: ids come from a counter that deletes never lower, so in the model an id is never reused. SQLite gives max(rowid)+1 and reuses the largest deleted id. So in the real application a stale `user_id` cookie can name a user registered later and open that user's list.
- Db.Store.SelectToDos, Db.Store.SelectUsers: the order of the rows is not modelled. The engine gives no order without ORDER BY.
- A `user_id` cookie that is not a number makes `int()` raise. The cookie is modelled as already parsed.
- Form validation by the framework is not modelled. A missing or empty required field (`title`, `username` and the other `Form(...)` fields) gives 422, but `CreateToDoHtml`, `UpdateToDoHtml` and `RegisterPost` accept `""`. The same parsing turns an empty optional field into an absent one, which is why `remember=""` acts like no `remember`. Neither is template rendering: a rendered page is its template name and error message.
- Routing: the JSON router is not mounted by app/routes/__init__.py, and URL paths are not modelled.
- Concurrency: the uniqueness check in registration and the insert after it are not atomic. The model is sequential; the store's UNIQUE enforcement is what keeps the invariant.
- Async sessions, engine setup, commit/refresh mechanics, settings, SMTP, the browser script and the bot are not part of this model.
