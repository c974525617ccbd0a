/**
 * The request and response records of the JSON layer (pydantic models) and
 * the semantics of `record.dict(exclude_unset=True)` followed by the
 * `setattr` loop that applies a partial update to a stored row.
 */
module Schemas {
  import opened Wrappers
  import opened Models

  /** `ToDoCreate` (= `ToDoBase`): the title is required, the other two
      fields have defaults. */
  datatype ToDoCreate = ToDoCreate(
    title: string,
    description: Option<string> := None,
    completed: bool := false)

  /** `ToDoUpdate`: every field optional; `None` is "not set". A set
      description may itself be null, which clears the column. */
  datatype ToDoUpdate = ToDoUpdate(
    title: Option<string> := None,
    description: Option<Option<string>> := None,
    completed: Option<bool> := None)

  /** `ToDoRead`: the base fields plus the integer id. */
  datatype ToDoRead = ToDoRead(
    id: int,
    title: string,
    description: Option<string>,
    completed: bool)

  /** `UserRead`: no password of any kind. */
  datatype UserRead = UserRead(id: int, username: string, email: string)

  /** `UserUpdate`, restricted to the two persisted fields. */
  datatype UserUpdate = UserUpdate(
    username: Option<string> := None,
    email: Option<string> := None)

  /** `ToDoRead.from_orm`: the read view copies the row's attributes. */
  function ReadToDo(t: ToDo): (r: ToDoRead)
    ensures r.id == t.id && r.title == t.title
    ensures r.description == t.description && r.completed == t.completed
  {
    ToDoRead(t.id, t.title, t.description, t.completed)
  }

  /** `UserRead.from_orm`. */
  function ReadUser(u: User): (r: UserRead)
    ensures r.id == u.id && r.username == u.username && r.email == u.email
  {
    UserRead(u.id, u.username, u.email)
  }

  /** The base fields a read view carries, as a create record. */
  function BaseOf(r: ToDoRead): ToDoCreate {
    ToDoCreate(r.title, r.description, r.completed)
  }

  /** Reading back a row built from a create record (`ToDo(**todo.dict())`)
      reproduces the record, whatever id and owner the row got. */
  lemma ReadOfCreated(c: ToDoCreate, id: int, owner: Option<int>)
    ensures var r := ReadToDo(ToDo(id, c.title, c.description, c.completed, owner));
      BaseOf(r) == c && r.id == id
  {
  }

  // ---------------------------------------------------------------------
  // Partial update of a to-do

  /** One entry of `todo.dict(exclude_unset=True).items()`. */
  datatype ToDoField =
    | TitleField(title: string)
    | DescriptionField(description: Option<string>)
    | CompletedField(completed: bool)

  /** The entries of `dict(exclude_unset=True)`, in declaration order. */
  function ToDoSetFields(u: ToDoUpdate): (fs: seq<ToDoField>)
    ensures |fs| <= 3
  {
    (if u.title.Some? then [TitleField(u.title.value)] else [])
    + (if u.description.Some? then [DescriptionField(u.description.value)] else [])
    + (if u.completed.Some? then [CompletedField(u.completed.value)] else [])
  }

  /** `setattr(todo, key, value)` for one entry. */
  function SetToDoAttr(t: ToDo, f: ToDoField): (r: ToDo)
    ensures r.id == t.id && r.userId == t.userId
  {
    match f
    case TitleField(v) => t.(title := v)
    case DescriptionField(v) => t.(description := v)
    case CompletedField(v) => t.(completed := v)
  }

  /** The `setattr` loop over a list of entries, first to last. */
  function ApplyToDoFields(t: ToDo, fs: seq<ToDoField>): (r: ToDo)
    ensures r.id == t.id && r.userId == t.userId
    decreases |fs|
  {
    if fs == [] then t else ApplyToDoFields(SetToDoAttr(t, fs[0]), fs[1..])
  }

  /** The intended meaning of a partial update, field by field: a set field
      takes its new value, an unset one keeps the old value, and the id and
      owner never change. */
  function PatchToDo(t: ToDo, u: ToDoUpdate): (r: ToDo)
    ensures u.title.None? ==> r.title == t.title
    ensures u.title.Some? ==> r.title == u.title.value
    ensures u.description.None? ==> r.description == t.description
    ensures u.description.Some? ==> r.description == u.description.value
    ensures u.completed.None? ==> r.completed == t.completed
    ensures u.completed.Some? ==> r.completed == u.completed.value
    ensures r.id == t.id && r.userId == t.userId
  {
    ToDo(t.id, u.title.GetOr(t.title), u.description.GetOr(t.description),
         u.completed.GetOr(t.completed), t.userId)
  }

  lemma {:induction false} ApplyToDoFieldsAppend(t: ToDo, fs: seq<ToDoField>, gs: seq<ToDoField>)
    ensures ApplyToDoFields(t, fs + gs) == ApplyToDoFields(ApplyToDoFields(t, fs), gs)
    decreases |fs|
  {
    if fs == [] {
      assert fs + gs == gs;
    } else {
      assert (fs + gs)[0] == fs[0];
      assert (fs + gs)[1..] == fs[1..] + gs;
      ApplyToDoFieldsAppend(SetToDoAttr(t, fs[0]), fs[1..], gs);
    }
  }

  /** The loop over the set fields performs exactly the field-wise patch. */
  lemma {:induction false} ApplyToDoSetFieldsIsPatch(t: ToDo, u: ToDoUpdate)
    ensures ApplyToDoFields(t, ToDoSetFields(u)) == PatchToDo(t, u)
  {
    var a := if u.title.Some? then [TitleField(u.title.value)] else [];
    var b := if u.description.Some? then [DescriptionField(u.description.value)] else [];
    var c := if u.completed.Some? then [CompletedField(u.completed.value)] else [];
    assert ToDoSetFields(u) == a + b + c;
    ApplyToDoFieldsAppend(t, a + b, c);
    ApplyToDoFieldsAppend(t, a, b);
  }

  /** An update that sets nothing changes nothing. */
  lemma EmptyToDoPatch(t: ToDo)
    ensures PatchToDo(t, ToDoUpdate()) == t
  {
  }

  /** Applying the same partial update twice is the same as once. */
  lemma ToDoPatchIdempotent(t: ToDo, u: ToDoUpdate)
    ensures PatchToDo(PatchToDo(t, u), u) == PatchToDo(t, u)
  {
  }

  // ---------------------------------------------------------------------
  // Partial update of a user

  /** One entry of `user.dict(exclude_unset=True).items()`. */
  datatype UserField =
    | UsernameField(username: string)
    | EmailField(email: string)

  function UserSetFields(u: UserUpdate): (fs: seq<UserField>)
    ensures |fs| <= 2
  {
    (if u.username.Some? then [UsernameField(u.username.value)] else [])
    + (if u.email.Some? then [EmailField(u.email.value)] else [])
  }

  function SetUserAttr(x: User, f: UserField): (r: User)
    ensures r.id == x.id && r.hashedPassword == x.hashedPassword
  {
    match f
    case UsernameField(v) => x.(username := v)
    case EmailField(v) => x.(email := v)
  }

  function ApplyUserFields(x: User, fs: seq<UserField>): (r: User)
    ensures r.id == x.id && r.hashedPassword == x.hashedPassword
    decreases |fs|
  {
    if fs == [] then x else ApplyUserFields(SetUserAttr(x, fs[0]), fs[1..])
  }

  /** Field-wise meaning of a partial user update. */
  function PatchUser(x: User, u: UserUpdate): (r: User)
    ensures u.username.None? ==> r.username == x.username
    ensures u.username.Some? ==> r.username == u.username.value
    ensures u.email.None? ==> r.email == x.email
    ensures u.email.Some? ==> r.email == u.email.value
    ensures r.id == x.id && r.firstName == x.firstName && r.lastName == x.lastName
    ensures r.hashedPassword == x.hashedPassword
  {
    x.(username := u.username.GetOr(x.username), email := u.email.GetOr(x.email))
  }

  lemma {:induction false} ApplyUserFieldsAppend(x: User, fs: seq<UserField>, gs: seq<UserField>)
    ensures ApplyUserFields(x, fs + gs) == ApplyUserFields(ApplyUserFields(x, fs), gs)
    decreases |fs|
  {
    if fs == [] {
      assert fs + gs == gs;
    } else {
      assert (fs + gs)[0] == fs[0];
      assert (fs + gs)[1..] == fs[1..] + gs;
      ApplyUserFieldsAppend(SetUserAttr(x, fs[0]), fs[1..], gs);
    }
  }

  /** The loop over the set fields performs exactly the field-wise patch. */
  lemma {:induction false} ApplyUserSetFieldsIsPatch(x: User, u: UserUpdate)
    ensures ApplyUserFields(x, UserSetFields(u)) == PatchUser(x, u)
  {
    var a := if u.username.Some? then [UsernameField(u.username.value)] else [];
    var b := if u.email.Some? then [EmailField(u.email.value)] else [];
    assert UserSetFields(u) == a + b;
    ApplyUserFieldsAppend(x, a, b);
  }
}
