/**
 * The two ORM record types of the application (the `users` and `todos`
 * tables) and the table-wide constraints their columns declare.
 */
module Models {
  import opened Wrappers

  /** A row of `users`. The NOT NULL columns are plain strings; first and
      last name are nullable columns. */
  datatype User = User(
    id: int,
    firstName: Option<string>,
    lastName: Option<string>,
    username: string,
    email: string,
    hashedPassword: string)

  /** A row of `todos`. `title` is NOT NULL, `description` is nullable and
      `userId` is the nullable foreign key to `users.id`. `completed` is a
      nullable column with default false; the model keeps it a `bool`, so a
      row with a NULL `completed` is outside the model. */
  datatype ToDo = ToDo(
    id: int,
    title: string,
    description: Option<string>,
    completed: bool,
    userId: Option<int>)

  /** The column default of `completed`. */
  const CompletedDefault := false

  /** Every row is stored under its own primary key. */
  ghost predicate ToDosKeyed(todos: map<int, ToDo>) {
    forall k :: k in todos ==> todos[k].id == k
  }

  ghost predicate UsersKeyed(users: map<int, User>) {
    forall k :: k in users ==> users[k].id == k
  }

  /** The UNIQUE constraint on `users.username`. */
  ghost predicate UniqueUsernames(users: map<int, User>) {
    forall a, b :: a in users && b in users && users[a].username == users[b].username ==> a == b
  }

  /** The UNIQUE constraint on `users.email`. */
  ghost predicate UniqueEmails(users: map<int, User>) {
    forall a, b :: a in users && b in users && users[a].email == users[b].email ==> a == b
  }

  predicate UsernameTaken(users: map<int, User>, username: string) {
    exists k :: k in users && users[k].username == username
  }

  predicate EmailTaken(users: map<int, User>, email: string) {
    exists k :: k in users && users[k].email == email
  }

  /** Whether `u` could be stored beside the other rows of `users` without
      violating either UNIQUE constraint. */
  predicate FitsUnique(users: map<int, User>, u: User) {
    forall k :: k in users && k != u.id ==> users[k].username != u.username && users[k].email != u.email
  }

  /** The rows that the `cascade="all, delete-orphan"` relationship removes
      together with user `uid`: every to-do whose `user_id` is `uid`. */
  function WithoutOwnedBy(todos: map<int, ToDo>, uid: int): (r: map<int, ToDo>)
    ensures forall k :: k in r <==> k in todos && todos[k].userId != Some(uid)
    ensures forall k :: k in r ==> r[k] == todos[k]
  {
    map k | k in todos && todos[k].userId != Some(uid) :: todos[k]
  }

  /** Adding a user that fits keeps both UNIQUE constraints. */
  lemma InsertKeepsUnique(users: map<int, User>, u: User)
    requires UsersKeyed(users) && UniqueUsernames(users) && UniqueEmails(users)
    requires FitsUnique(users, u)
    ensures UsersKeyed(users[u.id := u])
    ensures UniqueUsernames(users[u.id := u]) && UniqueEmails(users[u.id := u])
  {
  }
}
