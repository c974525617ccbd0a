/**
 * The registration, login and logout form handlers.
 */
module UserPages {
  import opened Wrappers
  import opened Models
  import opened Db
  import opened Http
  import opened Security

  const RegisterTemplate := "auth/register.html"
  const LoginTemplate := "auth/login.html"

  const PasswordsDifferMessage := "Пароли не совпадают"
  const BothTakenMessage := "Пользователь с таким email и именем уже существует"
  const EmailTakenMessage := "Email уже используется"
  const UsernameTakenMessage := "Имя пользователя уже используется"
  const BadCredentialsMessage := "Неверное имя пользователя или пароль"

  /** Thirty days, the lifetime of a remembered session cookie. */
  const RememberSeconds := 60 * 60 * 24 * 30

  datatype RegisterForm = RegisterForm(
    firstName: string,
    lastName: string,
    username: string,
    email: string,
    password: string,
    confirmPassword: string)

  /** The verdict of the registration checks. */
  datatype RegisterCheck =
    | PasswordsDiffer
    | BothInUse
    | EmailInUse
    | UsernameInUse
    | Accepted

  /** The checks of `register_post`, in their order: the confirmation
      first, then the two uniqueness checks, reported separately. */
  function CheckRegistration(users: map<int, User>, f: RegisterForm): (r: RegisterCheck)
    ensures f.password != f.confirmPassword ==> r == PasswordsDiffer
    ensures r == BothInUse <==>
      f.password == f.confirmPassword && EmailTaken(users, f.email) && UsernameTaken(users, f.username)
    ensures r == EmailInUse <==>
      f.password == f.confirmPassword && EmailTaken(users, f.email) && !UsernameTaken(users, f.username)
    ensures r == UsernameInUse <==>
      f.password == f.confirmPassword && !EmailTaken(users, f.email) && UsernameTaken(users, f.username)
    ensures r == Accepted <==>
      f.password == f.confirmPassword && !EmailTaken(users, f.email) && !UsernameTaken(users, f.username)
  {
    if f.password != f.confirmPassword then PasswordsDiffer
    else
      var emailTaken := EmailTaken(users, f.email);
      var usernameTaken := UsernameTaken(users, f.username);
      if emailTaken && usernameTaken then BothInUse
      else if emailTaken then EmailInUse
      else if usernameTaken then UsernameInUse
      else Accepted
  }

  /** The message shown for each rejection; four distinct messages. */
  function RegisterError(c: RegisterCheck): (m: string)
    requires c != Accepted
    ensures c == PasswordsDiffer ==> m == PasswordsDifferMessage
    ensures c == BothInUse ==> m == BothTakenMessage
    ensures c == EmailInUse ==> m == EmailTakenMessage
    ensures c == UsernameInUse ==> m == UsernameTakenMessage
  {
    match c
    case PasswordsDiffer => PasswordsDifferMessage
    case BothInUse => BothTakenMessage
    case EmailInUse => EmailTakenMessage
    case UsernameInUse => UsernameTakenMessage
  }

  /** Distinct verdicts show distinct messages. */
  lemma RegisterErrorsDistinct(c: RegisterCheck, d: RegisterCheck)
    requires c != Accepted && d != Accepted && c != d
    ensures RegisterError(c) != RegisterError(d)
  {
  }

  /** POST `/users/create`: a rejected form re-renders the page with its
      message and adds no user; an accepted one adds exactly one user,
      storing the hash of the password, and redirects to the login page. */
  method RegisterPost(db: Store, scheme: PasswordScheme, f: RegisterForm) returns (p: Page)
    requires db.Valid()
    modifies db`users, db`nextUserId
    ensures db.Valid()
    ensures var c := CheckRegistration(old(db.users), f);
      c != Accepted ==> p == Render(RegisterTemplate, Some(RegisterError(c))) && db.users == old(db.users)
    ensures CheckRegistration(old(db.users), f) == Accepted ==>
      var id := old(db.nextUserId);
      && p == Redirect(LoginUrl, SeeOther, KeepCookie)
      && id !in old(db.users)
      && db.users == old(db.users)[id := User(id, Some(f.firstName), Some(f.lastName), f.username, f.email, scheme.hash(f.password))]
  {
    var c := CheckRegistration(db.users, f);
    if c != Accepted {
      return Render(RegisterTemplate, Some(RegisterError(c)));
    }
    var hashed := scheme.hash(f.password);
    var created := db.InsertUser(Some(f.firstName), Some(f.lastName), f.username, f.email, hashed);
    p := Redirect(LoginUrl, SeeOther, KeepCookie);
  }

  /** The cookie lifetime `login_post` asks for: thirty days when the
      `remember` field is present and non-empty, otherwise a session cookie. */
  function RememberAge(remember: Option<string>): (age: Option<int>)
    ensures age.Some? <==> remember.Some? && remember.value != ""
    ensures age.Some? ==> age.value == 2592000
  {
    if remember.Some? && remember.value != "" then Some(RememberSeconds) else None
  }

  /** User `uid` exists, has this username, and the password checks out
      against their stored hash. */
  ghost predicate Authenticates(users: map<int, User>, scheme: PasswordScheme, uid: int, username: string, password: string) {
    uid in users && users[uid].username == username && scheme.verify(password, users[uid].hashedPassword)
  }

  /** POST `/users/login`: an unknown username and a wrong password give
      the same page and set no cookie; a match redirects to the list and
      sets `user_id` to the user's id. The database is only read. */
  method LoginPost(db: Store, scheme: PasswordScheme, username: string, password: string, remember: Option<string>)
    returns (p: Page)
    requires db.Valid()
    ensures (exists uid :: Authenticates(db.users, scheme, uid, username, password)) <==> p.Redirect?
    ensures !p.Redirect? ==> p == Render(LoginTemplate, Some(BadCredentialsMessage))
    ensures p.Redirect? ==>
      && p.url == TodosUrl && p.status == SeeOther
      && p.cookie.SetUserId? && p.cookie.maxAge == RememberAge(remember)
      && Authenticates(db.users, scheme, p.cookie.userId, username, password)
  {
    var user := db.UserByUsername(username);
    if user.None? {
      return Render(LoginTemplate, Some(BadCredentialsMessage));
    }
    if !scheme.verify(password, user.value.hashedPassword) {
      forall uid | uid in db.users && db.users[uid].username == username
        ensures uid == user.value.id
      {
        assert db.users[uid].username == db.users[user.value.id].username;
      }
      return Render(LoginTemplate, Some(BadCredentialsMessage));
    }
    assert Authenticates(db.users, scheme, user.value.id, username, password);
    p := Redirect(TodosUrl, SeeOther, SetUserId(user.value.id, RememberAge(remember)));
  }

  /** POST `/users/logout`: back to the login page, cookie deleted. */
  function Logout(): (p: Page)
    ensures p.Redirect? && p.url == LoginUrl && p.status == SeeOther && p.cookie == DeleteUserId
  {
    Redirect(LoginUrl, SeeOther, DeleteUserId)
  }

  /** Registering and then logging in with the same username and password
      gets the new user's session cookie, provided the hashing scheme
      recognises a password against its own hash. */
  method RegisterThenLogin(db: Store, scheme: PasswordScheme, f: RegisterForm, remember: Option<string>)
    returns (registered: Page, loggedIn: Page)
    requires db.Valid() && Sound(scheme)
    requires CheckRegistration(db.users, f) == Accepted
    modifies db`users, db`nextUserId
    ensures db.Valid()
    ensures registered == Redirect(LoginUrl, SeeOther, KeepCookie)
    ensures loggedIn == Redirect(TodosUrl, SeeOther, SetUserId(old(db.nextUserId), RememberAge(remember)))
  {
    var id := db.nextUserId;
    registered := RegisterPost(db, scheme, f);
    assert Authenticates(db.users, scheme, id, f.username, f.password);
    loggedIn := LoginPost(db, scheme, f.username, f.password, remember);
  }
}
