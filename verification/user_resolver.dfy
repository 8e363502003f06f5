/** The User resolver of `src/resolvers/User.resolver.ts`: `getUser`,
    `createUser` (sign-up), `login` and `me`. Each operation runs its checks
    in the source's order and stops at the first failure; only a successful
    `createUser` writes, and it writes once, after every check. */
module UserResolver {
  import opened Errors
  import opened JsString
  import opened Store

  /** The sign-up form; an empty string is a missing field. */
  datatype CreateUserInput = CreateUserInput(name: string, username: string, email: string, password: string)

  datatype CookieOptions = CookieOptions(maxAge: nat, httpOnly: bool, sameSite: string)

  /** A cookie the response sets; `maxAge` is in milliseconds. */
  datatype Cookie = Cookie(name: string, value: string, options: CookieOptions)

  datatype LoginReply = LoginReply(user: User, cookie: Cookie)

  const SessionCookieName: string := "userId"

  /** One week, in milliseconds. */
  const SessionMaxAge: nat := 1000 * 60 * 60 * 24 * 7

  /** The session cookie for an account: its id, readable from scripts,
      sent on same-site requests and top-level navigations. */
  function SessionCookie(id: Id): Cookie {
    Cookie(SessionCookieName, id, CookieOptions(SessionMaxAge, false, "lax"))
  }

  const CredentialsMessage: string := "Invalid email or password"

  // ---------------------------------------------------------------- validation rules

  predicate UsernameLengthOk(username: string) {
    3 <= Utf16Length(username) <= 20
  }

  predicate PasswordLengthOk(password: string) {
    6 <= Utf16Length(password) <= 50
  }

  predicate HasAllFields(input: CreateUserInput) {
    input.name != "" && input.username != "" && input.email != "" && input.password != ""
  }

  /** The sign-up form passes every check that does not read the store. */
  ghost predicate IsAcceptableSignup(v: Validators, input: CreateUserInput) {
    && HasAllFields(input)
    && v.isEmail(input.email)
    && UsernameLengthOk(input.username)
    && PasswordLengthOk(input.password)
  }

  ghost predicate EmailTaken(db: Db, email: string) {
    exists u :: u in db.users && u.email == email
  }

  ghost predicate UsernameTaken(db: Db, username: string) {
    exists u :: u in db.users && u.username == username
  }

  /** The login form passes every check that does not read the store. */
  ghost predicate IsAcceptableLogin(v: Validators, email: string, password: string) {
    email != "" && password != "" && v.isEmail(email) && PasswordLengthOk(password)
  }

  ghost predicate HasCredentials(db: Db, email: string, password: string) {
    exists u :: u in db.users && u.email == email && u.password == password
  }

  /** The lookup key `me` reads from the request: the decoded "userId"
      cookie, or the string "undefined" when there is none, which is what
      `decodeURIComponent(undefined)` returns. */
  function SessionKey(session: Option<string>): string {
    match session
    case None => "undefined"
    case Some(s) => s
  }

  // ---------------------------------------------------------------- operations

  /** `getUser(id)`: an id that is not an object id is refused before any
      lookup; otherwise the account whose id is the argument cast to an
      object id, or USER_NOT_FOUND. */
  function GetUser(db: Db, v: Validators, id: string): (r: Result<User>)
    ensures !v.isObjectId(id) ==> r == Err(ResolverError("Invalid id", InvalidId, []))
    ensures r.Ok? ==> r.value in db.users && r.value.id == v.castId(id)
    ensures v.isObjectId(id) ==> (r.Ok? <==> exists u :: u in db.users && u.id == v.castId(id))
    ensures v.isObjectId(id) && r.Err? ==>
      r.error == ResolverError("User not found", UserNotFound, [FieldError("id", "User not found")])
  {
    if !v.isObjectId(id) then Fail("Invalid id", InvalidId)
    else
      var key := v.castId(id);
      match FindOne(db.users, (u: User) => u.id == key)
      case None => FailOn("User not found", UserNotFound, "id")
      case Some(u) => Ok(u)
  }

  /** `createUser(input)`: missing fields, email syntax, username length,
      password length, then a taken email, then a taken username; only when
      all pass is the account appended, with exactly the submitted fields. */
  function CreateUser(db: Db, v: Validators, input: CreateUserInput, newId: Id): (r: Result<(Db, User)>)
    ensures !HasAllFields(input) ==>
      r == Err(ResolverError("Name, username, email or password is missing", InvalidInput, []))
    ensures HasAllFields(input) && !v.isEmail(input.email) ==>
      r == Err(ResolverError("Invalid email", InvalidEmail, [FieldError("email", "Invalid email")]))
    ensures HasAllFields(input) && v.isEmail(input.email) && !UsernameLengthOk(input.username) ==>
      r == Err(ResolverError("Invalid username", InvalidUsername, [FieldError("username", "Invalid username")]))
    ensures HasAllFields(input) && v.isEmail(input.email) && UsernameLengthOk(input.username)
            && !PasswordLengthOk(input.password) ==>
      r == Err(ResolverError("Password must be between 6 and 50 characters", InvalidPassword, []))
    ensures IsAcceptableSignup(v, input) && EmailTaken(db, input.email) ==>
      r == Err(ResolverError("Email already exists", EmailAlreadyExists, [FieldError("email", "Email already exists")]))
    ensures IsAcceptableSignup(v, input) && !EmailTaken(db, input.email) && UsernameTaken(db, input.username) ==>
      r == Err(ResolverError("Username already exists", UsernameAlreadyExists,
                             [FieldError("username", "Username already exists")]))
    ensures r.Ok? <==>
      IsAcceptableSignup(v, input) && !EmailTaken(db, input.email) && !UsernameTaken(db, input.username)
    ensures r.Ok? ==> r.value.1 == User(newId, input.name, input.username, input.email, input.password)
    ensures r.Ok? ==> r.value.0 == Db(db.users + [r.value.1], db.codespaces)
  {
    if !HasAllFields(input) then
      Fail("Name, username, email or password is missing", InvalidInput)
    else if !v.isEmail(input.email) then
      FailOn("Invalid email", InvalidEmail, "email")
    else if !UsernameLengthOk(input.username) then
      FailOn("Invalid username", InvalidUsername, "username")
    else if !PasswordLengthOk(input.password) then
      Fail("Password must be between 6 and 50 characters", InvalidPassword)
    else if FindOne(db.users, (u: User) => u.email == input.email).Some? then
      FailOn("Email already exists", EmailAlreadyExists, "email")
    else if FindOne(db.users, (u: User) => u.username == input.username).Some? then
      FailOn("Username already exists", UsernameAlreadyExists, "username")
    else
      var user := User(newId, input.name, input.username, input.email, input.password);
      Ok((Db(db.users + [user], db.codespaces), user))
  }

  /** `login(email, password)`: both present, a syntactically valid email
      and a password of legal length, then an exact match on both; on a
      match the session cookie carries the account's id. A failed match
      flags both fields with one message, so it does not reveal which was
      wrong. */
  function Login(db: Db, v: Validators, email: string, password: string): (r: Result<LoginReply>)
    ensures email == "" || password == "" ==>
      r == Err(ResolverError("Email or password is missing", NoCode, []))
    ensures email != "" && password != "" && !v.isEmail(email) ==>
      r == Err(ResolverError("Invalid email", InvalidEmail, [FieldError("email", "Invalid email")]))
    ensures email != "" && password != "" && v.isEmail(email) && !PasswordLengthOk(password) ==>
      r == Err(ResolverError("Password must be between 6 and 50 characters", InvalidPassword, []))
    ensures r.Ok? <==> IsAcceptableLogin(v, email, password) && HasCredentials(db, email, password)
    ensures r.Ok? ==> r.value.user in db.users && r.value.user.email == email && r.value.user.password == password
    ensures r.Ok? ==> r.value.cookie == Cookie("userId", r.value.user.id, CookieOptions(604800000, false, "lax"))
    ensures IsAcceptableLogin(v, email, password) && !HasCredentials(db, email, password) ==>
      r == Err(ResolverError("Invalid email or password", InvalidCredentials,
                             [FieldError("email", "Invalid email or password"),
                              FieldError("password", "Invalid email or password")]))
  {
    if email == "" || password == "" then
      Fail("Email or password is missing", NoCode)
    else if !v.isEmail(email) then
      FailOn("Invalid email", InvalidEmail, "email")
    else if !PasswordLengthOk(password) then
      Fail("Password must be between 6 and 50 characters", InvalidPassword)
    else
      match FindOne(db.users, (u: User) => u.email == email && u.password == password)
      case None =>
        Err(ResolverError(CredentialsMessage, InvalidCredentials,
                          [FieldError("email", CredentialsMessage), FieldError("password", CredentialsMessage)]))
      case Some(u) => Ok(LoginReply(u, SessionCookie(u.id)))
  }

  /** `me()`: the account named by the session. There is no presence check:
      a key that is not an object id makes the persistence layer's cast
      fail; otherwise the key is cast, and a cast key naming no account
      gives USER_NOT_FOUND. */
  function Me(db: Db, v: Validators, session: Option<string>): (r: Result<User>)
    ensures !v.isObjectId(SessionKey(session)) ==> r == Err(CastError(SessionKey(session)))
    ensures r.Ok? ==> r.value in db.users && r.value.id == v.castId(SessionKey(session))
    ensures v.isObjectId(SessionKey(session)) ==>
      (r.Ok? <==> exists u :: u in db.users && u.id == v.castId(SessionKey(session)))
    ensures v.isObjectId(SessionKey(session)) && r.Err? ==>
      r == Err(ResolverError("User not found", UserNotFound, []))
  {
    var key := SessionKey(session);
    if !v.isObjectId(key) then Err(CastError(key))
    else
      var id := v.castId(key);
      match FindOne(db.users, (u: User) => u.id == id)
      case None => Fail("User not found", UserNotFound)
      case Some(u) => Ok(u)
  }

  // ---------------------------------------------------------------- properties

  /** A successful sign-up keeps the store valid: the new account's email and
      username were free, its id is fresh, and nothing else changed. */
  lemma CreateUserPreservesValid(db: Db, v: Validators, input: CreateUserInput, newId: Id)
    requires Valid(v, db) && IsFreshId(v, db, newId)
    requires CreateUser(db, v, input, newId).Ok?
    ensures Valid(v, CreateUser(db, v, input, newId).value.0)
  {
    var (db', user) := CreateUser(db, v, input, newId).value;
    var users := db'.users;
    assert users == db.users + [user];
    forall i, j | 0 <= i < j < |users|
      ensures users[i].id != users[j].id
      ensures users[i].email != users[j].email
      ensures users[i].username != users[j].username
    {
      if j == |db.users| {
        assert users[i] in db.users;
        assert users[j] == user;
      }
    }
    assert UserIds(db) <= UserIds(db');
    forall c | c in db'.codespaces ensures IsValidCodespace(db', c) {
      assert IsValidCodespace(db, c);
    }
  }

  /** Under the invariant, a successful login returns the one account that
      has the submitted email. */
  lemma LoginFindsTheAccount(db: Db, v: Validators, email: string, password: string, u: User)
    requires Valid(v, db)
    requires Login(db, v, email, password).Ok?
    requires u in db.users && u.email == email
    ensures Login(db, v, email, password).value.user == u
  {
    EmailNamesOneAccount(v, db, u, Login(db, v, email, password).value.user);
  }

  /** The session a login hands out names the account that logged in:
      `me` with the cookie's value returns that account. */
  lemma MeAfterLogin(db: Db, v: Validators, email: string, password: string)
    requires Valid(v, db)
    requires Login(db, v, email, password).Ok?
    ensures Me(db, v, Some(Login(db, v, email, password).value.cookie.value))
            == Ok(Login(db, v, email, password).value.user)
  {
    var u := Login(db, v, email, password).value.user;
    assert IsValidAccount(v, u);
    var r := Me(db, v, Some(u.id));
    var w := r.value;
    var i :| 0 <= i < |db.users| && db.users[i] == u;
    var j :| 0 <= j < |db.users| && db.users[j] == w;
    assert i == j;
  }

  /** Sign-up followed by login with the same email and password succeeds
      and opens a session for the new account. */
  lemma LoginAfterCreateUser(db: Db, v: Validators, input: CreateUserInput, newId: Id)
    requires CreateUser(db, v, input, newId).Ok?
    ensures Login(CreateUser(db, v, input, newId).value.0, v, input.email, input.password).Ok?
  {
    var (db', user) := CreateUser(db, v, input, newId).value;
    assert user in db'.users;
  }
}
