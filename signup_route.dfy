/**
 * `/api/auth/signup`: self-registration of a user.
 */
module SignupRoute {
  import opened Text
  import opened Domain
  import opened Store
  import opened Validation

  const LoginTaken: string := "Username or email already exists"

  /** The response body: the stored user with the password hash removed. */
  function WithoutPassword(u: User): PublicUser {
    PublicUser(u.id, u.username, u.name, u.email, u.role, u.status)
  }

  /** The response determines every stored field except the hash. */
  lemma WithoutPasswordKeepsFields(u: User, v: User)
    ensures WithoutPassword(u) == WithoutPassword(v) <==> u.(passwordHash := v.passwordHash) == v
  {
  }

  /** `findFirst` with `OR: [{ username }, { email }]` finds a row. */
  predicate LoginUsed(users: seq<User>, username: string, email: string) {
    exists i :: 0 <= i < |users| && (users[i].username == username || users[i].email == email)
  }

  /**
   * POST /api/auth/signup.  `isEmail` stands for zod's e-mail check and
   * `passwordHash` for the bcrypt hash of the submitted password.
   */
  method Signup(db: Db, isEmail: string -> bool, body: UserCreateInput, passwordHash: string)
    returns (reply: Reply<PublicUser>)
    modifies db
    ensures UserCreate(isEmail, body).None? ==> reply == Failure(400, ValidationFailed)
    ensures (UserCreate(isEmail, body).Some? && LoginUsed(old(db.users), body.username, body.email)) ==>
      reply == Failure(400, LoginTaken)
    ensures reply.Failure? ==> unchanged(db)
    ensures reply.Success? <==>
      UserCreate(isEmail, body).Some? && !LoginUsed(old(db.users), body.username, body.email)
    ensures reply.Success? ==>
      var u := User(old(db.nextId), body.username, body.name, body.email, passwordHash,
        UserCreate(isEmail, body).value.role, UserStatus.ACTIVE);
      && reply == Success(201, WithoutPassword(u))
      && db.users == old(db.users) + [u]
      && db.logs == old(db.logs) + [ActionLog(RegistrationActor, USER_CREATED, TargetType.USER, u.id,
           Text("User registered: " + body.username))]
      && db.books == old(db.books) && db.transactions == old(db.transactions)
      && db.nextId == old(db.nextId) + 1
    ensures UniqueLogins(old(db.users)) ==> UniqueLogins(db.users)
    ensures old(db.Valid()) ==> db.Valid()
  {
    var data := UserCreate(isEmail, body);
    if data.None? {
      return Failure(400, ValidationFailed);
    }
    if exists i :: 0 <= i < |db.users| && (db.users[i].username == body.username || db.users[i].email == body.email) {
      return Failure(400, LoginTaken);
    }
    var id := db.NewId();
    var u := User(id, data.value.username, data.value.name, data.value.email, passwordHash,
      data.value.role, UserStatus.ACTIVE);
    db.users := db.users + [u];
    db.logs := db.logs + [ActionLog(RegistrationActor, USER_CREATED, TargetType.USER, id,
      Text("User registered: " + u.username))];
    reply := Success(201, WithoutPassword(u));
  }
}
