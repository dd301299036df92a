/** server/routes/auth.ts: login, token check and registration on the Express
    backend. Password hashing and comparison (bcrypt) and token signing and
    decoding (jsonwebtoken) are parameters. */
module AuthRoutes {
  import opened Common
  import opened Text
  import opened Listing
  import opened MongooseModels
  import opened LibraryRoutes
  import opened AuthMiddleware

  /** The `user` object of a login or registration answer (no password). */
  datatype UserView = UserView(id: Id, name: string, email: string, role: string)

  /** `{ token, user }` */
  datatype Session = Session(token: string, user: UserView)

  function ViewOfUser(k: Id, u: UserDoc): (v: UserView)
    ensures v.id == k && v.email == u.email && v.role == u.role && v.name == u.name
  {
    UserView(k, u.name, u.email, u.role)
  }

  /** The payload signed into every token: `{ userId, email, role }`. */
  function ClaimsOf(k: Id, u: UserDoc): (c: Claims)
    ensures c.userId == Some(k) && c.email == u.email && c.role == u.role
  {
    Claims(Some(k), u.email, u.role)
  }

  /** `User.findOne({ email: email.toLowerCase() })` */
  function FindByEmail(db: Database, email: string): (r: Option<Id>)
    reads db
    requires db.Valid()
    ensures r.Some? ==> r.value in db.users && db.users[r.value].email == Lower(email)
    ensures r.None? <==> !EmailTaken(db.users, email)
  {
    FirstOf(db.users, db.nextId, (u: UserDoc) => u.email == Lower(email))
  }

  /** POST /auth/login: 200 with a signed token exactly when a user with that
      (lower-cased) email exists and the password matches its hash. */
  function Login(db: Database, email: string, password: string,
                 compare: (string, string) -> bool, sign: Claims -> string): (r: Reply<Session>)
    reads db
    requires db.Valid()
    ensures email == "" || password == "" ==> r == Failure(400, "Email and password are required")
    ensures r.Success? <==>
              email != "" && password != "" &&
              exists k :: k in db.users && db.users[k].email == Lower(email) && db.users[k].password != ""
                          && compare(password, db.users[k].password)
    ensures r.Failure? && email != "" && password != "" ==> r == Failure(401, "Invalid credentials")
    ensures r.Success? ==>
              && r.status == 200 && r.body.user.id in db.users
              && r.body.user == ViewOfUser(r.body.user.id, db.users[r.body.user.id])
              && r.body.token == sign(ClaimsOf(r.body.user.id, db.users[r.body.user.id]))
              && db.users[r.body.user.id].email == Lower(email)
  {
    if email == "" || password == "" then Failure(400, "Email and password are required")
    else match FindByEmail(db, email)
      case None => Failure(401, "Invalid credentials")
      case Some(k) =>
        var u := db.users[k];
        if u.password == "" || !compare(password, u.password) then Failure(401, "Invalid credentials")
        else Success(200, Session(sign(ClaimsOf(k, u)), ViewOfUser(k, u)))
  }

  /** The user stored under an email logs in with a password its hash accepts. */
  lemma LoginFinds(db: Database, email: string, password: string, k: Id,
                   compare: (string, string) -> bool, sign: Claims -> string)
    requires db.Valid() && email != "" && password != ""
    requires k in db.users && db.users[k].email == Lower(email) && compare(password, db.users[k].password)
    ensures Login(db, email, password, compare, sign)
              == Success(200, Session(sign(ClaimsOf(k, db.users[k])), ViewOfUser(k, db.users[k])))
  {
    var l := Login(db, email, password, compare, sign);
    assert l.Success?;
    assert db.users[l.body.user.id].email == db.users[k].email;
  }

  /** GET /auth/verify: a bearer token whose payload names an existing user
      gives that user; a token that fails to decode, or a `userId` that is not
      an ObjectId, gives "Invalid token"; a missing or unknown user "User not found". */
  function Verify(db: Database, header: Option<string>, decode: string -> Option<IdArg>): (r: Reply<UserView>)
    reads db
    ensures BearerToken(header).None? ==> r == Failure(401, "No token provided")
    ensures BearerToken(header).Some? && decode(BearerToken(header).value) in {None, Some(Malformed)} ==>
              r == Failure(401, "Invalid token")
    ensures BearerToken(header).Some? && decode(BearerToken(header).value) == Some(Absent) ==>
              r == Failure(401, "User not found")
    ensures r.Success? <==> BearerToken(header).Some? && decode(BearerToken(header).value).Some?
                            && decode(BearerToken(header).value).value.ObjectId?
                            && decode(BearerToken(header).value).value.id in db.users
    ensures r.Success? ==>
              && r.status == 200 && r.body.id in db.users && r.body == ViewOfUser(r.body.id, db.users[r.body.id])
              && decode(BearerToken(header).value) == Some(ObjectId(r.body.id))
    ensures r.Failure? ==> r.status == 401
  {
    match BearerToken(header)
    case None => Failure(401, "No token provided")
    case Some(token) =>
      match decode(token)
      case None => Failure(401, "Invalid token")
      case Some(Malformed) => Failure(401, "Invalid token")
      case Some(Absent) => Failure(401, "User not found")
      case Some(ObjectId(k)) =>
        if k in db.users then Success(200, ViewOfUser(k, db.users[k])) else Failure(401, "User not found")
  }

  /** A token issued by login, sent back as the client sends it, verifies to
      the same user whenever decoding inverts signing. */
  lemma LoginThenVerify(db: Database, email: string, password: string,
                        compare: (string, string) -> bool, sign: Claims -> string, decode: string -> Option<IdArg>)
    requires db.Valid()
    requires Login(db, email, password, compare, sign).Success?
    requires forall c: Claims :: c.userId.Some? ==> decode(sign(c)) == Some(ObjectId(c.userId.value))
    ensures var s := Login(db, email, password, compare, sign).body;
            s.token != "" ==> Verify(db, Some(BearerPrefix + s.token), decode) == Success(200, s.user)
  {
    var s := Login(db, email, password, compare, sign).body;
    if s.token != "" {
      AuthHeaderRoundTrip(s.token);
      assert BearerToken(Some(BearerPrefix + s.token)) == Some(s.token);
      assert decode(s.token) == Some(ObjectId(s.user.id));
    }
  }

  predicate MissingRegistrationField(username: string, name: string, email: string, password: string) {
    username == "" || name == "" || email == "" || password == ""
  }

  /** The user `register` builds: email lower-cased, password hashed, role
      defaulting to "member". */
  function RegisteredUser(username: string, name: string, email: string, password: string,
                          role: Option<string>, hash: string -> string): (u: UserDoc)
    ensures u.email == Lower(email) && u.password == hash(password) && u.username == username
    ensures u.role == (if role.Some? then role.value else DefaultRole)
  {
    LowerIdempotent(email);
    NewUser(username, name, Lower(email), hash(password), role, None)
  }

  /** POST /auth/register: a new user is stored and signed in unless a field is
      missing, the email is in use, the role is not one of the two the schema
      allows, or the username is taken (the last two throw, giving 500). */
  method Register(db: Database, username: string, name: string, email: string, password: string,
                  role: Option<string>, hash: string -> string, sign: Claims -> string)
    returns (r: Reply<Session>)
    requires db.Valid()
    modifies db
    ensures db.Valid()
    ensures MissingRegistrationField(username, name, email, password) ==>
              r == Failure(400, "Username, name, email, and password are required")
    ensures !MissingRegistrationField(username, name, email, password) && EmailTaken(old(db.users), email) ==>
              r == Failure(400, "User already exists")
    ensures r.Success? <==> !MissingRegistrationField(username, name, email, password)
                            && !EmailTaken(old(db.users), email)
                            && UserValidates(RegisteredUser(username, name, email, password, role, hash))
                            && !UsernameTaken(old(db.users), username)
    ensures (!MissingRegistrationField(username, name, email, password) && !EmailTaken(old(db.users), email)
             && r.Failure?) ==> r == Failure(500, InternalError)
    ensures r.Failure? ==> unchanged(db)
    ensures r.Success? ==>
              var u := RegisteredUser(username, name, email, password, role, hash);
              && r.status == 201 && db.users == old(db.users)[old(db.nextId) := u]
              && r.body == Session(sign(ClaimsOf(old(db.nextId), u)), ViewOfUser(old(db.nextId), u))
              && db.books == old(db.books) && db.borrows == old(db.borrows)
    ensures forall compare: (string, string) -> bool :: r.Success? && compare(password, hash(password)) ==>
              Login(db, email, password, compare, sign) == Success(200, r.body)
  {
    if MissingRegistrationField(username, name, email, password) {
      return Failure(400, "Username, name, email, and password are required");
    }
    if EmailTaken(db.users, email) {
      return Failure(400, "User already exists");
    }
    var u := RegisteredUser(username, name, email, password, role, hash);
    LowerIdempotent(email);
    var saved := db.InsertUser(u);
    if saved.Err? {
      return Failure(500, InternalError);
    }
    r := Success(201, Session(sign(ClaimsOf(saved.value, u)), ViewOfUser(saved.value, u)));
    forall compare: (string, string) -> bool | compare(password, hash(password))
      ensures Login(db, email, password, compare, sign) == Success(200, r.body)
    {
      LoginFinds(db, email, password, saved.value, compare, sign);
    }
  }
}
