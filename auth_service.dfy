/** service/AuthService.java: login, token check and registration on the
    Spring backend. The password encoder and the JWT utility are parameters:
    `matches(raw, hash)`, `encode(raw)`, `generateToken(id, email, role)`,
    `validate(token)`, `expired(token)` and `userIdOf(token)`. */
module AuthService {
  import opened Common
  import opened Text
  import opened Listing
  import opened SpringModel
  import opened SpringStore

  datatype UserResponse = UserResponse(id: Id, name: string, email: string, role: string)

  datatype LoginResponse = LoginResponse(token: string, user: UserResponse)

  datatype RegisterRequest = RegisterRequest(username: string, name: string, email: string, password: string,
                                             phone: Option<string>)

  /** `UserResponse.fromUser` */
  function FromUser(k: Id, u: UserRecord): (v: UserResponse)
    ensures v.id == k && v.email == u.email && v.name == u.name && v.role == u.role.Value()
  {
    UserResponse(k, u.name, u.email, u.role.Value())
  }

  /** `userRepository.findByEmail(email)` */
  function FindByEmail(repo: Repositories, email: string): (r: Option<Id>)
    reads repo
    requires repo.Wellformed()
    ensures r.Some? ==> r.value in repo.users && repo.users[r.value].email == email
    ensures r.None? <==> !EmailExists(repo.users, email)
  {
    FirstOf(repo.users, repo.nextId, (u: UserRecord) => u.email == email)
  }

  /** `login`: the email is lower-cased before the lookup; an unknown email
      and a wrong password fail alike with "Invalid credentials". */
  function Login(repo: Repositories, email: string, password: string,
                 matches: (string, string) -> bool, generateToken: (Id, string, string) -> string)
    : (r: Result<LoginResponse>)
    reads repo
    requires repo.Valid()
    ensures r.Ok? <==> exists k :: k in repo.users && repo.users[k].email == Lower(email)
                                   && matches(password, repo.users[k].password)
    ensures r.Err? ==> r.message == "Invalid credentials"
    ensures r.Ok? ==>
              var k := r.value.user.id;
              && k in repo.users && repo.users[k].email == Lower(email)
              && r.value.user == FromUser(k, repo.users[k])
              && r.value.token == generateToken(k, repo.users[k].email, repo.users[k].role.Value())
  {
    match FindByEmail(repo, Lower(email))
    case None => Err("Invalid credentials")
    case Some(k) =>
      var user := repo.users[k];
      if !matches(password, user.password) then Err("Invalid credentials")
      else Ok(LoginResponse(generateToken(k, user.email, user.role.Value()), FromUser(k, user)))
  }

  /** The account stored under an email logs in with a password that matches its hash. */
  lemma LoginFinds(repo: Repositories, email: string, password: string, k: Id,
                   matches: (string, string) -> bool, generateToken: (Id, string, string) -> string)
    requires repo.Valid() && k in repo.users && repo.users[k].email == Lower(email)
    requires matches(password, repo.users[k].password)
    ensures Login(repo, email, password, matches, generateToken)
              == Ok(LoginResponse(generateToken(k, repo.users[k].email, repo.users[k].role.Value()),
                                  FromUser(k, repo.users[k])))
  {
    var l := Login(repo, email, password, matches, generateToken);
    assert l.Ok?;
  }

  /** Two emails that differ only in case log in to the same account. */
  lemma LoginIgnoresEmailCase(repo: Repositories, email1: string, email2: string, password: string,
                              matches: (string, string) -> bool, generateToken: (Id, string, string) -> string)
    requires repo.Valid() && EqualsIgnoreCase(email1, email2)
    ensures Login(repo, email1, password, matches, generateToken) == Login(repo, email2, password, matches, generateToken)
  {
  }

  /** `verify`: the token must be valid and unexpired, carry a user id, and
      that user must exist. */
  function Verify(repo: Repositories, token: string, validate: string -> bool, expired: string -> bool,
                  userIdOf: string -> Option<Id>): (r: Result<UserResponse>)
    reads repo
    ensures !validate(token) || expired(token) ==> r == Err("Invalid or expired token")
    ensures validate(token) && !expired(token) && userIdOf(token).None? ==> r == Err("Invalid token: no user ID found")
    ensures (validate(token) && !expired(token) && userIdOf(token).Some? && userIdOf(token).value !in repo.users) ==>
              r == Err("User not found")
    ensures r.Ok? <==> validate(token) && !expired(token) && userIdOf(token).Some? && userIdOf(token).value in repo.users
    ensures r.Ok? ==> r.value == FromUser(userIdOf(token).value, repo.users[userIdOf(token).value])
  {
    if !validate(token) || expired(token) then Err("Invalid or expired token")
    else match userIdOf(token)
      case None => Err("Invalid token: no user ID found")
      case Some(k) => if k in repo.users then Ok(FromUser(k, repo.users[k])) else Err("User not found")
  }

  /** `register`: refuses an email whose lower-case form is taken, then a
      taken username; otherwise stores a MEMBER with the lower-cased email and
      the encoded password, whatever role the request might carry. */
  method Register(repo: Repositories, req: RegisterRequest, encode: string -> string) returns (r: Result<UserResponse>)
    requires repo.Valid()
    modifies repo
    ensures repo.Valid()
    ensures EmailExists(old(repo.users), Lower(req.email)) ==> r == Err("User with this email already exists")
    ensures !EmailExists(old(repo.users), Lower(req.email)) && UsernameExists(old(repo.users), req.username) ==>
              r == Err("Username already exists")
    ensures r.Ok? <==> !EmailExists(old(repo.users), Lower(req.email)) && !UsernameExists(old(repo.users), req.username)
    ensures r.Err? ==> unchanged(repo)
    ensures r.Ok? ==>
              var u := UserRecord(req.username, req.name, Lower(req.email), encode(req.password), MEMBER, req.phone);
              && old(repo.nextId) !in old(repo.users)
              && repo.users == old(repo.users)[old(repo.nextId) := u]
              && r.value == FromUser(old(repo.nextId), u)
    ensures repo.books == old(repo.books) && repo.borrows == old(repo.borrows)
    ensures forall matches: (string, string) -> bool, generateToken: (Id, string, string) -> string ::
              r.Ok? && matches(req.password, encode(req.password)) ==>
              Login(repo, req.email, req.password, matches, generateToken)
                == Ok(LoginResponse(generateToken(r.value.id, r.value.email, "member"), r.value))
  {
    if EmailExists(repo.users, Lower(req.email)) {
      return Err("User with this email already exists");
    }
    if UsernameExists(repo.users, req.username) {
      return Err("Username already exists");
    }
    var user := new User.Blank();
    user.username := req.username;
    user.name := req.name;
    user.email := Lower(req.email);
    user.password := encode(req.password);
    user.role := MEMBER;
    user.phone := req.phone;
    LowerIdempotent(req.email);
    InsertFreshUser(repo.users, repo.nextId, user.Record());
    var id := repo.SaveUser(user);
    r := Ok(FromUser(id, user.Record()));
    forall matches: (string, string) -> bool, generateToken: (Id, string, string) -> string
      | matches(req.password, encode(req.password))
      ensures Login(repo, req.email, req.password, matches, generateToken)
                == Ok(LoginResponse(generateToken(r.value.id, r.value.email, "member"), r.value))
    {
      LoginFinds(repo, req.email, req.password, id, matches, generateToken);
    }
  }
}
