/**
 * UserService: the service-layer authentication and registration. It looks
 * users up like AuthController does, but authentication does not look at
 * IsActive, registration refuses a taken username or e-mail with one combined
 * check, and the new user's role is "User" rather than "Reader".
 */
module UserService {
  import opened Wrappers
  import opened Entities
  import opened Data
  import opened Tokens
  import opened Auth

  /**
   * AuthenticateAsync: the first visible user whose username or e-mail is the
   * identifier, provided the password verifies; null otherwise. IsActive is
   * not consulted and nothing is written.
   */
  function Authenticate(users: seq<User>, usernameOrEmail: string, password: string, hasher: PasswordHasher): (r: Option<User>)
    ensures r.Some? <==>
      FindForLogin(users, usernameOrEmail).Some? && hasher.verify(password, users[FindForLogin(users, usernameOrEmail).value].passwordHash)
    ensures r.Some? ==>
      && r.value in users && !r.value.isDeleted && Identifies(r.value, usernameOrEmail)
      && hasher.verify(password, r.value.passwordHash)
  {
    match FindForLogin(users, usernameOrEmail)
    case None => None
    case Some(i) => if hasher.verify(password, users[i].passwordHash) then Some(users[i]) else None
  }

  /**
   * The service and the controller accept the same credentials, except that
   * the controller also turns away an inactive account; both pick the same user.
   */
  lemma AuthenticateAgreesWithLogin(users: seq<User>, req: LoginRequest, hasher: PasswordHasher, newToken: string,
                                    settings: JwtSettings, now: Time)
    ensures var a := Authenticate(users, req.usernameOrEmail, req.password, hasher);
      var o := LoginOutcome(users, req, hasher, newToken, settings, now);
      && (o.response.Ok? <==> a.Some? && a.value.isActive)
      && (o.response.Ok? ==> o.response.body.user.id == a.value.id && o.response.body.user.username == a.value.username)
  {
  }

  /** RegisterAsync's two ways to fail: the exception it throws itself, and the database's. */
  datatype ServiceError = AlreadyInUse(message: string) | SaveFailed

  datatype ServiceOutcome = ServiceOutcome(result: Result<User, ServiceError>, users: seq<User>)

  /** `AnyAsync(u => u.Username == username || u.Email == email)`, as the index of the first match. */
  function UserWithUsernameOrEmail(users: seq<User>, username: string, email: string): (r: Option<nat>)
    ensures r.None? <==> forall j :: 0 <= j < |users| ==>
      users[j].isDeleted || (users[j].username != username && users[j].email != email)
  {
    FindFirst(users, (u: User) => !u.isDeleted && (u.username == username || u.email == email))
  }

  /** The user RegisterAsync inserts: as the entity initialises it, with role "User". */
  function ServiceAccount(users: seq<User>, req: RegisterRequest, passwordHash: string, now: Time): (u: User)
    ensures u.role == "User" && u.isActive && !u.emailConfirmed && !u.isDeleted
    ensures u.id == NextUserId(users) && u.username == req.username && u.email == req.email
    ensures u.passwordHash == passwordHash && u.firstName == req.firstName && u.lastName == req.lastName
    ensures u.refreshToken == None && u.refreshTokenExpiryTime == None && u.lastLoginAt == None
  {
    NewUser(now).(id := NextUserId(users), username := req.username, email := req.email, passwordHash := passwordHash,
      firstName := req.firstName, lastName := req.lastName, role := "User")
  }

  /**
   * RegisterAsync: a username or e-mail a visible user holds is refused with
   * nothing added; one only a soft-deleted user holds passes the check and the
   * save fails. Otherwise exactly one user is added and returned.
   */
  function ServiceRegistration(users: seq<User>, req: RegisterRequest, passwordHash: string, now: Time): (o: ServiceOutcome)
    ensures UserWithUsernameOrEmail(users, req.username, req.email).Some? <==>
      o.result == Failure(AlreadyInUse("Kullanıcı adı veya email zaten kullanımda"))
    ensures o.result.Success? <==>
      forall j :: 0 <= j < |users| ==> users[j].username != req.username && users[j].email != req.email
    ensures o.result.Failure? ==> o.users == users
    ensures o.result.Success? ==> o.users == users + [o.result.value] && o.result.value == ServiceAccount(users, req, passwordHash, now)
  {
    if UserWithUsernameOrEmail(users, req.username, req.email).Some? then
      ServiceOutcome(Failure(AlreadyInUse("Kullanıcı adı veya email zaten kullanımda")), users)
    else if !(forall j :: 0 <= j < |users| ==> users[j].username != req.username && users[j].email != req.email) then
      ServiceOutcome(Failure(SaveFailed), users)
    else
      var u := ServiceAccount(users, req, passwordHash, now);
      ServiceOutcome(Success(u), users + [u])
  }

  method RegisterAsync(db: ApplicationDb, req: RegisterRequest, hasher: PasswordHasher, salt: string, now: Time)
    returns (r: Result<User, ServiceError>)
    requires db.Valid()
    modifies db
    ensures db.Valid()
    ensures var o := ServiceRegistration(old(db.users), req, hasher.hash(req.password, salt), now);
      r == o.result && db.Snapshot() == old(db.Snapshot()).(users := o.users)
  {
    var s := db.Snapshot();
    if UserWithUsernameOrEmail(s.users, req.username, req.email).Some? {
      return Failure(AlreadyInUse("Kullanıcı adı veya email zaten kullanımda"));
    }
    var user := ServiceAccount(s.users, req, hasher.hash(req.password, salt), now);
    AppendUserUnique(s.users, user);
    var ok := db.SaveChanges(s.(users := s.users + [user]));
    if !ok {
      return Failure(SaveFailed);
    }
    r := Success(user);
  }

  /**
   * The service refuses a registration exactly when the controller answers
   * 400 (either message), they succeed on the same inputs, and they then add
   * the same user apart from the role and the controller's refresh token.
   */
  lemma RegistrationPathsAgree(users: seq<User>, req: RegisterRequest, passwordHash: string, newToken: string,
                               settings: JwtSettings, now: Time)
    ensures var o := RegisterOutcome(users, req, passwordHash, newToken, settings, now);
      var so := ServiceRegistration(users, req, passwordHash, now);
      && (so.result.Failure? && so.result.error.AlreadyInUse? <==> o.response.BadRequest?)
      && (so.result.Success? <==> o.response.Ok?)
      && (so.result.Success? ==>
            && o.users[|users|].role == "Reader" && so.result.value.role == "User"
            && o.users[|users|].(role := "User", refreshToken := None, refreshTokenExpiryTime := None, updatedAt := None)
               == so.result.value)
  {
    var o := RegisterOutcome(users, req, passwordHash, newToken, settings, now);
    var so := ServiceRegistration(users, req, passwordHash, now);
    if UserWithUsernameOrEmail(users, req.username, req.email).None? {
      assert UserWithUsername(users, req.username).None?;
      assert UserWithEmail(users, req.email).None?;
    } else {
      var k := FindFirst(users, (u: User) => !u.isDeleted && (u.username == req.username || u.email == req.email)).value;
      assert !users[k].isDeleted && (users[k].username == req.username || users[k].email == req.email);
    }
  }

  /** The password hash RegisterAsync stores verifies the password that was registered. */
  lemma ServiceStoresVerifyingHash(users: seq<User>, req: RegisterRequest, hasher: PasswordHasher, salt: string, now: Time)
    requires Sound(hasher)
    requires ServiceRegistration(users, req, hasher.hash(req.password, salt), now).result.Success?
    ensures hasher.verify(req.password, ServiceRegistration(users, req, hasher.hash(req.password, salt), now).result.value.passwordHash)
  {
  }

  /** A user registered through the service can authenticate with the password it registered with. */
  lemma ServiceRegistrationThenAuthenticate(users: seq<User>, req: RegisterRequest, hasher: PasswordHasher, salt: string, now: Time)
    requires Sound(hasher)
    requires ServiceRegistration(users, req, hasher.hash(req.password, salt), now).result.Success?
    requires forall j :: 0 <= j < |users| ==> users[j].email != req.username
    ensures var o := ServiceRegistration(users, req, hasher.hash(req.password, salt), now);
      Authenticate(o.users, req.username, req.password, hasher) == Some(o.result.value)
  {
    var o := ServiceRegistration(users, req, hasher.hash(req.password, salt), now);
    var n := |users|;
    forall j | 0 <= j < n ensures !Identifies(o.users[j], req.username) {
      assert o.users[j] == users[j];
    }
    assert Identifies(o.users[n], req.username);
    assert FindForLogin(o.users, req.username) == Some(n);
  }
}
