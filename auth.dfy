/**
 * AuthController: registration, login and refresh-token rotation over the
 * users table. Each action is specified by a function from the users table
 * (and the action's inputs) to its answer and the users table it leaves; the
 * handler on the context is proved to do exactly that.
 *
 * The clock, the new refresh token (32 random bytes in Base64) and the salt
 * BCrypt draws are inputs of the model.
 */
module Auth {
  import opened Wrappers
  import opened Entities
  import opened Data
  import opened Actions
  import opened Tokens

  datatype RegisterRequest = RegisterRequest(
    username: string, email: string, password: string, firstName: Option<string>, lastName: Option<string>)

  datatype LoginRequest = LoginRequest(usernameOrEmail: string, password: string)

  /** UserDto. */
  datatype UserView = UserView(
    id: int, username: string, email: string, firstName: Option<string>, lastName: Option<string>,
    role: string, isActive: bool, emailConfirmed: bool)

  function ToUserView(u: User): UserView {
    UserView(u.id, u.username, u.email, u.firstName, u.lastName, u.role, u.isActive, u.emailConfirmed)
  }

  /** AuthResponseDto. */
  datatype AuthResponse = AuthResponse(token: AccessToken, refreshToken: string, tokenExpiration: Time, user: UserView)

  /** The answer of an auth action and the users table it leaves behind. */
  datatype Outcome = Outcome(response: Response<AuthResponse>, users: seq<User>)

  // ---------------------------------------------------------------------------
  // Lookups through the soft-delete filter (first match in table order)
  // ---------------------------------------------------------------------------

  /** `Users.AnyAsync(u => u.Username == username)`, as the index of the first match. */
  function UserWithUsername(users: seq<User>, username: string): (r: Option<nat>)
    ensures r.Some? ==> r.value < |users| && !users[r.value].isDeleted && users[r.value].username == username
    ensures r.None? <==> forall j :: 0 <= j < |users| ==> users[j].isDeleted || users[j].username != username
  {
    FindFirst(users, (u: User) => !u.isDeleted && u.username == username)
  }

  /** `Users.AnyAsync(u => u.Email == email)`, as the index of the first match. */
  function UserWithEmail(users: seq<User>, email: string): (r: Option<nat>)
    ensures r.Some? ==> r.value < |users| && !users[r.value].isDeleted && users[r.value].email == email
    ensures r.None? <==> forall j :: 0 <= j < |users| ==> users[j].isDeleted || users[j].email != email
  {
    FindFirst(users, (u: User) => !u.isDeleted && u.email == email)
  }

  predicate Identifies(u: User, usernameOrEmail: string) {
    u.username == usernameOrEmail || u.email == usernameOrEmail
  }

  /** `Users.FirstOrDefaultAsync(u => u.Username == x || u.Email == x)`. */
  function FindForLogin(users: seq<User>, usernameOrEmail: string): (r: Option<nat>)
    ensures r.Some? ==> r.value < |users| && !users[r.value].isDeleted && Identifies(users[r.value], usernameOrEmail)
    ensures r.Some? ==> forall j :: 0 <= j < r.value ==> users[j].isDeleted || !Identifies(users[j], usernameOrEmail)
    ensures r.None? <==> forall j :: 0 <= j < |users| ==> users[j].isDeleted || !Identifies(users[j], usernameOrEmail)
  {
    FindFirst(users, (u: User) => !u.isDeleted && Identifies(u, usernameOrEmail))
  }

  /** `Users.FirstOrDefaultAsync(u => u.RefreshToken == token)`: a user without a token never matches. */
  function FindByRefreshToken(users: seq<User>, token: string): (r: Option<nat>)
    ensures r.Some? ==> r.value < |users| && !users[r.value].isDeleted && users[r.value].refreshToken == Some(token)
    ensures r.Some? ==> forall j :: 0 <= j < r.value ==> users[j].isDeleted || users[j].refreshToken != Some(token)
    ensures r.None? <==> forall j :: 0 <= j < |users| ==> users[j].isDeleted || users[j].refreshToken != Some(token)
  {
    FindFirst(users, (u: User) => !u.isDeleted && u.refreshToken == Some(token))
  }

  /**
   * `RefreshTokenExpiryTime <= now` on a `DateTime?`: the lifted comparison is
   * false for null, so a token without an expiry never counts as expired.
   */
  predicate Expired(expiry: Option<Time>, now: Time) {
    expiry.Some? && expiry.value <= now
  }

  // ---------------------------------------------------------------------------
  // The rows the actions write
  // ---------------------------------------------------------------------------

  /**
   * A user after a new refresh token is stored: the token, an expiry
   * RefreshTokenExpirationDays from now, and the UpdatedAt stamp; nothing else.
   */
  function Rotated(u: User, newToken: string, settings: JwtSettings, now: Time): (v: User)
    ensures v.refreshToken == Some(newToken) && v.updatedAt == Some(now)
    ensures v.refreshTokenExpiryTime == Some(AddDays(now, settings.refreshTokenExpirationDays))
    ensures v.(refreshToken := u.refreshToken, refreshTokenExpiryTime := u.refreshTokenExpiryTime, updatedAt := u.updatedAt) == u
  {
    u.(refreshToken := Some(newToken), refreshTokenExpiryTime := Some(AddDays(now, settings.refreshTokenExpirationDays)),
      updatedAt := Some(now))
  }

  /** A user after a successful login: the new refresh token and its expiry, LastLoginAt and UpdatedAt; nothing else. */
  function LoggedIn(u: User, newToken: string, settings: JwtSettings, now: Time): (v: User)
    ensures v.refreshToken == Some(newToken) && v.lastLoginAt == Some(now) && v.updatedAt == Some(now)
    ensures v.refreshTokenExpiryTime == Some(AddDays(now, settings.refreshTokenExpirationDays))
    ensures v.(refreshToken := u.refreshToken, refreshTokenExpiryTime := u.refreshTokenExpiryTime,
               lastLoginAt := u.lastLoginAt, updatedAt := u.updatedAt) == u
  {
    Rotated(u, newToken, settings, now).(lastLoginAt := Some(now))
  }

  /** The user Register inserts: role "Reader", active, e-mail unconfirmed, no token yet. */
  function NewAccount(users: seq<User>, req: RegisterRequest, passwordHash: string, now: Time): (u: User)
    ensures u.role == "Reader" && u.isActive && !u.emailConfirmed && !u.isDeleted
    ensures u.id == NextUserId(users) && u.username == req.username && u.email == req.email
    ensures u.passwordHash == passwordHash && u.firstName == req.firstName && u.lastName == req.lastName
    ensures u.refreshToken == None && u.lastLoginAt == None
  {
    NewUser(now).(id := NextUserId(users), username := req.username, email := req.email, passwordHash := passwordHash,
      firstName := req.firstName, lastName := req.lastName)
  }

  /** The answer of a successful action: the access token, the refresh token and the stored user. */
  function Issue(issuedFor: User, stored: User, newToken: string, settings: JwtSettings, now: Time): (a: AuthResponse)
    ensures a.refreshToken == newToken && a.user == ToUserView(stored)
    ensures a.tokenExpiration == AddMinutes(now, settings.expirationMinutes) && a.token.expires == a.tokenExpiration
  {
    AuthResponse(GenerateAccessToken(issuedFor, settings, now), newToken, AddMinutes(now, settings.expirationMinutes),
      ToUserView(stored))
  }

  // ---------------------------------------------------------------------------
  // POST api/auth/register
  // ---------------------------------------------------------------------------

  /**
   * Register: the username guard comes before the e-mail guard and both look
   * only at visible users; a name or address held by a soft-deleted user
   * passes them and the unique index refuses the insert (a 500). On success
   * one user is appended, holding the returned refresh token.
   */
  function RegisterOutcome(users: seq<User>, req: RegisterRequest, passwordHash: string, newToken: string,
                           settings: JwtSettings, now: Time): (o: Outcome)
    ensures UserWithUsername(users, req.username).Some? ==>
      o == Outcome(BadRequest("Username already exists"), users)
    ensures UserWithUsername(users, req.username).None? && UserWithEmail(users, req.email).Some? ==>
      o == Outcome(BadRequest("Email already exists"), users)
    ensures o.response.Ok? <==>
      forall j :: 0 <= j < |users| ==> users[j].username != req.username && users[j].email != req.email
    ensures o.response == ServerError ==>
      exists j :: 0 <= j < |users| && users[j].isDeleted && (users[j].username == req.username || users[j].email == req.email)
    ensures !o.response.Ok? ==> o.users == users
    ensures o.response.Ok? ==>
      && |o.users| == |users| + 1 && o.users[..|users|] == users
      && o.users[|users|] == Rotated(NewAccount(users, req, passwordHash, now), newToken, settings, now)
      && o.response.body == Issue(NewAccount(users, req, passwordHash, now), o.users[|users|], newToken, settings, now)
  {
    if UserWithUsername(users, req.username).Some? then Outcome(BadRequest("Username already exists"), users)
    else if UserWithEmail(users, req.email).Some? then Outcome(BadRequest("Email already exists"), users)
    else if !(forall j :: 0 <= j < |users| ==> users[j].username != req.username && users[j].email != req.email) then
      Outcome(ServerError, users)
    else
      var u := NewAccount(users, req, passwordHash, now);
      var v := Rotated(u, newToken, settings, now);
      assert (users + [v])[..|users|] == users;
      Outcome(Ok(Issue(u, v, newToken, settings, now)), users + [v])
  }

  /**
   * The handler: hash the password, insert the user (first save), then store
   * the refresh token on it (second save, which no index can refuse).
   */
  method Register(db: ApplicationDb, req: RegisterRequest, hasher: PasswordHasher, salt: string, newToken: string,
                  settings: JwtSettings, now: Time) returns (r: Response<AuthResponse>)
    requires db.Valid()
    modifies db
    ensures db.Valid()
    ensures var o := RegisterOutcome(old(db.users), req, hasher.hash(req.password, salt), newToken, settings, now);
      r == o.response && db.Snapshot() == old(db.Snapshot()).(users := o.users)
  {
    var s := db.Snapshot();
    if UserWithUsername(s.users, req.username).Some? {
      return BadRequest("Username already exists");
    }
    if UserWithEmail(s.users, req.email).Some? {
      return BadRequest("Email already exists");
    }
    var passwordHash := hasher.hash(req.password, salt);
    var user := NewAccount(s.users, req, passwordHash, now);
    AppendUserUnique(s.users, user);
    var ok := db.SaveChanges(s.(users := s.users + [user]));
    if !ok {
      return ServerError;
    }
    var token := GenerateAccessToken(user, settings, now);
    var stored := Rotated(user, newToken, settings, now);
    var n := |s.users|;
    ReplaceUserKeepsUnique(s.users + [user], n, stored);
    assert (s.users + [user])[n := stored] == s.users + [stored];
    var saved := db.SaveChanges(s.(users := s.users + [stored]));
    r := Ok(AuthResponse(token, newToken, AddMinutes(now, settings.expirationMinutes), ToUserView(stored)));
  }

  // ---------------------------------------------------------------------------
  // POST api/auth/login
  // ---------------------------------------------------------------------------

  /**
   * Login: the identifier may be a username or an e-mail. An unknown
   * identifier and a wrong password get the same answer; an inactive account
   * is reported only to someone who knows its password. Success changes the
   * found user's refresh token, its expiry, LastLoginAt and UpdatedAt, and
   * nothing else.
   */
  function LoginOutcome(users: seq<User>, req: LoginRequest, hasher: PasswordHasher, newToken: string,
                        settings: JwtSettings, now: Time): (o: Outcome)
    ensures FindForLogin(users, req.usernameOrEmail).None? ==> o == Outcome(Unauthorized("Invalid credentials"), users)
    ensures var f := FindForLogin(users, req.usernameOrEmail);
      f.Some? && !hasher.verify(req.password, users[f.value].passwordHash) ==>
      o == Outcome(Unauthorized("Invalid credentials"), users)
    ensures o.response == Unauthorized("Account is deactivated") ==>
      var f := FindForLogin(users, req.usernameOrEmail);
      f.Some? && hasher.verify(req.password, users[f.value].passwordHash) && !users[f.value].isActive && o.users == users
    ensures o.response.Ok? <==>
      var f := FindForLogin(users, req.usernameOrEmail);
      f.Some? && hasher.verify(req.password, users[f.value].passwordHash) && users[f.value].isActive
    ensures !o.response.Ok? ==> o.users == users && o.response.Unauthorized?
    ensures o.response.Ok? ==> var i := FindForLogin(users, req.usernameOrEmail).value;
      && o.users == users[i := LoggedIn(users[i], newToken, settings, now)]
      && o.response.body == Issue(users[i], o.users[i], newToken, settings, now)
  {
    match FindForLogin(users, req.usernameOrEmail)
    case None => Outcome(Unauthorized("Invalid credentials"), users)
    case Some(i) =>
      var u := users[i];
      if !hasher.verify(req.password, u.passwordHash) then Outcome(Unauthorized("Invalid credentials"), users)
      else if !u.isActive then Outcome(Unauthorized("Account is deactivated"), users)
      else
        var v := LoggedIn(u, newToken, settings, now);
        Outcome(Ok(Issue(u, v, newToken, settings, now)), users[i := v])
  }

  method Login(db: ApplicationDb, req: LoginRequest, hasher: PasswordHasher, newToken: string,
               settings: JwtSettings, now: Time) returns (r: Response<AuthResponse>)
    requires db.Valid()
    modifies db
    ensures db.Valid()
    ensures var o := LoginOutcome(old(db.users), req, hasher, newToken, settings, now);
      r == o.response && db.Snapshot() == old(db.Snapshot()).(users := o.users)
  {
    var s := db.Snapshot();
    match FindForLogin(s.users, req.usernameOrEmail)
    case None =>
      r := Unauthorized("Invalid credentials");
    case Some(i) =>
      var user := s.users[i];
      if !hasher.verify(req.password, user.passwordHash) {
        return Unauthorized("Invalid credentials");
      }
      if !user.isActive {
        return Unauthorized("Account is deactivated");
      }
      var token := GenerateAccessToken(user, settings, now);
      var stored := LoggedIn(user, newToken, settings, now);
      ReplaceUserKeepsUnique(s.users, i, stored);
      var saved := db.SaveChanges(s.(users := s.users[i := stored]));
      r := Ok(AuthResponse(token, newToken, AddMinutes(now, settings.expirationMinutes), ToUserView(stored)));
  }

  // ---------------------------------------------------------------------------
  // POST api/auth/refresh
  // ---------------------------------------------------------------------------

  /**
   * RefreshToken: an unknown token and an expired one (expiry equal to now
   * included) are refused with nothing changed. Otherwise the token is
   * rotated; LastLoginAt is left alone and IsActive is not consulted.
   */
  function RefreshOutcome(users: seq<User>, token: string, newToken: string, settings: JwtSettings, now: Time): (o: Outcome)
    ensures FindByRefreshToken(users, token).None? ==> o == Outcome(Unauthorized("Invalid refresh token"), users)
    ensures var f := FindByRefreshToken(users, token);
      f.Some? && Expired(users[f.value].refreshTokenExpiryTime, now) ==>
      o == Outcome(Unauthorized("Refresh token expired"), users)
    ensures o.response.Ok? <==>
      var f := FindByRefreshToken(users, token);
      f.Some? && !Expired(users[f.value].refreshTokenExpiryTime, now)
    ensures o.response.Ok? ==> var i := FindByRefreshToken(users, token).value;
      && o.users == users[i := Rotated(users[i], newToken, settings, now)]
      && o.users[i].lastLoginAt == users[i].lastLoginAt
      && o.response.body == Issue(users[i], o.users[i], newToken, settings, now)
  {
    match FindByRefreshToken(users, token)
    case None => Outcome(Unauthorized("Invalid refresh token"), users)
    case Some(i) =>
      var u := users[i];
      if Expired(u.refreshTokenExpiryTime, now) then Outcome(Unauthorized("Refresh token expired"), users)
      else
        var v := Rotated(u, newToken, settings, now);
        Outcome(Ok(Issue(u, v, newToken, settings, now)), users[i := v])
  }

  method RefreshToken(db: ApplicationDb, token: string, newToken: string, settings: JwtSettings, now: Time)
    returns (r: Response<AuthResponse>)
    requires db.Valid()
    modifies db
    ensures db.Valid()
    ensures var o := RefreshOutcome(old(db.users), token, newToken, settings, now);
      r == o.response && db.Snapshot() == old(db.Snapshot()).(users := o.users)
  {
    var s := db.Snapshot();
    match FindByRefreshToken(s.users, token)
    case None =>
      r := Unauthorized("Invalid refresh token");
    case Some(i) =>
      var user := s.users[i];
      if Expired(user.refreshTokenExpiryTime, now) {
        return Unauthorized("Refresh token expired");
      }
      var accessToken := GenerateAccessToken(user, settings, now);
      var stored := Rotated(user, newToken, settings, now);
      ReplaceUserKeepsUnique(s.users, i, stored);
      var saved := db.SaveChanges(s.(users := s.users[i := stored]));
      r := Ok(AuthResponse(accessToken, newToken, AddMinutes(now, settings.expirationMinutes), ToUserView(stored)));
  }

  // ---------------------------------------------------------------------------
  // How the actions fit together
  // ---------------------------------------------------------------------------

  /**
   * A stored refresh token that no other user holds finds its user, and is
   * accepted exactly until its expiry.
   */
  lemma StoredTokenRefreshes(users: seq<User>, i: nat, token: string, newToken: string, settings: JwtSettings, later: Time)
    requires i < |users| && !users[i].isDeleted && users[i].refreshToken == Some(token)
    requires forall j :: 0 <= j < |users| && j != i ==> users[j].refreshToken != Some(token)
    ensures FindByRefreshToken(users, token) == Some(i)
    ensures RefreshOutcome(users, token, newToken, settings, later).response.Ok? <==>
      users[i].refreshTokenExpiryTime.None? || later < users[i].refreshTokenExpiryTime.value
  {
    var f := FindByRefreshToken(users, token);
    assert f.Some? by {
      assert !(users[i].isDeleted || users[i].refreshToken != Some(token));
    }
  }

  /**
   * A token issued by Register can be redeemed until RefreshTokenExpirationDays
   * after registration, provided no other user holds the same token.
   */
  lemma RegisterThenRefresh(users: seq<User>, req: RegisterRequest, passwordHash: string, newToken: string,
                            settings: JwtSettings, now: Time, nextToken: string, later: Time)
    requires RegisterOutcome(users, req, passwordHash, newToken, settings, now).response.Ok?
    requires forall j :: 0 <= j < |users| ==> users[j].refreshToken != Some(newToken)
    ensures var o := RegisterOutcome(users, req, passwordHash, newToken, settings, now);
      && o.response.body.refreshToken == newToken
      && FindByRefreshToken(o.users, newToken) == Some(|users|)
      && (RefreshOutcome(o.users, newToken, nextToken, settings, later).response.Ok? <==>
          later < AddDays(now, settings.refreshTokenExpirationDays))
  {
    var o := RegisterOutcome(users, req, passwordHash, newToken, settings, now);
    var n := |users|;
    forall j | 0 <= j < |o.users| && j != n ensures o.users[j].refreshToken != Some(newToken) {
      assert o.users[j] == o.users[..n][j];
    }
    StoredTokenRefreshes(o.users, n, newToken, nextToken, settings, later);
  }

  /**
   * A token issued by Login can be redeemed until RefreshTokenExpirationDays
   * after the login, provided no other user holds the same token.
   */
  lemma LoginThenRefresh(users: seq<User>, req: LoginRequest, hasher: PasswordHasher, newToken: string,
                         settings: JwtSettings, now: Time, nextToken: string, later: Time)
    requires LoginOutcome(users, req, hasher, newToken, settings, now).response.Ok?
    requires forall j :: 0 <= j < |users| ==> users[j].refreshToken != Some(newToken)
    ensures var o := LoginOutcome(users, req, hasher, newToken, settings, now);
      var i := FindForLogin(users, req.usernameOrEmail).value;
      && o.response.body.refreshToken == newToken
      && FindByRefreshToken(o.users, newToken) == Some(i)
      && (RefreshOutcome(o.users, newToken, nextToken, settings, later).response.Ok? <==>
          later < AddDays(now, settings.refreshTokenExpirationDays))
  {
    var o := LoginOutcome(users, req, hasher, newToken, settings, now);
    var i := FindForLogin(users, req.usernameOrEmail).value;
    forall j | 0 <= j < |o.users| && j != i ensures o.users[j].refreshToken != Some(newToken) {
      assert o.users[j] == users[j];
    }
    StoredTokenRefreshes(o.users, i, newToken, nextToken, settings, later);
  }

  /**
   * Refreshing hands out a token that is itself redeemable until
   * RefreshTokenExpirationDays later, and the token it replaced no longer
   * finds the user: a refresh token works once. Both provided the tokens
   * involved are held by one user only.
   */
  lemma RefreshRotates(users: seq<User>, token: string, newToken: string, settings: JwtSettings, now: Time,
                       nextToken: string, later: Time)
    requires RefreshOutcome(users, token, newToken, settings, now).response.Ok?
    requires newToken != token
    requires forall j :: 0 <= j < |users| ==> users[j].refreshToken != Some(newToken)
    requires forall j, k :: 0 <= j < k < |users| ==> users[j].refreshToken != Some(token) || users[k].refreshToken != Some(token)
    ensures var o := RefreshOutcome(users, token, newToken, settings, now);
      && (RefreshOutcome(o.users, newToken, nextToken, settings, later).response.Ok? <==>
          later < AddDays(now, settings.refreshTokenExpirationDays))
      && RefreshOutcome(o.users, token, nextToken, settings, later).response == Unauthorized("Invalid refresh token")
  {
    var o := RefreshOutcome(users, token, newToken, settings, now);
    var i := FindByRefreshToken(users, token).value;
    forall j | 0 <= j < |o.users| && j != i ensures o.users[j].refreshToken != Some(newToken) {
      assert o.users[j] == users[j];
    }
    StoredTokenRefreshes(o.users, i, newToken, nextToken, settings, later);
    forall j | 0 <= j < |o.users| ensures o.users[j].isDeleted || o.users[j].refreshToken != Some(token) {
      if j < i {
        assert users[i].refreshToken == Some(token);
        assert users[j].refreshToken != Some(token);
      } else if j > i {
        assert users[i].refreshToken == Some(token);
        assert users[j].refreshToken != Some(token);
      }
    }
  }

  /** The password hash Register stores verifies the password that was registered. */
  lemma RegisterStoresVerifyingHash(users: seq<User>, req: RegisterRequest, hasher: PasswordHasher, salt: string,
                                    newToken: string, settings: JwtSettings, now: Time)
    requires Sound(hasher)
    requires RegisterOutcome(users, req, hasher.hash(req.password, salt), newToken, settings, now).response.Ok?
    ensures var o := RegisterOutcome(users, req, hasher.hash(req.password, salt), newToken, settings, now);
      hasher.verify(req.password, o.users[|users|].passwordHash)
  {
  }

  /**
   * Right after registering, the new account can log in with its username and
   * password, unless an older account's e-mail equals that username (the
   * login lookup matches either column and takes the first row).
   */
  lemma RegisterThenLogin(users: seq<User>, req: RegisterRequest, hasher: PasswordHasher, salt: string, newToken: string,
                          settings: JwtSettings, now: Time, nextToken: string, later: Time)
    requires Sound(hasher)
    requires RegisterOutcome(users, req, hasher.hash(req.password, salt), newToken, settings, now).response.Ok?
    requires forall j :: 0 <= j < |users| ==> users[j].email != req.username
    ensures var o := RegisterOutcome(users, req, hasher.hash(req.password, salt), newToken, settings, now);
      var l := LoginOutcome(o.users, LoginRequest(req.username, req.password), hasher, nextToken, settings, later);
      && FindForLogin(o.users, req.username) == Some(|users|)
      && l.response.Ok? && l.response.body.user.id == NextUserId(users) && l.response.body.user.role == "Reader"
  {
    var o := RegisterOutcome(users, req, hasher.hash(req.password, salt), newToken, settings, now);
    var n := |users|;
    forall j | 0 <= j < n ensures !Identifies(o.users[j], req.username) {
      assert o.users[j] == o.users[..n][j] == users[j];
    }
    assert Identifies(o.users[n], req.username);
    assert FindForLogin(o.users, req.username) == Some(n);
  }
}
