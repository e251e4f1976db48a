/**
 * Registration and login. `login` is read-only and is modelled here as a
 * function of the users table; `register` inserts a document and is the
 * `Handlers.Store.Register` method, which uses the names defined here.
 */
module AuthController {
  import opened Wrappers
  import opened Http
  import opened ObjectIds
  import opened Libraries
  import opened UserModel
  import opened AuthMiddleware
  import AdminController

  const EmailRegistered := "Email already registered"
  const UserRegistered := "User registered successfully"
  const InvalidCredentials := "Invalid email or password"
  const LoginSuccessful := "Login successful"
  const ServerError := "Server error"

  /** The bcrypt cost factor `register` hashes with. */
  const SaltRounds: nat := 10
  /** `expiresIn: '1d'`, in seconds. */
  const OneDay: nat := 86400

  /** The `user` object of a login response: no password hash. */
  datatype LoginUser = LoginUser(id: Id, username: string, email: string, isAdmin: bool)

  /** The body of a successful login. */
  datatype Session = Session(token: string, user: LoginUser)

  /** `User.findOne({ email })`: the one user with that email, if any. */
  function FindByEmail(users: Table, email: string): (r: Option<Id>)
    requires UniqueEmails(users)
    ensures r.Some? <==> EmailTaken(users, email)
    ensures r.Some? ==> r.value in users && users[r.value].email == email
  {
    if EmailTaken(users, email) then
      var id :| id in users && users[id].email == email;
      Some(id)
    else None
  }

  /** The claims login signs: the user's id and admin flag, nothing else. */
  function LoginClaims(id: Id, u: User): Claims {
    Claims(Some(id), None, Some(u.isAdmin), None, None)
  }

  /**
   * `login`: an unknown email and a wrong password are answered alike;
   * otherwise a one-day token over `LoginClaims` and the user without the
   * password hash.
   */
  function Login(users: Table, email: string, password: string, bcrypt: Bcrypt, jwt: Jwt, env: Option<string>, now: nat)
    : (r: Reply<Session>)
    requires UniqueEmails(users)
    ensures r.status != StatusOk ==> r == Reply(StatusBadRequest, InvalidCredentials, None)
    ensures r.status == StatusOk <==>
      exists id | id in users :: users[id].email == email && bcrypt.compare(password, users[id].passwordHash)
    ensures r.status == StatusOk ==>
      && r.message == LoginSuccessful
      && r.body.Some?
      && var id := r.body.value.user.id;
      && id in users
      && users[id].email == email
      && r.body.value.token == jwt.sign(LoginClaims(id, users[id]), SigningSecret(env), now, OneDay)
      && r.body.value.user == LoginUser(id, users[id].username, users[id].email, users[id].isAdmin)
  {
    match FindByEmail(users, email)
    case None => Reply(StatusBadRequest, InvalidCredentials, None)
    case Some(id) =>
      var u := users[id];
      if !bcrypt.compare(password, u.passwordHash) then Reply(StatusBadRequest, InvalidCredentials, None)
      else
        var token := jwt.sign(LoginClaims(id, u), SigningSecret(env), now, OneDay);
        Reply(StatusOk, LoginSuccessful, Some(Session(token, LoginUser(id, u.username, u.email, u.isAdmin))))
  }

  /**
   * A user inserted by `register` (fresh id, unused email, password stored
   * hashed) can log in with the same email and password.
   */
  lemma RegisterThenLogin(users: Table, id: Id, username: string, email: string, password: string, salt: string,
                          bcrypt: Bcrypt, jwt: Jwt, env: Option<string>, now: nat)
    requires WellFormed(users) && BcryptSound(bcrypt)
    requires id !in users && !EmailTaken(users, email)
    requires username != "" && email != ""
    ensures var after := users[id := NewUser(username, email, bcrypt.hash(password, SaltRounds, salt), None).value];
      && WellFormed(after)
      && var r := Login(after, email, password, bcrypt, jwt, env, now);
      && r.status == StatusOk
      && r.body.value.user == LoginUser(id, username, email, false)
  {
    var u := NewUser(username, email, bcrypt.hash(password, SaltRounds, salt), None).value;
    var after := users[id := u];
    InsertKeepsWellFormed(users, id, u);
    assert after[id].email == email && bcrypt.compare(password, after[id].passwordHash);
    var r := Login(after, email, password, bcrypt, jwt, env, now);
    assert r.status == StatusOk;
    var found := r.body.value.user.id;
    assert after[found].email == after[id].email;
  }

  /** Presented within a day, a login token authenticates as the logged-in user with the admin flag it had then. */
  lemma LoginTokenAuthenticates(id: Id, u: User, jwt: Jwt, env: Option<string>, issued: nat, now: nat)
    requires JwtSound(jwt) && id != ""
    requires now < issued + OneDay
    ensures var token := jwt.sign(LoginClaims(id, u), SigningSecret(env), issued, OneDay);
      Authentication(Some(BearerPrefix + token), env, jwt, now) == Authenticated(Identity(Some(id), Some(u.isAdmin), None, None))
  {
    TokenCarriesClaims(LoginClaims(id, u), jwt, env, issued, now);
  }

  /** From a day after issue on, a login token is refused with 401. */
  lemma ExpiredTokenRejected(id: Id, u: User, jwt: Jwt, env: Option<string>, issued: nat, now: nat)
    requires JwtSound(jwt)
    requires issued + OneDay <= now
    ensures var token := jwt.sign(LoginClaims(id, u), SigningSecret(env), issued, OneDay);
      Authentication(Some(BearerPrefix + token), env, jwt, now) == Rejected(StatusUnauthorized, BadToken)
  {
    var token := jwt.sign(LoginClaims(id, u), SigningSecret(env), issued, OneDay);
    var header := BearerPrefix + token;
    assert header[|BearerPrefix|..] == token;
    FirstSegmentNoSpace(token);
  }

  /**
   * The identity comes from the token, not the table: a token issued while
   * the user was not an admin still fails the admin gate after the user is
   * promoted, while a token from a login after the promotion passes it.
   */
  lemma PromotionNeedsNewLogin(users: Table, email: string, password: string, bcrypt: Bcrypt, jwt: Jwt,
                               env: Option<string>, issued: nat, later: nat, now: nat)
    requires WellFormed(users) && JwtSound(jwt)
    requires Login(users, email, password, bcrypt, jwt, env, issued).status == StatusOk
    requires !Login(users, email, password, bcrypt, jwt, env, issued).body.value.user.isAdmin
    requires issued <= now < issued + OneDay && later <= now < later + OneDay
    ensures var stale := Login(users, email, password, bcrypt, jwt, env, issued).body.value;
      var promoted := AdminController.Promoted(users, stale.user.id);
      var renewed := Login(promoted, email, password, bcrypt, jwt, env, later);
      var before := Authentication(Some(BearerPrefix + stale.token), env, jwt, now);
      && before.Authenticated?
      && IsAdmin(Some(before.user)) == Denied(StatusForbidden, AdminRequired)
      && renewed.status == StatusOk
      && var after := Authentication(Some(BearerPrefix + renewed.body.value.token), env, jwt, now);
      && after.Authenticated?
      && IsAdmin(Some(after.user)) == Pass
  {
    var stale := Login(users, email, password, bcrypt, jwt, env, issued).body.value;
    var id := stale.user.id;
    TokenCarriesClaims(LoginClaims(id, users[id]), jwt, env, issued, now);
    var promoted := AdminController.Promoted(users, id);
    assert promoted[id].email == email && promoted[id].passwordHash == users[id].passwordHash;
    var renewed := Login(promoted, email, password, bcrypt, jwt, env, later);
    assert renewed.status == StatusOk;
    var id2 := renewed.body.value.user.id;
    assert promoted[id2].email == promoted[id].email;
    TokenCarriesClaims(LoginClaims(id2, promoted[id2]), jwt, env, later, now);
  }

  /** Within its lifetime a login token presented as a bearer header authenticates with the signed claims. */
  lemma TokenCarriesClaims(c: Claims, jwt: Jwt, env: Option<string>, issued: nat, now: nat)
    requires JwtSound(jwt)
    requires now < issued + OneDay
    ensures var r := Authentication(Some(BearerPrefix + jwt.sign(c, SigningSecret(env), issued, OneDay)), env, jwt, now);
      r.Authenticated? && r.user == IdentityOf(c)
  {
    var token := jwt.sign(c, SigningSecret(env), issued, OneDay);
    var header := BearerPrefix + token;
    assert header[|BearerPrefix|..] == token;
    FirstSegmentNoSpace(token);
  }
}
