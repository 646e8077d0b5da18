/** routes/auth.js: `POST /login`, `POST /change-password`, `GET /me` and the
    `requireAuth` middleware that guards every `/api/students` route. bcrypt and
    the JWT library are opaque: they enter as the functions of a `Crypto`
    value, and nothing is assumed about them unless a lemma says so. */
module Auth {
  import opened Common
  import opened Text
  import opened Http

  /** A row of the `users` table (its schema is not part of this model). */
  datatype User = User(id: int, username: string, passwordHash: string, role: string)

  /** The JWT payload and the public part of a user: no password hash. */
  datatype Claims = Claims(id: int, username: string, role: string)

  /** The body of a successful login: `{ message, token, user }`. */
  datatype Session = Session(message: string, token: string, user: Claims)

  /** bcrypt's `compareSync(password, hash)` and `hashSync(password, 10)`, and
      the JWT library's `sign(claims)` and `verify(token)` (`None` where
      `verify` throws: bad signature, malformed or expired token). The secret
      and the 8-hour expiry are folded into `sign` and `verify`. */
  datatype Crypto = Crypto(
    compare: (string, string) -> bool,
    hash: string -> string,
    sign: Claims -> string,
    verify: string -> Option<Claims>)

  const LoginSuccessful := "Login successful"
  const CredentialsRequired := "Username and password are required"
  const InvalidCredentials := "Invalid username or password"
  const BothRequired := "Both fields are required"
  const PasswordTooShort := "New password must be at least 6 characters"
  const WrongPassword := "Current password is incorrect"
  const PasswordChanged := "Password changed successfully"
  const AuthRequired := "Authentication required"
  const BadToken := "Invalid or expired token"

  /** JavaScript falsiness of an optional string: absent or empty. */
  predicate Falsy(v: Option<string>) {
    v.None? || v.value == ""
  }

  function ClaimsOf(u: User): Claims {
    Claims(u.id, u.username, u.role)
  }

  /** `queryOne('SELECT * FROM users WHERE username = ?')`: the first user in
      rowid order with that exact username. */
  function FindByUsername(users: seq<User>, name: string): (r: Option<User>)
    ensures r.Some? <==> exists i :: 0 <= i < |users| && users[i].username == name
    ensures r.Some? ==> exists i :: FirstNamed(users, name, i) && users[i] == r.value
  {
    if users == [] then None
    else if users[0].username == name then
      assert FirstNamed(users, name, 0);
      Some(users[0])
    else
      var r := FindByUsername(users[1..], name);
      assert forall i :: 0 < i < |users| ==> users[i] == users[1..][i - 1];
      assert r.Some? ==> exists i :: FirstNamed(users, name, i) && users[i] == r.value by {
        if r.Some? {
          var i :| FirstNamed(users[1..], name, i) && users[1..][i] == r.value;
          assert FirstNamed(users, name, i + 1);
        }
      }
      r
  }

  /** `queryOne('SELECT * FROM users WHERE id = ?')`: the first user in rowid
      order with that id. */
  function FindUser(users: seq<User>, id: int): (r: Option<User>)
    ensures r.Some? <==> exists i :: 0 <= i < |users| && users[i].id == id
    ensures r.Some? ==> exists i :: FirstWithId(users, id, i) && users[i] == r.value
  {
    if users == [] then None
    else if users[0].id == id then
      assert FirstWithId(users, id, 0);
      Some(users[0])
    else
      var r := FindUser(users[1..], id);
      assert forall i :: 0 < i < |users| ==> users[i] == users[1..][i - 1];
      assert r.Some? ==> exists i :: FirstWithId(users, id, i) && users[i] == r.value by {
        if r.Some? {
          var i :| FirstWithId(users[1..], id, i) && users[1..][i] == r.value;
          assert FirstWithId(users, id, i + 1);
        }
      }
      r
  }

  /** `users[i]` is the row a `WHERE username = name` lookup returns. */
  predicate FirstNamed(users: seq<User>, name: string, i: int) {
    0 <= i < |users| && users[i].username == name
    && forall j :: 0 <= j < i ==> users[j].username != name
  }

  /** `users[i]` is the row a `WHERE id = id` lookup returns. */
  predicate FirstWithId(users: seq<User>, id: int, i: int) {
    0 <= i < |users| && users[i].id == id
    && forall j :: 0 <= j < i ==> users[j].id != id
  }

  lemma FirstNamedUnique(users: seq<User>, name: string, i: int, k: int)
    requires FirstNamed(users, name, i) && FirstNamed(users, name, k)
    ensures i == k
  {
  }

  // ── POST /api/auth/login ──────────────────────────────────────────────────

  /** The credential check behind login: an unknown username and a wrong
      password give the very same 401, so the response does not reveal which
      usernames exist; on success the token signs the user's id, name and role,
      and the body echoes those claims without the hash. */
  function Authenticate(users: seq<User>, crypto: Crypto, name: string, password: string): (r: Response<Session>)
    ensures r.Unauthorized? || r.Ok?
    ensures r.Unauthorized? ==> r.error == InvalidCredentials
    ensures r.Ok? <==> exists i :: FirstNamed(users, name, i) && crypto.compare(password, users[i].passwordHash)
    ensures r.Ok? ==> r.value.message == LoginSuccessful
    ensures r.Ok? ==> (exists i :: (FirstNamed(users, name, i) &&
      r.value.user == ClaimsOf(users[i]) && r.value.token == crypto.sign(r.value.user)))
  {
    var found := FindByUsername(users, name);
    if found.None? || !crypto.compare(password, found.value.passwordHash) then
      assert found.Some? ==> forall i :: FirstNamed(users, name, i) ==> users[i] == found.value;
      Unauthorized(InvalidCredentials)
    else
      var u := found.value;
      Ok(Session(LoginSuccessful, crypto.sign(ClaimsOf(u)), ClaimsOf(u)))
  }

  /** `POST /api/auth/login`: missing or empty credentials are a 400 before
      any lookup; otherwise the username is trimmed and checked. */
  function Login(users: seq<User>, crypto: Crypto, username: Option<string>, password: Option<string>)
    : (r: Response<Session>)
    ensures r.BadRequest? <==> Falsy(username) || Falsy(password)
    ensures r.BadRequest? ==> r.error == CredentialsRequired
    ensures !r.BadRequest? ==> r == Authenticate(users, crypto, Trim(username.value), password.value)
  {
    if Falsy(username) || Falsy(password) then
      BadRequest(CredentialsRequired)
    else
      Authenticate(users, crypto, Trim(username.value), password.value)
  }

  /** Surrounding whitespace in the username is ignored, as long as something
      is left of it. */
  lemma LoginTrimsUsername(users: seq<User>, crypto: Crypto, username: string, password: Option<string>)
    requires Trim(username) != ""
    ensures Login(users, crypto, Some(username), password) == Login(users, crypto, Some(Trim(username)), password)
  {
    TrimIdempotent(username);
    assert Trim("") == "" by {
      assert AllSpace("");
    }
    var a := Login(users, crypto, Some(username), password);
    var b := Login(users, crypto, Some(Trim(username)), password);
    if !Falsy(password) {
      assert a == b by {
        assert Trim(username) == Trim(Trim(username));
      }
    }
  }

  // ── requireAuth ───────────────────────────────────────────────────────────

  const Bearer := "Bearer "

  /** The middleware: the `Authorization` header must start with exactly
      `Bearer `; the rest is the token, and its verified claims become
      `req.user`. `Failure(e)` is the 401 `{ error: e }`. */
  function RequireAuth(header: Option<string>, verify: string -> Option<Claims>): (r: Result<Claims, string>)
    ensures r.Failure? ==> r.error == AuthRequired || r.error == BadToken
    ensures r == Failure(AuthRequired) <==> header.None? || !StartsWith(header.value, Bearer)
    ensures r.Success? <==> (header.Some? && StartsWith(header.value, Bearer) &&
      verify(header.value[|Bearer|..]).Some?)
    ensures r.Success? ==> Some(r.value) == verify(header.value[|Bearer|..])
  {
    if header.None? || header.value == "" || !StartsWith(header.value, Bearer) then
      Failure(AuthRequired)
    else
      var token := header.value[7..];
      match verify(token)
      case None => Failure(BadToken)
      case Some(claims) => Success(claims)
  }

  /** A header built from a token hands exactly that token to `verify`. */
  lemma BearerRoundTrip(token: string, verify: string -> Option<Claims>)
    ensures RequireAuth(Some(Bearer + token), verify)
      == (if verify(token).Some? then Success(verify(token).value) else Failure(BadToken))
  {
    var h := Bearer + token;
    assert StartsWith(h, Bearer) by {
      assert h[..|Bearer|] == Bearer;
    }
    assert h[|Bearer|..] == token;
  }

  /** The scheme is matched case-sensitively: `bearer <token>` is refused
      before the token is looked at. */
  lemma SchemeIsCaseSensitive(token: string, verify: string -> Option<Claims>)
    ensures RequireAuth(Some("bearer " + token), verify) == Failure(AuthRequired)
  {
    var h := "bearer " + token;
    assert h[0] == 'b' != Bearer[0];
    assert h[..|Bearer|] != Bearer;
  }

  /** A route mounted behind `requireAuth`: the handler runs only on verified
      claims; otherwise the middleware's 401 is the response. */
  function Protected<T>(header: Option<string>, verify: string -> Option<Claims>, handler: Claims -> Response<T>)
    : (r: Response<T>)
    ensures RequireAuth(header, verify).Failure? ==> r == Unauthorized(RequireAuth(header, verify).error)
    ensures RequireAuth(header, verify).Success? ==> r == handler(RequireAuth(header, verify).value)
  {
    match RequireAuth(header, verify)
    case Failure(e) => Unauthorized(e)
    case Success(claims) => handler(claims)
  }

  // ── GET /api/auth/me ──────────────────────────────────────────────────────

  /** `/me` answers with the claims found in the token, and nothing else. */
  function Me(header: Option<string>, verify: string -> Option<Claims>): (r: Response<Claims>)
    ensures r.Ok? || r.Unauthorized?
    ensures r.Ok? <==> RequireAuth(header, verify).Success?
    ensures r.Ok? ==> Some(r.value) == verify(header.value[|Bearer|..])
  {
    Protected(header, verify, (c: Claims) => Ok(c))
  }

  /** With a JWT library that verifies what it signed, the token a login hands
      out authenticates as the user who logged in. */
  lemma LoginThenMe(users: seq<User>, crypto: Crypto, username: Option<string>, password: Option<string>)
    requires forall c :: crypto.verify(crypto.sign(c)) == Some(c)
    requires Login(users, crypto, username, password).Ok?
    ensures Me(Some(Bearer + Login(users, crypto, username, password).value.token), crypto.verify)
      == Ok(Login(users, crypto, username, password).value.user)
  {
    var s := Login(users, crypto, username, password).value;
    BearerRoundTrip(s.token, crypto.verify);
  }

  // ── POST /api/auth/change-password ────────────────────────────────────────

  /** `UPDATE users SET password = ? WHERE id = ?`. */
  function SetPassword(users: seq<User>, id: int, hash: string): (r: seq<User>)
    ensures |r| == |users|
    ensures forall i :: 0 <= i < |r| ==>
      r[i].id == users[i].id && r[i].username == users[i].username && r[i].role == users[i].role
    ensures forall i :: 0 <= i < |r| ==>
      r[i].passwordHash == (if users[i].id == id then hash else users[i].passwordHash)
  {
    seq(|users|, i requires 0 <= i < |users| =>
      if users[i].id == id then users[i].(passwordHash := hash) else users[i])
  }

  /** Change-password, for the caller that `requireAuth` let through. Missing
      fields, then a new password shorter than 6 UTF-16 code units, are 400s
      checked before the current password; a token whose user no longer exists
      makes the handler throw (a 500); a wrong current password is a 401. Only
      success touches the table, and then only the caller's hash. */
  function ChangePassword(users: seq<User>, crypto: Crypto, caller: Claims, current: Option<string>, newPassword: Option<string>)
    : (r: Reply<string, seq<User>>)
    ensures r.response.BadRequest? || r.response.ServerError? || r.response.Unauthorized? || r.response.Ok?
    ensures r.response == BadRequest(BothRequired) <==> Falsy(current) || Falsy(newPassword)
    ensures r.response == BadRequest(PasswordTooShort)
      <==> !Falsy(current) && !Falsy(newPassword) && Utf16Length(newPassword.value) < 6
    ensures r.response.ServerError? <==> (!Falsy(current) && !Falsy(newPassword) &&
      Utf16Length(newPassword.value) >= 6 && forall i :: 0 <= i < |users| ==> users[i].id != caller.id)
    ensures r.response.BadRequest? ==> r.response.error == BothRequired || r.response.error == PasswordTooShort
    ensures r.response.Unauthorized? ==> r.response.error == WrongPassword
    ensures r.response.Unauthorized? <==> (!Falsy(current) && !Falsy(newPassword) && Utf16Length(newPassword.value) >= 6 &&
      exists i :: FirstWithId(users, caller.id, i) && !crypto.compare(current.value, users[i].passwordHash))
    ensures r.response.Ok? <==> (!Falsy(current) && !Falsy(newPassword) && Utf16Length(newPassword.value) >= 6 &&
      exists i :: FirstWithId(users, caller.id, i) && crypto.compare(current.value, users[i].passwordHash))
    ensures r.response.Ok? ==> r.response.value == PasswordChanged
    ensures r.response.Ok? ==> r.state == SetPassword(users, caller.id, crypto.hash(newPassword.value))
    ensures !r.response.Ok? ==> r.state == users
  {
    if Falsy(current) || Falsy(newPassword) then
      Reply(BadRequest(BothRequired), users)
    else if Utf16Length(newPassword.value) < 6 then
      Reply(BadRequest(PasswordTooShort), users)
    else
      match FindUser(users, caller.id)
      case None => Reply(ServerError, users)
      case Some(u) =>
        assert forall i :: FirstWithId(users, caller.id, i) ==> users[i] == u;
        if !crypto.compare(current.value, u.passwordHash) then
          Reply(Unauthorized(WrongPassword), users)
        else
          Reply(Ok(PasswordChanged), SetPassword(users, caller.id, crypto.hash(newPassword.value)))
  }

  /** The route as mounted: `requireAuth` first, then the handler. */
  function ChangePasswordRoute(users: seq<User>, crypto: Crypto, header: Option<string>,
                               current: Option<string>, newPassword: Option<string>)
    : (r: Reply<string, seq<User>>)
    ensures RequireAuth(header, crypto.verify).Failure? ==>
      r == Reply(Unauthorized(RequireAuth(header, crypto.verify).error), users)
    ensures RequireAuth(header, crypto.verify).Success? ==>
      r == ChangePassword(users, crypto, RequireAuth(header, crypto.verify).value, current, newPassword)
  {
    match RequireAuth(header, crypto.verify)
    case Failure(e) => Reply(Unauthorized(e), users)
    case Success(caller) => ChangePassword(users, crypto, caller, current, newPassword)
  }

  predicate DistinctUsernames(users: seq<User>) {
    forall i, j :: 0 <= i < j < |users| ==> users[i].username != users[j].username
  }

  /** Updating one user's hash keeps every user's place in a username lookup. */
  lemma SetPasswordKeepsLookup(users: seq<User>, id: int, h: string, i: int)
    requires DistinctUsernames(users) && 0 <= i < |users| && users[i].id == id
    ensures FirstNamed(SetPassword(users, id, h), users[i].username, i)
    ensures SetPassword(users, id, h)[i].passwordHash == h
    ensures ClaimsOf(SetPassword(users, id, h)[i]) == ClaimsOf(users[i])
  {
    var users' := SetPassword(users, id, h);
    forall j | 0 <= j < i ensures users'[j].username != users[i].username {
      assert users[j].username != users[i].username;
    }
  }

  /** A login with the password that matches the hash of the user a lookup
      finds succeeds as that user. */
  lemma AuthenticateFinds(users: seq<User>, crypto: Crypto, name: string, password: string, i: int)
    requires FirstNamed(users, name, i) && crypto.compare(password, users[i].passwordHash)
    ensures Authenticate(users, crypto, name, password)
      == Ok(Session(LoginSuccessful, crypto.sign(ClaimsOf(users[i])), ClaimsOf(users[i])))
  {
    var r := Authenticate(users, crypto, name, password);
    var k :| FirstNamed(users, name, k) && r.value.user == ClaimsOf(users[k]) && r.value.token == crypto.sign(r.value.user);
    FirstNamedUnique(users, name, i, k);
  }

  /** With a bcrypt that accepts the password it hashed, the new password logs
      the caller in after a successful change (usernames are unique and stored
      trimmed). */
  lemma ChangeThenLogin(users: seq<User>, crypto: Crypto, caller: Claims, current: Option<string>, newPassword: Option<string>)
    requires DistinctUsernames(users)
    requires ChangePassword(users, crypto, caller, current, newPassword).response.Ok?
    requires crypto.compare(newPassword.value, crypto.hash(newPassword.value))
    ensures var u := FindUser(users, caller.id).value;
      Trim(u.username) != "" && Trim(u.username) == u.username ==>
      Login(ChangePassword(users, crypto, caller, current, newPassword).state, crypto, Some(u.username), newPassword)
        == Ok(Session(LoginSuccessful, crypto.sign(ClaimsOf(u)), ClaimsOf(u)))
  {
    var u := FindUser(users, caller.id).value;
    var h := crypto.hash(newPassword.value);
    var users' := SetPassword(users, caller.id, h);
    var i :| FirstWithId(users, caller.id, i) && users[i] == u;
    if Trim(u.username) != "" && Trim(u.username) == u.username {
      SetPasswordKeepsLookup(users, caller.id, h, i);
      AuthenticateFinds(users', crypto, u.username, newPassword.value, i);
    }
  }
}
