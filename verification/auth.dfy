/**
 * Registration, login and password change (backend/app/routes/auth.py). bcrypt is the
 * ideal `Credential` of the data model; the JWT issued on login is left abstract, so a
 * successful login answers with the account's row.
 */
module Auth {
  import opened Wrappers
  import opened Models
  import opened Api
  import opened Validators

  // ------------------------------------------------------------- register

  datatype RegisterRequest = RegisterRequest(
    username: Option<string>,
    email: Option<string>,
    password: Option<string>,
    fullName: Option<string>,
    phone: Option<string>)

  /** Every required field is present and non-empty. */
  predicate FieldsGiven(req: RegisterRequest) {
    Given(req.username) && Given(req.email) && Given(req.password) && Given(req.fullName) && Given(req.phone)
  }

  /** The first required field that is missing or empty, in the order the route checks them. */
  function MissingField(req: RegisterRequest): (r: Option<string>)
    ensures r.None? <==> FieldsGiven(req)
    ensures r == Some("username") <==> !Given(req.username)
    ensures r == Some("phone") <==> (Given(req.username) && Given(req.email) && Given(req.password) && Given(req.fullName)
      && !Given(req.phone))
  {
    if !Given(req.username) then Some("username")
    else if !Given(req.email) then Some("email")
    else if !Given(req.password) then Some("password")
    else if !Given(req.fullName) then Some("full_name")
    else if !Given(req.phone) then Some("phone")
    else None
  }

  /**
   * `register`: the fields, then the username, then the email; the account created is
   * always an active patient. No JSON body at all raises inside the route: 500.
   * The email, phone and password validators are not applied here.
   */
  function Register(users: seq<User>, body: Option<RegisterRequest>): (r: Result<seq<User>, Failure>)
    ensures body.None? ==> r == Err(ServerError("Registration failed"))
    ensures r.Ok? <==> (body.Some? && FieldsGiven(body.value)
      && !UsernameTaken(users, body.value.username.value) && !EmailTaken(users, body.value.email.value))
    ensures body.Some? && MissingField(body.value).Some? ==> r == Err(BadRequest(MissingField(body.value).value + " is required"))
    ensures body.Some? && FieldsGiven(body.value) && UsernameTaken(users, body.value.username.value)
      ==> r == Err(BadRequest("Username already exists"))
    ensures r.Ok? ==> |r.value| == |users| + 1 && r.value[..|users|] == users
    ensures r.Ok? ==> var u := r.value[|users|]; var req := body.value;
      && u.id == NextId(users, UserId) && u.role == Patient && u.isActive
      && u.username == req.username.value && u.email == req.email.value
      && CheckPassword(u.credential, req.password.value)
      && u.fullName == req.fullName.value && u.phone == req.phone.value
  {
    match body
    case None => Err(ServerError("Registration failed"))
    case Some(req) =>
      match MissingField(req)
      case Some(field) => Err(BadRequest(field + " is required"))
      case None =>
        if UsernameTaken(users, req.username.value) then Err(BadRequest("Username already exists"))
        else if EmailTaken(users, req.email.value) then Err(BadRequest("Email already exists"))
        else
          var u := User(NextId(users, UserId), req.username.value, req.email.value, Hashed(req.password.value), Patient, true,
                        req.fullName.value, req.phone.value, None, None);
          assert (users + [u])[..|users|] == users;
          Ok(users + [u])
  }

  /** A one-character password is accepted at registration, though it is refused everywhere else. */
  lemma RegisterSkipsPasswordRule(users: seq<User>, req: RegisterRequest)
    requires FieldsGiven(req) && |req.password.value| == 1
    requires !UsernameTaken(users, req.username.value) && !EmailTaken(users, req.email.value)
    ensures Register(users, Some(req)).Ok? && !ValidatePassword(req.password.value)
  {
  }

  // ------------------------------------------------------------- login

  datatype LoginRequest = LoginRequest(username: Option<string>, password: Option<string>)

  /** `User.query.filter_by(username=..).first()`. */
  function FindUsername(users: seq<User>, username: string): (r: Option<nat>)
    ensures r.Some? ==> (r.value < |users| && users[r.value].username == username
      && forall j :: 0 <= j < r.value ==> users[j].username != username)
    ensures r.None? <==> !UsernameTaken(users, username)
  {
    FirstMatch(users, (u: User) => u.username == username)
  }

  /**
   * `login`: an empty body, then a missing username or password, are 400; an unknown
   * username and a wrong password both answer 401 "Invalid credentials", but an inactive
   * account is reported as such before its password is looked at.
   * `body` None stands for no body or an empty JSON object.
   */
  function Login(users: seq<User>, body: Option<LoginRequest>): (r: Result<User, Failure>)
    ensures body.None? ==> r == Err(BadRequest("No data provided"))
    ensures body.Some? && !(Given(body.value.username) && Given(body.value.password))
      ==> r == Err(BadRequest("Username and password required"))
    ensures r.Ok? <==> (body.Some? && Given(body.value.username) && Given(body.value.password)
      && (var k := FindUsername(users, body.value.username.value);
          k.Some? && users[k.value].isActive && CheckPassword(users[k.value].credential, body.value.password.value)))
    ensures r.Ok? ==> r.value == users[FindUsername(users, body.value.username.value).value]
    ensures r.Err? ==> r.error.code in {400, 401}
  {
    match body
    case None => Err(BadRequest("No data provided"))
    case Some(req) =>
      if !Given(req.username) || !Given(req.password) then Err(BadRequest("Username and password required"))
      else match FindUsername(users, req.username.value)
        case None => Err(Unauthorized("Invalid credentials"))
        case Some(k) =>
          if !users[k].isActive then Err(Unauthorized("Account is inactive"))
          else if !CheckPassword(users[k].credential, req.password.value) then Err(Unauthorized("Invalid credentials"))
          else Ok(users[k])
  }

  /** An unknown username and a wrong password for an active account get the same answer. */
  lemma UnknownUserLooksLikeWrongPassword(users: seq<User>, unknown: string, k: nat, wrong: string)
    requires unknown != "" && !UsernameTaken(users, unknown)
    requires k < |users| && FindUsername(users, users[k].username) == Some(k) && users[k].username != ""
    requires users[k].isActive && wrong != "" && !CheckPassword(users[k].credential, wrong)
    ensures Login(users, Some(LoginRequest(Some(unknown), Some(wrong))))
         == Login(users, Some(LoginRequest(Some(users[k].username), Some(wrong))))
         == Err(Unauthorized("Invalid credentials"))
  {
  }

  /** Whatever password is tried, an inactive account answers "Account is inactive": the account's existence leaks. */
  lemma InactiveBeforePassword(users: seq<User>, k: nat, password: string)
    requires k < |users| && FindUsername(users, users[k].username) == Some(k) && users[k].username != ""
    requires !users[k].isActive && password != ""
    ensures Login(users, Some(LoginRequest(Some(users[k].username), Some(password)))) == Err(Unauthorized("Account is inactive"))
  {
  }

  /** A freshly registered patient can log in with the password they chose. */
  lemma RegisterThenLogin(users: seq<User>, req: RegisterRequest)
    requires Register(users, Some(req)).Ok?
    ensures var after := Register(users, Some(req)).value;
      Login(after, Some(LoginRequest(req.username, req.password))) == Ok(after[|users|])
  {
    var after := Register(users, Some(req)).value;
    assert after[|users|].username == req.username.value;
    assert forall j :: 0 <= j < |users| ==> after[j] == users[j];
    FirstUsernameAt(after, req.username.value, |users|);
  }

  lemma FirstUsernameAt(users: seq<User>, username: string, k: nat)
    requires k < |users| && users[k].username == username
    requires forall j :: 0 <= j < k ==> users[j].username != username
    ensures FindUsername(users, username) == Some(k)
  {
    assert UsernameTaken(users, username);
  }

  // ------------------------------------------------------------- change_password

  /**
   * `change_password`: the caller's account, both fields, the current password, then
   * the new password's length; only the caller's credential changes.
   */
  function ChangePassword(users: seq<User>, currentUserId: nat, current: Option<string>, replacement: Option<string>): (r: Result<seq<User>, Failure>)
    ensures FindUser(users, currentUserId).None? ==> r == Err(NotFound("User not found"))
    ensures r.Ok? <==> (var k := FindUser(users, currentUserId);
      k.Some? && Given(current) && Given(replacement) && CheckPassword(users[k.value].credential, current.value)
      && ValidatePassword(replacement.value))
    ensures r.Ok? ==> var k := FindUser(users, currentUserId).value;
      && |r.value| == |users|
      && (forall i :: 0 <= i < |users| && i != k ==> r.value[i] == users[i])
      && r.value[k] == users[k].(credential := r.value[k].credential)
      && CheckPassword(r.value[k].credential, replacement.value)
      && (current.value != replacement.value ==> !CheckPassword(r.value[k].credential, current.value))
    ensures r.Err? ==> r.error.code in {400, 401, 404}
  {
    match FindUser(users, currentUserId)
    case None => Err(NotFound("User not found"))
    case Some(k) =>
      if !Given(current) || !Given(replacement) then Err(BadRequest("Current and new password are required"))
      else if !CheckPassword(users[k].credential, current.value) then Err(Unauthorized("Current password is incorrect"))
      else if !ValidatePassword(replacement.value) then Err(BadRequest("New password must be at least 6 characters"))
      else Ok(users[k := users[k].(credential := Hashed(replacement.value))])
  }

  /** After a password change the new password logs in and the old one no longer does. */
  lemma ChangePasswordThenLogin(users: seq<User>, k: nat, current: string, replacement: string)
    requires k < |users| && FindUser(users, users[k].id) == Some(k) && FindUsername(users, users[k].username) == Some(k)
    requires users[k].isActive && users[k].username != "" && current != replacement
    requires ChangePassword(users, users[k].id, Some(current), Some(replacement)).Ok?
    ensures var after := ChangePassword(users, users[k].id, Some(current), Some(replacement)).value;
      && Login(after, Some(LoginRequest(Some(users[k].username), Some(replacement)))).Ok?
      && Login(after, Some(LoginRequest(Some(users[k].username), Some(current)))) == Err(Unauthorized("Invalid credentials"))
  {
    var after := ChangePassword(users, users[k].id, Some(current), Some(replacement)).value;
    FirstUsernameAt(after, users[k].username, k);
  }
}
