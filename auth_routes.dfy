/** The auth blueprint: the request-body guard, argument extraction from the JSON body, and
    the mapping of the account service's outcomes to responses. Token signing is foreign code
    and is the parameter `encode`. */
module AuthRoutes {

  import opened Wrappers
  import opened Strings
  import opened Models
  import opened Store
  import opened ResponseUtils
  import opened AuthService
  import J = Json

  /** The answer to a missing, empty or falsy JSON body. */
  function BodyRequired(): (r: Response)
    ensures r.status == 400 && IsError(r) && ErrorCode(r) == "BAD_REQUEST"
  {
    ErrorResponse("Request body is required", "BAD_REQUEST", 400)
  }

  /** `data.get(key)` as the service's checks see it. A missing key and a falsy value fail the
      presence check just as `None` does; a string is passed as it is; any other truthy value
      makes the string methods raise, which is `OtherErr`. */
  function StringArg(fields: map<string, J.Value>, key: string): (r: Outcome<Option<string>>)
    ensures key !in fields ==> r == Ok(None)
    ensures key in fields && fields[key].Str? ==> r == Ok(Some(fields[key].s))
    ensures r.Ok? && r.value.Some? ==> key in fields && fields[key] == J.Str(r.value.value)
    ensures r.Ok? && r.value.None? ==> key !in fields || !J.IsTruthy(fields[key])
    ensures r.OtherErr? <==> key in fields && !fields[key].Str? && J.IsTruthy(fields[key])
  {
    if key !in fields then Ok(None)
    else
      var v := fields[key];
      if v.Str? then Ok(Some(v.s))
      else if !J.IsTruthy(v) then Ok(None)
      else OtherErr
  }

  /** The payload of a successful register or login: the user's public fields, which read
      back to the user without the password hash, and the encoded token. */
  function SessionData(u: User, now: nat, encode: Claims -> string): (d: J.Value)
    ensures d.Obj? && d.fields.Keys == {"user", "token"}
    ensures UserFromDict(d.fields["user"]) == Some(PublicView(u))
    ensures d.fields["user"].Obj? && "password_hash" !in d.fields["user"].fields
    ensures d.fields["token"] == J.Str(encode(GenerateToken(u.id, now)))
  {
    UserDictRoundTrip(u);
    J.Obj(map["user" := UserToDict(u), "token" := J.Str(encode(GenerateToken(u.id, now)))])
  }

  /** `register`, with the users table it leaves behind. The view passes no role, so the
      service's default 'user' applies. */
  function RegisterView(body: J.Value, users: map<int, User>, newId: int, now: nat, encode: Claims -> string)
    : (r: (Response, map<int, User>))
    ensures !J.IsTruthy(body) ==> r == (BodyRequired(), users)
    ensures r.0.status in {201, 400, 409, 500}
    ensures r.0.status != 201 ==> r.1 == users
    ensures r.0.status == 201 ==>
              && newId in r.1 && r.1 == users[newId := r.1[newId]]
              && r.1[newId].role == "user" && r.1[newId].id == newId
              && IsSuccess(r.0) && SuccessMessage(r.0) == Some("Registration successful")
    ensures r.0.status == 409 ==> IsError(r.0) && ErrorCode(r.0) == "CONFLICT" && ErrorMessage(r.0) == "Email already registered"
    ensures r.0.status == 500 ==> r.0 == ErrorResponse("Registration failed", "INTERNAL_ERROR", 500)
  {
    if !J.IsTruthy(body) then (BodyRequired(), users)
    else if !body.Obj? then (ErrorResponse("Registration failed", "INTERNAL_ERROR", 500), users)
    else
      var email := StringArg(body.fields, "email");
      var password := StringArg(body.fields, "password");
      var name := StringArg(body.fields, "name");
      if !email.Ok? || !password.Ok? || !name.Ok? then (ErrorResponse("Registration failed", "INTERNAL_ERROR", 500), users)
      else
        var s := RegisterSpec(users, email.value, password.value, name.value, "user", newId, now);
        match s.0
        case Ok(u) =>
          (SuccessResponse(SessionData(u, now, encode), Some("Registration successful"), 201), s.1)
        case ValueErr(msg) =>
          if msg == "DUPLICATE_EMAIL" then (ErrorResponse("Email already registered", "CONFLICT", 409), users)
          else (ErrorResponse(msg, "VALIDATION_ERROR", 400), users)
        case OtherErr => (ErrorResponse("Registration failed", "INTERNAL_ERROR", 500), users)
  }

  /** The JSON body of a register or login request. */
  function Credentials(email: string, password: string, name: string): J.Value {
    J.Obj(map["email" := J.Str(email), "password" := J.Str(password), "name" := J.Str(name)])
  }

  /** Registering an email that some account already has, in whatever case and with whatever
      surrounding spaces, is a 409 and adds no account. */
  lemma RegisterDuplicateIsConflict(
    users: map<int, User>, email: string, password: string, name: string, newId: int, now: nat, encode: Claims -> string)
    requires RegisterCheck(Some(email), Some(password), Some(name), "user").Ok?
    requires EmailTaken(users, NormalizeEmail(email))
    ensures RegisterView(Credentials(email, password, name), users, newId, now, encode) ==
            (ErrorResponse("Email already registered", "CONFLICT", 409), users)
  {
    var body := Credentials(email, password, name);
    CredentialsArgs(email, password, name);
    var s := RegisterSpec(users, Some(email), Some(password), Some(name), "user", newId, now);
    assert s == (ValueErr("DUPLICATE_EMAIL"), users);
  }

  /** Which response each outcome of `register_user` becomes, for any body whose three fields
      read as strings or as absent: success is a 201 carrying the session payload and the
      service's new table, a duplicate email a 409, and every other refusal a 400 with the
      service's message. */
  lemma RegisterViewOutcomes(body: J.Value, users: map<int, User>, newId: int, now: nat, encode: Claims -> string)
    requires body.Obj? && J.IsTruthy(body)
    requires StringArg(body.fields, "email").Ok? && StringArg(body.fields, "password").Ok? && StringArg(body.fields, "name").Ok?
    ensures var s := RegisterSpec(users, StringArg(body.fields, "email").value, StringArg(body.fields, "password").value,
                                  StringArg(body.fields, "name").value, "user", newId, now);
            var r := RegisterView(body, users, newId, now, encode);
            && (s.0.Ok? ==> r == (SuccessResponse(SessionData(s.0.value, now, encode), Some("Registration successful"), 201), s.1))
            && (s.0 == ValueErr("DUPLICATE_EMAIL") ==> r == (ErrorResponse("Email already registered", "CONFLICT", 409), users))
            && (s.0.ValueErr? && s.0.msg != "DUPLICATE_EMAIL" ==> r == (ErrorResponse(s.0.msg, "VALIDATION_ERROR", 400), users))
  {
  }

  /** Registering valid credentials under a free email answers 201 with the session of the new
      account, which is stored under the next id with the normalised email, the stripped name,
      the role 'user' and the given password. */
  lemma RegisterViewStoresUser(
    users: map<int, User>, email: string, password: string, name: string, newId: int, now: nat, encode: Claims -> string)
    requires RegisterCheck(Some(email), Some(password), Some(name), "user").Ok?
    requires !EmailTaken(users, NormalizeEmail(email))
    ensures var r := RegisterView(Credentials(email, password, name), users, newId, now, encode);
            && newId in r.1 && r.1 == users[newId := r.1[newId]]
            && r.0 == SuccessResponse(SessionData(r.1[newId], now, encode), Some("Registration successful"), 201)
            && r.1[newId].email == NormalizeEmail(email) && r.1[newId].name == Strip(name)
            && r.1[newId].role == "user" && CheckPassword(r.1[newId], password)
  {
    CredentialsArgs(email, password, name);
    RegisterViewOutcomes(Credentials(email, password, name), users, newId, now, encode);
  }

  /** Credentials that fail an input check are a 400 carrying that check's message, and no
      account is added. */
  lemma RegisterInvalidIs400(
    users: map<int, User>, email: string, password: string, name: string, newId: int, now: nat, encode: Claims -> string)
    requires RegisterCheck(Some(email), Some(password), Some(name), "user").ValueErr?
    ensures RegisterView(Credentials(email, password, name), users, newId, now, encode) ==
            (ErrorResponse(RegisterCheck(Some(email), Some(password), Some(name), "user").msg, "VALIDATION_ERROR", 400), users)
  {
    CheckMessagesAreNotDuplicate();
    CredentialsArgs(email, password, name);
    RegisterViewOutcomes(Credentials(email, password, name), users, newId, now, encode);
  }

  /** No input check refuses with the tag the view turns into a 409. */
  lemma CheckMessagesAreNotDuplicate()
    ensures "DUPLICATE_EMAIL" !in RegisterCheckMessages
  {
  }

  /** What the register view reads out of a body of three strings. */
  lemma CredentialsArgs(email: string, password: string, name: string)
    ensures var body := Credentials(email, password, name);
            && body.Obj? && J.IsTruthy(body)
            && StringArg(body.fields, "email") == Ok(Some(email))
            && StringArg(body.fields, "password") == Ok(Some(password))
            && StringArg(body.fields, "name") == Ok(Some(name))
  {
    var body := Credentials(email, password, name);
    assert body.fields != map[] by { assert "email" in body.fields; }
  }

  /** `login`. */
  function LoginView(body: J.Value, users: map<int, User>, now: nat, encode: Claims -> string): (r: Response)
    requires UniqueEmails(users)
    ensures !J.IsTruthy(body) ==> r == BodyRequired()
    ensures r.status in {200, 400, 401, 500}
    ensures r.status == 200 ==> IsSuccess(r) && SuccessMessage(r) == Some("Login successful")
    ensures r.status == 401 ==> r == ErrorResponse("Invalid email or password", "AUTH_ERROR", 401)
    ensures r.status == 500 ==> r == ErrorResponse("Login failed", "INTERNAL_ERROR", 500)
  {
    if !J.IsTruthy(body) then BodyRequired()
    else if !body.Obj? then ErrorResponse("Login failed", "INTERNAL_ERROR", 500)
    else
      var email := StringArg(body.fields, "email");
      var password := StringArg(body.fields, "password");
      if !email.Ok? || !password.Ok? then ErrorResponse("Login failed", "INTERNAL_ERROR", 500)
      else match LoginSpec(users, email.value, password.value)
        case Ok(u) => SuccessResponse(SessionData(u, now, encode), Some("Login successful"))
        case ValueErr(msg) =>
          if msg == "INVALID_CREDENTIALS" then ErrorResponse("Invalid email or password", "AUTH_ERROR", 401)
          else ErrorResponse(msg, "VALIDATION_ERROR", 400)
        case OtherErr => ErrorResponse("Login failed", "INTERNAL_ERROR", 500)
  }

  /** Which response each outcome of `login_user` becomes, for any body whose two fields read
      as strings or as absent: success is a 200 carrying the session payload, bad credentials
      a 401, and every other refusal a 400 with the service's message. */
  lemma LoginViewOutcomes(body: J.Value, users: map<int, User>, now: nat, encode: Claims -> string)
    requires UniqueEmails(users) && body.Obj? && J.IsTruthy(body)
    requires StringArg(body.fields, "email").Ok? && StringArg(body.fields, "password").Ok?
    ensures var s := LoginSpec(users, StringArg(body.fields, "email").value, StringArg(body.fields, "password").value);
            var r := LoginView(body, users, now, encode);
            && (s.Ok? ==> r == SuccessResponse(SessionData(s.value, now, encode), Some("Login successful")))
            && (s == ValueErr("INVALID_CREDENTIALS") ==> r == ErrorResponse("Invalid email or password", "AUTH_ERROR", 401))
            && (s.ValueErr? && s.msg != "INVALID_CREDENTIALS" ==> r == ErrorResponse(s.msg, "VALIDATION_ERROR", 400))
  {
  }

  /** Logging in with the email (in any case, with any surrounding spaces) and the password of
      a stored account answers 200 with that account's session. */
  lemma LoginViewFindsStoredUser(users: map<int, User>, id: int, email: string, password: string, now: nat, encode: Claims -> string)
    requires UniqueEmails(users) && email != "" && password != ""
    requires id in users && users[id].email == Strip(Lower(email)) && CheckPassword(users[id], password)
    ensures LoginView(J.Obj(map["email" := J.Str(email), "password" := J.Str(password)]), users, now, encode)
            == SuccessResponse(SessionData(users[id], now, encode), Some("Login successful"))
  {
    var fields := map["email" := J.Str(email), "password" := J.Str(password)];
    assert "email" in fields;
    assert StringArg(fields, "email") == Ok(Some(email));
    assert StringArg(fields, "password") == Ok(Some(password));
    LoginFindsStoredUser(users, id, email, password);
    LoginViewOutcomes(J.Obj(fields), users, now, encode);
  }

  /** A client cannot tell an unknown email from a wrong password: both are the same 401. */
  lemma LoginFailuresLookAlike(users: map<int, User>, email: string, password: string, now: nat, encode: Claims -> string)
    requires UniqueEmails(users) && email != "" && password != ""
    requires forall id :: id in users && users[id].email == Strip(Lower(email)) ==> !CheckPassword(users[id], password)
    ensures LoginView(J.Obj(map["email" := J.Str(email), "password" := J.Str(password)]), users, now, encode)
            == ErrorResponse("Invalid email or password", "AUTH_ERROR", 401)
  {
    var fields := map["email" := J.Str(email), "password" := J.Str(password)];
    assert "email" in fields;
    assert StringArg(fields, "email") == Ok(Some(email));
    assert StringArg(fields, "password") == Ok(Some(password));
  }

  /** `profile`: the authenticated user's dict. */
  function ProfileView(u: User): (r: Response)
    ensures r.status == 200 && IsSuccess(r) && "data" in r.body.fields
    ensures r.body.fields["data"] == J.Obj(map["user" := UserToDict(u)])
  {
    SuccessResponse(J.Obj(map["user" := UserToDict(u)]))
  }

  /** `update_password`, with the users table it leaves behind. */
  function PasswordView(body: J.Value, users: map<int, User>, userId: int): (r: (Response, map<int, User>))
    ensures !J.IsTruthy(body) ==> r == (BodyRequired(), users)
    ensures r.0.status in {200, 400, 401, 500}
    ensures r.0.status != 200 ==> r.1 == users
    ensures r.0.status == 200 ==>
              && userId in users && userId in r.1 && r.1 == users[userId := r.1[userId]]
              && r.1[userId].(passwordHash := users[userId].passwordHash) == users[userId]
              && SuccessMessage(r.0) == Some("Password changed successfully")
    ensures r.0.status == 401 ==> r.0 == ErrorResponse("Current password is incorrect", "AUTH_ERROR", 401)
  {
    if !J.IsTruthy(body) then (BodyRequired(), users)
    else if !body.Obj? then (ErrorResponse("Password change failed", "INTERNAL_ERROR", 500), users)
    else
      var oldPassword := StringArg(body.fields, "old_password");
      var newPassword := StringArg(body.fields, "new_password");
      if !oldPassword.Ok? || !newPassword.Ok? then (ErrorResponse("Password change failed", "INTERNAL_ERROR", 500), users)
      else match ChangePasswordSpec(users, userId, oldPassword.value, newPassword.value)
        case Ok(u) =>
          (SuccessResponse(J.Obj(map["user" := UserToDict(u)]), Some("Password changed successfully")), users[userId := u])
        case ValueErr(msg) =>
          if msg == "INVALID_CREDENTIALS" then (ErrorResponse("Current password is incorrect", "AUTH_ERROR", 401), users)
          else (ErrorResponse(msg, "VALIDATION_ERROR", 400), users)
        case OtherErr => (ErrorResponse("Password change failed", "INTERNAL_ERROR", 500), users)
  }

  /** Which response each outcome of `change_password` becomes, for any body whose two fields
      read as strings or as absent: success is a 200 with the updated user, stored over the
      old row; a wrong current password is a 401; every other refusal a 400 with the
      service's message. */
  lemma PasswordViewOutcomes(body: J.Value, users: map<int, User>, userId: int)
    requires body.Obj? && J.IsTruthy(body)
    requires StringArg(body.fields, "old_password").Ok? && StringArg(body.fields, "new_password").Ok?
    ensures var s := ChangePasswordSpec(users, userId, StringArg(body.fields, "old_password").value, StringArg(body.fields, "new_password").value);
            var r := PasswordView(body, users, userId);
            && (s.Ok? ==> r == (SuccessResponse(J.Obj(map["user" := UserToDict(s.value)]), Some("Password changed successfully")), users[userId := s.value]))
            && (s == ValueErr("INVALID_CREDENTIALS") ==> r == (ErrorResponse("Current password is incorrect", "AUTH_ERROR", 401), users))
            && (s.ValueErr? && s.msg != "INVALID_CREDENTIALS" ==> r == (ErrorResponse(s.msg, "VALIDATION_ERROR", 400), users))
  {
  }

  /** With the right current password and a new one of at least six characters, the change
      answers 200 and stores a row that accepts exactly the new password, nothing else of the
      row or the table changing. */
  lemma PasswordViewChanges(users: map<int, User>, userId: int, oldPassword: string, newPassword: string)
    requires userId in users && oldPassword != "" && |newPassword| >= 6
    requires CheckPassword(users[userId], oldPassword)
    ensures var r := PasswordView(J.Obj(map["old_password" := J.Str(oldPassword), "new_password" := J.Str(newPassword)]), users, userId);
            && r.1 == users[userId := r.1[userId]]
            && r.1[userId].(passwordHash := users[userId].passwordHash) == users[userId]
            && (forall p :: CheckPassword(r.1[userId], p) <==> p == newPassword)
            && r.0 == SuccessResponse(J.Obj(map["user" := UserToDict(r.1[userId])]), Some("Password changed successfully"))
  {
    var body := J.Obj(map["old_password" := J.Str(oldPassword), "new_password" := J.Str(newPassword)]);
    assert "old_password" in body.fields;
    assert StringArg(body.fields, "old_password") == Ok(Some(oldPassword));
    assert StringArg(body.fields, "new_password") == Ok(Some(newPassword));
    PasswordViewOutcomes(body, users, userId);
  }

  /** A wrong current password is a 401 and changes nothing. */
  lemma PasswordWrongIs401(users: map<int, User>, userId: int, oldPassword: string, newPassword: string)
    requires userId in users && oldPassword != "" && |newPassword| >= 6
    requires !CheckPassword(users[userId], oldPassword)
    ensures PasswordView(J.Obj(map["old_password" := J.Str(oldPassword), "new_password" := J.Str(newPassword)]), users, userId)
            == (ErrorResponse("Current password is incorrect", "AUTH_ERROR", 401), users)
  {
    var fields := map["old_password" := J.Str(oldPassword), "new_password" := J.Str(newPassword)];
    assert "old_password" in fields;
    assert StringArg(fields, "old_password") == Ok(Some(oldPassword));
    assert StringArg(fields, "new_password") == Ok(Some(newPassword));
  }

  /** A user id with no row (deleted after the token was issued) reaches the client as a 400
      whose message is the bare tag. */
  lemma PasswordUnknownUserIs400(users: map<int, User>, userId: int, oldPassword: string, newPassword: string)
    requires userId !in users && oldPassword != "" && |newPassword| >= 6
    ensures var r := PasswordView(J.Obj(map["old_password" := J.Str(oldPassword), "new_password" := J.Str(newPassword)]), users, userId).0;
            r.status == 400 && IsError(r) && ErrorCode(r) == "VALIDATION_ERROR" && ErrorMessage(r) == "NOT_FOUND"
  {
    var fields := map["old_password" := J.Str(oldPassword), "new_password" := J.Str(newPassword)];
    assert "old_password" in fields;
    assert StringArg(fields, "old_password") == Ok(Some(oldPassword));
    assert StringArg(fields, "new_password") == Ok(Some(newPassword));
  }
}
