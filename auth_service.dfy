/** Accounts: registration with its ordered input checks and email normalisation, login,
    password change and the token's claims. Password hashing and JWT signing are foreign code;
    a token is modelled by the claims it carries. */
module AuthService {

  import opened Wrappers
  import opened Strings
  import opened Models
  import opened Store
  import J = Json

  const Roles: set<string> := {"admin", "institution", "user"}

  // ---------------------------------------------------------------- email pattern

  predicate AsciiLetter(c: char) {
    'a' <= c <= 'z' || 'A' <= c <= 'Z'
  }

  /** `[a-zA-Z0-9._%+-]` */
  predicate LocalChar(c: char) {
    AsciiLetter(c) || '0' <= c <= '9' || c == '.' || c == '_' || c == '%' || c == '+' || c == '-'
  }

  /** `[a-zA-Z0-9.-]` */
  predicate DomainChar(c: char) {
    AsciiLetter(c) || '0' <= c <= '9' || c == '.' || c == '-'
  }

  /** The strings `^[a-zA-Z0-9._%+-]+@[a-zA-Z0-9.-]+\.[a-zA-Z]{2,}$` matches: a local part,
      '@' at `a`, a domain, '.' at `k`, and at least two letters to the end. (The pattern is
      applied to a stripped string, so `$` matching before a final newline does not arise.) */
  predicate EmailPattern(s: string) {
    exists a, k :: 0 < a < k - 1 && k + 2 < |s| && s[a] == '@' && s[k] == '.'
      && (forall i :: 0 <= i < a ==> LocalChar(s[i]))
      && (forall i :: a < i < k ==> DomainChar(s[i]))
      && (forall i :: k < i < |s| ==> AsciiLetter(s[i]))
  }

  /** The part after '@': a domain, then the last '.', then at least two letters. */
  predicate DomainOk(r: string) {
    var k := LastIndexOf(r, '.');
    && 0 < k && k + 2 < |r|
    && (forall i :: 0 <= i < k ==> DomainChar(r[i]))
    && (forall i :: k < i < |r| ==> AsciiLetter(r[i]))
  }

  /** The pattern decided by splitting at the first '@' and at the last '.' after it. */
  function EmailFormatOk(s: string): (ok: bool)
    ensures ok ==> 6 <= |s| && s[0] != '@' && AsciiLetter(s[|s| - 2]) && AsciiLetter(s[|s| - 1])
  {
    var a := IndexOf(s, '@');
    0 < a && (forall i :: 0 <= i < a ==> LocalChar(s[i])) && DomainOk(s[a + 1..])
  }

  /** The split decides the pattern: neither the local part nor the domain may contain '@',
      and the letters after the final '.' contain no '.'. */
  lemma EmailFormatOkIsPattern(s: string)
    ensures EmailFormatOk(s) <==> EmailPattern(s)
  {
    if EmailFormatOk(s) {
      SplitIsMatch(s);
    }
    if EmailPattern(s) {
      PatternIsSplit(s);
    }
  }

  lemma PatternIsSplit(s: string)
    requires EmailPattern(s)
    ensures EmailFormatOk(s)
  {
    var a, k :| 0 < a < k - 1 && k + 2 < |s| && s[a] == '@' && s[k] == '.'
      && (forall i :: 0 <= i < a ==> LocalChar(s[i]))
      && (forall i :: a < i < k ==> DomainChar(s[i]))
      && (forall i :: k < i < |s| ==> AsciiLetter(s[i]));
    MatchIsSplit(s, a, k);
  }

  lemma SplitIsMatch(s: string)
    requires EmailFormatOk(s)
    ensures EmailPattern(s)
  {
    var a := IndexOf(s, '@');
    var r := s[a + 1..];
    var k := a + 1 + LastIndexOf(r, '.');
    assert forall i :: a < i < k ==> s[i] == r[i - a - 1];
    assert forall i :: k < i < |s| ==> s[i] == r[i - a - 1];
    assert s[k] == '.';
  }

  lemma MatchIsSplit(s: string, a: int, k: int)
    requires 0 < a < k - 1 && k + 2 < |s| && s[a] == '@' && s[k] == '.'
    requires forall i :: 0 <= i < a ==> LocalChar(s[i])
    requires forall i :: a < i < k ==> DomainChar(s[i])
    requires forall i :: k < i < |s| ==> AsciiLetter(s[i])
    ensures EmailFormatOk(s)
  {
    var a' := IndexOf(s, '@');
    assert a' == a by {
      assert a' >= 0 && a' <= a;
      assert !LocalChar(s[a']);
    }
    var r := s[a + 1..];
    var k' := LastIndexOf(r, '.');
    assert r[k - a - 1] == '.';
    assert k' == k - a - 1 by {
      assert k' >= k - a - 1;
      assert r[k'] == '.' && s[k' + a + 1] == r[k'];
      assert !AsciiLetter(r[k']);
    }
    assert forall i :: 0 <= i < k' ==> r[i] == s[i + a + 1];
    assert forall i :: k' < i < |r| ==> r[i] == s[i + a + 1];
  }

  // ---------------------------------------------------------------- register_user

  const RequiredMessage := "Email, password, and name are required"

  /** The normalised email: stripped, then lower-cased. Login normalises in the other order
      (lower-cased, then stripped) and reaches the same string, which is already in lower
      case and no longer than what was typed. */
  function NormalizeEmail(email: string): (r: string)
    ensures r == Strip(Lower(email))
    ensures |r| <= |email| && Lower(r) == r
  {
    StripLowerCommute(email);
    LowerIdempotent(Strip(email));
    Lower(Strip(email))
  }

  /** The messages the input checks of `register_user` can refuse with. */
  const RegisterCheckMessages: set<string> := {
    RequiredMessage, "Invalid role", "Invalid email format",
    "Password must be at least 6 characters", "Name must be at least 2 characters" }

  /** The checks of `register_user` before the database is consulted, in their order. On
      success, the normalised email and the stripped name. */
  function RegisterCheck(email: Option<string>, password: Option<string>, name: Option<string>, role: string): (r: Outcome<(string, string)>)
    ensures r.Ok? || r.ValueErr?
    ensures r.ValueErr? ==> r.msg in RegisterCheckMessages
    ensures r.Ok? ==>
              && Truthy(email) && Truthy(password) && Truthy(name) && role in Roles
              && r.value == (NormalizeEmail(email.value), Strip(name.value))
  {
    if !Truthy(email) || !Truthy(password) || !Truthy(name) then ValueErr(RequiredMessage)
    else if role !in Roles then ValueErr("Invalid role")
    else
      var e := NormalizeEmail(email.value);
      var n := Strip(name.value);
      if !EmailFormatOk(e) then ValueErr("Invalid email format")
      else if |password.value| < 6 then ValueErr("Password must be at least 6 characters")
      else if |n| < 2 then ValueErr("Name must be at least 2 characters")
      else Ok((e, n))
  }

  /** Which input check fails first, and that the checks pass exactly when every field is
      present, the role is known, the normalised email matches the pattern, the password has
      at least 6 characters and the stripped name at least 2. */
  lemma RegisterCheckOrder(email: Option<string>, password: Option<string>, name: Option<string>, role: string)
    ensures var r := RegisterCheck(email, password, name, role);
            && (!(Truthy(email) && Truthy(password) && Truthy(name)) ==> r == ValueErr(RequiredMessage))
            && (Truthy(email) && Truthy(password) && Truthy(name) ==>
                  && (role !in Roles ==> r == ValueErr("Invalid role"))
                  && (role in Roles && !EmailPattern(NormalizeEmail(email.value)) ==> r == ValueErr("Invalid email format"))
                  && (role in Roles && EmailPattern(NormalizeEmail(email.value)) && |password.value| < 6 ==>
                        r == ValueErr("Password must be at least 6 characters"))
                  && (role in Roles && EmailPattern(NormalizeEmail(email.value)) && |password.value| >= 6 && |Strip(name.value)| < 2 ==>
                        r == ValueErr("Name must be at least 2 characters")))
            && (r.Ok? <==>
                  Truthy(email) && Truthy(password) && Truthy(name) && role in Roles
                  && EmailPattern(NormalizeEmail(email.value)) && |password.value| >= 6 && |Strip(name.value)| >= 2)
  {
    if Truthy(email) {
      EmailFormatOkIsPattern(NormalizeEmail(email.value));
    }
  }

  predicate UniqueEmails(users: map<int, User>) {
    forall a, b :: a in users && b in users && users[a].email == users[b].email ==> a == b
  }

  /** `register_user` on the users table, the new row taking id `newId`. */
  function RegisterSpec(
    users: map<int, User>, email: Option<string>, password: Option<string>, name: Option<string>,
    role: string, newId: int, now: nat): (r: (Outcome<User>, map<int, User>))
    ensures RegisterCheck(email, password, name, role).ValueErr? ==>
              r == (ValueErr(RegisterCheck(email, password, name, role).msg), users)
    ensures RegisterCheck(email, password, name, role).Ok? && EmailTaken(users, NormalizeEmail(email.value)) ==>
              r == (ValueErr("DUPLICATE_EMAIL"), users)
    ensures r.0.Ok? <==> RegisterCheck(email, password, name, role).Ok? && !EmailTaken(users, NormalizeEmail(email.value))
    ensures !r.0.Ok? ==> r.0.ValueErr? && r.1 == users
    ensures r.0.Ok? ==>
              var u := r.0.value;
              && r.1 == users[newId := u]
              && u.id == newId && u.email == NormalizeEmail(email.value) && u.name == Strip(name.value) && u.role == role
              && CheckPassword(u, password.value)
              && u.validationCount == 0 && !u.isPaid && u.createdAt == Some(now)
  {
    match RegisterCheck(email, password, name, role)
    case ValueErr(msg) => (ValueErr(msg), users)
    case OtherErr => (OtherErr, users)
    case Ok((e, n)) =>
      if EmailTaken(users, e) then (ValueErr("DUPLICATE_EMAIL"), users)
      else
        var u := NewUser(newId, e, n, password.value, now, role);
        (Ok(u), users[newId := u])
  }

  /** Registration keeps emails unique. */
  lemma RegisterKeepsEmailsUnique(
    users: map<int, User>, email: Option<string>, password: Option<string>, name: Option<string>,
    role: string, newId: int, now: nat)
    requires UniqueEmails(users) && newId !in users
    ensures UniqueEmails(RegisterSpec(users, email, password, name, role, newId, now).1)
  {
    var r := RegisterSpec(users, email, password, name, role, newId, now);
    if r.0.Ok? {
      var u := r.0.value;
      assert forall b :: b in users ==> users[b].email != u.email;
      InsertFreshEmail(users, newId, u);
    }
  }

  lemma InsertFreshEmail(users: map<int, User>, newId: int, u: User)
    requires UniqueEmails(users) && newId !in users
    requires forall b :: b in users ==> users[b].email != u.email
    ensures UniqueEmails(users[newId := u])
  {
  }

  // ---------------------------------------------------------------- tokens

  /** 24 hours, in seconds. */
  const TokenLifetime: nat := 24 * 60 * 60

  /** The payload `generate_token` signs. */
  datatype Claims = Claims(userId: int, iat: nat, exp: nat)

  function GenerateToken(userId: int, now: nat): (c: Claims)
    ensures c.userId == userId && c.iat == now && c.exp - c.iat == 86400
  {
    Claims(userId, now, now + TokenLifetime)
  }

  // ---------------------------------------------------------------- login_user

  /** `User.query.filter_by(email=…).first()`; emails are unique, so the row is determined. */
  function FindByEmail(users: map<int, User>, email: string): (r: Option<User>)
    requires UniqueEmails(users)
    ensures r.Some? <==> EmailTaken(users, email)
    ensures r.Some? ==> r.value.email == email && exists id :: id in users && users[id] == r.value
  {
    if EmailTaken(users, email) then
      var id :| id in users && users[id].email == email;
      Some(users[id])
    else None
  }

  /** `login_user`: the lookup uses `email.lower().strip()`; an unknown email and a wrong
      password fail alike. */
  function LoginSpec(users: map<int, User>, email: Option<string>, password: Option<string>): (r: Outcome<User>)
    requires UniqueEmails(users)
    ensures !(Truthy(email) && Truthy(password)) ==> r == ValueErr("Email and password are required")
    ensures Truthy(email) && Truthy(password) && !r.Ok? ==> r == ValueErr("INVALID_CREDENTIALS")
    ensures r.Ok? ==>
              && Truthy(email) && Truthy(password)
              && r.value.email == Strip(Lower(email.value)) && CheckPassword(r.value, password.value)
              && exists id :: id in users && users[id] == r.value
    ensures Truthy(email) && Truthy(password)
            && (exists id :: id in users && users[id].email == Strip(Lower(email.value)) && CheckPassword(users[id], password.value))
            ==> r.Ok?
  {
    if !Truthy(email) || !Truthy(password) then ValueErr("Email and password are required")
    else match FindByEmail(users, Strip(Lower(email.value)))
      case None => ValueErr("INVALID_CREDENTIALS")
      case Some(u) => if CheckPassword(u, password.value) then Ok(u) else ValueErr("INVALID_CREDENTIALS")
  }

  /** A freshly registered account can log in with the email as typed at registration (in
      any letter case, with any surrounding whitespace) and the same password. */
  lemma RegisterThenLogin(
    users: map<int, User>, email: string, password: string, name: string, role: string, newId: int, now: nat)
    requires UniqueEmails(users) && newId !in users
    requires RegisterSpec(users, Some(email), Some(password), Some(name), role, newId, now).0.Ok?
    ensures var r := RegisterSpec(users, Some(email), Some(password), Some(name), role, newId, now);
            UniqueEmails(r.1) && LoginSpec(r.1, Some(email), Some(password)) == r.0
  {
    var r := RegisterSpec(users, Some(email), Some(password), Some(name), role, newId, now);
    RegisterKeepsEmailsUnique(users, Some(email), Some(password), Some(name), role, newId, now);
    LoginFindsStoredUser(r.1, newId, email, password);
  }

  /** The stored user whose email is the normalised one and whose password checks is the
      one login returns. */
  lemma LoginFindsStoredUser(users: map<int, User>, id: int, email: string, password: string)
    requires UniqueEmails(users) && email != "" && password != ""
    requires id in users && users[id].email == Strip(Lower(email)) && CheckPassword(users[id], password)
    ensures LoginSpec(users, Some(email), Some(password)) == Ok(users[id])
  {
    var found := FindByEmail(users, Strip(Lower(email)));
    assert found == Some(users[id]);
  }

  /** The store operation: the user's dict and the token's claims. */
  method RegisterUser(db: Database, email: Option<string>, password: Option<string>, name: Option<string>, now: nat, role: string := "user")
    returns (out: Outcome<(J.Value, Claims)>)
    requires db.Valid()
    modifies db
    ensures db.Valid()
    ensures var r := RegisterSpec(old(db.users), email, password, name, role, old(db.nextUserId), now);
            && db.users == r.1
            && (r.0.Ok? ==> out == Ok((UserToDict(r.0.value), GenerateToken(r.0.value.id, now))))
            && (r.0.ValueErr? ==> out == ValueErr(r.0.msg))
    ensures db.nextUserId == old(db.nextUserId) + (if out.Ok? then 1 else 0)
    ensures db.documents == old(db.documents) && db.results == old(db.results) && db.records == old(db.records)
  {
    var r := RegisterSpec(db.users, email, password, name, role, db.nextUserId, now);
    if r.0.Ok? {
      RegisterConsistent(db.users, db.documents, db.results, db.records, email, password, name, role,
                         db.nextUserId, db.nextDocumentId, db.nextResultId, db.nextRecordId, now);
      AddUser(db, r.1);
      out := Ok((UserToDict(r.0.value), GenerateToken(r.0.value.id, now)));
    } else {
      out := ValueErr(r.0.msg);
    }
  }

  /** The commit of a registration: the new users table and the next user id. */
  method AddUser(db: Database, users: map<int, User>)
    requires db.Valid()
    requires Consistent(users, db.documents, db.results, db.records, db.nextUserId + 1, db.nextDocumentId, db.nextResultId, db.nextRecordId)
    modifies db
    ensures db.Valid()
    ensures db.users == users && db.nextUserId == old(db.nextUserId) + 1
    ensures db.documents == old(db.documents) && db.results == old(db.results) && db.records == old(db.records)
    ensures db.nextDocumentId == old(db.nextDocumentId) && db.nextResultId == old(db.nextResultId) && db.nextRecordId == old(db.nextRecordId)
  {
    db.users := users;
    db.nextUserId := db.nextUserId + 1;
  }

  /** A successful registration, with the next user id, keeps the schema's constraints. */
  lemma RegisterConsistent(
    users: map<int, User>, documents: map<int, Document>, results: map<int, ResultRow>,
    records: map<int, InstitutionRecord>, email: Option<string>, password: Option<string>, name: Option<string>,
    role: string, nu: int, nd: int, nr: int, nrec: int, now: nat)
    requires Consistent(users, documents, results, records, nu, nd, nr, nrec)
    requires RegisterSpec(users, email, password, name, role, nu, now).0.Ok?
    ensures Consistent(RegisterSpec(users, email, password, name, role, nu, now).1, documents, results, records, nu + 1, nd, nr, nrec)
  {
    var m := RegisterSpec(users, email, password, name, role, nu, now).1;
    var u := RegisterSpec(users, email, password, name, role, nu, now).0.value;
    assert nu !in users;
    assert m == users[nu := u] && u.id == nu;
    RegisterKeepsEmailsUnique(users, email, password, name, role, nu, now);
    forall id | id in m
      ensures m[id].id == id && 1 <= id < nu + 1
    {
      if id != nu {
        assert m[id] == users[id];
      }
    }
    forall id | id in records
      ensures records[id].institutionId in m
    {
      assert records[id].institutionId in users;
    }
  }

  /** The store operation; it changes nothing. */
  method LoginUser(db: Database, email: Option<string>, password: Option<string>, now: nat)
    returns (out: Outcome<(J.Value, Claims)>)
    requires db.Valid()
    ensures var r := LoginSpec(db.users, email, password);
            && (r.Ok? ==> out == Ok((UserToDict(r.value), GenerateToken(r.value.id, now))))
            && (r.ValueErr? ==> out == ValueErr(r.msg))
  {
    var r := LoginSpec(db.users, email, password);
    match r
    case Ok(u) => out := Ok((UserToDict(u), GenerateToken(u.id, now)));
    case ValueErr(msg) => out := ValueErr(msg);
    case OtherErr => out := OtherErr;
  }

  // ---------------------------------------------------------------- change_password

  /** `change_password`: both passwords present, the new one at least 6 characters, both
      before the user is looked up; then the old password must check. */
  function ChangePasswordSpec(users: map<int, User>, userId: int, oldPassword: Option<string>, newPassword: Option<string>): (r: Outcome<User>)
    ensures !(Truthy(oldPassword) && Truthy(newPassword)) ==> r == ValueErr("Old password and new password are required")
    ensures Truthy(oldPassword) && Truthy(newPassword) && |newPassword.value| < 6 ==>
              r == ValueErr("New password must be at least 6 characters")
    ensures Truthy(oldPassword) && Truthy(newPassword) && |newPassword.value| >= 6 ==>
              && (userId !in users ==> r == ValueErr("NOT_FOUND"))
              && (userId in users && !CheckPassword(users[userId], oldPassword.value) ==> r == ValueErr("INVALID_CREDENTIALS"))
              && (userId in users && CheckPassword(users[userId], oldPassword.value) ==> r.Ok?)
    ensures r.Ok? ==>
              && userId in users && CheckPassword(r.value, newPassword.value)
              && r.value.(passwordHash := users[userId].passwordHash) == users[userId]
  {
    if !Truthy(oldPassword) || !Truthy(newPassword) then ValueErr("Old password and new password are required")
    else if |newPassword.value| < 6 then ValueErr("New password must be at least 6 characters")
    else if userId !in users then ValueErr("NOT_FOUND")
    else if !CheckPassword(users[userId], oldPassword.value) then ValueErr("INVALID_CREDENTIALS")
    else Ok(SetPassword(users[userId], newPassword.value))
  }

  /** After a password change the new password logs in (with any spelling of the email that
      normalises to the stored one) and a different old one no longer does. */
  lemma ChangePasswordThenLogin(users: map<int, User>, userId: int, email: string, oldPassword: string, newPassword: string)
    requires UniqueEmails(users) && userId in users
    requires email != [] && Strip(Lower(email)) == users[userId].email
    requires ChangePasswordSpec(users, userId, Some(oldPassword), Some(newPassword)).Ok?
    ensures var u := ChangePasswordSpec(users, userId, Some(oldPassword), Some(newPassword)).value;
            var users' := users[userId := u];
            && UniqueEmails(users')
            && LoginSpec(users', Some(email), Some(newPassword)) == Ok(u)
            && (oldPassword != newPassword ==> LoginSpec(users', Some(email), Some(oldPassword)) == ValueErr("INVALID_CREDENTIALS"))
  {
    var u := ChangePasswordSpec(users, userId, Some(oldPassword), Some(newPassword)).value;
    var users' := users[userId := u];
    assert forall id :: id in users' ==> users'[id].email == users[id].email;
    assert users'[userId] == u;
    assert FindByEmail(users', Strip(Lower(email))) == Some(u);
  }

  method ChangePassword(db: Database, userId: int, oldPassword: Option<string>, newPassword: Option<string>)
    returns (out: Outcome<J.Value>)
    requires db.Valid()
    modifies db`users
    ensures db.Valid()
    ensures var r := ChangePasswordSpec(old(db.users), userId, oldPassword, newPassword);
            && (r.Ok? ==> out == Ok(UserToDict(r.value)) && db.users == old(db.users)[userId := r.value])
            && (r.ValueErr? ==> out == ValueErr(r.msg) && db.users == old(db.users))
  {
    var r := ChangePasswordSpec(db.users, userId, oldPassword, newPassword);
    match r
    case Ok(u) =>
      db.users := db.users[userId := u];
      out := Ok(UserToDict(u));
    case ValueErr(msg) =>
      out := ValueErr(msg);
    case OtherErr =>
      out := OtherErr;
  }
}
