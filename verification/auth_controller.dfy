/**
 * The account controller: the email and password validators, and the login,
 * register, profile and logout flows over the `users` table.
 *
 * `bcrypt.compare` is an oracle; the digest `bcrypt.hash` produces for a
 * registration is passed in; `jwt.sign` is represented by the claims and
 * lifetime it signs (`Grant`).
 */
module AuthController {
  import opened Wrappers
  import opened JsText
  import opened Schema
  import opened AuthMiddleware

  // ---------------------------------------------------------------------------
  // Email format: /^[^\s@]+@[^\s@]+\.[^\s@]+$/
  // ---------------------------------------------------------------------------

  /** JavaScript's `\s`: the ECMAScript white space and line terminator characters. */
  predicate IsJsWhitespace(c: char) {
    || c == ' ' || c == '\t' || c == '\n' || c == '\U{000B}' || c == '\U{000C}' || c == '\r'
    || c == '\U{00A0}' || c == '\U{1680}' || ('\U{2000}' <= c <= '\U{200A}')
    || c == '\U{2028}' || c == '\U{2029}' || c == '\U{202F}' || c == '\U{205F}'
    || c == '\U{3000}' || c == '\U{FEFF}'
  }

  /** The domain holds a '.' with at least one character on each side. */
  predicate HasInnerDot(domain: string) {
    exists k :: 0 < k < |domain| - 1 && domain[k] == '.'
  }

  /**
   * `isValidEmail`, character by character: no white space, exactly one '@'
   * (the first '@' is the last), a non-empty local part before it, and a domain
   * after it holding an inner '.'.
   */
  predicate IsValidEmail(email: string) {
    && (forall i :: 0 <= i < |email| ==> !IsJsWhitespace(email[i]))
    && '@' in email
    && var at := IndexOf(email, '@');
       && at > 0
       && '@' !in email[at + 1..]
       && HasInnerDot(email[at + 1..])
  }

  /** `[^\s@]`. */
  predicate EmailChar(c: char) {
    !IsJsWhitespace(c) && c != '@'
  }

  /** `[^\s@]+`. */
  predicate EmailRun(s: string) {
    |s| >= 1 && forall i :: 0 <= i < |s| ==> EmailChar(s[i])
  }

  /** What the regex matches: `a@b.c` with each of a, b, c a non-empty run of `[^\s@]`. */
  ghost predicate MatchesEmailRegex(s: string) {
    exists i, j ::
      && 0 < i < j < |s| - 1 && s[i] == '@' && s[j] == '.'
      && EmailRun(s[..i]) && EmailRun(s[i + 1..j]) && EmailRun(s[j + 1..])
  }

  lemma IndexOfAt(s: string, c: char, i: nat)
    requires i < |s| && s[i] == c && c !in s[..i]
    ensures c in s && IndexOf(s, c) == i
  {
  }

  /** A slice whose every character is in `[^\s@]` is a run of them. */
  lemma EmailRunOfSlice(s: string, lo: int, hi: int)
    requires 0 <= lo < hi <= |s|
    requires forall p :: lo <= p < hi ==> EmailChar(s[p])
    ensures EmailRun(s[lo..hi])
  {
    forall p | 0 <= p < hi - lo ensures EmailChar(s[lo..hi][p]) {
      assert s[lo..hi][p] == s[lo + p];
    }
  }

  /** Every email the validator accepts matches the regex. */
  lemma ValidEmailMatchesRegex(s: string)
    requires IsValidEmail(s)
    ensures MatchesEmailRegex(s)
  {
    var at := IndexOf(s, '@');
    var d := s[at + 1..];
    var k :| 0 < k < |d| - 1 && d[k] == '.';
    var j := at + 1 + k;
    forall p | 0 <= p < |s| && p != at ensures EmailChar(s[p]) {
      if p < at {
        assert s[p] == s[..at][p];
      } else {
        assert s[p] == d[p - at - 1];
      }
    }
    EmailRunOfSlice(s, 0, at);
    EmailRunOfSlice(s, at + 1, j);
    EmailRunOfSlice(s, j + 1, |s|);
    assert s[..at] == s[0..at];
    assert s[j + 1..] == s[j + 1..|s|];
  }

  /** Outside the '@' and the '.', every character of a regex match is in `[^\s@]`. */
  lemma RunsCoverMatch(s: string, i: int, j: int)
    requires 0 < i < j < |s| - 1
    requires EmailRun(s[..i]) && EmailRun(s[i + 1..j]) && EmailRun(s[j + 1..])
    ensures forall p :: 0 <= p < |s| && p != i && p != j ==> EmailChar(s[p])
  {
    forall p | 0 <= p < |s| && p != i && p != j
      ensures EmailChar(s[p])
    {
      if p < i {
        assert s[p] == s[..i][p];
      } else if p < j {
        assert s[p] == s[i + 1..j][p - i - 1];
      } else {
        assert s[p] == s[j + 1..][p - j - 1];
      }
    }
  }

  /** A string split by an '@' at i and a '.' at j into three runs of `[^\s@]` passes the validator. */
  lemma RegexPartsValid(s: string, i: int, j: int)
    requires 0 < i < j < |s| - 1 && s[i] == '@' && s[j] == '.'
    requires EmailRun(s[..i]) && EmailRun(s[i + 1..j]) && EmailRun(s[j + 1..])
    ensures IsValidEmail(s)
  {
    RunsCoverMatch(s, i, j);
    assert !IsJsWhitespace('@') && !IsJsWhitespace('.');
    assert forall p :: 0 <= p < |s| ==> !IsJsWhitespace(s[p]);
    IndexOfAt(s, '@', i);
    var d := s[i + 1..];
    assert d[j - i - 1] == '.';
    assert '@' !in d by {
      forall p | 0 <= p < |d| ensures d[p] != '@' {
        assert d[p] == s[i + 1 + p];
      }
    }
  }

  /** Every email the regex matches is accepted by the validator. */
  lemma RegexMatchIsValidEmail(s: string)
    requires MatchesEmailRegex(s)
    ensures IsValidEmail(s)
  {
    var i, j :| && 0 < i < j < |s| - 1 && s[i] == '@' && s[j] == '.'
      && EmailRun(s[..i]) && EmailRun(s[i + 1..j]) && EmailRun(s[j + 1..]);
    RegexPartsValid(s, i, j);
  }

  /** The character-level validator accepts exactly what the regex matches. */
  lemma IsValidEmailMatchesRegex(s: string)
    ensures IsValidEmail(s) <==> MatchesEmailRegex(s)
  {
    if IsValidEmail(s) {
      ValidEmailMatchesRegex(s);
    }
    if MatchesEmailRegex(s) {
      RegexMatchIsValidEmail(s);
    }
  }

  // ---------------------------------------------------------------------------
  // Password strength: /^(?=.*[a-z])(?=.*[A-Z])(?=.*\d)(?=.*[@$!%*?&])[A-Za-z\d@$!%*?&]{8,}$/
  // ---------------------------------------------------------------------------

  predicate IsLower(c: char) { 'a' <= c <= 'z' }
  predicate IsUpper(c: char) { 'A' <= c <= 'Z' }
  predicate IsSpecial(c: char) { c in "@$!%*?&" }

  /** `[A-Za-z\d@$!%*?&]`. */
  predicate PasswordChar(c: char) {
    IsLower(c) || IsUpper(c) || IsDigit(c) || IsSpecial(c)
  }

  /**
   * `isStrongPassword`, character by character: at least 8 characters, all from
   * [A-Za-z0-9@$!%*?&], with a lowercase letter, an uppercase letter, a digit and
   * one of @$!%*?&.
   */
  predicate IsStrongPassword(password: string) {
    && |password| >= 8
    && (forall i :: 0 <= i < |password| ==> PasswordChar(password[i]))
    && (exists i :: 0 <= i < |password| && IsLower(password[i]))
    && (exists i :: 0 <= i < |password| && IsUpper(password[i]))
    && (exists i :: 0 <= i < |password| && IsDigit(password[i]))
    && (exists i :: 0 <= i < |password| && IsSpecial(password[i]))
  }

  /** The characters JavaScript's `.` does not match. */
  predicate IsLineTerminator(c: char) {
    c == '\n' || c == '\r' || c == '\U{2028}' || c == '\U{2029}'
  }

  /** `(?=.*[class])` at the start: a character of the class occurs before any line terminator. */
  predicate Lookahead(s: string, inClass: char -> bool) {
    exists i :: 0 <= i < |s| && inClass(s[i]) && forall p :: 0 <= p < i ==> !IsLineTerminator(s[p])
  }

  /** What the regex matches, lookaheads read with `.` excluding line terminators. */
  predicate MatchesPasswordRegex(s: string) {
    && Lookahead(s, IsLower) && Lookahead(s, IsUpper) && Lookahead(s, IsDigit) && Lookahead(s, IsSpecial)
    && |s| >= 8 && forall i :: 0 <= i < |s| ==> PasswordChar(s[i])
  }

  /** The character-level validator accepts exactly what the regex matches. */
  lemma IsStrongPasswordMatchesRegex(s: string)
    ensures IsStrongPassword(s) <==> MatchesPasswordRegex(s)
  {
    if IsStrongPassword(s) {
      forall p | 0 <= p < |s| ensures !IsLineTerminator(s[p]) {
        assert PasswordChar(s[p]);
      }
      var a :| 0 <= a < |s| && IsLower(s[a]);
      var b :| 0 <= b < |s| && IsUpper(s[b]);
      var c :| 0 <= c < |s| && IsDigit(s[c]);
      var d :| 0 <= d < |s| && IsSpecial(s[d]);
      assert Lookahead(s, IsLower) by { assert IsLower(s[a]); }
      assert Lookahead(s, IsUpper) by { assert IsUpper(s[b]); }
      assert Lookahead(s, IsDigit) by { assert IsDigit(s[c]); }
      assert Lookahead(s, IsSpecial) by { assert IsSpecial(s[d]); }
    }
  }

  // ---------------------------------------------------------------------------
  // Responses
  // ---------------------------------------------------------------------------

  /** The user object a response carries: never the password digest. */
  datatype PublicUser = PublicUser(id: int, email: string, name: string, createdAt: int, lastLogin: Option<int>)

  /** `jwt.sign(claims, JWT_SECRET, { expiresIn })`: what is signed and for how long. */
  datatype Grant = Grant(claims: Claims, expiresInSeconds: nat)

  datatype Body =
    | Message(text: string)
    | LoggedIn(grant: Grant, user: PublicUser)
    | Registered(message: string, grant: Grant, user: PublicUser)  // the 201 body: fixed message, token, user
    | Profile(user: PublicUser)

  datatype Response = Response(status: nat, body: Body)

  /** `expiresIn: '1h'`. */
  const SessionLifetimeSeconds: nat := 3600

  const EmailPasswordRequired: string := "Email and password are required"
  const NameEmailPasswordRequired: string := "Name, email, and password are required"
  const InvalidEmailFormat: string := "Invalid email format"
  const WeakPassword: string :=
    "Password must be at least 8 characters long and contain at least one uppercase letter, one lowercase letter, one number, and one special character"
  const InvalidCredentials: string := "Invalid credentials"
  const EmailAlreadyRegistered: string := "Email already registered"
  const UserNotFound: string := "User not found"
  const LoggedOut: string := "Logged out successfully"
  const RegistrationSuccessful: string := "Registration successful"

  /** A body field is truthy: present and not the empty string. */
  predicate Present(field: Option<string>) {
    field.Some? && field.value != ""
  }

  function PublicView(u: User): (p: PublicUser)
    ensures p.id == u.id && p.email == u.email && p.name == u.name
    ensures p.createdAt == u.createdAt && p.lastLogin == u.lastLogin
  {
    PublicUser(u.id, u.email, u.name, u.createdAt, u.lastLogin)
  }

  /** The session claims signed for a user: `{ id, email, name }`, valid one hour. */
  function SessionGrant(u: User): Grant {
    Grant(Claims(u.id, u.email, u.name), SessionLifetimeSeconds)
  }

  /** Some row, active or not, already has this email. */
  predicate EmailTaken(users: map<int, User>, email: string) {
    exists id :: id in users && users[id].email == email
  }

  /** `SELECT * FROM users WHERE email = $1 AND is_active = true`, which the unique email makes at most one row. */
  function ActiveUserWithEmail(users: map<int, User>, email: string): (r: Option<User>)
    requires UsersWellFormed(users)
    ensures r.Some? <==> exists id :: id in users && users[id].email == email && users[id].isActive
    ensures r.Some? ==> r.value.id in users && users[r.value.id] == r.value
    ensures r.Some? ==> r.value.email == email && r.value.isActive
  {
    if exists id :: id in users && users[id].email == email && users[id].isActive then
      var id :| id in users && users[id].email == email && users[id].isActive;
      Some(users[id])
    else None
  }

  /** The row `register` inserts: the given fields, the digest as password, and the column defaults. */
  function NewUser(id: int, name: string, email: string, digest: string, now: int): (u: User)
    ensures u.id == id && u.name == name && u.email == email && u.password == digest
    ensures u.isActive && u.role == DefaultRole && u.failedLoginAttempts == 0 && u.lastFailedLogin.None?
    ensures u.createdAt == now && u.updatedAt == now && u.lastLogin == Some(now)
  {
    User(id, name, email, digest, now, now, Some(now), true, DefaultRole, 0, None)
  }

  /** The validation cascade of `register` up to and including the existing-email check; None when it passes. */
  function RegisterRejection(users: map<int, User>, name: Option<string>, email: Option<string>, password: Option<string>)
    : (r: Option<Response>)
    ensures r.None? <==>
      Present(name) && Present(email) && Present(password) && IsValidEmail(email.value)
      && IsStrongPassword(password.value) && !EmailTaken(users, email.value)
    ensures r.Some? ==> r.value.status == 400
    ensures !Present(name) || !Present(email) || !Present(password) ==>
      r == Some(Response(400, Message(NameEmailPasswordRequired)))
    ensures Present(name) && Present(email) && Present(password) && !IsValidEmail(email.value) ==>
      r == Some(Response(400, Message(InvalidEmailFormat)))
    ensures (&& Present(name) && Present(email) && Present(password)
             && IsValidEmail(email.value) && !IsStrongPassword(password.value)) ==>
      r == Some(Response(400, Message(WeakPassword)))
    ensures (&& Present(name) && Present(email) && Present(password) && IsValidEmail(email.value)
             && IsStrongPassword(password.value) && EmailTaken(users, email.value)) ==>
      r == Some(Response(400, Message(EmailAlreadyRegistered)))
  {
    if !Present(name) || !Present(email) || !Present(password) then Some(Response(400, Message(NameEmailPasswordRequired)))
    else if !IsValidEmail(email.value) then Some(Response(400, Message(InvalidEmailFormat)))
    else if !IsStrongPassword(password.value) then Some(Response(400, Message(WeakPassword)))
    else if EmailTaken(users, email.value) then Some(Response(400, Message(EmailAlreadyRegistered)))
    else None
  }

  /** The `users` table and its SERIAL id sequence. */
  class UserStore {
    var users: map<int, User>
    var nextId: int

    ghost predicate Valid()
      reads this
    {
      UsersWellFormed(users) && forall id :: id in users ==> id < nextId
    }

    constructor ()
      ensures Valid() && users == map[] && nextId == 1
    {
      users := map[];
      nextId := 1;
    }

    /**
     * `login`: the first failing check decides the response and the table is
     * untouched; on success only that user's `last_login` changes, and the
     * response carries the value read before the update.
     */
    method Login(email: Option<string>, password: Option<string>, compare: (string, string) -> bool, now: int)
      returns (resp: Response)
      requires Valid()
      modifies this
      ensures Valid() && nextId == old(nextId)
      ensures resp.status != 200 ==> users == old(users)
      ensures !Present(email) || !Present(password) ==> resp == Response(400, Message(EmailPasswordRequired))
      ensures Present(email) && Present(password) && !IsValidEmail(email.value) ==>
        resp == Response(400, Message(InvalidEmailFormat))
      ensures Present(email) && Present(password) && IsValidEmail(email.value) ==>
        match ActiveUserWithEmail(old(users), email.value)
        case None => resp == Response(401, Message(InvalidCredentials))
        case Some(u) =>
          if compare(password.value, u.password) then
            && resp == Response(200, LoggedIn(SessionGrant(u), PublicView(u)))
            && users == old(users)[u.id := u.(lastLogin := Some(now))]
          else resp == Response(401, Message(InvalidCredentials))
    {
      if !Present(email) || !Present(password) {
        return Response(400, Message(EmailPasswordRequired));
      }
      if !IsValidEmail(email.value) {
        return Response(400, Message(InvalidEmailFormat));
      }
      var found := ActiveUserWithEmail(users, email.value);
      if found.None? {
        return Response(401, Message(InvalidCredentials));
      }
      var user := found.value;
      if !compare(password.value, user.password) {
        return Response(401, Message(InvalidCredentials));
      }
      users := users[user.id := user.(lastLogin := Some(now))];
      resp := Response(200, LoggedIn(SessionGrant(user), PublicView(user)));
    }

    /**
     * The INSERT of `register`: takes the next SERIAL id, then either fails with
     * the unique violation (23505) when a row already has the email, the id
     * being spent all the same, or adds one row under that id.
     */
    method InsertUser(name: string, email: string, digest: string, now: int) returns (inserted: Option<User>)
      requires Valid()
      modifies this
      ensures Valid() && nextId == old(nextId) + 1
      ensures EmailTaken(old(users), email) ==> inserted.None? && users == old(users)
      ensures !EmailTaken(old(users), email) ==>
        && inserted == Some(NewUser(old(nextId), name, email, digest, now))
        && users == old(users)[old(nextId) := inserted.value]
    {
      var id := nextId;
      nextId := nextId + 1;
      if exists other :: other in users && users[other].email == email {
        return None;
      }
      var row := NewUser(id, name, email, digest, now);
      users := users[id := row];
      inserted := Some(row);
    }

    /**
     * What `register` does once its checks have passed: insert the row, map a
     * unique violation (a concurrent registration of the same email) to 400, and
     * otherwise answer 201 with a token for the new id.
     */
    method CompleteRegistration(name: string, email: string, digest: string, now: int) returns (resp: Response)
      requires Valid()
      modifies this
      ensures Valid()
      ensures nextId == old(nextId) + 1
      ensures EmailTaken(old(users), email) ==>
        resp == Response(400, Message(EmailAlreadyRegistered)) && users == old(users)
      ensures !EmailTaken(old(users), email) ==>
        var u := NewUser(old(nextId), name, email, digest, now);
        && resp == Response(201, Registered(RegistrationSuccessful, SessionGrant(u), PublicView(u)))
        && users == old(users)[u.id := u]
    {
      var inserted := InsertUser(name, email, digest, now);
      match inserted {
        case None => resp := Response(400, Message(EmailAlreadyRegistered));
        case Some(u) => resp := Response(201, Registered(RegistrationSuccessful, SessionGrant(u), PublicView(u)));
      }
    }

    /**
     * `register`: rejects with 400 before any insert when a field is missing, the
     * email is malformed, the password weak, or the email already registered
     * (active or not); otherwise inserts exactly one row holding the digest.
     */
    method Register(name: Option<string>, email: Option<string>, password: Option<string>, digest: string, now: int)
      returns (resp: Response)
      requires Valid()
      modifies this
      ensures Valid()
      ensures RegisterRejection(old(users), name, email, password).Some? ==>
        resp == RegisterRejection(old(users), name, email, password).value
        && users == old(users) && nextId == old(nextId)
      ensures RegisterRejection(old(users), name, email, password).None? ==>
        var u := NewUser(old(nextId), name.value, email.value, digest, now);
        && resp == Response(201, Registered(RegistrationSuccessful, SessionGrant(u), PublicView(u)))
        && users == old(users)[u.id := u]
        && nextId == old(nextId) + 1
    {
      var rejection := RegisterRejection(users, name, email, password);
      if rejection.Some? {
        return rejection.value;
      }
      resp := CompleteRegistration(name.value, email.value, digest, now);
    }

    /** `getProfile`: the caller's row when it exists and is active, otherwise 404. */
    function GetProfile(user: Option<Claims>): (resp: Response)
      reads this
      ensures resp.status == 200 <==>
        user.Some? && user.value.id in users && users[user.value.id].isActive
      ensures resp.status == 200 ==> resp.body == Profile(PublicView(users[user.value.id]))
      ensures user.Some? && resp.status != 200 ==> resp == Response(404, Message(UserNotFound))
      ensures user.None? ==> resp == Response(500, Message(ServerError))
    {
      match user
      case None => Response(500, Message(ServerError))
      case Some(claims) =>
        if claims.id in users && users[claims.id].isActive then Response(200, Profile(PublicView(users[claims.id])))
        else Response(404, Message(UserNotFound))
    }

    /** `logout`: sets the caller's `last_login` and nothing else; no token is revoked. */
    method Logout(user: Option<Claims>, now: int) returns (resp: Response)
      requires Valid()
      modifies this
      ensures Valid() && nextId == old(nextId)
      ensures user.None? ==> resp == Response(500, Message(ServerError)) && users == old(users)
      ensures user.Some? ==> resp == Response(200, Message(LoggedOut))
      ensures user.Some? && user.value.id in old(users) ==>
        users == old(users)[user.value.id := old(users)[user.value.id].(lastLogin := Some(now))]
      ensures user.Some? && user.value.id !in old(users) ==> users == old(users)
    {
      if user.None? {
        return Response(500, Message(ServerError));
      }
      var id := user.value.id;
      if id in users {
        users := users[id := users[id].(lastLogin := Some(now))];
      }
      resp := Response(200, Message(LoggedOut));
    }
  }
}
