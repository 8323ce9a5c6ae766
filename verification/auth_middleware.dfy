/**
 * The request-admission middlewares of the backend: bearer-token extraction,
 * session and refresh token verification, the revoked-token check, the admin and
 * per-service gates, and the per-address fixed-window rate limiter.
 *
 * Each admission check is a decision over the request and a snapshot of the
 * table it queries; `jwt.verify` is an oracle; the rate limiter's `Map` is the
 * state of a `RateLimiter` object.
 */
module AuthMiddleware {
  import opened Wrappers
  import opened JsMath
  import opened JsText
  import opened Schema

  /** The payload of a token whose signature and expiry check out: the `{id, email, name}` it was signed with. */
  datatype Claims = Claims(id: int, email: string, name: string)

  /** `JWT_SECRET` signs session tokens, `JWT_REFRESH_SECRET` refresh tokens. */
  datatype Secret = SessionSecret | RefreshSecret

  /** `jwt.verify(token, secret)`: the decoded claims, or None where it throws (bad signature, expired). */
  type Verifier = (Secret, string) -> Option<Claims>

  /** The result of one `pool.query`: the table's rows, or the error it throws. */
  datatype Read<T> = Rows(rows: T) | StoreError

  /**
   * What a middleware does with a request: `next()` with `req.user` as it then
   * stands, or a response that ends the request.
   */
  datatype Outcome = Next(user: Option<Claims>) | Halt(status: nat, message: string)

  const NoTokenProvided: string := "No token provided"
  const NoAuthenticationToken: string := "No authentication token provided"
  const InvalidToken: string := "Invalid token"
  const TokenRevoked: string := "Token has been revoked"
  const RefreshTokenRequired: string := "Refresh token required"
  const InvalidRefreshToken: string := "Invalid refresh token"
  const AdminAccessRequired: string := "Admin access required"
  const NoActiveCredentials: string := "No active credentials found for this service"
  const ServerError: string := "Server error"

  /**
   * `authorization?.split(' ')[1]`, kept only when truthy: the second
   * space-separated field of the header, absent when the header is missing,
   * has no space, or the field is empty.
   */
  function BearerToken(authorization: Option<string>): (token: Option<string>)
    ensures token.Some? ==> token.value != [] && ' ' !in token.value
    ensures authorization.Some? && ' ' !in authorization.value ==> token.None?
    ensures authorization.None? ==> token.None?
  {
    match authorization
    case None => None
    case Some(header) =>
      var fields := Split(header, ' ');
      if |fields| >= 2 && fields[1] != "" then Some(fields[1]) else None
  }

  /** A space-free token followed by nothing or by a space is the first field of the split. */
  lemma TokenIsFirstField(token: string, rest: string)
    requires ' ' !in token
    requires rest == [] || rest[0] == ' '
    ensures Split(token + rest, ' ')[0] == token
  {
    if rest == [] {
      assert token + rest == token;
    } else {
      assert token + rest == token + [' '] + rest[1..];
      SplitFirstField(token, rest[1..], ' ');
    }
  }

  /** `"<scheme> <token>"`, optionally followed by more space-separated text, carries `<token>`. */
  lemma BearerTokenOfHeader(scheme: string, token: string, rest: string)
    requires ' ' !in scheme && ' ' !in token && token != []
    requires rest == [] || rest[0] == ' '
    ensures BearerToken(Some(scheme + " " + token + rest)) == Some(token)
  {
    var header := scheme + " " + token + rest;
    assert header == scheme + [' '] + (token + rest);
    SplitFirstField(scheme, token + rest, ' ');
    TokenIsFirstField(token, rest);
    assert Split(header, ' ')[1] == token;
  }

  /**
   * `"<scheme> "` followed by nothing or by another space: the second field is
   * empty, so there is no token. With `BearerTokenOfHeader` this settles every
   * header that contains a space.
   */
  lemma EmptyTokenRejected(scheme: string, rest: string)
    requires ' ' !in scheme
    requires rest == [] || rest[0] == ' '
    ensures BearerToken(Some(scheme + " " + rest)) == None
  {
    var header := scheme + " " + rest;
    assert header == scheme + [' '] + rest;
    SplitFirstField(scheme, rest, ' ');
    if rest == [] {
      assert Split(rest, ' ') == [""];
    } else {
      assert rest == [] + [' '] + rest[1..];
      SplitFirstField([], rest[1..], ' ');
    }
    assert Split(header, ' ')[1] == "";
  }

  /** `verifyToken`: a missing token and a failed verification are both 401. */
  function VerifyToken(authorization: Option<string>, verify: Verifier): (o: Outcome)
    ensures BearerToken(authorization).None? ==> o == Halt(401, NoTokenProvided)
    ensures o.Next? <==>
      BearerToken(authorization).Some? && verify(SessionSecret, BearerToken(authorization).value).Some?
    ensures o.Next? ==> o.user == verify(SessionSecret, BearerToken(authorization).value)
    ensures o.Halt? ==> o.status == 401
  {
    match BearerToken(authorization)
    case None => Halt(401, NoTokenProvided)
    case Some(token) =>
      match verify(SessionSecret, token)
      case None => Halt(401, InvalidToken)
      case Some(decoded) => Next(Some(decoded))
  }

  /** `authenticateToken`: a missing token is 401, a failed verification 403. */
  function AuthenticateToken(authorization: Option<string>, verify: Verifier): (o: Outcome)
    ensures BearerToken(authorization).None? ==> o == Halt(401, NoAuthenticationToken)
    ensures BearerToken(authorization).Some? && verify(SessionSecret, BearerToken(authorization).value).None? ==>
      o == Halt(403, InvalidToken)
    ensures o.Next? ==> o.user.Some? && o.user == verify(SessionSecret, BearerToken(authorization).value)
  {
    match BearerToken(authorization)
    case None => Halt(401, NoAuthenticationToken)
    case Some(token) =>
      match verify(SessionSecret, token)
      case None => Halt(403, InvalidToken)
      case Some(decoded) => Next(Some(decoded))
  }

  /**
   * The two session-token middlewares admit exactly the same requests with the
   * same `req.user`; they differ only in the status of a failed verification.
   */
  lemma VerifyAndAuthenticateAgree(authorization: Option<string>, verify: Verifier)
    ensures VerifyToken(authorization, verify).Next? <==> AuthenticateToken(authorization, verify).Next?
    ensures VerifyToken(authorization, verify).Next? ==>
      VerifyToken(authorization, verify) == AuthenticateToken(authorization, verify)
    ensures VerifyToken(authorization, verify) == Halt(401, InvalidToken) <==>
      AuthenticateToken(authorization, verify) == Halt(403, InvalidToken)
  {
  }

  /** `checkTokenBlacklist`: rejects a revoked token with 401 and fails closed (500) when the store errs. */
  function CheckTokenBlacklist(authorization: Option<string>, user: Option<Claims>, blacklisted: Read<set<string>>): (o: Outcome)
    ensures BearerToken(authorization).None? ==> o == Halt(401, NoTokenProvided)
    ensures o.Next? <==>
      BearerToken(authorization).Some? && blacklisted.Rows? && BearerToken(authorization).value !in blacklisted.rows
    ensures o.Next? ==> o.user == user
    ensures BearerToken(authorization).Some? && blacklisted.Rows? && BearerToken(authorization).value in blacklisted.rows ==>
      o == Halt(401, TokenRevoked)
    ensures BearerToken(authorization).Some? && blacklisted.StoreError? ==> o == Halt(500, ServerError)
  {
    match BearerToken(authorization)
    case None => Halt(401, NoTokenProvided)
    case Some(token) =>
      match blacklisted
      case StoreError => Halt(500, ServerError)
      case Rows(tokens) => if token in tokens then Halt(401, TokenRevoked) else Next(user)
  }

  /** A `refresh_tokens` row holds the token and its `expires_at` is still ahead of `now`. */
  predicate LiveRefreshToken(rows: map<string, RefreshToken>, token: string, now: int) {
    token in rows && rows[token].expiresAt > now
  }

  /**
   * `verifyRefreshToken`: admits iff the body's refresh token is present, verifies
   * with the refresh secret, and is held by a live `refresh_tokens` row; every
   * failure, a store error included, is 401.
   */
  function VerifyRefreshToken(
    refreshToken: Option<string>, verify: Verifier,
    table: Read<map<string, RefreshToken>>, now: int): (o: Outcome)
    ensures o.Next? <==>
      && refreshToken.Some? && refreshToken.value != []
      && verify(RefreshSecret, refreshToken.value).Some?
      && table.Rows? && LiveRefreshToken(table.rows, refreshToken.value, now)
    ensures o.Next? ==> o.user == verify(RefreshSecret, refreshToken.value)
    ensures o.Halt? ==> o.status == 401
    ensures refreshToken.None? || refreshToken.value == [] ==> o == Halt(401, RefreshTokenRequired)
  {
    match refreshToken
    case None => Halt(401, RefreshTokenRequired)
    case Some(token) =>
      if token == [] then Halt(401, RefreshTokenRequired)
      else match verify(RefreshSecret, token)
        case None => Halt(401, InvalidRefreshToken)
        case Some(decoded) =>
          match table
          case StoreError => Halt(401, InvalidRefreshToken)
          case Rows(rows) => if LiveRefreshToken(rows, token, now) then Next(Some(decoded)) else Halt(401, InvalidRefreshToken)
  }

  /**
   * `isAdmin`: admits iff the caller's `users` row has role exactly 'admin'; a
   * missing row or any other role is 403, a missing `req.user` or a store error 500.
   */
  function IsAdmin(user: Option<Claims>, users: Read<map<int, User>>): (o: Outcome)
    ensures o.Next? <==>
      user.Some? && users.Rows? && user.value.id in users.rows && users.rows[user.value.id].role == "admin"
    ensures o.Next? ==> o.user == user
    ensures user.Some? && users.Rows? && o.Halt? ==> o == Halt(403, AdminAccessRequired)
    ensures user.None? || users.StoreError? ==> o == Halt(500, ServerError)
  {
    match user
    case None => Halt(500, ServerError)
    case Some(claims) =>
      match users
      case StoreError => Halt(500, ServerError)
      case Rows(rows) =>
        if claims.id in rows && rows[claims.id].role == "admin" then Next(user)
        else Halt(403, AdminAccessRequired)
  }

  /**
   * `validateServiceAccess`: admits iff a `service_credentials` row exists for
   * (caller, serviceType) and is active; otherwise 403.
   */
  function ValidateServiceAccess(
    user: Option<Claims>, serviceType: string, table: Read<map<CredentialKey, ServiceCredential>>): (o: Outcome)
    ensures o.Next? <==>
      user.Some? && table.Rows? && (user.value.id, serviceType) in table.rows
      && table.rows[(user.value.id, serviceType)].isActive
    ensures o.Next? ==> o.user == user
    ensures user.Some? && table.Rows? && o.Halt? ==> o == Halt(403, NoActiveCredentials)
    ensures user.None? || table.StoreError? ==> o == Halt(500, ServerError)
  {
    match user
    case None => Halt(500, ServerError)
    case Some(claims) =>
      match table
      case StoreError => Halt(500, ServerError)
      case Rows(rows) =>
        var key := (claims.id, serviceType);
        if key in rows && rows[key].isActive then Next(user) else Halt(403, NoActiveCredentials)
  }

  // ---------------------------------------------------------------------------
  // Rate limiting
  // ---------------------------------------------------------------------------

  /** The `{count, firstAttempt}` the limiter keeps per address. */
  datatype Window = Window(count: int, firstAttempt: int)

  /**
   * Admission by the limiter, or a 429 carrying the seconds it reports until the
   * window resets; a rejection happens only inside the window, so never negative.
   */
  datatype Admission = Admitted | TooManyAttempts(retryAfterSeconds: nat)

  /** `now - firstAttempt > timeWindow`: the window has strictly elapsed. */
  predicate Elapsed(w: Window, now: int, timeWindow: int) {
    now - w.firstAttempt > timeWindow
  }

  /**
   * One request from `ip` at `now`: the limiter's decision and its map afterwards.
   */
  function Step(requests: map<string, Window>, ip: string, now: int, attempts: int, timeWindow: int)
    : (r: (Admission, map<string, Window>))
    ensures r.1 - {ip} == requests - {ip}
    ensures ip !in requests || Elapsed(requests[ip], now, timeWindow) ==>
      r.0 == Admitted && r.1 == requests[ip := Window(1, now)]
    ensures ip in requests && !Elapsed(requests[ip], now, timeWindow) ==>
      && (r.0 == Admitted <==> requests[ip].count < attempts)
      && (r.0 == Admitted ==> r.1 == requests[ip := Window(requests[ip].count + 1, requests[ip].firstAttempt)])
      && (r.0.TooManyAttempts? ==>
            r.1 == requests
            && r.0.retryAfterSeconds == CeilDiv(timeWindow - (now - requests[ip].firstAttempt), 1000))
  {
    if ip in requests then
      var w := requests[ip];
      if Elapsed(w, now, timeWindow) then (Admitted, requests[ip := Window(1, now)])
      else if w.count >= attempts then
        RemainingSecondsNonNegative(w, now, timeWindow);
        (TooManyAttempts(CeilDiv(timeWindow - (now - w.firstAttempt), 1000)), requests)
      else (Admitted, requests[ip := Window(w.count + 1, w.firstAttempt)])
    else (Admitted, requests[ip := Window(1, now)])
  }

  /** Inside the window the seconds left, rounded up, are never negative, whatever the clock says. */
  lemma RemainingSecondsNonNegative(w: Window, now: int, timeWindow: int)
    requires !Elapsed(w, now, timeWindow)
    ensures CeilDiv(timeWindow - (now - w.firstAttempt), 1000) >= 0
  {
    CeilDivMonotone(0, timeWindow - (now - w.firstAttempt), 1000);
  }

  const RetryPrefix: string := "Too many attempts. Try again in "

  /** The message of the 429 response. */
  function TooManyAttemptsMessage(retryAfterSeconds: nat): string {
    RetryPrefix + IntToString(retryAfterSeconds) + "s"
  }

  /** Reads the number of seconds back out of a 429 message. */
  function ParseRetryAfter(message: string): Option<nat> {
    if |message| >= |RetryPrefix| && message[..|RetryPrefix|] == RetryPrefix then
      ParseSuffixed(message[|RetryPrefix|..], 's')
    else None
  }

  /** A non-negative retry-after survives the trip through the message text. */
  lemma RetryAfterReadsBack(retryAfterSeconds: nat)
    ensures ParseRetryAfter(TooManyAttemptsMessage(retryAfterSeconds)) == Some(retryAfterSeconds)
  {
    var count := NatToString(retryAfterSeconds) + ['s'];
    var m := TooManyAttemptsMessage(retryAfterSeconds);
    assert m == RetryPrefix + count;
    assert m[..|RetryPrefix|] == RetryPrefix;
    assert m[|RetryPrefix|..] == count;
    ParseSuffixedOf(retryAfterSeconds, 's');
  }

  /**
   * What the limiter does with the request: `next()` with the caller untouched
   * when admitted, otherwise the 429 response with its message.
   */
  function LimiterOutcome(d: Admission, user: Option<Claims>): (o: Outcome)
    ensures o.Next? <==> d.Admitted?
    ensures o.Next? ==> o.user == user
    ensures o.Halt? ==> o.status == 429 && ParseRetryAfter(o.message) == Some(d.retryAfterSeconds)
  {
    match d
    case Admitted => Next(user)
    case TooManyAttempts(n) =>
      RetryAfterReadsBack(n);
      Halt(429, TooManyAttemptsMessage(n))
  }

  /** Every stored count lies in [1, max(attempts, 1)]. */
  ghost predicate CountsBounded(requests: map<string, Window>, attempts: int) {
    forall ip :: ip in requests ==> 1 <= requests[ip].count <= Max(attempts, 1)
  }

  /** A step keeps every stored count within [1, max(attempts, 1)]. */
  lemma StepKeepsCountsBounded(requests: map<string, Window>, ip: string, now: int, attempts: int, timeWindow: int)
    requires CountsBounded(requests, attempts)
    ensures CountsBounded(Step(requests, ip, now, attempts, timeWindow).1, attempts)
  {
    var m := Step(requests, ip, now, attempts, timeWindow).1;
    forall other | other in m
      ensures 1 <= m[other].count <= Max(attempts, 1)
    {
      if other != ip {
        assert other in m - {ip};
        assert m[other] == (m - {ip})[other] == (requests - {ip})[other];
      }
    }
  }

  /**
   * The retry-after a rejection reports is at most ceil(timeWindow/1000) when the
   * clock has not gone back past the window's start (it is never negative in any case).
   */
  lemma RetryAfterBounded(requests: map<string, Window>, ip: string, now: int, attempts: int, timeWindow: int)
    requires ip in requests && now >= requests[ip].firstAttempt
    requires Step(requests, ip, now, attempts, timeWindow).0.TooManyAttempts?
    ensures 0 <= Step(requests, ip, now, attempts, timeWindow).0.retryAfterSeconds <= CeilDiv(timeWindow, 1000)
  {
    var elapsed := now - requests[ip].firstAttempt;
    CeilDivMonotone(0, timeWindow - elapsed, 1000);
    CeilDivMonotone(timeWindow - elapsed, timeWindow, 1000);
  }

  /** A run of requests from one address at the given times: the decisions, in order, and the final map. */
  function Run(requests: map<string, Window>, ip: string, times: seq<int>, attempts: int, timeWindow: int)
    : (r: (seq<Admission>, map<string, Window>))
    ensures |r.0| == |times|
    decreases |times|
  {
    if times == [] then ([], requests)
    else
      var (d, next) := Step(requests, ip, times[0], attempts, timeWindow);
      var (ds, last) := Run(next, ip, times[1..], attempts, timeWindow);
      ([d] + ds, last)
  }

  /**
   * Inside one window that has already counted `k` requests, the j-th further
   * request is admitted iff k + j < attempts.
   */
  lemma {:induction false} RunInsideWindow(
    requests: map<string, Window>, ip: string, times: seq<int>, attempts: int, timeWindow: int, k: int, first: int)
    requires ip in requests && requests[ip] == Window(k, first)
    requires forall j :: 0 <= j < |times| ==> times[j] - first <= timeWindow
    ensures forall j :: 0 <= j < |times| ==>
      (Run(requests, ip, times, attempts, timeWindow).0[j] == Admitted <==> k + j < attempts)
    decreases |times|
  {
    if times != [] {
      var (d, next) := Step(requests, ip, times[0], attempts, timeWindow);
      var k' := if k < attempts then k + 1 else k;
      assert next[ip] == Window(k', first);
      RunInsideWindow(next, ip, times[1..], attempts, timeWindow, k', first);
      var ds := Run(requests, ip, times, attempts, timeWindow).0;
      assert ds == [d] + Run(next, ip, times[1..], attempts, timeWindow).0;
      forall j | 0 <= j < |times|
        ensures ds[j] == Admitted <==> k + j < attempts
      {
        if j > 0 {
          assert times[1..][j - 1] == times[j];
        }
      }
    }
  }

  /**
   * With `attempts = n >= 1`, n + 1 requests from a fresh address (or one whose
   * window has elapsed) inside one window: the first n are admitted, the last is
   * rejected.
   */
  lemma NPlusOneRejected(requests: map<string, Window>, ip: string, times: seq<int>, n: int, timeWindow: int)
    requires n >= 1 && |times| == n + 1
    requires ip !in requests || Elapsed(requests[ip], times[0], timeWindow)
    requires forall j :: 0 <= j < |times| ==> times[j] - times[0] <= timeWindow
    ensures forall j :: 0 <= j < n ==> Run(requests, ip, times, n, timeWindow).0[j] == Admitted
    ensures Run(requests, ip, times, n, timeWindow).0[n].TooManyAttempts?
  {
    var (d, next) := Step(requests, ip, times[0], n, timeWindow);
    RunInsideWindow(next, ip, times[1..], n, timeWindow, 1, times[0]);
    var ds := Run(requests, ip, times, n, timeWindow).0;
    assert ds == [d] + Run(next, ip, times[1..], n, timeWindow).0;
    assert ds[n] == Run(next, ip, times[1..], n, timeWindow).0[n - 1];
    forall j | 1 <= j < n
      ensures ds[j] == Admitted
    {
      assert ds[j] == Run(next, ip, times[1..], n, timeWindow).0[j - 1];
    }
  }

  /**
   * The limiter returned by `rateLimiter(attempts, timeWindow)`: its closure's
   * `requests` map, read and overwritten once per request.
   */
  class RateLimiter {
    const attempts: int
    const timeWindow: int
    var requests: map<string, Window>

    ghost predicate Valid()
      reads this
    {
      CountsBounded(requests, attempts)
    }

    constructor (attempts: int, timeWindow: int)
      ensures Valid()
      ensures this.attempts == attempts && this.timeWindow == timeWindow && requests == map[]
    {
      this.attempts := attempts;
      this.timeWindow := timeWindow;
      requests := map[];
    }

    /** Handles one request from `ip` at `now`. */
    method Admit(ip: string, now: int) returns (d: Admission)
      requires Valid()
      modifies this
      ensures Valid()
      ensures (d, requests) == Step(old(requests), ip, now, attempts, timeWindow)
    {
      if ip in requests {
        var w := requests[ip];
        if now - w.firstAttempt > timeWindow {
          requests := requests[ip := Window(1, now)];
          d := Admitted;
          StepKeepsCountsBounded(old(requests), ip, now, attempts, timeWindow);
          return;
        }
        if w.count >= attempts {
          RemainingSecondsNonNegative(w, now, timeWindow);
          d := TooManyAttempts(CeilDiv(timeWindow - (now - w.firstAttempt), 1000));
          return;
        }
        requests := requests[ip := Window(w.count + 1, w.firstAttempt)];
      } else {
        requests := requests[ip := Window(1, now)];
      }
      d := Admitted;
      StepKeepsCountsBounded(old(requests), ip, now, attempts, timeWindow);
    }
  }
}
