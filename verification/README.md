# Infra-vantage DevOps dashboard: a Dafny model of its decision and formatting core

Infra-vantage is a DevOps dashboard. An Express backend authenticates users against
PostgreSQL and keeps per-user credentials for external services (Jenkins, Docker Hub,
GitHub, …). It relays Jenkins pipelines, Kubernetes objects, Docker containers and
host CPU figures to a React frontend.

This project models the parts of that system that decide or compute something.

The authentication middlewares are decisions over the request and a snapshot of the
table each one queries:
- bearer-token extraction;
- session and refresh token verification;
- the revoked-token check;
- the admin gate and the per-service gate.

The per-address rate limiter is a `RateLimiter` object whose `Admit` method is
proved against the one-step function `Step`.

The account controller has two validators, each proved equal to a character-level
reading of its regular expression. Its login, register, profile and logout flows run
over a `UserStore` holding the `users` table.

The credential vault has two writers of `service_credentials`:
- the model's upsert;
- the `/credentials` route's read-then-update-or-insert.

Both are methods of `Table`, proved against pure table functions. Lemmas about those
functions cover uniqueness per (user, service), repeated saves and the one way the
two writers differ.

The formatters are:
- the Jenkins colour and duration formatting;
- the Kubernetes age, port, replica and external-IP strings;
- the Docker container rows.

Each round trip is proved: the rendered text reads back as the number it was made
from.

The CPU history is a `CpuHistory` object; a lemma shows that it always holds the
latest 24 samples.

On the frontend the project models:
- the elapsed-time text, status tallies and loading state of the Pipelines page;
- the case-insensitive status badge;
- the sidebar's active-link rule.

Modules, one per file:
- **Shared helpers**:
  - `Wrappers` holds `Option`.
  - `JsMath` models `Math.floor`, `Math.ceil` and JavaScript's truncating `%`.
  - `JsText` models `String(n)`, `split`/`join`, `startsWith` and `replace`.
  - `JsArray` models `map`.
- **Tables and authentication**:
  - `Schema` holds the table rows and constraints.
  - `AuthMiddleware` and `AuthController` cover the authentication code.
  - `ServiceCredentials` covers the credential vault.
- **Backend routes and services**: `Pipelines`, `KubernetesService`, `Monitoring` and `Containers`.
- **Frontend**: `PipelinesPage`, `StatusBadge` and `Sidebar`.

Time is an integer number of milliseconds. `now` is always a parameter.

Calls the model cannot see are oracles:
- `jwt.verify` is a function from a secret and a token to optional claims.
- `bcrypt.compare` is a predicate on the password and the digest.
- `bcrypt.hash` is the digest the caller passes in.
- `jwt.sign` is represented by the claims and the lifetime it signs.

## Model

| member | source | states |
|---|---|---|
| AuthMiddleware.BearerToken | backend/src/middleware/auth.middleware.js:8-10 | The token is never empty and never contains a space. A missing header, or one without a space, yields no token (with `EmptyTokenRejected`, also one whose second field is empty). |
| AuthMiddleware.BearerTokenOfHeader | backend/src/middleware/auth.middleware.js:8 | "scheme token[ more]" yields exactly `token`: the second space-separated field. |
| AuthMiddleware.EmptyTokenRejected | backend/src/middleware/auth.middleware.js:8-10 | "scheme " followed by nothing or by another space yields no token, so the request is refused with 401. With `BearerTokenOfHeader`, this covers every header that contains a space. |
| AuthMiddleware.VerifyToken | backend/src/middleware/auth.middleware.js:7-19 | No token is 401 'No token provided'. The request is admitted iff a token is present and verifies with the session secret; `req.user` is then the decoded claims. Every rejection is 401. |
| AuthMiddleware.AuthenticateToken | backend/src/middleware/auth.middleware.js:118-142 | No token is 401. A failed verification is 403 'Invalid token'. When admitted, `req.user` is the decoded claims. |
| AuthMiddleware.VerifyAndAuthenticateAgree | backend/src/middleware/auth.middleware.js:12-18 | Both middlewares admit the same requests with the same user. A failed verification is 401 in one exactly when it is 403 in the other. |
| AuthMiddleware.CheckTokenBlacklist | backend/src/middleware/auth.middleware.js:66-78 | No token is 401. The request is admitted iff the token is not in `blacklisted_tokens`; a listed token is 401 'Token has been revoked'. A store error is 500 and never admits. |
| AuthMiddleware.VerifyRefreshToken | backend/src/middleware/auth.middleware.js:81-99 | Admitted iff the token is present, verifies with the refresh secret and has a `refresh_tokens` row with `expires_at > now`. Every failure, a store error included, is 401. |
| AuthMiddleware.IsAdmin | backend/src/middleware/auth.middleware.js:22-32 | Admitted iff the caller's row has role exactly 'admin'. A missing row or any other role is 403. A missing `req.user` or a store error is 500. |
| AuthMiddleware.ValidateServiceAccess | backend/src/middleware/auth.middleware.js:102-116 | Admitted iff the (caller, serviceType) credential row exists and is active; otherwise 403. A missing user or a store error is 500. |
| AuthMiddleware.Step | backend/src/middleware/auth.middleware.js:38-62 | A new address, or one whose window has strictly elapsed, is admitted with {1, now}. Inside the window a request is admitted iff count < attempts; admission adds exactly 1 and keeps `firstAttempt`. A rejection leaves the map unchanged and reports ceil((timeWindow − elapsed)/1000). Other addresses never change. |
| AuthMiddleware.StepKeepsCountsBounded | backend/src/middleware/auth.middleware.js:42-59 | Every stored count stays within [1, max(attempts, 1)]. |
| AuthMiddleware.RetryAfterBounded | backend/src/middleware/auth.middleware.js:50-54 | When now ≥ firstAttempt, a rejection reports between 0 and ceil(timeWindow/1000) seconds. |
| AuthMiddleware.RemainingSecondsNonNegative | backend/src/middleware/auth.middleware.js:45-53 | Inside the window, ceil((timeWindow − elapsed)/1000) is never negative, even when the clock is behind `firstAttempt`; so a rejection's retry-after is a natural number. |
| AuthMiddleware.RunInsideWindow | backend/src/middleware/auth.middleware.js:50-56 | Inside one window that has already counted k requests, the j-th further request is admitted iff k + j < attempts. |
| AuthMiddleware.NPlusOneRejected | backend/src/middleware/auth.middleware.js:42-58 | With attempts = n ≥ 1, the first n requests of a fresh window are admitted and the (n+1)-th is rejected. |
| AuthMiddleware.RetryAfterReadsBack | backend/src/middleware/auth.middleware.js:52 | The 429 message "Too many attempts. Try again in <n>s" reads back as n for any n ≥ 0. |
| AuthMiddleware.LimiterOutcome | backend/src/middleware/auth.middleware.js:46-61 | `next()` with the caller untouched iff admitted. Otherwise 429, with a message whose seconds read back exactly as the decision's retry-after. |
| AuthMiddleware.RateLimiter.Admit | backend/src/middleware/auth.middleware.js:38-62 | One request updates the limiter's map exactly as `Step` does and returns its decision. The counts stay bounded. |
| AuthMiddleware.RateLimiter.constructor | backend/src/middleware/auth.middleware.js:35-36 | `rateLimiter(attempts, timeWindow)` starts with an empty map. |
| AuthController.IsValidEmailMatchesRegex | backend/src/controllers/auth.controller.js:6-9 | The email check holds iff all of these hold: no whitespace; exactly one '@'; a non-empty local part; a domain with a '.' that has a character on each side. This is exactly what `/^[^\s@]+@[^\s@]+\.[^\s@]+$/` matches. |
| AuthController.ValidEmailMatchesRegex | backend/src/controllers/auth.controller.js:7 | Every email the character-level check accepts is matched by the regex. |
| AuthController.RegexPartsValid | backend/src/controllers/auth.controller.js:7 | An '@' and a later '.' splitting the text into three runs of `[^\s@]` make the validator accept it. |
| AuthController.RegexMatchIsValidEmail | backend/src/controllers/auth.controller.js:7 | Every string the regex matches is accepted by the character-level check. |
| AuthController.IsStrongPasswordMatchesRegex | backend/src/controllers/auth.controller.js:12-15 | The password check holds iff all of these hold: length ≥ 8; only [A-Za-z0-9@$!%*?&], so '#' fails; at least one lowercase letter, uppercase letter, digit and special character. This is exactly what the lookahead regex matches. |
| AuthController.ActiveUserWithEmail | backend/src/controllers/auth.controller.js:32-35 | Some row is returned iff an active row has that email. The row returned is that row of the table. |
| AuthController.PublicView | backend/src/controllers/auth.controller.js:69-75 | The response user has id, email, name, created_at and last_login from the row, and no password. |
| AuthController.NewUser | backend/src/controllers/auth.controller.js:120-123 | The inserted row takes its password column from the `digest` argument and never from the `password` argument. The digest is the hashing oracle's output, which the model does not relate to the password. It has last_login now and the column defaults: active, role 'user', no failed attempts. |
| AuthController.RegisterRejection | backend/src/controllers/auth.controller.js:89-113 | Each rejection is 400. The checks run in order, each with its own message: a missing field gives 'Name, email, and password are required', then a malformed email 'Invalid email format', then a weak password the password message, then an existing email, active or not, 'Email already registered'. Registration passes iff the fields are present, the email is well-formed, the password is strong and no row has the email. |
| AuthController.UserStore.Login | backend/src/controllers/auth.controller.js:18-81 | Checks in order: missing field 400, malformed email 400, then credentials. An unknown email, an inactive account and a wrong password give the same 401 'Invalid credentials'. On failure the table is untouched. On success only that user's last_login changes; the response has claims {id, email, name} for 1h and the last_login read before the update. |
| AuthController.UserStore.InsertUser | backend/src/controllers/auth.controller.js:120-123 | Adds exactly one row under the next id, or fails with the unique violation when the email exists. The SERIAL value is spent either way. |
| AuthController.UserStore.CompleteRegistration | backend/src/controllers/auth.controller.js:116-147 | After the checks, a concurrent duplicate (23505) is 400 'Email already registered' with no row added. Otherwise the answer is 201 with 'Registration successful', a 1h token for the new id and the new user's public view. |
| AuthController.UserStore.Register | backend/src/controllers/auth.controller.js:84-148 | A rejection happens before any insert and changes nothing. Otherwise exactly one row holding the digest is inserted, with 201 and a token for the new id. |
| AuthController.UserStore.GetProfile | backend/src/controllers/auth.controller.js:151-167 | Returns 200 with the public view iff the caller's row exists and is active; otherwise 404 'User not found'. No `req.user` is 500. |
| AuthController.UserStore.Logout | backend/src/controllers/auth.controller.js:170-181 | Only the caller's last_login changes. No token is revoked or blacklisted. A missing `req.user` is 500. |
| ServiceCredentials.AtMostOneRowPerPair | backend/src/config/db.config.js:65 | Under UNIQUE(user_id, service_type), the rows for a pair are exactly the row under its key, so there is at most one. |
| ServiceCredentials.InsertedRow | backend/src/config/db.config.js:56-64 | An inserted row is active, has no last_sync, and has created_at = updated_at = now. |
| ServiceCredentials.PutKeepsWellFormed | backend/src/config/db.config.js:56-65 | Writing a row under its (user, service type) key keeps one row per pair and distinct ids below the sequence. This holds when the row keeps the replaced row's id or takes the next SERIAL value. |
| ServiceCredentials.Get | backend/src/models/serviceCredentials.js:18-26 | Returns a row iff one exists for (user, service type), and the row returned is one of them. |
| ServiceCredentials.Upsert | backend/src/models/serviceCredentials.js:3-16 | A new key inserts exactly the fresh row: the next id, the key, the credentials, active, created_at = updated_at = now, no last_sync. An existing key gets the new credentials and updated_at, keeps id, is_active, created_at and last_sync, and so is not reactivated. Other keys are untouched. A following get returns the saved row. |
| ServiceCredentials.SaveTwiceKeepsOneRow | backend/src/models/serviceCredentials.js:7-11 | save(u,s,A) then save(u,s,B) leaves exactly one row for (u,s), holding B. |
| ServiceCredentials.UpdateOrInsert | backend/src/routes/Credentials.js:33-55 | User 1's row gets the credentials, is_active = true and updated_at; if there was no row, exactly one is inserted: the fresh row with the next id. Other rows are untouched. |
| ServiceCredentials.PostTwiceKeepsOneActiveRow | backend/src/routes/Credentials.js:34-55 | Two POSTs for one service type leave exactly one row, active and holding the later payload. |
| ServiceCredentials.OnlyTheRouteReactivates | backend/src/routes/Credentials.js:41-46 | On an inactive row, the route reactivates it and the model's upsert does not. The two results differ only in is_active. |
| ServiceCredentials.Table.Save | backend/src/models/serviceCredentials.js:3-16 | The table and the returned row are exactly those of `Upsert`, and the table invariant holds. |
| ServiceCredentials.Table.Post | backend/src/routes/Credentials.js:24-62 | A missing serviceType or credentials is 400 and leaves the table unchanged. Otherwise the table becomes `UpdateOrInsert` for user 1. |
| ServiceCredentials.Table.List | backend/src/routes/Credentials.js:8-21 | Returns every row of user 1 and nothing else, projected without id and user_id. |
| Pipelines.MapColorToStatus | backend/src/routes/pipelines.js:8-15 | blue → Success, red → Failed, yellow → Warning, and every other or missing colour → Running. The result is always one of the four. |
| Pipelines.DurationPartsSplitSeconds | backend/src/routes/pipelines.js:19-22 | For ms ≥ 0: m < 60, s < 60 and h·3600 + m·60 + s = floor(ms/1000). |
| Pipelines.FormatDuration | backend/src/routes/pipelines.js:17-24 | "N/A" exactly when the duration is absent or 0. |
| Pipelines.FormatDurationReadsBack | backend/src/routes/pipelines.js:23 | For ms > 0 the text "<h>h <m>m <s>s" reads back as floor(ms/1000) seconds. |
| Pipelines.SplitRenderedClock | backend/src/routes/pipelines.js:23 | A clock of non-negative parts splits at its spaces into exactly "<h>h", "<m>m" and "<s>s". |
| Pipelines.ParseRenderedClock | backend/src/routes/pipelines.js:23 | Any non-negative clock rendered as "<h>h <m>m <s>s" reads back as its number of seconds. |
| Pipelines.SubSecondDuration | backend/src/routes/pipelines.js:18-23 | 0 < ms < 1000 gives "0h 0m 0s". |
| Pipelines.ToPipeline | backend/src/routes/pipelines.js:36-44 | id = name = the job name. With no lastBuild, lastRun is null and duration is "N/A". branch is always "main" and author always "Jenkins". |
| Pipelines.GetPipelines | backend/src/routes/pipelines.js:26-51 | A non-ok Jenkins reply passes its status on. A failed call or a body without jobs is 500. Otherwise there is one row per job in job order, each row is exactly `ToPipeline` of its job, and every status is a known one. |
| KubernetesService.CalculateAge | backend/src/services/kubernetes.service.js:82-87 | "<1d" exactly when floor(diff/86400000) is 0; otherwise "<days>d". |
| KubernetesService.AgeUnderOneDay | backend/src/services/kubernetes.service.js:85-86 | Any diff in [0, 86400000) gives "<1d". |
| KubernetesService.AgeInDaysMonotone | backend/src/services/kubernetes.service.js:85 | A later time never gives fewer days. |
| KubernetesService.CalculateAgeReadsBack | backend/src/services/kubernetes.service.js:82-87 | For a past creation time the age text reads back as floor(diff/86400000). |
| KubernetesService.EffectiveNodePort | backend/src/services/kubernetes.service.js:91 | An absent or zero nodePort falls back to the port. |
| KubernetesService.FormatPorts | backend/src/services/kubernetes.service.js:89-93 | An empty list is ""; one port is its single entry. |
| KubernetesService.FormatPortsAppend | backend/src/services/kubernetes.service.js:90-92 | One more port appends ", " and its entry: one entry per port, in input order. |
| KubernetesService.SplitPortEntryAtColon | backend/src/services/kubernetes.service.js:91 | An entry splits at ':' into exactly the port and the "nodePort/protocol" tail. |
| KubernetesService.PortEntryReadsBack | backend/src/services/kubernetes.service.js:91 | "port:nodePort/protocol" reads back as the port, the effective node port and the protocol. |
| KubernetesService.ReplicasText | backend/src/services/kubernetes.service.js:56 | Split at '/', the text is the ready count (0 when absent) and the desired count ("undefined" when absent). |
| KubernetesService.ExternalIP | backend/src/services/kubernetes.service.js:73 | The first ingress IP when one is present and non-empty, '-' otherwise. |
| KubernetesService.GetPods | backend/src/services/kubernetes.service.js:34-48 | One row per pod, in order, with name, namespace, phase, node and age. |
| KubernetesService.GetDeployments | backend/src/services/kubernetes.service.js:50-63 | One row per deployment, in order, with the replicas text and age. |
| KubernetesService.GetServices | backend/src/services/kubernetes.service.js:65-80 | One row per service, in order. The call fails iff some service has no ports. |
| Monitoring.Slide | backend/src/routes/monitoring.js:31-32 | The newest sample is last and the length stays ≤ 24. Below 24 the sample is appended; at 24 the oldest is dropped. |
| Monitoring.SlideKeepsLatest | backend/src/routes/monitoring.js:31-32 | One request leaves the latest 24 of the old history plus the sample. |
| Monitoring.SlideAllKeepsLatest | backend/src/routes/monitoring.js:7-32 | After any run of requests the history is exactly the latest 24 samples, oldest first. |
| Monitoring.CpuHistory.Record | backend/src/routes/monitoring.js:31-32 | push-then-shift changes the history exactly as `Slide` does and keeps it ≤ 24. |
| Monitoring.CpuHistory.Handle | backend/src/routes/monitoring.js:9-47 | A failed sampling call is 500 and leaves the history unchanged. Otherwise the sample is recorded and the response's cpu field is the whole new history. |
| Monitoring.CpuHistory.constructor | backend/src/routes/monitoring.js:7 | The history starts empty. |
| Containers.PortText | backend/src/routes/containers.js:18 | Split at ':', the text is the private port and the public port (the private port when absent or 0). |
| Containers.PortTexts | backend/src/routes/containers.js:18 | One text per binding in order, and [] when Ports is absent. |
| Containers.LeadingSlashStripped | backend/src/routes/containers.js:12 | "/name" becomes "name". |
| JsText.RemoveFirstOccurrence | backend/src/routes/containers.js:12 | Only the first '/' is removed; later ones stay. |
| Containers.ToRow | backend/src/routes/containers.js:10-19 | cpu and memory are "0%". id, state and image pass through; uptime is Status. |
| Containers.ToRows | backend/src/routes/containers.js:9-19 | One row per container in order. The mapping fails iff some container has no names. |
| Containers.ListContainers | backend/src/routes/containers.js:7-25 | A failed Docker call or a nameless container is 500. Otherwise there is one row per container, in listing order, each row being `ToRow` of its container. |
| PipelinesPage.ElapsedPartsSplitMinutes | src/pages/Pipelines.jsx:30-32 | For diff ≥ 0: mins < 60 and hours·60 + mins = floor(diff/60000). |
| PipelinesPage.RenderElapsed | src/pages/Pipelines.jsx:34-37 | Both forms end in "m ago". |
| PipelinesPage.FormatElapsed | src/pages/Pipelines.jsx:27-38 | The text always ends in "m ago". |
| PipelinesPage.FormatElapsedReadsBack | src/pages/Pipelines.jsx:27-38 | For a past run, "<h>h <m>m ago" (hours > 0) or "<m>m ago" reads back as floor(diff/60000) minutes. |
| PipelinesPage.ParseRenderedMinutes | src/pages/Pipelines.jsx:37 | With hours ≤ 0 the text "<m>m ago" reads back as m. |
| PipelinesPage.SplitRenderedHours | src/pages/Pipelines.jsx:35 | With hours > 0, the text splits into the hour field, the minute field and "ago". |
| PipelinesPage.SplitRenderedMinutes | src/pages/Pipelines.jsx:37 | With hours ≤ 0, the text splits into exactly the minute field and "ago": no hour field is printed. |
| PipelinesPage.ParseRenderedElapsed | src/pages/Pipelines.jsx:34-37 | For non-negative hours and minutes, whichever form is printed reads back as hours·60 + minutes. |
| PipelinesPage.ParseRenderedHours | src/pages/Pipelines.jsx:35 | "<h>h <m>m ago" reads back as h·60 + m. |
| PipelinesPage.CountStatus | src/pages/Pipelines.jsx:66 | The tally is the number of times the status occurs among the pipelines' statuses (its multiplicity), so it never exceeds the list. |
| PipelinesPage.StatusCountsSum | src/pages/Pipelines.jsx:66-108 | The four tallies sum to at most the list length. They sum to exactly the length when every status is one of the four. |
| PipelinesPage.ListedCountsCoverJobs | src/pages/Pipelines.jsx:66-108 | For a list the backend produced, the four tallies sum to the number of jobs. |
| PipelinesPage.Render | src/pages/Pipelines.jsx:40-171 | An empty list renders only the loading message. Otherwise each of the four cards shows the tally of its own status, and the tallies together stay within the list. There is one line per pipeline in order: the line shows the pipeline's name, branch, author and duration, a badge built from its status (showing that status), and its elapsed time. |
| StatusBadge.ToLower | src/components/StatusBadge.jsx:7 | Lower-cases each character in place; the length is kept. |
| StatusBadge.GetStatusConfig | src/components/StatusBadge.jsx:6-46 | There is an icon exactly for success, failed, error, running, warning and stopped. The destructive variant is used exactly for failed and error. Anything else gets secondary, no icon and no class. |
| StatusBadge.LowerOfUpper | src/components/StatusBadge.jsx:7 | Lower-casing an upper-cased status gives the lower-cased status. |
| StatusBadge.ConfigIgnoresCase | src/components/StatusBadge.jsx:7 | "RUNNING" and "running" get the same configuration. |
| StatusBadge.FailedAndErrorAgree | src/components/StatusBadge.jsx:14-20 | 'failed' and 'error', in any case, share the destructive XCircle configuration. |
| StatusBadge.Render | src/components/StatusBadge.jsx:48-62 | The badge text is the original, un-lowercased status. The variant and icon come from its configuration. |
| Sidebar.IsActive | src/layout/Sidebar.jsx:49-54 | '/' is active iff the pathname is exactly '/'. Any other link is active iff the pathname starts with it. |
| Sidebar.OwnLinkActive | src/layout/Sidebar.jsx:49-54 | The entry whose href equals the pathname is active. |
| Sidebar.ExtensionActive | src/layout/Sidebar.jsx:53 | There is no segment boundary: "/pipelinesX" activates Pipelines. |
| Sidebar.AtMostOneActive | src/layout/Sidebar.jsx:20-54 | No pathname activates two of the five entries. |
| Sidebar.ActiveItems | src/layout/Sidebar.jsx:84-104 | The active entries are exactly the listed entries that `isActive` holds for. |
| Sidebar.NavigationHighlightsAtMostOne | src/layout/Sidebar.jsx:20-54 | The rendered sidebar highlights at most one entry. |

## Left out

- Cryptography is not modelled. `jwt.sign`, `jwt.verify`, `bcrypt.genSalt`, `bcrypt.hash` and `bcrypt.compare` are foreign library calls. They appear as oracles or given values, so nothing is proved about signatures, expiry or salting.
- PostgreSQL I/O is not modelled: the pool, SQL text, `initializeDatabase` and the health check. Tables are maps and queries are reads and updates of them. Only the declared constraints and defaults of `backend/src/config/db.config.js` are used.
- The account controller does not model store errors, which would give its 500 'Server error' answers. Only the middlewares carry a store-error result.
- The foreign key `service_credentials.user_id REFERENCES users(id)` (`backend/src/config/db.config.js:58`) and its `ON DELETE CASCADE` are not modelled. `ServiceCredentials.Table.Save` accepts any user id, and `Table.Post` writes user 1's row even when no `users` row 1 exists; PostgreSQL would reject both.
- `blacklisted_tokens` is treated as a given table. It is not created by `backend/src/config/db.config.js`, and no modelled code writes it or `refresh_tokens`. Refresh tokens are never rotated, and `failed_login_attempts`/`last_failed_login` are never updated.
- Concurrency is not modelled: simultaneous requests to the rate limiter, or the read-then-write race of POST `/credentials`. Everything is sequential. The register race (23505) is covered by allowing `CompleteRegistration` to run on a table that changed after the checks.
- Non-string request fields (a number or an object for an email or password) are not modelled. Body fields are optional strings; a falsy value is an absent or empty one.
- JavaScript number formatting is not modelled: NaN, Infinity, floating-point results and exponent notation from 1e21 up. `String(n)` is modelled for integers.
- `AuthMiddleware.RateLimiter.Admit`: the address and the clock are parameters (`req.ip`, `Date.now()`).
- `Pipelines.ToPipeline`: `lastRun` is the build timestamp in milliseconds, not its `toISOString()` text. An invalid timestamp, which would make `toISOString` throw, is not modelled.
- `Pipelines.GetPipelines`: the Jenkins URL, the basic-auth header and the fetch itself are not modelled; the reply is a parameter.
- `KubernetesService.CalculateAge`: creation timestamps are integers, so the "NaNd" of an unset timestamp is not modelled.
- `KubernetesService.GetPods`, `GetDeployments` and `GetServices` take the item lists as parameters. Not modelled: the client constructor, `getClusterInfo`, and a failing API call, which the service logs and rethrows.
- `Monitoring.CpuHistory.Handle`: the CPU, memory and disk figures arrive as integer percentages and the time label as text. Not modelled:
  - the rounding of `systeminformation`'s floats;
  - `toFixed` for network speed;
  - `toLocaleTimeString`;
  - an empty disk or network list; like any failed sampling call, it counts as a failure.
- `Containers.ListContainers`: the Docker socket is not modelled; the listing is a parameter.
- `StatusBadge.ToLower` lower-cases ASCII letters only. This is exact for the six keywords: no other character lower-cases to a single character of 'success', 'failed', 'error', 'running', 'warning' or 'stopped'.
- `StatusBadge.Render`: class names are the list passed to `cn`; the merging of Tailwind classes is not modelled.
- `PipelinesPage.Render`: the polling `fetch` every 10 s, React state and markup are not modelled; the view is a value.
- Sidebar collapse state and icons are not modelled beyond the fixed navigation list.
- `ServiceCredentials.Table.Post` and `Table.List`: a store error (500 'Failed to save/fetch service credentials') is not modelled, and `uuidv4()` is unused by the route.
- Design versus code: the route's update and the model's upsert are both modelled as written, so only the route reactivates a row. Logout does not revoke tokens, and nothing rotates refresh tokens.
- The third-party fetch controllers, route wiring, server bootstrap, the other React pages and components, and the static monitoring data are not part of this model.
