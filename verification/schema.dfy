/**
 * The rows of the PostgreSQL tables the authentication core reads and writes,
 * with the constraints and column defaults the schema declares. Timestamps are
 * integer milliseconds; `CURRENT_TIMESTAMP`/`NOW()` is the `now` the caller passes.
 */
module Schema {
  import opened Wrappers

  /** A row of `users`. */
  datatype User = User(
    id: int,
    name: string,
    email: string,
    password: string,             // the bcrypt digest, never the plaintext
    createdAt: int,
    updatedAt: int,
    lastLogin: Option<int>,
    isActive: bool,
    role: string,
    failedLoginAttempts: int,
    lastFailedLogin: Option<int>)

  /** Column defaults of `users` (is_active true, role 'user', no failed attempts). */
  const DefaultRole: string := "user"

  /** `users` is keyed by its SERIAL id and `email` is UNIQUE across all rows, active or not. */
  ghost predicate UsersWellFormed(users: map<int, User>) {
    && (forall id :: id in users ==> users[id].id == id)
    && (forall a, b :: a in users && b in users && users[a].email == users[b].email ==> a == b)
  }

  /** A row of `refresh_tokens`, keyed by its UNIQUE token. */
  datatype RefreshToken = RefreshToken(id: int, userId: int, token: string, expiresAt: int, createdAt: int)

  /** The JSONB credential payload of a service, kept opaque: field name to value. */
  type Credentials = map<string, string>

  /** A row of `service_credentials`. */
  datatype ServiceCredential = ServiceCredential(
    id: int,
    userId: int,
    serviceType: string,
    credentials: Credentials,
    isActive: bool,
    createdAt: int,
    updatedAt: int,
    lastSync: Option<int>)

  /** The key of UNIQUE(user_id, service_type). */
  type CredentialKey = (int, string)

  /**
   * `service_credentials` is stored under its UNIQUE(user_id, service_type) key,
   * so the table cannot hold two rows for one key; each row sits under its own key.
   */
  ghost predicate CredentialsWellFormed(rows: map<CredentialKey, ServiceCredential>) {
    forall k :: k in rows ==> rows[k].userId == k.0 && rows[k].serviceType == k.1
  }
}
