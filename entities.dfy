/**
 * The records of the backend: the database rows the repositories store and the
 * entities their `mapToEntity` projections return. Times are milliseconds since
 * the epoch; identifiers are the database's generated strings.
 */
module Entities {
  import opened Wrappers

  type Id = string
  type Timestamp = int

  /** A role as the role select pattern reads it: id, name, description. */
  datatype Role = Role(id: Id, name: string, description: Option<string>)

  /** A row of the user-role join table. */
  datatype UserRole = UserRole(userId: Id, roleId: Id)

  /** JSON as stored in the `metadata` column (`null` is a database or JSON null). */
  datatype Json =
    | JNull
    | JBool(b: bool)
    | JNumber(n: int)
    | JString(s: string)
    | JArray(items: seq<Json>)
    | JObject(fields: map<string, Json>)
  {
    /** `typeof v === 'object' && v !== null`: objects and arrays. */
    predicate IsObjectLike() { JArray? || JObject? }
  }

  datatype AuthProvider = Credentials | External(name: string)

  /** A row of the user table. */
  datatype UserRow = UserRow(
    id: Id,
    email: Option<string>,
    username: Option<string>,
    password: Option<string>,
    firstName: Option<string>,
    lastName: Option<string>,
    displayName: Option<string>,
    phoneNumber: Option<string>,
    profileImageUrl: Option<string>,
    gender: Option<string>,
    provider: AuthProvider,
    isEmailVerified: bool,
    isPhoneVerified: bool,
    isActive: bool,
    metadata: Json,
    createdAt: Timestamp)

  /** `UserEntity`: the user with its roles flattened and the password possibly withheld. */
  datatype UserEntity = UserEntity(
    id: Id,
    email: Option<string>,
    username: Option<string>,
    password: Option<string>,
    firstName: Option<string>,
    lastName: Option<string>,
    displayName: Option<string>,
    phoneNumber: Option<string>,
    profileImageUrl: Option<string>,
    gender: Option<string>,
    provider: AuthProvider,
    isEmailVerified: bool,
    isPhoneVerified: bool,
    isActive: bool,
    metadata: Json,
    roles: seq<Role>,
    createdAt: Timestamp)

  /** A row of the session table. */
  datatype SessionRow = SessionRow(
    id: Id,
    userId: Id,
    token: string,
    ipAddress: Option<string>,
    userAgent: Option<string>,
    expiresAt: Timestamp,
    isActive: bool,
    createdAt: Timestamp,
    lastUsedAt: Option<Timestamp>)

  /** `UserSessionEntity` has the same fields as the row. */
  type SessionEntity = SessionRow

  /** A row of the one-time user token table (password reset, email verification, ...). */
  datatype TokenRow = TokenRow(
    id: Id,
    userId: Id,
    token: string,
    tokenType: string,
    isUsed: bool,
    usedAt: Option<Timestamp>,
    ipAddress: Option<string>,
    userAgent: Option<string>,
    expiresAt: Timestamp,
    createdAt: Timestamp)

  type TokenEntity = TokenRow

  /** A row of the password history table. */
  datatype HistoryRow = HistoryRow(id: Id, userId: Id, passwordHash: string, createdAt: Timestamp)

  type HistoryEntity = HistoryRow

  /** The claims signed into an access token. */
  datatype Payload = Payload(
    id: Id,
    sub: Id,
    email: Option<string>,
    username: Option<string>,
    firstName: Option<string>,
    lastName: Option<string>,
    displayName: Option<string>,
    profileImageUrl: Option<string>,
    phoneNumber: Option<string>,
    roles: seq<Role>)

  /** JavaScript truthiness of an optional string: present and non-empty. */
  predicate Truthy(s: Option<string>) {
    s.Some? && s.value != ""
  }

  /** `s || null` */
  function OrNull(s: Option<string>): (r: Option<string>)
    ensures r.Some? <==> Truthy(s)
    ensures r.Some? ==> r == s
  {
    if Truthy(s) then s else None
  }
}
