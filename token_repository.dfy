/**
 * `UserTokenRepository`: one-time tokens (password reset, verification) that
 * belong to a user, can be used once and expire.
 */
module TokenStore {
  import opened Wrappers
  import opened Entities
  import opened Exceptions

  /** `DEFAULT_TOKEN_EXPIRY_HOURS` */
  const DefaultTokenExpiryHours: int := 24
  /** The default lifetime in milliseconds: 24 hours. */
  const DefaultTokenExpiry: int := DefaultTokenExpiryHours * 60 * 60 * 1000

  /** `UserTokenType.PASSWORD_RESET`, the type an update falls back to. */
  const PasswordReset: string := "PASSWORD_RESET"

  /** `CreateUserTokenDto` */
  datatype CreateTokenData = CreateTokenData(
    token: string,
    tokenType: string,
    expiresAt: Option<Timestamp>,
    isUsed: Option<bool>,
    ipAddress: Option<string>,
    userAgent: Option<string>)

  /** `Partial<UpdateUserTokenDto>` as `update` reads it (`None` is undefined or null). */
  datatype UpdateTokenData = UpdateTokenData(
    token: Option<string>,
    tokenType: Option<string>,
    expiresAt: Option<Timestamp>,
    isUsed: Option<bool>,
    ipAddress: Option<string>,
    userAgent: Option<string>)

  /** A `findFirst` filter; an undefined member of a Prisma filter is ignored. */
  datatype TokenWhere = TokenWhere(userId: Id, token: Option<string>, isUsed: Option<bool>)

  predicate Matches(t: TokenRow, w: TokenWhere) {
    && t.userId == w.userId
    && (w.token.Some? ==> t.token == w.token.value)
    && (w.isUsed.Some? ==> t.isUsed == w.isUsed.value)
  }

  /** The `validateUserToken` filter: that user's token, of that type, unused and unexpired. */
  predicate IsValidFor(t: TokenRow, userId: Id, token: string, tokenType: string, now: Timestamp) {
    t.userId == userId && t.token == token && !t.isUsed && t.tokenType == tokenType && t.expiresAt >= now
  }

  /** `mapToEntity(userToken)`: an empty address or agent reads back as null. */
  function MapToEntity(t: TokenRow): (e: TokenEntity)
    ensures e.ipAddress == OrNull(t.ipAddress) && e.userAgent == OrNull(t.userAgent)
    ensures e.(ipAddress := t.ipAddress, userAgent := t.userAgent) == t
  {
    t.(ipAddress := OrNull(t.ipAddress), userAgent := OrNull(t.userAgent))
  }

  /** The row `create` inserts: unused unless said otherwise, expiring after 24 hours by default. */
  function NewTokenRow(id: Id, userId: Id, data: CreateTokenData, now: Timestamp): (t: TokenRow)
    ensures t.id == id && t.userId == userId && t.token == data.token && t.tokenType == data.tokenType
    ensures t.isUsed <==> data.isUsed == Some(true)
    ensures t.usedAt.None? && t.createdAt == now
    ensures data.expiresAt.None? ==> t.expiresAt == now + 86_400_000
    ensures data.expiresAt.Some? ==> t.expiresAt == data.expiresAt.value
  {
    TokenRow(id, userId, data.token, data.tokenType, data.isUsed.GetOr(false), None,
             data.ipAddress, data.userAgent, data.expiresAt.GetOr(now + DefaultTokenExpiry), now)
  }

  /**
   * The data `update` writes over a row: everything that is missing falls back to a
   * default (type `PASSWORD_RESET`, a fresh 24-hour expiry, unused, no address or
   * agent), and the use time is stamped exactly when the token is marked used.
   */
  function UpdatedRow(t: TokenRow, data: UpdateTokenData, now: Timestamp): (u: TokenRow)
    ensures u.id == t.id && u.userId == t.userId && u.token == t.token && u.createdAt == t.createdAt
    ensures u.isUsed <==> data.isUsed == Some(true)
    ensures u.usedAt == (if u.isUsed then Some(now) else None)
    ensures data.tokenType.None? ==> u.tokenType == PasswordReset
    ensures data.tokenType.Some? ==> u.tokenType == data.tokenType.value
    ensures data.expiresAt.None? ==> u.expiresAt == now + 86_400_000
    ensures data.expiresAt.Some? ==> u.expiresAt == data.expiresAt.value
    ensures u.ipAddress == data.ipAddress && u.userAgent == data.userAgent
  {
    var used := data.isUsed.GetOr(false);
    t.(tokenType := data.tokenType.GetOr(PasswordReset),
       expiresAt := data.expiresAt.GetOr(now + DefaultTokenExpiry),
       isUsed := used,
       usedAt := if used then Some(now) else None,
       ipAddress := data.ipAddress,
       userAgent := data.userAgent)
  }

  /** A user holds a given token string at most once. */
  ghost predicate UniqueTokens(rows: seq<TokenRow>) {
    forall i, j :: 0 <= i < j < |rows| ==> !(rows[i].userId == rows[j].userId && rows[i].token == rows[j].token)
  }

  /** Two rows of the same user with the same token string are the same row. */
  lemma SameTokenSameRow(rows: seq<TokenRow>, i: nat, j: nat)
    requires UniqueTokens(rows) && i < |rows| && j < |rows|
    requires rows[i].userId == rows[j].userId && rows[i].token == rows[j].token
    ensures i == j
  {
  }

  class UserTokenRepository {
    var tokens: seq<TokenRow>

    ghost predicate Valid()
      reads this
    {
      UniqueTokens(tokens)
    }

    constructor ()
      ensures Valid() && tokens == []
    {
      tokens := [];
    }

    /** `findFirst(where)` */
    function FindFirst(w: TokenWhere): (r: Option<TokenEntity>)
      reads this
      ensures r.None? <==> forall i :: 0 <= i < |tokens| ==> !Matches(tokens[i], w)
      ensures r.Some? ==> exists i :: 0 <= i < |tokens| && Matches(tokens[i], w) && r.value == MapToEntity(tokens[i])
    {
      match FirstIndex(tokens, (t: TokenRow) => Matches(t, w))
      case None => None
      case Some(i) => Some(MapToEntity(tokens[i]))
    }

    /** `validateUserToken(userId, token, type)` at time `now`. */
    function ValidateUserToken(userId: Id, token: string, tokenType: string, now: Timestamp): (r: Option<TokenEntity>)
      reads this
      ensures r.None? <==> forall i :: 0 <= i < |tokens| ==> !IsValidFor(tokens[i], userId, token, tokenType, now)
      ensures r.Some? ==> exists i :: 0 <= i < |tokens| && IsValidFor(tokens[i], userId, token, tokenType, now)
                                      && r.value == MapToEntity(tokens[i])
    {
      match FirstIndex(tokens, (t: TokenRow) => IsValidFor(t, userId, token, tokenType, now))
      case None => None
      case Some(i) => Some(MapToEntity(tokens[i]))
    }

    ghost predicate Holds(userId: Id, token: string)
      reads this
    {
      exists i :: 0 <= i < |tokens| && tokens[i].userId == userId && tokens[i].token == token
    }

    /** `create(userId, model)`: a token the user already holds violates the unique key. */
    method Create(id: Id, userId: Id, data: CreateTokenData, now: Timestamp) returns (r: Outcome<TokenEntity>)
      requires Valid()
      modifies this
      ensures Valid()
      ensures if old(Holds(userId, data.token))
              then r == Err(DatabaseError) && tokens == old(tokens)
              else r == Ok(MapToEntity(NewTokenRow(id, userId, data, now)))
                   && tokens == old(tokens) + [NewTokenRow(id, userId, data, now)]
    {
      var w := TokenWhere(userId, Some(data.token), None);
      var existing := FirstIndex(tokens, (t: TokenRow) => Matches(t, w));
      if existing.Some? {
        return Err(DatabaseError);
      }
      assert !Holds(userId, data.token) by {
        forall i | 0 <= i < |tokens| ensures !(tokens[i].userId == userId && tokens[i].token == data.token) {
          assert !Matches(tokens[i], w);
        }
      }
      var row := NewTokenRow(id, userId, data, now);
      tokens := tokens + [row];
      r := Ok(MapToEntity(row));
    }

    /**
     * `update(userId, model)`: rewrites the user's unused token `model.token`. With
     * no such token (or no token named at all) the update fails and nothing changes.
     */
    method Update(userId: Id, data: UpdateTokenData, now: Timestamp) returns (r: Outcome<TokenEntity>)
      requires Valid()
      modifies this
      ensures Valid()
      ensures var w := TokenWhere(userId, data.token, Some(false));
              if data.token.None? || forall i :: 0 <= i < |old(tokens)| ==> !Matches(old(tokens)[i], w)
              then r == Err(DatabaseError) && tokens == old(tokens)
              else exists i :: 0 <= i < |old(tokens)| && Matches(old(tokens)[i], w)
                     && tokens == old(tokens)[i := UpdatedRow(old(tokens)[i], data, now)]
                     && r == Ok(MapToEntity(tokens[i]))
    {
      if data.token.None? {
        return Err(DatabaseError);
      }
      var w := TokenWhere(userId, data.token, Some(false));
      match FirstIndex(tokens, (t: TokenRow) => Matches(t, w))
      case None =>
        r := Err(DatabaseError);
      case Some(i) =>
        tokens := tokens[i := UpdatedRow(tokens[i], data, now)];
        r := Ok(MapToEntity(tokens[i]));
    }
  }
}
