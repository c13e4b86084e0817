/**
 * `UserSessionRepository`: the login sessions, addressed by the pair (user id,
 * session token). A session is live while it is active and not yet expired.
 */
module SessionStore {
  import opened Wrappers
  import opened Entities
  import opened Exceptions

  datatype SessionKey = SessionKey(userId: Id, token: string)

  function KeyOf(s: SessionRow): SessionKey {
    SessionKey(s.userId, s.token)
  }

  /** The `getUserSessionByToken` filter: active, and `expiresAt >= now`. */
  predicate IsLive(s: SessionRow, now: Timestamp) {
    s.isActive && s.expiresAt >= now
  }

  /** `mapToEntity(session)`: an empty address or agent reads back as null; all else is copied. */
  function MapToEntity(s: SessionRow): (e: SessionEntity)
    ensures e.ipAddress == OrNull(s.ipAddress) && e.userAgent == OrNull(s.userAgent)
    ensures e.(ipAddress := s.ipAddress, userAgent := s.userAgent) == s
  {
    s.(ipAddress := OrNull(s.ipAddress), userAgent := OrNull(s.userAgent))
  }

  class UserSessionRepository {
    var sessions: map<SessionKey, SessionRow>

    /** Every session is stored under its own key. */
    ghost predicate Valid()
      reads this
    {
      forall k | k in sessions :: KeyOf(sessions[k]) == k
    }

    constructor ()
      ensures Valid() && sessions == map[]
    {
      sessions := map[];
    }

    /** `getUserSessionByToken(userId, token)` at time `now`. */
    function GetUserSessionByToken(userId: Id, token: string, now: Timestamp): (r: Option<SessionEntity>)
      reads this
      ensures r.Some? <==> SessionKey(userId, token) in sessions && IsLive(sessions[SessionKey(userId, token)], now)
      ensures r.Some? ==> r.value == MapToEntity(sessions[SessionKey(userId, token)])
    {
      var k := SessionKey(userId, token);
      if k in sessions && IsLive(sessions[k], now) then Some(MapToEntity(sessions[k])) else None
    }

    /**
     * `saveUserSession(userId, token, ip, userAgent, expiresAt)`: a new active session
     * first used now. A second session with the same key violates the unique key.
     * Once saved, the session is found by its key until it expires.
     */
    method SaveUserSession(id: Id, userId: Id, token: string, ip: string, userAgent: string,
                           expiresAt: Timestamp, now: Timestamp) returns (r: Outcome<SessionEntity>)
      requires Valid()
      modifies this
      ensures Valid()
      ensures var k := SessionKey(userId, token);
              var row := SessionRow(id, userId, token, Some(ip), Some(userAgent), expiresAt, true, now, Some(now));
              if k in old(sessions)
              then r == Err(DatabaseError) && sessions == old(sessions)
              else r == Ok(MapToEntity(row)) && sessions == old(sessions)[k := row]
      ensures r.Ok? ==> forall t :: t <= expiresAt ==> GetUserSessionByToken(userId, token, t) == Some(r.value)
    {
      var k := SessionKey(userId, token);
      if k in sessions {
        return Err(DatabaseError);
      }
      var row := SessionRow(id, userId, token, Some(ip), Some(userAgent), expiresAt, true, now, Some(now));
      sessions := sessions[k := row];
      r := Ok(MapToEntity(row));
    }

    /**
     * `deleteUserSession(userId, token)`: removes exactly that session; deleting a
     * session that is not there is a database error.
     */
    method DeleteUserSession(userId: Id, token: string) returns (r: Outcome<SessionEntity>)
      requires Valid()
      modifies this
      ensures Valid()
      ensures var k := SessionKey(userId, token);
              if k in old(sessions)
              then r == Ok(MapToEntity(old(sessions)[k])) && sessions == old(sessions) - {k}
              else r == Err(DatabaseError) && sessions == old(sessions)
      ensures forall t :: GetUserSessionByToken(userId, token, t).None?
    {
      var k := SessionKey(userId, token);
      if k !in sessions {
        return Err(DatabaseError);
      }
      r := Ok(MapToEntity(sessions[k]));
      sessions := sessions - {k};
    }
  }
}
