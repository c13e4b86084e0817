/**
 * `UserService`: username generation, registration, the password-change policy,
 * one-time token maintenance and the session pass-throughs, over the repositories.
 */
module Users {
  import opened Wrappers
  import opened Entities
  import opened Exceptions
  import opened UserStore
  import opened SessionStore
  import opened TokenStore
  import opened HistoryStore
  import MiscellaneousUtils
  import PasswordUtils
  import Decimal
  import Text

  // ---------------------------------------------------------------------------
  // Username generation

  /** `maxRetries`: the number of lookups, counting the one for the clean base. */
  const MaxRetries: nat := 5

  /**
   * The base username: `first.last` when both names are given, the one given name
   * otherwise, and the e-mail handle when there is no name; each part sanitized.
   * It holds lower-case letters and digits only, plus the one separating period.
   */
  function BaseUsername(firstName: string, lastName: string, email: string): (b: string)
    ensures forall k :: 0 <= k < |b| ==> MiscellaneousUtils.IsLowerAlnum(b[k]) || b[k] == '.'
    ensures '.' in b <==> firstName != "" && lastName != ""
    ensures firstName == "" && lastName == "" ==> b == MiscellaneousUtils.Sanitize(Text.UntilChar(email, '@'))
  {
    var b :=
      if firstName != "" || lastName != "" then
        if firstName != "" && lastName != "" then
          MiscellaneousUtils.Sanitize(firstName) + "." + MiscellaneousUtils.Sanitize(lastName)
        else MiscellaneousUtils.Sanitize(if firstName != "" then firstName else lastName)
      else MiscellaneousUtils.Sanitize(Text.UntilChar(email, '@'));
    assert firstName != "" && lastName != "" ==> b[|MiscellaneousUtils.Sanitize(firstName)|] == '.';
    b
  }

  /** What `generateSuffix()` returns for the random draw `draw`: four digits, the first not zero. */
  function Suffix(draw: nat): (s: string)
    ensures |s| == 4 && Decimal.AllDigits(s) && s[0] != '0'
  {
    MiscellaneousUtils.GenerateSuffix(4, draw).value
  }

  /**
   * The name probed at `attempt`: the base first, then the base followed by
   * `suffixes(attempt)`, the value `generateSuffix()` returned for that probe.
   */
  function Candidate(base: string, attempt: nat, suffixes: nat -> string): string {
    if attempt == 0 then base else base + suffixes(attempt)
  }

  /** With suffixes drawn by `generateSuffix()`, a later candidate is the base and four digits. */
  lemma CandidateShape(base: string, attempt: nat, draws: nat -> nat)
    requires attempt > 0
    ensures var c := Candidate(base, attempt, (d: nat) => Suffix(draws(d)));
            |c| == |base| + 4 && c[..|base|] == base && Decimal.AllDigits(c[|base|..]) && c[|base|] != '0'
  {
    var c := Candidate(base, attempt, (d: nat) => Suffix(draws(d)));
    assert c[|base|..] == Suffix(draws(attempt));
  }

  /** `${baseUsername}${Date.now()}` */
  function Fallback(base: string, now: nat): string {
    base + Decimal.NatToString(now)
  }

  // ---------------------------------------------------------------------------
  // Password change

  const IncorrectCurrentPassword := "INCORRECT_CURRENT_PASSWORD"
  const PasswordSameAsOld := "PASSWORD_SAME_AS_OLD"
  const WeakPassword := "WEAK_PASSWORD"
  const PasswordUsedRecently := "PASSWORD_USED_IN_LAST_5_PASSWORDS"

  /** Some hash in `hashes` is the one of `password` (`passwordChecks.includes(true)`). */
  predicate MatchesAny(password: string, hashes: seq<HistoryRow>, matches: (string, string) -> bool) {
    exists k :: 0 <= k < |hashes| && matches(password, hashes[k].passwordHash)
  }

  /**
   * The policy checks of `updatePassword` after the user is found, first failure
   * winning: a given current password must match the stored hash, the new password
   * must differ from it, must be strong and must not match a recent history entry.
   * `None` means every check passed.
   */
  function PasswordChangeVerdict(stored: string, newPassword: string, currentPassword: Option<string>,
                                 recent: seq<HistoryRow>, matches: (string, string) -> bool): (v: Option<string>)
    ensures v == Some(IncorrectCurrentPassword) <==> Truthy(currentPassword) && !matches(currentPassword.value, stored)
    ensures v == Some(PasswordSameAsOld) <==>
              !(Truthy(currentPassword) && !matches(currentPassword.value, stored)) && matches(newPassword, stored)
    ensures v == Some(WeakPassword) <==>
              !(Truthy(currentPassword) && !matches(currentPassword.value, stored)) && !matches(newPassword, stored)
              && !PasswordUtils.IsStrongPassword(newPassword)
    ensures v == Some(PasswordUsedRecently) <==>
              !(Truthy(currentPassword) && !matches(currentPassword.value, stored)) && !matches(newPassword, stored)
              && PasswordUtils.IsStrongPassword(newPassword) && MatchesAny(newPassword, recent, matches)
    ensures v.Some? ==> v.value in {IncorrectCurrentPassword, PasswordSameAsOld, WeakPassword, PasswordUsedRecently}
  {
    if Truthy(currentPassword) && !matches(currentPassword.value, stored) then Some(IncorrectCurrentPassword)
    else if matches(newPassword, stored) then Some(PasswordSameAsOld)
    else if !PasswordUtils.IsStrongPassword(newPassword) then Some(WeakPassword)
    else if exists k :: 0 <= k < |recent| && matches(newPassword, recent[k].passwordHash) then Some(PasswordUsedRecently)
    else None
  }

  function VerdictMessage(code: string): string {
    if code == IncorrectCurrentPassword then "Current password is incorrect."
    else if code == PasswordSameAsOld then "New password cannot be the same as the old password."
    else if code == WeakPassword then "New password is not strong enough."
    else "Your new password must be different from your 5 most recent passwords"
  }

  /** What `updatePassword` resolves to, given what its user lookup returned. */
  function PasswordChangeOutcome(id: Id, found: Option<UserEntity>, newPassword: string, currentPassword: Option<string>,
                                 recent: seq<HistoryRow>, matches: (string, string) -> bool): (r: Outcome<bool>)
    ensures found.None? ==> Raises(r, "USER_NOT_FOUND")
    ensures r.Ok? <==> found.Some? && PasswordChangeVerdict(found.value.password.GetOr(""), newPassword, currentPassword, recent, matches).None?
    ensures r.Ok? ==> r.value
    ensures found.Some? && r.Err? ==>
              Raises(r, PasswordChangeVerdict(found.value.password.GetOr(""), newPassword, currentPassword, recent, matches).value)
  {
    match found
    case None => Err(NotFound("User with ID '" + id + "' not found.", "USER_NOT_FOUND"))
    case Some(user) =>
      match PasswordChangeVerdict(user.password.GetOr(""), newPassword, currentPassword, recent, matches)
      case Some(code) => Err(BadRequest(VerdictMessage(code), [code]))
      case None => Ok(true)
  }

  /** A password that passes the policy is strong and matches neither the stored hash nor a recent one. */
  lemma PassedPolicyIsFresh(stored: string, newPassword: string, currentPassword: Option<string>,
                            recent: seq<HistoryRow>, matches: (string, string) -> bool)
    requires PasswordChangeVerdict(stored, newPassword, currentPassword, recent, matches).None?
    ensures PasswordUtils.IsStrongPassword(newPassword) && PasswordUtils.Utf16Length(newPassword) >= 8
    ensures !matches(newPassword, stored)
    ensures forall k :: 0 <= k < |recent| ==> !matches(newPassword, recent[k].passwordHash)
    ensures Truthy(currentPassword) ==> matches(currentPassword.value, stored)
  {
  }

  // ---------------------------------------------------------------------------
  // Token update merge

  /** `Partial<UpdateUserTokenDto>` as `updateUserToken` receives it. */
  datatype TokenPatch = TokenPatch(
    token: Option<string>,
    tokenType: Nullable<string>,
    expiresAt: Nullable<Timestamp>,
    isUsed: Nullable<bool>,
    ipAddress: Nullable<string>,
    userAgent: Nullable<string>)

  /** A field the caller did not give keeps the existing value; a given `null` clears address and agent. */
  function KeepUnlessGiven<T>(given: Nullable<T>, existing: Option<T>): (r: Option<T>)
    ensures given.Undefined? ==> r == existing
    ensures given.Null? ==> r.None?
    ensures given.Defined? ==> r == Some(given.value)
  {
    match given
    case Undefined => existing
    case Null => None
    case Defined(v) => Some(v)
  }

  /**
   * The data `updateUserToken` hands to the repository: the existing token string,
   * and for every other field the caller's value or, when the caller left it out
   * (or, for type, expiry and use, gave `null`), the existing one.
   */
  function MergeTokenUpdate(existing: TokenEntity, patch: TokenPatch): (d: UpdateTokenData)
    ensures d.token == Some(existing.token)
    ensures d.tokenType.Some? && d.expiresAt.Some? && d.isUsed.Some?
    ensures !patch.tokenType.Defined? ==> d.tokenType == Some(existing.tokenType)
    ensures !patch.expiresAt.Defined? ==> d.expiresAt == Some(existing.expiresAt)
    ensures !patch.isUsed.Defined? ==> d.isUsed == Some(existing.isUsed)
    ensures patch.tokenType.Defined? ==> d.tokenType == Some(patch.tokenType.value)
    ensures patch.expiresAt.Defined? ==> d.expiresAt == Some(patch.expiresAt.value)
    ensures patch.isUsed.Defined? ==> d.isUsed == Some(patch.isUsed.value)
    ensures patch.ipAddress.Undefined? ==> d.ipAddress == existing.ipAddress
    ensures patch.userAgent.Undefined? ==> d.userAgent == existing.userAgent
  {
    UpdateTokenData(
      Some(existing.token),
      Some(patch.tokenType.OrElse(existing.tokenType)),
      Some(patch.expiresAt.OrElse(existing.expiresAt)),
      Some(patch.isUsed.OrElse(existing.isUsed)),
      KeepUnlessGiven(patch.ipAddress, existing.ipAddress),
      KeepUnlessGiven(patch.userAgent, existing.userAgent))
  }

  /**
   * Merged and written back, a patch that leaves a field out keeps the stored
   * value of type, expiry and use; the token string and the owner never change.
   * The use time is stamped exactly when the token ends up used.
   */
  lemma MergedUpdateKeepsFields(row: TokenRow, patch: TokenPatch, now: Timestamp)
    ensures var u := UpdatedRow(row, MergeTokenUpdate(TokenStore.MapToEntity(row), patch), now);
            && u.token == row.token && u.userId == row.userId && u.id == row.id
            && (patch.tokenType.Undefined? ==> u.tokenType == row.tokenType)
            && (patch.expiresAt.Undefined? ==> u.expiresAt == row.expiresAt)
            && (patch.isUsed.Undefined? ==> u.isUsed == row.isUsed)
            && (u.usedAt.Some? <==> u.isUsed)
  {
  }

  // ---------------------------------------------------------------------------

  class UserService {
    const users: UserRepository
    const sessions: UserSessionRepository
    const tokens: UserTokenRepository
    const history: UserPasswordHistoryRepository

    ghost predicate Valid()
      reads this, users, sessions, tokens
    {
      users.Valid() && sessions.Valid() && tokens.Valid()
    }

    constructor (users: UserRepository, sessions: UserSessionRepository, tokens: UserTokenRepository,
                 history: UserPasswordHistoryRepository)
      ensures this.users == users && this.sessions == sessions && this.tokens == tokens && this.history == history
    {
      this.users, this.sessions, this.tokens, this.history := users, sessions, tokens, history;
    }

    /**
     * The name `generateUniqueUsername` settles on from probe `attempt` on: the
     * first candidate the lookup reports free, or the timestamp fallback once five
     * lookups found their candidate taken or a lookup failed (`failAt`).
     */
    ghost function UniqueUsernameFrom(base: string, attempt: nat, suffixes: nat -> string, failAt: Option<nat>, now: nat): string
      reads this, users
      decreases MaxRetries - attempt
    {
      if attempt >= MaxRetries || failAt == Some(attempt) then Fallback(base, now)
      else
        var c := Candidate(base, attempt, suffixes);
        if c !in users.Usernames() then c
        else UniqueUsernameFrom(base, attempt + 1, suffixes, failAt, now)
    }

    /**
     * The result is a probed candidate no stored user has, or the fallback, which
     * is not checked against the store.
     */
    lemma {:induction false} UniqueUsernameIsFreeOrFallback(base: string, attempt: nat, suffixes: nat -> string,
                                                            failAt: Option<nat>, now: nat)
      ensures var r := UniqueUsernameFrom(base, attempt, suffixes, failAt, now);
              r == Fallback(base, now)
              || exists k :: attempt <= k < MaxRetries && r == Candidate(base, k, suffixes) && r !in users.Usernames()
      decreases MaxRetries - attempt
    {
      if attempt >= MaxRetries || failAt == Some(attempt) {
      } else {
        var c := Candidate(base, attempt, suffixes);
        if c !in users.Usernames() {
          assert UniqueUsernameFrom(base, attempt, suffixes, failAt, now) == c;
        } else {
          UniqueUsernameIsFreeOrFallback(base, attempt + 1, suffixes, failAt, now);
        }
      }
    }

    /** A free base name is taken as it is, unless its lookup fails. */
    lemma FreeBaseIsKept(base: string, suffixes: nat -> string, failAt: Option<nat>, now: nat)
      requires base !in users.Usernames() && failAt != Some(0)
      ensures UniqueUsernameFrom(base, 0, suffixes, failAt, now) == base
    {
    }

    /**
     * `generateUniqueUsername(firstName, lastName, email)`. `suffixes(k)` is what
     * `generateSuffix()` returns for probe `k`, `now` is the clock, and `failAt` is
     * the probe whose lookup throws, if any. The lookups made are the first `|probes|` candidates,
     * at most five.
     */
    method GenerateUniqueUsername(firstName: string, lastName: string, email: string, suffixes: nat -> string,
                                  failAt: Option<nat>, now: nat) returns (username: string, ghost probes: seq<string>)
      ensures username == UniqueUsernameFrom(BaseUsername(firstName, lastName, email), 0, suffixes, failAt, now)
      ensures |probes| <= MaxRetries
      ensures forall k :: 0 <= k < |probes| ==> probes[k] == Candidate(BaseUsername(firstName, lastName, email), k, suffixes)
    {
      var baseUsername := BaseUsername(firstName, lastName, email);
      var isUnique := false;
      var attempt: nat := 0;
      var finalUsername := baseUsername;
      probes := [];
      while !isUnique && attempt < MaxRetries
        invariant attempt <= MaxRetries && !isUnique
        invariant attempt == 0 ==> finalUsername == baseUsername
        invariant |probes| == attempt
        invariant forall k :: 0 <= k < attempt ==> probes[k] == Candidate(baseUsername, k, suffixes)
        invariant UniqueUsernameFrom(baseUsername, attempt, suffixes, failAt, now)
                  == UniqueUsernameFrom(baseUsername, 0, suffixes, failAt, now)
      {
        if attempt > 0 {
          finalUsername := baseUsername + suffixes(attempt);
        }
        assert finalUsername == Candidate(baseUsername, attempt, suffixes);
        probes := probes + [finalUsername];
        if failAt == Some(attempt) {
          assert UniqueUsernameFrom(baseUsername, attempt, suffixes, failAt, now) == Fallback(baseUsername, now);
          break;
        }
        var existingUser := users.FindByUsername(finalUsername, false);
        if existingUser.None? {
          assert UniqueUsernameFrom(baseUsername, attempt, suffixes, failAt, now) == finalUsername;
          isUnique := true;
          return finalUsername, probes;
        }
        assert UniqueUsernameFrom(baseUsername, attempt, suffixes, failAt, now)
               == UniqueUsernameFrom(baseUsername, attempt + 1, suffixes, failAt, now);
        attempt := attempt + 1;
      }
      username := Fallback(baseUsername, now);
    }

    /**
     * `create(data, roleName)`: the password hash is `hashedPassword`, the new
     * row's id is `id`. An unknown role fails with `INVALID_ROLE` before any write;
     * the user row and its role link are written together or not at all; the
     * result is the new user read back by id, carrying the role.
     */
    method Create(data: CreateUserData, roleName: string, hashedPassword: string, id: Id,
                  suffixes: nat -> string, failAt: Option<nat>, now: nat) returns (r: Outcome<UserEntity>)
      requires Valid()
      modifies users
      ensures Valid() && users.roles == old(users.roles)
      ensures var lastName := if Truthy(data.lastName) then data.lastName.value else "";
              var username := old(UniqueUsernameFrom(BaseUsername(data.firstName, lastName, data.email), 0, suffixes, failAt, now));
              var row := NewUserRow(id, data, username, hashedPassword, Credentials, now);
              var role := old(users.FindRoleByName(roleName));
              if role.None? then
                r == Err(BadRequest("Invalid role.", ["INVALID_ROLE"]))
                && users.users == old(users.users) && users.userRoles == old(users.userRoles)
              else if old(users.Clashes(row)) then
                r == Err(DatabaseError) && users.users == old(users.users) && users.userRoles == old(users.userRoles)
              else
                && users.users == old(users.users) + [row]
                && users.userRoles == old(users.userRoles) + [UserRole(id, role.value.id)]
                && users.FindById(id).Some? && r == Ok(users.FindById(id).value)
                && r.value.id == id && r.value.password.None? && role.value in r.value.roles
    {
      var lastName := if Truthy(data.lastName) then data.lastName.value else "";
      var username, _ := GenerateUniqueUsername(data.firstName, lastName, data.email, suffixes, failAt, now);
      var role := users.FindRoleByName(roleName);
      if role.None? {
        return Err(BadRequest("Invalid role.", ["INVALID_ROLE"]));
      }
      var created := CreateWithRole(id, data, username, hashedPassword, role.value, now);
      if created.Err? {
        return Err(created.error);
      }
      var finalUser := users.FindById(created.value.id);
      r := Ok(finalUser.value);
    }

    /**
     * The transaction inside `create`: the user row is inserted and linked to
     * `role`, or, when the insert fails, nothing is written. The new user then
     * reads back by id with that role.
     */
    method CreateWithRole(id: Id, data: CreateUserData, username: string, hashedPassword: string, role: Role,
                          now: Timestamp) returns (r: Outcome<UserRow>)
      requires Valid() && role in users.roles
      modifies users
      ensures Valid() && users.roles == old(users.roles)
      ensures var row := NewUserRow(id, data, username, hashedPassword, Credentials, now);
              if old(users.Clashes(row)) then
                r == Err(DatabaseError) && users.users == old(users.users) && users.userRoles == old(users.userRoles)
              else
                && r == Ok(row)
                && users.users == old(users.users) + [row]
                && users.userRoles == old(users.userRoles) + [UserRole(id, role.id)]
                && users.FindById(id).Some? && role in users.FindById(id).value.roles
    {
      r := users.Create(id, data, username, hashedPassword, Credentials, now);
      if r.Err? {
        return;
      }
      ghost var linksBefore := users.userRoles;
      var linked := users.MapRoleWithUser(role.id, r.value.id);
      NewUserReadBack(id, role, linksBefore);
    }

    /** A user just inserted, with its role link just appended, reads back by id with that role. */
    lemma NewUserReadBack(id: Id, role: Role, linksBefore: seq<UserRole>)
      requires users.Valid() && role in users.roles
      requires |users.users| > 0 && users.users[|users.users| - 1].id == id
      requires users.userRoles == linksBefore + [UserRole(id, role.id)]
      ensures users.FindById(id).Some? && users.FindById(id).value.id == id
      ensures role in users.FindById(id).value.roles
    {
      var n := |users.users| - 1;
      assert id in users.Ids();
      var k :| 0 <= k < |users.roles| && users.roles[k] == role;
      var found := users.RoleById(role.id);
      assert found.Some?;
      var k' :| 0 <= k' < |users.roles| && users.roles[k'] == found.value;
      assert k == k';
      RolesInAppend(linksBefore, UserRole(id, role.id), id);
      var e := users.FindById(id).value;
      var i :| 0 <= i < |users.users| && users.users[i].id == id && e == users.Project(i, false);
      assert i == n;
      assert users.RolesOf(id)[|users.RolesOf(id)| - 1] == role;
    }

    lemma {:induction false} RolesInAppend(links: seq<UserRole>, link: UserRole, userId: Id)
      requires link.userId == userId && users.RoleById(link.roleId).Some?
      ensures users.RolesIn(links + [link], userId) == users.RolesIn(links, userId) + [users.RoleById(link.roleId).value]
    {
      if links == [] {
        assert [link][1..] == [];
      } else {
        assert (links + [link])[1..] == links[1..] + [link];
        RolesInAppend(links[1..], link, userId);
      }
    }

    /**
     * The writes of a password change once `found` is the user lookup's answer:
     * nothing when the outcome is an error; otherwise the user's password becomes
     * `newHash` and the same hash is appended to the history, together.
     */
    method ApplyPasswordChange(id: Id, found: Option<UserEntity>, newPassword: string, currentPassword: Option<string>,
                               newHash: string, historyId: Id, now: Timestamp, matches: (string, string) -> bool)
      returns (r: Outcome<bool>)
      requires Valid()
      requires found.Some? <==> id in users.Ids()
      modifies users, history
      ensures Valid() && users.roles == old(users.roles) && users.userRoles == old(users.userRoles)
      ensures r == PasswordChangeOutcome(id, found, newPassword, currentPassword,
                                         old(history.GetPasswordHistoryByUserId(id, None)), matches)
      ensures r.Err? ==> users.users == old(users.users) && history.entries == old(history.entries)
      ensures r.Ok? ==>
                && history.entries == old(history.entries) + [HistoryRow(historyId, id, newHash, now)]
                && exists i :: 0 <= i < |old(users.users)| && old(users.users)[i].id == id
                     && users.users == old(users.users)[i := old(users.users)[i].(password := Some(newHash))]
    {
      if found.None? {
        return Err(NotFound("User with ID '" + id + "' not found.", "USER_NOT_FOUND"));
      }
      var recent := history.GetPasswordHistoryByUserId(id, None);
      r := PasswordChangeOutcome(id, found, newPassword, currentPassword, recent, matches);
      if r.Err? {
        return;
      }
      var updated := users.UpdatePassword(id, newHash);
      var logged := history.AddPasswordHistory(historyId, id, newHash, now);
    }

    /**
     * `updatePassword(id, newPassword, currentPassword)` as written: the user is read
     * with `findById`, which leaves out the password, so both hash comparisons run
     * against the empty string.
     */
    method UpdatePassword(id: Id, newPassword: string, currentPassword: Option<string>, newHash: string,
                          historyId: Id, now: Timestamp, matches: (string, string) -> bool) returns (r: Outcome<bool>)
      requires Valid()
      modifies users, history
      ensures Valid() && users.roles == old(users.roles) && users.userRoles == old(users.userRoles)
      ensures r == PasswordChangeOutcome(id, old(users.FindById(id)), newPassword, currentPassword,
                                         old(history.GetPasswordHistoryByUserId(id, None)), matches)
      ensures r.Err? ==> users.users == old(users.users) && history.entries == old(history.entries)
      ensures r.Ok? ==>
                && history.entries == old(history.entries) + [HistoryRow(historyId, id, newHash, now)]
                && exists i :: 0 <= i < |old(users.users)| && old(users.users)[i].id == id
                     && users.users == old(users.users)[i := old(users.users)[i].(password := Some(newHash))]
    {
      var existingUser := users.FindById(id);
      r := ApplyPasswordChange(id, existingUser, newPassword, currentPassword, newHash, historyId, now, matches);
    }

    /**
     * Whatever the stored hash, the password change as written refuses every
     * non-empty current password with `INCORRECT_CURRENT_PASSWORD`, the right one
     * included, provided the empty string is not a hash it matches.
     */
    lemma UpdatePasswordRejectsCorrectCurrentPassword(id: Id, current: string, storedHash: string, newPassword: string,
                                                      recent: seq<HistoryRow>, matches: (string, string) -> bool)
      requires users.FindByIdWithPassword(id).Some? && users.FindByIdWithPassword(id).value.password == Some(storedHash)
      requires matches(current, storedHash)
      requires current != "" && !matches(current, "")
      ensures Raises(PasswordChangeOutcome(id, users.FindById(id), newPassword, Some(current), recent, matches),
                     IncorrectCurrentPassword)
    {
    }

    /**
     * `updatePassword` as it is meant to work: the user is read together with the
     * stored hash, against which the policy then checks.
     */
    method UpdatePasswordCorrected(id: Id, newPassword: string, currentPassword: Option<string>, newHash: string,
                                   historyId: Id, now: Timestamp, matches: (string, string) -> bool)
      returns (r: Outcome<bool>)
      requires Valid()
      modifies users, history
      ensures Valid() && users.roles == old(users.roles) && users.userRoles == old(users.userRoles)
      ensures r == PasswordChangeOutcome(id, old(users.FindByIdWithPassword(id)), newPassword, currentPassword,
                                         old(history.GetPasswordHistoryByUserId(id, None)), matches)
      ensures r.Err? ==> users.users == old(users.users) && history.entries == old(history.entries)
      ensures r.Ok? ==>
                && history.entries == old(history.entries) + [HistoryRow(historyId, id, newHash, now)]
                && exists i :: 0 <= i < |old(users.users)| && old(users.users)[i].id == id
                     && users.users == old(users.users)[i := old(users.users)[i].(password := Some(newHash))]
    {
      var existingUser := users.FindByIdWithPassword(id);
      r := ApplyPasswordChange(id, existingUser, newPassword, currentPassword, newHash, historyId, now, matches);
    }

    /**
     * With the hash read, the current password is refused exactly when it is given
     * and does not match the stored hash, and the change goes through exactly when
     * the whole policy holds against that hash.
     */
    lemma UpdatePasswordCorrectedChecksStoredHash(id: Id, current: Option<string>, storedHash: string,
                                                  newPassword: string, recent: seq<HistoryRow>,
                                                  matches: (string, string) -> bool)
      requires users.FindByIdWithPassword(id).Some? && users.FindByIdWithPassword(id).value.password == Some(storedHash)
      ensures var r := PasswordChangeOutcome(id, users.FindByIdWithPassword(id), newPassword, current, recent, matches);
              && (Raises(r, IncorrectCurrentPassword) <==> Truthy(current) && !matches(current.value, storedHash))
              && (r == Ok(true) <==>
                    (Truthy(current) ==> matches(current.value, storedHash))
                    && !matches(newPassword, storedHash)
                    && PasswordUtils.IsStrongPassword(newPassword)
                    && !MatchesAny(newPassword, recent, matches))
      ensures var r := PasswordChangeOutcome(id, users.FindByIdWithPassword(id), newPassword, current, recent, matches);
              (Truthy(current) ==> matches(current.value, storedHash)) && matches(newPassword, storedHash) ==>
                Raises(r, PasswordSameAsOld)
    {
      var r := PasswordChangeOutcome(id, users.FindByIdWithPassword(id), newPassword, current, recent, matches);
      var v := PasswordChangeVerdict(storedHash, newPassword, current, recent, matches);
      if v.Some? {
        assert r == Err(BadRequest(VerdictMessage(v.value), [v.value]));
      }
    }

    // -------------------------------------------------------------------------
    // Tokens and sessions

    /** `validateUserToken(userId, token, type)`: no valid token is `TOKEN_INVALID_OR_EXPIRED`. */
    function ValidateUserToken(userId: Id, token: string, tokenType: string, now: Timestamp): (r: Outcome<TokenEntity>)
      reads this, tokens
      ensures r.Ok? <==> exists i :: 0 <= i < |tokens.tokens| && IsValidFor(tokens.tokens[i], userId, token, tokenType, now)
      ensures r.Ok? ==> r.value.userId == userId && r.value.token == token && !r.value.isUsed
                        && r.value.tokenType == tokenType && r.value.expiresAt >= now
      ensures r.Ok? ==> (exists i :: 0 <= i < |tokens.tokens| && IsValidFor(tokens.tokens[i], userId, token, tokenType, now)
                                     && r.value == TokenStore.MapToEntity(tokens.tokens[i]))
      ensures r.Err? ==> Raises(r, "TOKEN_INVALID_OR_EXPIRED")
    {
      match tokens.ValidateUserToken(userId, token, tokenType, now)
      case None => Err(BadRequest("Invalid or expired token.", ["TOKEN_INVALID_OR_EXPIRED"]))
      case Some(t) => Ok(t)
    }

    /**
     * `createUserToken(userId, model)`: the repository never answers null, so a
     * failure is the store's own error rather than `TOKEN_CREATION_FAILED`.
     */
    method CreateUserToken(id: Id, userId: Id, model: CreateTokenData, now: Timestamp) returns (r: Outcome<TokenEntity>)
      requires Valid()
      modifies tokens
      ensures Valid()
      ensures if old(tokens.Holds(userId, model.token))
              then r == Err(DatabaseError) && tokens.tokens == old(tokens.tokens)
              else r == Ok(TokenStore.MapToEntity(NewTokenRow(id, userId, model, now)))
                   && tokens.tokens == old(tokens.tokens) + [NewTokenRow(id, userId, model, now)]
    {
      r := tokens.Create(id, userId, model, now);
    }

    /**
     * `updateUserToken(userId, model)`: the user's first unused token matching the
     * given token string (any, when none is given) is rewritten with the merged
     * data; with no such token it is `TOKEN_NOT_FOUND` and nothing changes.
     */
    method UpdateUserToken(userId: Id, patch: TokenPatch, now: Timestamp) returns (r: Outcome<TokenEntity>)
      requires Valid()
      modifies tokens
      ensures Valid()
      ensures var w := TokenWhere(userId, patch.token, Some(false));
              if forall i :: 0 <= i < |old(tokens.tokens)| ==> !Matches(old(tokens.tokens)[i], w)
              then Raises(r, "TOKEN_NOT_FOUND") && tokens.tokens == old(tokens.tokens)
              else exists i :: 0 <= i < |old(tokens.tokens)| && Matches(old(tokens.tokens)[i], w)
                     && var merged := MergeTokenUpdate(TokenStore.MapToEntity(old(tokens.tokens)[i]), patch);
                        tokens.tokens == old(tokens.tokens)[i := UpdatedRow(old(tokens.tokens)[i], merged, now)]
                        && r == Ok(TokenStore.MapToEntity(tokens.tokens[i]))
    {
      var existingToken := tokens.FindFirst(TokenWhere(userId, patch.token, Some(false)));
      if existingToken.None? {
        return Err(NotFound("Token not found for user '" + userId + "'.", "TOKEN_NOT_FOUND"));
      }
      ghost var i :| 0 <= i < |tokens.tokens| && Matches(tokens.tokens[i], TokenWhere(userId, patch.token, Some(false)))
                     && existingToken.value == TokenStore.MapToEntity(tokens.tokens[i]);
      r := UpdateFoundToken(userId, patch, existingToken.value, i, now);
    }

    /** The second half of `updateUserToken`: row `i` was found and is rewritten with the merged data. */
    method UpdateFoundToken(userId: Id, patch: TokenPatch, existingToken: TokenEntity, ghost i: nat, now: Timestamp)
      returns (r: Outcome<TokenEntity>)
      requires Valid() && i < |tokens.tokens|
      requires Matches(tokens.tokens[i], TokenWhere(userId, patch.token, Some(false)))
      requires existingToken == TokenStore.MapToEntity(tokens.tokens[i])
      modifies tokens
      ensures Valid()
      ensures tokens.tokens == old(tokens.tokens)[i := UpdatedRow(old(tokens.tokens)[i], MergeTokenUpdate(existingToken, patch), now)]
      ensures r == Ok(TokenStore.MapToEntity(tokens.tokens[i]))
    {
      var data := MergeTokenUpdate(existingToken, patch);
      ghost var before := tokens.tokens;
      assert TokenStore.UniqueTokens(before);
      assert Matches(before[i], TokenWhere(userId, data.token, Some(false)));
      r := tokens.Update(userId, data, now);
      ghost var j :| 0 <= j < |before| && Matches(before[j], TokenWhere(userId, data.token, Some(false)))
                     && tokens.tokens == before[j := UpdatedRow(before[j], data, now)] && r == Ok(TokenStore.MapToEntity(tokens.tokens[j]));
      TokenStore.SameTokenSameRow(before, i, j);
    }

    /** `getUserSessionByToken(userId, token)`: the live session of that key, if any. */
    function GetUserSessionByToken(userId: Id, token: string, now: Timestamp): (r: Option<SessionEntity>)
      reads this, sessions
      ensures r.Some? <==> SessionKey(userId, token) in sessions.sessions
                           && IsLive(sessions.sessions[SessionKey(userId, token)], now)
      ensures r.Some? ==> r.value == SessionStore.MapToEntity(sessions.sessions[SessionKey(userId, token)])
    {
      sessions.GetUserSessionByToken(userId, token, now)
    }

    /**
     * `saveUserSession(...)`: the repository never answers null, so a failure is
     * the store's unique-key error rather than `USER_SESSION_CREATION_FAILED`.
     */
    method SaveUserSession(id: Id, userId: Id, token: string, ip: string, userAgent: string,
                           expiresAt: Timestamp, now: Timestamp) returns (r: Outcome<SessionEntity>)
      requires Valid()
      modifies sessions
      ensures Valid()
      ensures var k := SessionKey(userId, token);
              var row := SessionRow(id, userId, token, Some(ip), Some(userAgent), expiresAt, true, now, Some(now));
              if k in old(sessions.sessions)
              then r == Err(DatabaseError) && sessions.sessions == old(sessions.sessions)
              else r == Ok(SessionStore.MapToEntity(row)) && sessions.sessions == old(sessions.sessions)[k := row]
      ensures r.Ok? ==> forall t :: t <= expiresAt ==> GetUserSessionByToken(userId, token, t) == Some(r.value)
    {
      r := sessions.SaveUserSession(id, userId, token, ip, userAgent, expiresAt, now);
    }

    /** `deleteUserSession(userId, token)`: the delete error of a missing session propagates. */
    method DeleteUserSession(userId: Id, token: string) returns (r: Outcome<SessionEntity>)
      requires Valid()
      modifies sessions
      ensures Valid()
      ensures var k := SessionKey(userId, token);
              if k in old(sessions.sessions)
              then r == Ok(SessionStore.MapToEntity(old(sessions.sessions)[k])) && sessions.sessions == old(sessions.sessions) - {k}
              else r == Err(DatabaseError) && sessions.sessions == old(sessions.sessions)
      ensures forall t :: GetUserSessionByToken(userId, token, t).None?
    {
      r := sessions.DeleteUserSession(userId, token);
    }

    /** `findRolesByUserId(userId)`: never null, since the store always yields a list. */
    function FindRolesByUserId(userId: Id): (r: Option<seq<Role>>)
      reads this, users
      ensures r.Some? && r.value == users.RolesOf(userId)
      ensures forall k :: 0 <= k < |r.value| ==> r.value[k] in users.roles
    {
      users.FindRolesByUserId(userId)
    }
  }
}
