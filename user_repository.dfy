/**
 * `UserRepository`: the user table with its role join, the lookups that project a
 * row to a `UserEntity` (withholding the password unless asked), and the two writes
 * the user service makes inside transactions.
 */
module UserStore {
  import opened Wrappers
  import opened Entities
  import opened Exceptions

  /** The registration body (`CreateUserDto`) as the repository reads it. */
  datatype CreateUserData = CreateUserData(
    firstName: string,
    lastName: Option<string>,
    phoneNumber: Option<string>,
    gender: Option<string>,
    email: string,
    password: string,
    role: string,
    isEmailVerified: Option<bool>,
    isPhoneVerified: Option<bool>,
    isActive: Option<bool>)

  /** `mapToEntity(user, includePassword)` */
  function MapToEntity(row: UserRow, roles: seq<Role>, includePassword: bool): (e: UserEntity)
    ensures includePassword ==> e.password == row.password
    ensures !includePassword ==> e.password.None?
    ensures e.metadata.IsObjectLike()
    ensures row.metadata.IsObjectLike() ==> e.metadata == row.metadata
    ensures e.roles == roles
    ensures e.id == row.id && e.email == row.email && e.username == row.username
    ensures e.isActive == row.isActive && e.firstName == row.firstName
    ensures e.lastName == row.lastName && e.displayName == row.displayName && e.phoneNumber == row.phoneNumber
    ensures e.profileImageUrl == row.profileImageUrl && e.gender == row.gender && e.provider == row.provider
    ensures e.isEmailVerified == row.isEmailVerified && e.isPhoneVerified == row.isPhoneVerified
    ensures e.createdAt == row.createdAt
  {
    UserEntity(
      row.id, row.email, row.username,
      if includePassword then row.password else None,
      row.firstName, row.lastName, row.displayName, row.phoneNumber, row.profileImageUrl,
      row.gender, row.provider, row.isEmailVerified, row.isPhoneVerified, row.isActive,
      if row.metadata.IsObjectLike() then row.metadata else JObject(map[]),
      roles, row.createdAt)
  }

  /** The data of `userRepository.create`: falsy optional text becomes null, falsy flags false. */
  function NewUserRow(id: Id, data: CreateUserData, username: string, hashedPassword: string,
                      provider: AuthProvider, now: Timestamp): (row: UserRow)
    ensures row.id == id && row.password == Some(hashedPassword) && row.provider == provider
    ensures row.email.Some? <==> data.email != ""
    ensures row.username.Some? <==> username != ""
    ensures row.lastName.Some? <==> Truthy(data.lastName)
    ensures row.phoneNumber.Some? <==> Truthy(data.phoneNumber)
    ensures row.gender.Some? <==> Truthy(data.gender)
    ensures row.email.Some? ==> row.email.value == data.email
    ensures row.username.Some? ==> row.username.value == username
    ensures row.firstName == Some(data.firstName)
    ensures row.isEmailVerified <==> data.isEmailVerified == Some(true)
    ensures row.isPhoneVerified <==> data.isPhoneVerified == Some(true)
    ensures row.isActive <==> data.isActive == Some(true)
  {
    UserRow(
      id,
      OrNull(Some(data.email)),
      OrNull(Some(username)),
      Some(hashedPassword),
      Some(data.firstName),
      OrNull(data.lastName),
      None,
      OrNull(data.phoneNumber),
      None,
      OrNull(data.gender),
      provider,
      data.isEmailVerified.GetOr(false),
      data.isPhoneVerified.GetOr(false),
      data.isActive.GetOr(false),
      JNull,
      now)
  }

  /** The unique keys of the user table: the id, and the username and email where present. */
  ghost predicate UniqueKeys(users: seq<UserRow>) {
    && (forall i, j :: 0 <= i < j < |users| ==> users[i].id != users[j].id)
    && (forall i, j :: 0 <= i < j < |users| && users[i].username.Some? ==> users[i].username != users[j].username)
    && (forall i, j :: 0 <= i < j < |users| && users[i].email.Some? ==> users[i].email != users[j].email)
  }

  /** Appending a row whose keys are all new keeps the keys unique. */
  lemma AppendKeepsKeysUnique(users: seq<UserRow>, row: UserRow)
    requires UniqueKeys(users)
    requires forall i :: 0 <= i < |users| ==> users[i].id != row.id
    requires row.username.Some? ==> forall i :: 0 <= i < |users| ==> users[i].username != row.username
    requires row.email.Some? ==> forall i :: 0 <= i < |users| ==> users[i].email != row.email
    ensures UniqueKeys(users + [row])
  {
  }

  class UserRepository {
    var users: seq<UserRow>
    /** The role table: reference data, never written here. */
    var roles: seq<Role>
    var userRoles: seq<UserRole>

    /** Ids are unique, and so are the usernames and emails that are set; role ids are unique. */
    ghost predicate Valid()
      reads this
    {
      && (forall i, j :: 0 <= i < j < |roles| ==> roles[i].id != roles[j].id)
      && UniqueKeys(users)
    }

    constructor (roleTable: seq<Role>)
      requires forall i, j :: 0 <= i < j < |roleTable| ==> roleTable[i].id != roleTable[j].id
      ensures Valid() && users == [] && roles == roleTable && userRoles == []
    {
      users, roles, userRoles := [], roleTable, [];
    }

    function RoleById(roleId: Id): (r: Option<Role>)
      reads this
      ensures r.Some? ==> r.value in roles && r.value.id == roleId
      ensures r.None? ==> forall k :: 0 <= k < |roles| ==> roles[k].id != roleId
    {
      match FirstIndex(roles, (role: Role) => role.id == roleId)
      case None => None
      case Some(i) => Some(roles[i])
    }

    /** The roles joined to a user: `user.roles.map((role) => role.role)` in join-table order. */
    function RolesOf(userId: Id): (r: seq<Role>)
      reads this
      ensures forall k :: 0 <= k < |r| ==> r[k] in roles
    {
      RolesIn(userRoles, userId)
    }

    function RolesIn(links: seq<UserRole>, userId: Id): (r: seq<Role>)
      reads this
      ensures forall k :: 0 <= k < |r| ==> r[k] in roles
    {
      if links == [] then []
      else
        var rest := RolesIn(links[1..], userId);
        if links[0].userId == userId then
          match RoleById(links[0].roleId)
          case Some(role) => [role] + rest
          case None => rest
        else rest
    }

    ghost function Ids(): set<Id>
      reads this
    {
      set i | 0 <= i < |users| :: users[i].id
    }

    ghost function Usernames(): set<string>
      reads this
    {
      set i | 0 <= i < |users| && users[i].username.Some? :: users[i].username.value
    }

    function Project(i: nat, includePassword: bool): (e: UserEntity)
      reads this
      requires i < |users|
    {
      MapToEntity(users[i], RolesOf(users[i].id), includePassword)
    }

    /** `findById(id)`: the projection never carries the password. */
    function FindById(id: Id): (r: Option<UserEntity>)
      reads this
      ensures r.Some? <==> id in Ids()
      ensures r.Some? ==> r.value.id == id && r.value.password.None?
      ensures r.Some? ==> exists i :: 0 <= i < |users| && users[i].id == id && r.value == Project(i, false)
    {
      match FirstIndex(users, (u: UserRow) => u.id == id)
      case None => None
      case Some(i) => Some(Project(i, false))
    }

    /** `findByEmail(email, includePassword)` */
    function FindByEmail(email: string, includePassword: bool): (r: Option<UserEntity>)
      reads this
      ensures r.None? <==> forall i :: 0 <= i < |users| ==> users[i].email != Some(email)
      ensures r.Some? ==> r.value.email == Some(email)
      ensures r.Some? ==> exists i :: 0 <= i < |users| && users[i].email == Some(email)
                                      && r.value == Project(i, includePassword)
    {
      match FirstIndex(users, (u: UserRow) => u.email == Some(email))
      case None => None
      case Some(i) => Some(Project(i, includePassword))
    }

    /** `findByUsername(username, includePassword)` */
    function FindByUsername(username: string, includePassword: bool): (r: Option<UserEntity>)
      reads this
      ensures r.None? <==> username !in Usernames()
      ensures r.Some? ==> r.value.username == Some(username)
      ensures r.Some? ==> exists i :: 0 <= i < |users| && users[i].username == Some(username)
                                      && r.value == Project(i, includePassword)
    {
      match FirstIndex(users, (u: UserRow) => u.username == Some(username))
      case None => None
      case Some(i) => Some(Project(i, includePassword))
    }

    /**
     * `findByEmailOrUsername(x, includePassword)`: the first user whose username or
     * whose email is `x`.
     */
    function FindByEmailOrUsername(x: string, includePassword: bool): (r: Option<UserEntity>)
      reads this
      ensures r.None? <==> forall i :: 0 <= i < |users| ==> users[i].username != Some(x) && users[i].email != Some(x)
      ensures r.Some? ==> r.value.username == Some(x) || r.value.email == Some(x)
      ensures r.Some? ==> exists i :: 0 <= i < |users| && r.value == Project(i, includePassword)
      ensures r.Some? && includePassword ==> exists i :: 0 <= i < |users| && r.value.id == users[i].id && r.value.password == users[i].password
    {
      match FirstIndex(users, (u: UserRow) => u.username == Some(x) || u.email == Some(x))
      case None => None
      case Some(i) => Some(Project(i, includePassword))
    }

    /** A user found by username or e-mail reads back by id as the same user, without the password. */
    lemma FoundByLoginReadsBackById(x: string, includePassword: bool)
      requires Valid() && FindByEmailOrUsername(x, includePassword).Some?
      ensures var u := FindByEmailOrUsername(x, includePassword).value;
              FindById(u.id) == Some(u.(password := None))
    {
      var u := FindByEmailOrUsername(x, includePassword).value;
      var i :| 0 <= i < |users| && u == Project(i, includePassword);
      assert users[i].id == u.id;
      var j :| 0 <= j < |users| && users[j].id == u.id && FindById(u.id).value == Project(j, false);
      assert i == j;
    }

    /** `checkUsernameAvailability(username)`: no stored user has that username. */
    function CheckUsernameAvailability(username: string): (available: bool)
      reads this
      ensures available <==> forall i :: 0 <= i < |users| ==> users[i].username != Some(username)
    {
      FirstIndex(users, (u: UserRow) => u.username == Some(username)).None?
    }

    /** Inserting `row` would violate the unique id, username or email key. */
    ghost predicate Clashes(row: UserRow)
      reads this
    {
      || row.id in Ids()
      || (row.username.Some? && row.username.value in Usernames())
      || (row.email.Some? && exists i :: 0 <= i < |users| && users[i].email == row.email)
    }

    /**
     * `create(tx, data, username, hashedPassword, roleId, provider)`. The id and the
     * creation time are the database's; an id, username or email that is already
     * stored violates a unique key, the insert fails and nothing changes.
     */
    method Create(id: Id, data: CreateUserData, username: string, hashedPassword: string,
                  provider: AuthProvider, now: Timestamp) returns (r: Outcome<UserRow>)
      requires Valid()
      modifies this
      ensures Valid() && roles == old(roles) && userRoles == old(userRoles)
      ensures var row := NewUserRow(id, data, username, hashedPassword, provider, now);
              if old(Clashes(row))
              then r == Err(DatabaseError) && users == old(users)
              else r == Ok(row) && users == old(users) + [row]
    {
      var row := NewUserRow(id, data, username, hashedPassword, provider, now);
      var idTaken := FirstIndex(users, (u: UserRow) => u.id == id).Some?;
      var usernameTaken := row.username.Some? && FindByUsername(row.username.value, false).Some?;
      var emailTaken := row.email.Some? && FindByEmail(row.email.value, false).Some?;
      assert idTaken <==> id in Ids() by {
        if id in Ids() {
          var i :| 0 <= i < |users| && users[i].id == id;
        }
      }
      if idTaken || usernameTaken || emailTaken {
        return Err(DatabaseError);
      }
      AppendKeepsKeysUnique(users, row);
      users := users + [row];
      r := Ok(row);
    }

    /**
     * `updatePassword(tx, id, password)`: only the password of the user with that id
     * changes; updating a missing record is a database error.
     */
    method UpdatePassword(id: Id, password: string) returns (r: Outcome<UserRow>)
      requires Valid()
      modifies this
      ensures Valid() && roles == old(roles) && userRoles == old(userRoles)
      ensures id !in old(Ids()) ==> r == Err(DatabaseError) && users == old(users)
      ensures id in old(Ids()) ==>
                exists i :: 0 <= i < |old(users)| && old(users)[i].id == id
                  && users == old(users)[i := old(users)[i].(password := Some(password))]
                  && r == Ok(users[i])
    {
      match FirstIndex(users, (u: UserRow) => u.id == id)
      case None =>
        r := Err(DatabaseError);
      case Some(i) =>
        users := users[i := users[i].(password := Some(password))];
        r := Ok(users[i]);
    }

    /** `roleRepository.mapRoleWithUser(tx, roleId, userId)`: a join row whose keys must exist. */
    method MapRoleWithUser(roleId: Id, userId: Id) returns (r: Outcome<UserRole>)
      modifies this
      ensures users == old(users) && roles == old(roles)
      ensures if RoleById(roleId).Some? && userId in Ids()
              then r == Ok(UserRole(userId, roleId)) && userRoles == old(userRoles) + [UserRole(userId, roleId)]
              else r == Err(DatabaseError) && userRoles == old(userRoles)
    {
      var userKnown := FirstIndex(users, (u: UserRow) => u.id == userId).Some?;
      assert userKnown <==> userId in Ids() by {
        if userId in Ids() {
          var i :| 0 <= i < |users| && users[i].id == userId;
        }
      }
      if RoleById(roleId).None? || !userKnown {
        return Err(DatabaseError);
      }
      userRoles := userRoles + [UserRole(userId, roleId)];
      r := Ok(UserRole(userId, roleId));
    }

    /** `roleRepository.findByName(name)` */
    function FindRoleByName(name: string): (r: Option<Role>)
      reads this
      ensures r.Some? ==> r.value in roles && r.value.name == name
      ensures r.None? <==> forall k :: 0 <= k < |roles| ==> roles[k].name != name
    {
      match FirstIndex(roles, (role: Role) => role.name == name)
      case None => None
      case Some(i) => Some(roles[i])
    }

    /**
     * `roleRepository.findRolesByUserId(userId)`: `findMany` always yields a list,
     * so the lookup is never null (possibly empty).
     */
    function FindRolesByUserId(userId: Id): (r: Option<seq<Role>>)
      reads this
      ensures r.Some? && r.value == RolesOf(userId)
    {
      Some(RolesOf(userId))
    }

    /** A lookup by id that keeps the password hash: what the password change needs. */
    function FindByIdWithPassword(id: Id): (r: Option<UserEntity>)
      reads this
      ensures r.Some? <==> id in Ids()
      ensures r.Some? ==> (r.value.id == id
                && exists i :: 0 <= i < |users| && users[i].id == id && r.value.password == users[i].password)
      ensures r.Some? && FindById(id).Some? ==> r.value.(password := None) == FindById(id).value
    {
      match FirstIndex(users, (u: UserRow) => u.id == id)
      case None => None
      case Some(i) => Some(Project(i, true))
    }
  }
}
