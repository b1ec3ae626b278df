/** UserRepository over an in-memory store standing in for the EF Core
    context: a map of user records keyed by their identity-column id, and the
    set of (UserId, RoleId) rows of the UserRole table. Keeping the rows as a
    set makes the unique index on (UserId, RoleId) hold by construction; an
    insertion that would break it is rejected like SaveChanges rejects it. */
module UserStore {
  import opened Common

  datatype UserEntity = UserEntity(
    id: int,
    firstName: string,
    lastName: string,
    username: string,
    passwordHash: seq<byte>,
    passwordSalt: seq<byte>,
    isActive: bool)

  datatype UserRoleRow = UserRoleRow(userId: int, roleId: int)

  /** A user read together with its role rows (Include(u => u.Roles)). */
  datatype UserWithRoles = UserWithRoles(user: UserEntity, roles: set<UserRoleRow>)

  /** No role id occurs twice in the list. */
  predicate DistinctRoleIds(rows: seq<UserRoleRow>) {
    forall a, b :: 0 <= a < b < |rows| ==> rows[a].roleId != rows[b].roleId
  }

  /** No row occurs twice in the list. */
  predicate DistinctRows(rows: seq<UserRoleRow>) {
    forall a, b :: 0 <= a < b < |rows| ==> rows[a] != rows[b]
  }

  /** Every row names a stored role: the RoleId foreign key to the Role table,
      whose keys are given. */
  predicate RolesExist(rows: seq<UserRoleRow>, roleKeys: set<int>) {
    forall k :: 0 <= k < |rows| ==> rows[k].roleId in roleKeys
  }

  /** The rows of one user among a set of rows. */
  function RowsIn(rows: set<UserRoleRow>, userId: int): set<UserRoleRow> {
    set row | row in rows && row.userId == userId
  }

  /** The role ids of a set of rows. */
  function RoleIdsIn(rows: set<UserRoleRow>): set<int> {
    set row | row in rows :: row.roleId
  }

  class UserRepository {
    var users: map<int, UserEntity>
    var userRoles: set<UserRoleRow>
    /** The next value of the identity column. */
    var nextId: int

    /** Keys are the records' ids and positive; every role row belongs to a stored user. */
    ghost predicate Valid()
      reads this
    {
      && 0 < nextId
      && (forall id :: id in users ==> users[id].id == id && 0 < id < nextId)
      && (forall row :: row in userRoles ==> row.userId in users)
    }

    /** The rows of one user. */
    function RowsOf(id: int): set<UserRoleRow>
      reads this
    {
      RowsIn(userRoles, id)
    }

    /** The role ids of one user. */
    function RoleIdsOf(id: int): set<int>
      reads this
    {
      RoleIdsIn(RowsOf(id))
    }

    /** The ids of the active users with a given username. */
    function ActiveWithUsername(username: string): set<int>
      reads this
    {
      set id | id in users && users[id].username == username && users[id].isActive
    }

    constructor ()
      ensures Valid() && users == map[] && userRoles == {}
    {
      users := map[];
      userRoles := {};
      nextId := 1;
    }

    /** InsertAsync: the identity column gives the record a new id and the
        navigation fix-up points the new role rows at it. Two rows with one
        role id break the unique index, and a row naming no stored role breaks
        the role foreign key (`roleKeys` are the Role table's keys); either
        way nothing is stored. */
    method InsertAsync(entity: UserEntity, roles: seq<UserRoleRow>, roleKeys: set<int>) returns (r: Result<UserEntity, Exception>)
      requires Valid()
      modifies this
      ensures Valid()
      ensures !(DistinctRoleIds(roles) && RolesExist(roles, roleKeys)) ==> r == Failure(DbUpdateException) && unchanged(this)
      ensures DistinctRoleIds(roles) && RolesExist(roles, roleKeys) ==>
        && r.Success? && r.value == entity.(id := old(nextId))
        && old(nextId) !in old(users)
        && users == old(users)[old(nextId) := r.value]
        && userRoles == old(userRoles) + set k | 0 <= k < |roles| :: UserRoleRow(old(nextId), roles[k].roleId)
    {
      if !DistinctRoleIds(roles) || !RolesExist(roles, roleKeys) {
        return Failure(DbUpdateException);
      }
      var stored := entity.(id := nextId);
      users := users[nextId := stored];
      userRoles := userRoles + set k | 0 <= k < |roles| :: UserRoleRow(nextId, roles[k].roleId);
      nextId := nextId + 1;
      return Success(stored);
    }

    /** DeleteAsync is a soft delete: a known user is kept and marked inactive. */
    method DeleteAsync(id: int) returns (deleted: bool)
      requires Valid()
      modifies this
      ensures Valid()
      ensures deleted <==> id in old(users)
      ensures deleted ==> users == old(users)[id := old(users)[id].(isActive := false)]
      ensures !deleted ==> users == old(users)
      ensures userRoles == old(userRoles) && nextId == old(nextId)
    {
      if id !in users {
        return false;
      }
      users := users[id := users[id].(isActive := false)];
      return true;
    }

    /** GetByIdWithRolesAsync only finds active users. */
    method GetByIdWithRolesAsync(id: int) returns (r: Option<UserWithRoles>)
      ensures r.Some? <==> id in users && users[id].isActive
      ensures r.Some? ==> r.value == UserWithRoles(users[id], RowsOf(id))
    {
      if id in users && users[id].isActive {
        return Some(UserWithRoles(users[id], RowsOf(id)));
      }
      return None;
    }

    /** GetByUsernameWithRolesAsync: SingleOrDefault over the active users
        with that username, which throws when there are several. */
    method GetByUsernameWithRolesAsync(username: string) returns (r: Result<Option<UserWithRoles>, Exception>)
      ensures |ActiveWithUsername(username)| == 0 ==> r == Success(None)
      ensures |ActiveWithUsername(username)| > 1 ==> r == Failure(InvalidOperationException)
      ensures |ActiveWithUsername(username)| == 1 ==>
        forall id :: id in ActiveWithUsername(username) ==> r == Success(Some(UserWithRoles(users[id], RowsOf(id))))
    {
      var matches := ActiveWithUsername(username);
      if |matches| == 0 {
        return Success(None);
      }
      if |matches| > 1 {
        return Failure(InvalidOperationException);
      }
      assert |matches| == 1;
      var id := TheElement(matches);
      return Success(Some(UserWithRoles(users[id], RowsOf(id))));
    }

    /** UpdateAsync copies the three name fields onto the stored record, active
        or not; an unknown id is dereferenced as null. */
    method UpdateAsync(user: UserEntity) returns (r: Result<UserEntity, Exception>)
      requires Valid()
      modifies this
      ensures Valid()
      ensures user.id !in old(users) ==> r == Failure(NullReferenceException) && users == old(users)
      ensures user.id in old(users) ==>
        var updated := old(users)[user.id].(firstName := user.firstName, lastName := user.lastName, username := user.username);
        r == Success(updated) && users == old(users)[user.id := updated]
      ensures userRoles == old(userRoles) && nextId == old(nextId)
    {
      if user.id !in users {
        return Failure(NullReferenceException);
      }
      var updated := users[user.id].(firstName := user.firstName, lastName := user.lastName, username := user.username);
      users := users[user.id := updated];
      return Success(updated);
    }

    /** AddUserRolesAsync inserts exactly the given rows; a row already stored,
        a row given twice, a row of an unknown user or a row naming no stored
        role makes SaveChanges fail. */
    method AddUserRolesAsync(rows: seq<UserRoleRow>, roleKeys: set<int>) returns (r: Result<(), Exception>)
      requires Valid()
      modifies this
      ensures Valid()
      ensures var acceptable := DistinctRows(rows) && RolesExist(rows, roleKeys) &&
          (forall k :: 0 <= k < |rows| ==> rows[k] !in old(userRoles) && rows[k].userId in old(users));
        && (acceptable ==> r.Success? && userRoles == old(userRoles) + set k | 0 <= k < |rows| :: rows[k])
        && (!acceptable ==> r == Failure(DbUpdateException) && userRoles == old(userRoles))
      ensures users == old(users) && nextId == old(nextId)
    {
      if !DistinctRows(rows) || !RolesExist(rows, roleKeys) || exists k :: 0 <= k < |rows| && (rows[k] in userRoles || rows[k].userId !in users) {
        return Failure(DbUpdateException);
      }
      userRoles := userRoles + set k | 0 <= k < |rows| :: rows[k];
      return Success(());
    }

    /** RemoveUserRolesAsync deletes exactly the given rows; deleting a row that
        is not stored makes SaveChanges fail. */
    method RemoveUserRolesAsync(rows: set<UserRoleRow>) returns (r: Result<(), Exception>)
      requires Valid()
      modifies this
      ensures Valid()
      ensures rows <= old(userRoles) ==> r.Success? && userRoles == old(userRoles) - rows
      ensures !(rows <= old(userRoles)) ==> r == Failure(DbUpdateException) && userRoles == old(userRoles)
      ensures users == old(users) && nextId == old(nextId)
    {
      if !(rows <= userRoles) {
        return Failure(DbUpdateException);
      }
      userRoles := userRoles - rows;
      return Success(());
    }

    /** UpdatePasswordAsync replaces only the digest and salt of the record with
        that id, active or not; a null or unknown id finds nothing. */
    method UpdatePasswordAsync(id: Option<int>, passwordHash: seq<byte>, passwordSalt: seq<byte>) returns (r: Option<UserEntity>)
      requires Valid()
      modifies this
      ensures Valid()
      ensures (id.None? || id.value !in old(users)) ==> r == None && users == old(users)
      ensures id.Some? && id.value in old(users) ==>
        var updated := old(users)[id.value].(passwordHash := passwordHash, passwordSalt := passwordSalt);
        r == Some(updated) && users == old(users)[id.value := updated]
      ensures userRoles == old(userRoles) && nextId == old(nextId)
    {
      if id.None? || id.value !in users {
        return None;
      }
      var updated := users[id.value].(passwordHash := passwordHash, passwordSalt := passwordSalt);
      users := users[id.value := updated];
      return Some(updated);
    }
  }

  /** The one element of a singleton set. */
  function TheElement<T>(s: set<T>): (x: T)
    requires |s| == 1
    ensures s == {x}
  {
    var x :| x in s;
    assert |s - {x}| == 0;
    x
  }
}
