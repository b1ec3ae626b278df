/** UserRepository (root-level version) over an in-memory User table in
    table order. Each user record holds its Roles collection, the role rows
    Include loads. The unique indexes on Username and on (user, role) are
    invariants of the store; a save that would break one is rejected. */
module LegacyUserStore {
  import opened Common
  import opened LegacyModel

  datatype LegacyUserRoleRow = LegacyUserRoleRow(userId: Guid, roleId: int)

  datatype LegacyUserEntity = LegacyUserEntity(
    id: Guid,
    firstName: string,
    lastName: string,
    username: string,
    passwordHash: seq<byte>,
    passwordSalt: seq<byte>,
    isActive: bool,
    roles: seq<LegacyUserRoleRow>)

  /** No role id occurs twice among the rows. */
  predicate DistinctRoleIds(rows: seq<LegacyUserRoleRow>) {
    forall a, b :: 0 <= a < b < |rows| ==> rows[a].roleId != rows[b].roleId
  }

  /** Some row carries the role id. */
  predicate HasRoleId(rows: seq<LegacyUserRoleRow>, roleId: int) {
    exists k :: 0 <= k < |rows| && rows[k].roleId == roleId
  }

  function RoleIdsOf(rows: seq<LegacyUserRoleRow>): set<int> {
    set k | 0 <= k < |rows| :: rows[k].roleId
  }

  lemma RoleIdsAppend(rows: seq<LegacyUserRoleRow>, row: LegacyUserRoleRow)
    ensures RoleIdsOf(rows + [row]) == RoleIdsOf(rows) + {row.roleId}
  {
    var all := rows + [row];
    forall id | id in RoleIdsOf(all)
      ensures id in RoleIdsOf(rows) + {row.roleId}
    {
      var k :| 0 <= k < |all| && all[k].roleId == id;
      if k < |rows| {
        assert rows[k].roleId == id;
      }
    }
    forall id | id in RoleIdsOf(rows)
      ensures id in RoleIdsOf(all)
    {
      var k :| 0 <= k < |rows| && rows[k].roleId == id;
      assert all[k].roleId == id;
    }
    assert all[|rows|].roleId == row.roleId;
  }

  /** The role ids of a request, in order. */
  function RequestedIds(rows: seq<LegacyUserRoleRow>): (r: seq<int>)
    ensures |r| == |rows| && forall k :: 0 <= k < |rows| ==> r[k] == rows[k].roleId
  {
    seq(|rows|, k requires 0 <= k < |rows| => rows[k].roleId)
  }

  /** The rows the removal loop leaves: those whose role id is requested, in order. */
  function KeepRequested(rows: seq<LegacyUserRoleRow>, requested: set<int>): (r: seq<LegacyUserRoleRow>)
    ensures forall k :: 0 <= k < |r| ==> r[k] in rows && r[k].roleId in requested
    ensures RoleIdsOf(r) == RoleIdsOf(rows) * requested
  {
    if rows == [] then []
    else
      var front := rows[..|rows| - 1];
      var last := rows[|rows| - 1];
      var kept := KeepRequested(front, requested);
      assert rows == front + [last];
      RoleIdsAppend(front, last);
      if last.roleId in requested then
        RoleIdsAppend(kept, last);
        kept + [last]
      else kept
  }

  /** Appending a row with a new role id keeps the role ids distinct. */
  lemma DistinctAppend(rows: seq<LegacyUserRoleRow>, row: LegacyUserRoleRow)
    requires DistinctRoleIds(rows) && row.roleId !in RoleIdsOf(rows)
    ensures DistinctRoleIds(rows + [row])
  {
    var all := rows + [row];
    forall a, b | 0 <= a < b < |all|
      ensures all[a].roleId != all[b].roleId
    {
      if b == |rows| {
        assert all[a] == rows[a];
        assert rows[a].roleId in RoleIdsOf(rows);
      }
    }
  }

  /** Removing rows keeps the role ids distinct. */
  lemma {:induction false} KeepRequestedDistinct(rows: seq<LegacyUserRoleRow>, requested: set<int>)
    requires DistinctRoleIds(rows)
    ensures DistinctRoleIds(KeepRequested(rows, requested))
    decreases |rows|
  {
    if rows != [] {
      var front := rows[..|rows| - 1];
      var last := rows[|rows| - 1];
      KeepRequestedDistinct(front, requested);
      var kept := KeepRequested(front, requested);
      if last.roleId in requested {
        forall k | 0 <= k < |front|
          ensures front[k].roleId != last.roleId
        {
          assert rows[k] == front[k];
        }
        assert last.roleId !in RoleIdsOf(front);
        DistinctAppend(kept, last);
      }
    }
  }

  /** When every row's role id is requested, nothing is removed. */
  lemma {:induction false} KeepRequestedAll(rows: seq<LegacyUserRoleRow>, requested: set<int>)
    requires RoleIdsOf(rows) <= requested
    ensures KeepRequested(rows, requested) == rows
    decreases |rows|
  {
    if rows != [] {
      var front := rows[..|rows| - 1];
      var last := rows[|rows| - 1];
      assert last.roleId in RoleIdsOf(rows);
      RoleIdsAppend(front, last);
      assert rows == front + [last];
      KeepRequestedAll(front, requested);
    }
  }

  /** The rows after the adding loop: each requested id not yet present is
      appended once, in request order, since the presence check sees the rows
      appended before it. */
  function AddMissing(rows: seq<LegacyUserRoleRow>, requested: seq<int>, userId: Guid): (r: seq<LegacyUserRoleRow>)
    ensures rows <= r
    ensures forall k :: |rows| <= k < |r| ==> r[k].userId == userId
    ensures RoleIdsOf(r) == RoleIdsOf(rows) + set k | 0 <= k < |requested| :: requested[k]
    ensures DistinctRoleIds(rows) ==> DistinctRoleIds(r)
  {
    if requested == [] then rows
    else
      var front := requested[..|requested| - 1];
      var id := requested[|requested| - 1];
      var prev := AddMissing(rows, front, userId);
      assert (set k | 0 <= k < |requested| :: requested[k]) == (set k | 0 <= k < |front| :: front[k]) + {id} by {
        assert forall k :: 0 <= k < |front| ==> front[k] == requested[k];
      }
      if HasRoleId(prev, id) then
        assert id in RoleIdsOf(prev);
        prev
      else
        var next := prev + [LegacyUserRoleRow(userId, id)];
        RoleIdsAppend(prev, LegacyUserRoleRow(userId, id));
        next
  }

  /** The user's Roles collection after Update: unrequested rows removed, missing ids added. */
  function ReconcileRoles(rows: seq<LegacyUserRoleRow>, requested: seq<int>, userId: Guid): seq<LegacyUserRoleRow> {
    AddMissing(KeepRequested(rows, set k | 0 <= k < |requested| :: requested[k]), requested, userId)
  }

  /** After reconciling, the role ids are exactly the requested ones, without
      repetition, and the rows kept come first, unchanged and in order. */
  lemma ReconcileMeaning(rows: seq<LegacyUserRoleRow>, requested: seq<int>, userId: Guid)
    ensures RoleIdsOf(ReconcileRoles(rows, requested, userId)) == set k | 0 <= k < |requested| :: requested[k]
    ensures DistinctRoleIds(rows) ==> DistinctRoleIds(ReconcileRoles(rows, requested, userId))
    ensures KeepRequested(rows, set k | 0 <= k < |requested| :: requested[k]) <= ReconcileRoles(rows, requested, userId)
    ensures (forall k :: 0 <= k < |rows| ==> rows[k].userId == userId) ==>
      forall k :: 0 <= k < |ReconcileRoles(rows, requested, userId)| ==> ReconcileRoles(rows, requested, userId)[k].userId == userId
  {
    if DistinctRoleIds(rows) {
      KeepRequestedDistinct(rows, set k | 0 <= k < |requested| :: requested[k]);
    }
  }

  /** Rows that already match the request are left exactly as they are. */
  lemma ReconcileIdempotent(rows: seq<LegacyUserRoleRow>, requested: seq<int>, userId: Guid)
    requires RoleIdsOf(rows) == set k | 0 <= k < |requested| :: requested[k]
    ensures ReconcileRoles(rows, requested, userId) == rows
  {
    var ids := set k | 0 <= k < |requested| :: requested[k];
    KeepRequestedAll(rows, ids);
    var r := AddMissing(rows, requested, userId);
    assert rows <= r;
    assert RoleIdsOf(r) == RoleIdsOf(rows);
    AddMissingAddsNothing(rows, requested, userId);
  }

  /** When every requested id is present, nothing is appended. */
  lemma {:induction false} AddMissingAddsNothing(rows: seq<LegacyUserRoleRow>, requested: seq<int>, userId: Guid)
    requires forall k :: 0 <= k < |requested| ==> requested[k] in RoleIdsOf(rows)
    ensures AddMissing(rows, requested, userId) == rows
    decreases |requested|
  {
    if requested != [] {
      var front := requested[..|requested| - 1];
      AddMissingAddsNothing(rows, front, userId);
      var id := requested[|requested| - 1];
      assert id in RoleIdsOf(rows);
      var k :| 0 <= k < |rows| && rows[k].roleId == id;
      assert HasRoleId(rows, id);
    }
  }

  /** The store's invariant: ids and usernames unique, and each user's rows
      its own, with no role twice. */
  ghost predicate ValidTable(users: seq<LegacyUserEntity>) {
    && (forall a, b :: 0 <= a < b < |users| ==> users[a].id != users[b].id && users[a].username != users[b].username)
    && (forall a :: 0 <= a < |users| ==>
          && FitsColumns(users[a])
          && DistinctRoleIds(users[a].roles)
          && forall k :: 0 <= k < |users[a].roles| ==> users[a].roles[k].userId == users[a].id)
  }

  /** The column widths of the User table: FirstName and LastName hold at most
      50 characters and Username at most 255; a longer value makes the save fail. */
  predicate FitsColumns(e: LegacyUserEntity) {
    |e.firstName| <= 50 && |e.lastName| <= 50 && |e.username| <= 255
  }

  /** Replacing one record by one with the same id, a username no other record
      has and its own distinct rows keeps the store's invariant. */
  lemma ValidAfterReplace(users: seq<LegacyUserEntity>, i: nat, updated: LegacyUserEntity)
    requires ValidTable(users) && i < |users|
    requires updated.id == users[i].id
    requires forall k :: 0 <= k < |users| && k != i ==> users[k].username != updated.username
    requires FitsColumns(updated) && DistinctRoleIds(updated.roles)
    requires forall k :: 0 <= k < |updated.roles| ==> updated.roles[k].userId == updated.id
    ensures ValidTable(users[i := updated])
  {
  }

  /** The position of the user with this id. */
  function IndexOfId(users: seq<LegacyUserEntity>, id: Guid): (r: Option<nat>)
    ensures r.Some? ==> r.value < |users| && users[r.value].id == id
    ensures r.None? ==> forall k :: 0 <= k < |users| ==> users[k].id != id
  {
    if users == [] then None
    else if users[|users| - 1].id == id then Some(|users| - 1)
    else IndexOfId(users[..|users| - 1], id)
  }

  /** The users a filter keeps, in table order. */
  function Where(users: seq<LegacyUserEntity>, filter: LegacyUserEntity -> bool): (r: seq<LegacyUserEntity>)
    ensures |r| <= |users|
    ensures forall k :: 0 <= k < |r| ==> r[k] in users && filter(r[k])
    ensures forall u :: u in users && filter(u) ==> u in r
    ensures (forall u :: u in users ==> !filter(u)) ==> r == []
  {
    if users == [] then []
    else
      var front := Where(users[..|users| - 1], filter);
      var last := users[|users| - 1];
      assert forall u :: u in users ==> u in users[..|users| - 1] || u == last;
      if filter(last) then front + [last] else front
  }

  /** The users with a given username, in table order. */
  function WithUsername(users: seq<LegacyUserEntity>, username: string): seq<LegacyUserEntity> {
    Where(users, (u: LegacyUserEntity) => u.username == username)
  }

  /** SingleOrDefault: nothing, the one element, or InvalidOperationException. */
  function SingleOrDefault(matches: seq<LegacyUserEntity>): (r: Result<Option<LegacyUserEntity>, Exception>)
    ensures r.Success? <==> |matches| <= 1
    ensures r.Success? && r.value.Some? <==> |matches| == 1
    ensures |matches| == 1 ==> r == Success(Some(matches[0]))
  {
    if |matches| == 0 then Success(None)
    else if |matches| == 1 then Success(Some(matches[0]))
    else Failure(InvalidOperationException)
  }

  /** Under the unique index, at most one user has a given username. */
  lemma {:induction false} UsernameMatchesAtMostOne(users: seq<LegacyUserEntity>, username: string)
    requires ValidTable(users)
    ensures |WithUsername(users, username)| <= 1
    decreases |users|
  {
    if users != [] {
      var front := users[..|users| - 1];
      assert ValidTable(front);
      UsernameMatchesAtMostOne(front, username);
      var last := users[|users| - 1];
      if last.username == username {
        forall u | u in front
          ensures u.username != username
        {
          var j :| 0 <= j < |front| && front[j] == u;
          assert users[j].username != users[|users| - 1].username;
        }
        assert |WithUsername(front, username)| == 0;
      }
    }
  }

  class LegacyUserRepository {
    var users: seq<LegacyUserEntity>

    ghost predicate Valid()
      reads this
    {
      ValidTable(users)
    }

    constructor ()
      ensures Valid() && users == []
    {
      users := [];
    }

    /** RepositoryBase.Get: the users the filter keeps (all when there is none), in table order. */
    method Get(filter: Option<LegacyUserEntity -> bool>) returns (r: seq<LegacyUserEntity>)
      ensures filter.None? ==> r == users
      ensures filter.Some? ==> r == Where(users, filter.value)
    {
      if filter.None? {
        return users;
      }
      return Where(users, filter.value);
    }

    /** RepositoryBase.Insert: the new record gets a generated key and its role
        rows point at it; a used key, a taken username, a name too long for its
        column, a role given twice or a role id that is not among the Role
        table's keys `roleKeys` is rejected and nothing is stored. */
    method Insert(entity: LegacyUserEntity, newId: Guid, roleKeys: set<int>) returns (r: Result<LegacyUserEntity, Exception>)
      requires Valid()
      modifies this
      ensures Valid()
      ensures var stored := entity.(id := newId, roles := Owned(entity.roles, newId));
        var acceptable := IndexOfId(old(users), newId).None? && |WithUsername(old(users), entity.username)| == 0 &&
          FitsColumns(entity) && DistinctRoleIds(entity.roles) && RoleIdsOf(entity.roles) <= roleKeys;
        && (acceptable ==> r == Success(stored) && users == old(users) + [stored])
        && (!acceptable ==> r == Failure(DbUpdateException) && users == old(users))
    {
      var stored := entity.(id := newId, roles := Owned(entity.roles, newId));
      if IndexOfId(users, newId).Some? || |WithUsername(users, entity.username)| != 0 || !FitsColumns(entity) || !DistinctRoleIds(entity.roles) ||
         !(RoleIdsOf(entity.roles) <= roleKeys) {
        return Failure(DbUpdateException);
      }
      forall a | 0 <= a < |users|
        ensures users[a].username != entity.username
      {
        assert users[a] in users;
      }
      users := users + [stored];
      return Success(stored);
    }

    /** Delete is a soft delete; an unknown id makes Single throw. */
    method Delete(id: Guid) returns (r: Result<(), Exception>)
      requires Valid()
      modifies this
      ensures Valid()
      ensures IndexOfId(old(users), id).None? ==> r == Failure(InvalidOperationException) && users == old(users)
      ensures IndexOfId(old(users), id).Some? ==>
        var i := IndexOfId(old(users), id).value;
        r == Success(()) && users == old(users)[i := old(users)[i].(isActive := false)]
    {
      var index := IndexOfId(users, id);
      if index.None? {
        return Failure(InvalidOperationException);
      }
      users := users[index.value := users[index.value].(isActive := false)];
      return Success(());
    }

    /** GetById ignores its argument: it is SingleOrDefault over the whole table. */
    method GetById(id: Guid) returns (r: Result<Option<LegacyUserEntity>, Exception>)
      ensures |users| == 0 ==> r == Success(None)
      ensures |users| == 1 ==> r == Success(Some(users[0]))
      ensures |users| > 1 ==> r == Failure(InvalidOperationException)
    {
      return SingleOrDefault(users);
    }

    /** GetByUsernameWithRoles: the user with that username, active or not. */
    method GetByUsernameWithRoles(username: string) returns (r: Result<Option<LegacyUserEntity>, Exception>)
      requires Valid()
      ensures r.Success?
      ensures r.value.Some? <==> exists k :: 0 <= k < |users| && users[k].username == username
      ensures r.value.Some? ==> r.value.value in users && r.value.value.username == username
    {
      var matches := WithUsername(users, username);
      UsernameMatchesAtMostOne(users, username);
      r := SingleOrDefault(matches);
      if r.value.None? {
        forall k | 0 <= k < |users|
          ensures users[k].username != username
        {
          assert users[k] in users;
        }
      }
    }

    /** Update reconciles the stored user's Roles collection in place with the
        input's role ids, then copies the names; hash, salt and IsActive stay.
        An unknown id makes Single throw; a username taken by another user, a
        name too long for its column, or an added row whose role id is not
        among the Role table's keys `roleKeys`, is rejected and nothing is
        stored. `loaded` holds the role ids of the rows whose Role navigation
        Include("Roles.Role") loaded: those stored before the update. */
    method Update(input: LegacyUserEntity, roleKeys: set<int>) returns (r: Result<LegacyUserEntity, Exception>, loaded: set<int>)
      requires Valid()
      modifies this
      ensures Valid()
      ensures IndexOfId(old(users), input.id).None? ==> r == Failure(InvalidOperationException) && users == old(users)
      ensures IndexOfId(old(users), input.id).Some? ==> loaded == RoleIdsOf(old(users)[IndexOfId(old(users), input.id).value].roles)
      ensures IndexOfId(old(users), input.id).Some? ==>
        var i := IndexOfId(old(users), input.id).value;
        var updated := old(users)[i].(firstName := input.firstName, lastName := input.lastName, username := input.username,
          roles := ReconcileRoles(old(users)[i].roles, RequestedIds(input.roles), input.id));
        var rejected := (exists k :: 0 <= k < |old(users)| && k != i && old(users)[k].username == input.username) ||
          !FitsColumns(input) || !(RoleIdsOf(updated.roles) - RoleIdsOf(old(users)[i].roles) <= roleKeys);
        && (rejected ==> r == Failure(DbUpdateException) && users == old(users))
        && (!rejected ==> r == Success(updated) && users == old(users)[i := updated])
    {
      var index := IndexOfId(users, input.id);
      if index.None? {
        return Failure(InvalidOperationException), {};
      }
      var i := index.value;
      var entity := users[i];
      loaded := RoleIdsOf(entity.roles);
      var requested := RequestedIds(input.roles);
      ghost var requestedSet := set k | 0 <= k < |requested| :: requested[k];
      var roles := RemoveUnlisted(entity.roles, requested);
      roles := AddListed(roles, requested, input.id);
      var updated := entity.(firstName := input.firstName, lastName := input.lastName, username := input.username, roles := roles);
      if (exists k :: 0 <= k < |users| && k != i && users[k].username == input.username) || !FitsColumns(input) ||
         !(RoleIdsOf(roles) - RoleIdsOf(entity.roles) <= roleKeys) {
        return Failure(DbUpdateException), loaded;
      }
      ReconcileMeaning(entity.roles, requested, input.id);
      ValidAfterReplace(users, i, updated);
      users := users[i := updated];
      return Success(updated), loaded;
    }

    /** UpdatePassword replaces only the digest and salt; a null or unknown id makes Single throw. */
    method UpdatePassword(id: Option<Guid>, passwordHash: seq<byte>, passwordSalt: seq<byte>) returns (r: Result<LegacyUserEntity, Exception>)
      requires Valid()
      modifies this
      ensures Valid()
      ensures (id.None? || IndexOfId(old(users), id.value).None?) ==> r == Failure(InvalidOperationException) && users == old(users)
      ensures id.Some? && IndexOfId(old(users), id.value).Some? ==>
        var i := IndexOfId(old(users), id.value).value;
        var updated := old(users)[i].(passwordHash := passwordHash, passwordSalt := passwordSalt);
        r == Success(updated) && users == old(users)[i := updated]
    {
      if id.None? {
        return Failure(InvalidOperationException);
      }
      var index := IndexOfId(users, id.value);
      if index.None? {
        return Failure(InvalidOperationException);
      }
      var updated := users[index.value].(passwordHash := passwordHash, passwordSalt := passwordSalt);
      users := users[index.value := updated];
      return Success(updated);
    }
  }

  /** The removal loop of Update: the rows whose role id the input does not list are removed. */
  method RemoveUnlisted(current: seq<LegacyUserRoleRow>, requested: seq<int>) returns (roles: seq<LegacyUserRoleRow>)
    ensures roles == KeepRequested(current, set k | 0 <= k < |requested| :: requested[k])
  {
    ghost var requestedSet := set k | 0 <= k < |requested| :: requested[k];
    roles := [];
    for k := 0 to |current|
      invariant roles == KeepRequested(current[..k], requestedSet)
    {
      assert current[..k + 1][..k] == current[..k];
      var listed := exists j :: 0 <= j < |requested| && requested[j] == current[k].roleId;
      assert listed <==> current[k].roleId in requestedSet;
      if listed {
        roles := roles + [current[k]];
      }
    }
    assert current[..|current|] == current;
  }

  /** The adding loop of Update: each listed role id not present yet is added, once. */
  method AddListed(kept: seq<LegacyUserRoleRow>, requested: seq<int>, userId: Guid) returns (roles: seq<LegacyUserRoleRow>)
    ensures roles == AddMissing(kept, requested, userId)
  {
    roles := kept;
    for k := 0 to |requested|
      invariant roles == AddMissing(kept, requested[..k], userId)
    {
      assert requested[..k + 1][..k] == requested[..k];
      if !HasRoleId(roles, requested[k]) {
        roles := roles + [LegacyUserRoleRow(userId, requested[k])];
      }
    }
    assert requested[..|requested|] == requested;
  }

  /** Role rows after navigation fix-up: each points at the given user. */
  function Owned(rows: seq<LegacyUserRoleRow>, userId: Guid): (r: seq<LegacyUserRoleRow>)
    ensures |r| == |rows|
    ensures forall k :: 0 <= k < |r| ==> r[k] == LegacyUserRoleRow(userId, rows[k].roleId)
  {
    seq(|rows|, k requires 0 <= k < |rows| => LegacyUserRoleRow(userId, rows[k].roleId))
  }
}
