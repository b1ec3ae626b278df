/** UserService (src): creating a user from a service-model request, replacing
    a user's roles by reconciling the stored rows with a requested id list, and
    replacing a password. The repository is passed in; the fresh key that
    HMACSHA512 would draw is a parameter. */
module UserService {
  import opened Common
  import opened Crypto
  import opened ServiceModel
  import opened UserStore
  import UserPasswordService
  import opened Enums

  /** Whether some row carries the role id. */
  predicate HasRole(rows: set<UserRoleRow>, roleId: int) {
    exists row :: row in rows && row.roleId == roleId
  }

  /** The role ids of a list of rows, in order. */
  function RoleIdList(rows: seq<UserRoleRow>): seq<int> {
    if rows == [] then [] else RoleIdList(rows[..|rows| - 1]) + [rows[|rows| - 1].roleId]
  }

  /** The rows AddRangeAsync stores. The query is lazy: each requested id is
      tested, in request order, against the user's live Roles collection, into
      which the change tracker has already fixed up every row added before it.
      So an id the user lacks is added once, however often it is requested. */
  function RolesToAdd(current: set<UserRoleRow>, roleIds: seq<int>, userId: int): (r: seq<UserRoleRow>)
    ensures forall k :: 0 <= k < |r| ==> r[k].userId == userId && !HasRole(current, r[k].roleId)
  {
    if roleIds == [] then []
    else
      var last := roleIds[|roleIds| - 1];
      var front := RolesToAdd(current, roleIds[..|roleIds| - 1], userId);
      if HasRole(current + RowSet(front), last) then front else front + [UserRoleRow(userId, last)]
  }

  /** The add list holds each requested id the user does not hold exactly once, and nothing else. */
  lemma {:induction false} RolesToAddCounts(current: set<UserRoleRow>, roleIds: seq<int>, userId: int)
    ensures forall id :: multiset(RoleIdList(RolesToAdd(current, roleIds, userId)))[id] ==
                         (if id in roleIds && !HasRole(current, id) then 1 else 0)
    decreases |roleIds|
  {
    if roleIds != [] {
      var front := roleIds[..|roleIds| - 1];
      var last := roleIds[|roleIds| - 1];
      var prev := RolesToAdd(current, front, userId);
      RolesToAddCounts(current, front, userId);
      assert roleIds == front + [last];
      assert forall id :: id in roleIds <==> id in front || id == last;
      if HasRole(current + RowSet(prev), last) {
        assert RolesToAdd(current, roleIds, userId) == prev;
        if !HasRole(current, last) {
          // the row carrying last was produced for an earlier request of it
          var row :| row in current + RowSet(prev) && row.roleId == last;
          var k :| 0 <= k < |prev| && prev[k] == row;
          RoleIdListMembers(prev, last);
          assert last in multiset(RoleIdList(prev));
        }
      } else {
        var r := prev + [UserRoleRow(userId, last)];
        assert RolesToAdd(current, roleIds, userId) == r;
        assert r[..|r| - 1] == prev;
        assert RoleIdList(r) == RoleIdList(prev) + [last];
        RoleIdListMembers(prev, last);
        forall k | 0 <= k < |prev| ensures prev[k].roleId != last {
          assert prev[k] in RowSet(prev);
        }
        assert multiset(RoleIdList(prev))[last] == 0;
      }
    }
  }

  /** A missing id requested twice is added once. */
  lemma RepeatedRequestAddedOnce(current: set<UserRoleRow>, id: int, userId: int)
    requires !HasRole(current, id)
    ensures RolesToAdd(current, [id, id], userId) == [UserRoleRow(userId, id)]
  {
    assert [id, id][..1] == [id];
    assert [id][..0] == [];
    var first := [UserRoleRow(userId, id)];
    assert RolesToAdd(current, [id], userId) == first;
    assert first[0] in RowSet(first);
  }

  /** The stored rows whose role id is not requested. */
  function RolesToRemove(current: set<UserRoleRow>, roleIds: seq<int>): set<UserRoleRow> {
    set row | row in current && row.roleId !in roleIds
  }

  /** The rows of a list, as a set. */
  function RowSet(rows: seq<UserRoleRow>): set<UserRoleRow> {
    set k | 0 <= k < |rows| :: rows[k]
  }

  /** A role id lies in the list of a row list exactly when some row carries it. */
  lemma {:induction false} RoleIdListMembers(rows: seq<UserRoleRow>, id: int)
    ensures id in RoleIdList(rows) <==> exists k :: 0 <= k < |rows| && rows[k].roleId == id
    decreases |rows|
  {
    if rows != [] {
      var front := rows[..|rows| - 1];
      RoleIdListMembers(front, id);
      if exists k :: 0 <= k < |rows| && rows[k].roleId == id {
        var k :| 0 <= k < |rows| && rows[k].roleId == id;
        if k < |rows| - 1 {
          assert front[k] == rows[k];
        }
      }
      if id in RoleIdList(front) {
        var k :| 0 <= k < |front| && front[k].roleId == id;
        assert rows[k] == front[k];
      }
    }
  }

  /** No role id of the add list is also the role id of a row to remove. */
  lemma ReconciliationDisjoint(current: set<UserRoleRow>, roleIds: seq<int>, userId: int)
    ensures forall k, row :: 0 <= k < |RolesToAdd(current, roleIds, userId)| && row in RolesToRemove(current, roleIds) ==>
      RolesToAdd(current, roleIds, userId)[k].roleId != row.roleId
  {
    var toAdd := RolesToAdd(current, roleIds, userId);
    forall k, row | 0 <= k < |toAdd| && row in RolesToRemove(current, roleIds)
      ensures toAdd[k].roleId != row.roleId
    {
      // the add list only holds ids the user does not hold, the remove set only rows the user holds
      assert row in current;
    }
  }

  /** Every role id of the add list was requested. */
  lemma AddedIdsRequested(current: set<UserRoleRow>, roleIds: seq<int>, userId: int)
    ensures forall k :: 0 <= k < |RolesToAdd(current, roleIds, userId)| ==>
      RolesToAdd(current, roleIds, userId)[k].roleId in roleIds
  {
    var toAdd := RolesToAdd(current, roleIds, userId);
    RolesToAddCounts(current, roleIds, userId);
    forall k | 0 <= k < |toAdd| ensures toAdd[k].roleId in roleIds {
      RoleIdListMembers(toAdd, toAdd[k].roleId);
      assert toAdd[k].roleId in multiset(RoleIdList(toAdd));
    }
  }

  /** A requested id the user lacks has a row in the add list. */
  lemma MissingIdAdded(current: set<UserRoleRow>, roleIds: seq<int>, userId: int, id: int)
    requires id in roleIds && !HasRole(current, id)
    ensures exists k :: 0 <= k < |RolesToAdd(current, roleIds, userId)| && RolesToAdd(current, roleIds, userId)[k].roleId == id
  {
    var toAdd := RolesToAdd(current, roleIds, userId);
    RolesToAddCounts(current, roleIds, userId);
    assert id in multiset(roleIds);
    assert id in multiset(RoleIdList(toAdd));
    RoleIdListMembers(toAdd, id);
  }

  /** Every requested id survives reconciliation. */
  lemma RequestedIdsKept(current: set<UserRoleRow>, roleIds: seq<int>, userId: int, id: int)
    requires id in roleIds
    ensures id in RoleIdsIn((current + RowSet(RolesToAdd(current, roleIds, userId))) - RolesToRemove(current, roleIds))
  {
    var toAdd := RolesToAdd(current, roleIds, userId);
    var removed := RolesToRemove(current, roleIds);
    var after := (current + RowSet(toAdd)) - removed;
    var row: UserRoleRow;
    if HasRole(current, id) {
      row :| row in current && row.roleId == id;
    } else {
      MissingIdAdded(current, roleIds, userId, id);
      var k :| 0 <= k < |toAdd| && toAdd[k].roleId == id;
      row := toAdd[k];
      assert row in RowSet(toAdd);
      assert row !in current;
    }
    assert row !in removed;
    assert row in after;
  }

  /** Adding the add list to a user's rows and then deleting the remove set
      leaves exactly the requested role ids. */
  lemma ReconciliationOutcome(current: set<UserRoleRow>, roleIds: seq<int>, userId: int)
    ensures RoleIdsIn((current + RowSet(RolesToAdd(current, roleIds, userId))) - RolesToRemove(current, roleIds))
      == set id | id in roleIds
  {
    var toAdd := RolesToAdd(current, roleIds, userId);
    var after := (current + RowSet(toAdd)) - RolesToRemove(current, roleIds);
    forall id | id in roleIds ensures id in RoleIdsIn(after) {
      RequestedIdsKept(current, roleIds, userId, id);
    }
    AddedIdsRequested(current, roleIds, userId);
    forall id | id in RoleIdsIn(after) ensures id in roleIds {
      var row :| row in after && row.roleId == id;
      if row !in current {
        var k :| 0 <= k < |toAdd| && toAdd[k] == row;
      }
    }
  }

  /** Rows added for, and removed from, one user leave the other users' rows alone. */
  lemma RowsAfterChange(store: set<UserRoleRow>, added: set<UserRoleRow>, removed: set<UserRoleRow>, id: int)
    requires forall row :: row in added ==> row.userId == id
    requires forall row :: row in removed ==> row.userId == id
    ensures RowsIn((store + added) - removed, id) == (RowsIn(store, id) + added) - removed
    ensures forall other :: other != id ==> RowsIn((store + added) - removed, other) == RowsIn(store, other)
  {
  }

  /** The rows of a user id nobody has yet are exactly the rows inserted for it. */
  lemma RowsOfNewUser(store: set<UserRoleRow>, added: set<UserRoleRow>, newId: int)
    requires forall row :: row in store ==> row.userId != newId
    requires forall row :: row in added ==> row.userId == newId
    ensures RowsIn(store + added, newId) == added
  {
  }

  /** No role id is requested twice. */
  predicate DistinctRequestedRoles(roles: seq<UserRole>) {
    forall a, b :: 0 <= a < b < |roles| ==> roles[a].roleId != roles[b].roleId
  }

  /** A role id is held exactly when it is among the role ids of the rows. */
  lemma HeldIffListed(current: set<UserRoleRow>, id: int)
    ensures HasRole(current, id) <==> id in RoleIdsIn(current)
  {
    if id in RoleIdsIn(current) {
      var row :| row in current && row.roleId == id;
    }
  }

  /** When the user already holds exactly the requested ids, nothing is added and nothing is removed. */
  lemma ReconciliationIdempotent(current: set<UserRoleRow>, roleIds: seq<int>, userId: int)
    requires RoleIdsIn(current) == set id | id in roleIds
    ensures RolesToAdd(current, roleIds, userId) == []
    ensures RolesToRemove(current, roleIds) == {}
  {
    var toAdd := RolesToAdd(current, roleIds, userId);
    var added := multiset(RoleIdList(toAdd));
    RolesToAddCounts(current, roleIds, userId);
    HeldIdsNotAdded(current, roleIds, userId);
    forall x ensures added[x] == 0 {
      HeldIffListed(current, x);
    }
    assert added == multiset{};
    RoleIdListIndex(toAdd);
    forall row | row in current ensures row.roleId in roleIds {
      assert row.roleId in RoleIdsIn(current);
    }
  }

  /** A list of integers has no repeats exactly when no value occurs twice in its multiset. */
  lemma {:induction false} DistinctIffSingleCounts(s: seq<int>)
    ensures (forall a, b :: 0 <= a < b < |s| ==> s[a] != s[b]) <==> AtMostOnce(multiset(s))
    decreases |s|
  {
    if s != [] {
      var front := s[..|s| - 1];
      var last := s[|s| - 1];
      assert s == front + [last];
      assert multiset(s) == multiset(front) + multiset{last};
      DistinctIffSingleCounts(front);
      if forall a, b :: 0 <= a < b < |s| ==> s[a] != s[b] {
        assert forall a, b :: 0 <= a < b < |front| ==> front[a] != front[b] by {
          forall a, b | 0 <= a < b < |front| ensures front[a] != front[b] {
            assert front[a] == s[a] && front[b] == s[b];
          }
        }
        forall a | 0 <= a < |front| ensures front[a] != last {
          assert front[a] == s[a];
        }
        assert last !in front;
      } else {
        var a, b :| 0 <= a < b < |s| && s[a] == s[b];
        if b < |s| - 1 {
          assert front[a] == front[b];
          var x :| multiset(front)[x] > 1;
          assert multiset(s)[x] > 1;
        } else {
          assert front[a] == last;
          assert multiset(s)[last] > 1;
        }
      }
    }
  }

  /** Rows of one user are distinct exactly when their role ids are. */
  lemma {:induction false} DistinctRowsOfOneUser(rows: seq<UserRoleRow>, userId: int)
    requires forall k :: 0 <= k < |rows| ==> rows[k].userId == userId
    ensures DistinctRows(rows) <==> (forall a, b :: 0 <= a < b < |RoleIdList(rows)| ==> RoleIdList(rows)[a] != RoleIdList(rows)[b])
    decreases |rows|
  {
    RoleIdListIndex(rows);
  }

  lemma {:induction false} RoleIdListIndex(rows: seq<UserRoleRow>)
    ensures |RoleIdList(rows)| == |rows|
    ensures forall k :: 0 <= k < |rows| ==> RoleIdList(rows)[k] == rows[k].roleId
    decreases |rows|
  {
    if rows != [] {
      RoleIdListIndex(rows[..|rows| - 1]);
    }
  }

  /** The add list never breaks the unique (UserId, RoleId) index. */
  lemma AddListDistinct(current: set<UserRoleRow>, roleIds: seq<int>, userId: int)
    ensures DistinctRows(RolesToAdd(current, roleIds, userId))
  {
    var toAdd := RolesToAdd(current, roleIds, userId);
    DistinctRowsOfOneUser(toAdd, userId);
    DistinctIffSingleCounts(RoleIdList(toAdd));
    RolesToAddCounts(current, roleIds, userId);
  }

  /** The add list breaks the role foreign key exactly when some requested id
      the user does not hold names no stored role. */
  lemma AddListKeys(current: set<UserRoleRow>, roleIds: seq<int>, userId: int, roleKeys: set<int>)
    ensures RolesExist(RolesToAdd(current, roleIds, userId), roleKeys) <==>
      (set x | x in roleIds) - RoleIdsIn(current) <= roleKeys
  {
    var toAdd := RolesToAdd(current, roleIds, userId);
    if RolesExist(toAdd, roleKeys) {
      forall x | x in roleIds && x !in RoleIdsIn(current) ensures x in roleKeys {
        HeldIffListed(current, x);
        MissingIdAdded(current, roleIds, userId, x);
      }
    }
    if (set x | x in roleIds) - RoleIdsIn(current) <= roleKeys {
      AddedIdsRequested(current, roleIds, userId);
      forall k | 0 <= k < |toAdd| ensures toAdd[k].roleId in roleKeys {
        HeldIffListed(current, toAdd[k].roleId);
      }
    }
  }

  /** No value occurs twice in the multiset. */
  ghost predicate AtMostOnce(m: multiset<int>) {
    forall x :: m[x] <= 1
  }

  /** An id the user already holds never appears in the add list. */
  lemma HeldIdsNotAdded(current: set<UserRoleRow>, roleIds: seq<int>, userId: int)
    ensures forall x :: HasRole(current, x) ==> multiset(RoleIdList(RolesToAdd(current, roleIds, userId)))[x] == 0
  {
    var toAdd := RolesToAdd(current, roleIds, userId);
    forall x | HasRole(current, x) ensures multiset(RoleIdList(toAdd))[x] == 0 {
      RoleIdListMembers(toAdd, x);
      assert !(exists k :: 0 <= k < |toAdd| && toAdd[k].roleId == x);
    }
  }

  /** Every requested role names a stored role. */
  predicate RequestedRolesExist(roles: seq<UserRole>, roleKeys: set<int>) {
    forall k :: 0 <= k < |roles| ==> roles[k].roleId in roleKeys
  }

  /** CreateUserAsync: hash the password, build an active record with the
      request's names, and one role row per requested role, then insert it.
      `roleKeys` are the keys of the Role table the rows refer to. */
  method CreateUserAsync(repo: UserRepository, roleKeys: set<int>, platform: Platform, user: User, freshKey: Key128)
    returns (r: Result<UserEntity, Exception>)
    requires repo.Valid()
    modifies repo
    ensures repo.Valid()
    ensures IsNullOrWhiteSpace(user.password) ==>
      r == Failure(ArgumentException(UserPasswordService.Message(EmptyWhiteSpace), "password")) && unchanged(repo)
    ensures !IsNullOrWhiteSpace(user.password) && !(DistinctRequestedRoles(user.roles) && RequestedRolesExist(user.roles, roleKeys)) ==>
      r == Failure(DbUpdateException) && unchanged(repo)
    ensures !IsNullOrWhiteSpace(user.password) && DistinctRequestedRoles(user.roles) && RequestedRolesExist(user.roles, roleKeys) ==>
      && r.Success?
      && r.value.id == old(repo.nextId) && r.value.id !in old(repo.users)
      && repo.users == old(repo.users)[r.value.id := r.value]
      && r.value.isActive
      && r.value.firstName == user.firstName && r.value.lastName == user.lastName && r.value.username == user.username
      && UserPasswordService.HashPair(r.value.passwordHash, r.value.passwordSalt) == UserPasswordService.HashOf(platform, user.password.value, freshKey)
      && UserPasswordService.HashCheck(platform, user.password, r.value.passwordHash, r.value.passwordSalt) == Success(true)
      && repo.RowsOf(r.value.id) == (set k | 0 <= k < |user.roles| :: UserRoleRow(r.value.id, user.roles[k].roleId))
      && repo.userRoles == old(repo.userRoles) + repo.RowsOf(r.value.id)
  {
    var hashed := UserPasswordService.CreateHash(platform, user.password, freshKey);
    if hashed.Failure? {
      return Failure(hashed.error);
    }
    var entity := UserEntity(0, user.firstName, user.lastName, user.username, hashed.value.hash, hashed.value.salt, true);
    var rows := seq(|user.roles|, k requires 0 <= k < |user.roles| => UserRoleRow(entity.id, user.roles[k].roleId));
    assert DistinctRoleIds(rows) <==> DistinctRequestedRoles(user.roles) by {
      assert forall k :: 0 <= k < |rows| ==> rows[k].roleId == user.roles[k].roleId;
    }
    assert RolesExist(rows, roleKeys) <==> RequestedRolesExist(user.roles, roleKeys) by {
      assert forall k :: 0 <= k < |rows| ==> rows[k].roleId == user.roles[k].roleId;
    }
    ghost var oldRoles := repo.userRoles;
    ghost var newId := repo.nextId;
    r := repo.InsertAsync(entity, rows, roleKeys);
    if r.Success? {
      UserPasswordService.HashRoundTrip(platform, user.password.value, freshKey);
      var added := set k | 0 <= k < |rows| :: UserRoleRow(newId, rows[k].roleId);
      assert added == set k | 0 <= k < |user.roles| :: UserRoleRow(newId, user.roles[k].roleId) by {
        forall k | 0 <= k < |rows| ensures UserRoleRow(newId, rows[k].roleId) == UserRoleRow(newId, user.roles[k].roleId) { }
      }
      RowsOfNewUser(oldRoles, added, newId);
    }
  }

  /** UpdateUserRolesAsync: the user must be active (otherwise the loaded
      record is null and dereferenced); missing requested ids are inserted,
      each once, rows of unrequested ids deleted, each only when its list is
      non-empty, and the user is read back. An inserted id naming no stored
      role (`roleKeys` are the Role table's keys) makes the insertion throw,
      and nothing changes. */
  method UpdateUserRolesAsync(repo: UserRepository, roleKeys: set<int>, id: int, roleIds: seq<int>)
    returns (r: Result<Option<UserWithRoles>, Exception>)
    requires repo.Valid()
    modifies repo
    ensures repo.Valid()
    ensures repo.users == old(repo.users) && repo.nextId == old(repo.nextId)
    ensures !(id in old(repo.users) && old(repo.users)[id].isActive) ==>
      r == Failure(NullReferenceException) && repo.userRoles == old(repo.userRoles)
    ensures id in old(repo.users) && old(repo.users)[id].isActive && !((set x | x in roleIds) - old(repo.RoleIdsOf(id)) <= roleKeys) ==>
      r == Failure(DbUpdateException) && repo.userRoles == old(repo.userRoles)
    ensures id in old(repo.users) && old(repo.users)[id].isActive && (set x | x in roleIds) - old(repo.RoleIdsOf(id)) <= roleKeys ==>
      var toAdd := RolesToAdd(old(repo.RowsOf(id)), roleIds, id);
      && r == Success(Some(UserWithRoles(repo.users[id], repo.RowsOf(id))))
      && repo.userRoles == (old(repo.userRoles) + RowSet(toAdd)) - RolesToRemove(old(repo.RowsOf(id)), roleIds)
      && repo.RoleIdsOf(id) == set x | x in roleIds
      && (forall other :: other != id ==> repo.RowsOf(other) == old(repo.RowsOf(other)))
    ensures old(repo.RoleIdsOf(id)) == (set x | x in roleIds) ==> repo.userRoles == old(repo.userRoles)
  {
    var loaded := repo.GetByIdWithRolesAsync(id);
    if loaded.None? {
      return Failure(NullReferenceException);
    }
    var current := loaded.value.roles;
    var toAdd := RolesToAdd(current, roleIds, id);
    AddListKeys(current, roleIds, id, roleKeys);
    if |toAdd| > 0 {
      forall k | 0 <= k < |toAdd| ensures toAdd[k] !in repo.userRoles {
        assert toAdd[k] !in current;
      }
      AddListDistinct(current, roleIds, id);
      var added := repo.AddUserRolesAsync(toAdd, roleKeys);
      if added.Failure? {
        return Failure(added.error);
      }
    }
    assert repo.userRoles == old(repo.userRoles) + RowSet(toAdd);
    var toRemove := RolesToRemove(current, roleIds);
    if |toRemove| > 0 {
      var removed := repo.RemoveUserRolesAsync(toRemove);
    }
    assert repo.userRoles == (old(repo.userRoles) + RowSet(toAdd)) - toRemove;
    var reloaded := repo.GetByIdWithRolesAsync(id);
    r := Success(reloaded);
    RowsAfterChange(old(repo.userRoles), RowSet(toAdd), toRemove, id);
    ReconciliationOutcome(current, roleIds, id);
    if old(repo.RoleIdsOf(id)) == set x | x in roleIds {
      ReconciliationIdempotent(current, roleIds, id);
    }
  }

  /** UpdateUserPasswordAsync: hash the new password, then store the pair on
      the record with that id. */
  method UpdateUserPasswordAsync(repo: UserRepository, platform: Platform, id: Option<int>,
                                 password: Option<string>, freshKey: Key128)
    returns (r: Result<Option<UserEntity>, Exception>)
    requires repo.Valid()
    modifies repo
    ensures repo.Valid()
    ensures repo.userRoles == old(repo.userRoles) && repo.nextId == old(repo.nextId)
    ensures IsNullOrWhiteSpace(password) ==>
      r == Failure(ArgumentException(UserPasswordService.Message(EmptyWhiteSpace), "password")) && repo.users == old(repo.users)
    ensures !IsNullOrWhiteSpace(password) && (id.None? || id.value !in old(repo.users)) ==>
      r == Success(None) && repo.users == old(repo.users)
    ensures !IsNullOrWhiteSpace(password) && id.Some? && id.value in old(repo.users) ==>
      var pair := UserPasswordService.HashOf(platform, password.value, freshKey);
      var updated := old(repo.users)[id.value].(passwordHash := pair.hash, passwordSalt := pair.salt);
      && r == Success(Some(updated))
      && repo.users == old(repo.users)[id.value := updated]
      && UserPasswordService.HashCheck(platform, password, updated.passwordHash, updated.passwordSalt) == Success(true)
  {
    var hashed := UserPasswordService.CreateHash(platform, password, freshKey);
    if hashed.Failure? {
      return Failure(hashed.error);
    }
    var stored := repo.UpdatePasswordAsync(id, hashed.value.hash, hashed.value.salt);
    if stored.Some? {
      UserPasswordService.HashRoundTrip(platform, password.value, freshKey);
    }
    return Success(stored);
  }
}
