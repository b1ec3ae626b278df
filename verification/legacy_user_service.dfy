/** UserService (root-level version): the service methods over the Guid-keyed
    user table. Reading maps a stored record to the service's User; the
    password is never read back. */
module LegacyUserService {
  import opened Common
  import opened Crypto
  import opened ServiceModel
  import opened LegacyModel
  import opened LegacyUserStore
  import UserPasswordService
  import LegacyUserPasswordService

  /** The mapper's view of a record whose Roles collection is in memory but
      whose Role navigations are not loaded: every field of the same name is
      copied, Password stays null, and each row becomes its role id. */
  function ToUser(e: LegacyUserEntity): (u: LegacyUser)
    ensures u.id == Some(e.id) && u.password.None? && u.isActive == e.isActive
    ensures u.firstName == e.firstName && u.lastName == e.lastName && u.username == e.username
    ensures u.passwordHash == e.passwordHash && u.passwordSalt == e.passwordSalt
    ensures |u.roles| == |e.roles|
    ensures forall k :: 0 <= k < |u.roles| ==> u.roles[k] == LegacyUserRole(e.roles[k].roleId, None)
  {
    LegacyUser(Some(e.id), e.firstName, e.lastName, e.username, None, e.passwordHash, e.passwordSalt, e.isActive,
      seq(|e.roles|, k requires 0 <= k < |e.roles| => LegacyUserRole(e.roles[k].roleId, None)))
  }

  /** The mapper's view of a record read without Include: the Roles
      navigation is not loaded, so the user comes back without roles. */
  function ToUserUnloaded(e: LegacyUserEntity): (u: LegacyUser)
    ensures u.roles == []
    ensures u.(roles := ToUser(e).roles) == ToUser(e)
  {
    ToUser(e).(roles := [])
  }

  /** The first role of the catalog with that id. */
  function FindRole(catalog: seq<Role>, id: int): (r: Option<Role>)
    ensures r.Some? <==> exists k :: 0 <= k < |catalog| && catalog[k].id == id
    ensures r.Some? ==> r.value in catalog && r.value.id == id
  {
    if catalog == [] then None
    else if catalog[0].id == id then Some(catalog[0])
    else FindRole(catalog[1..], id)
  }

  /** The mapper's view of a record read with Include("Roles.Role"): as
      ToUser, but each role carries the catalog role with its id, if any. */
  function ToUserWithRoles(e: LegacyUserEntity, catalog: seq<Role>): (u: LegacyUser)
    ensures u.(roles := []) == ToUser(e).(roles := [])
    ensures |u.roles| == |e.roles|
    ensures forall k :: 0 <= k < |u.roles| ==>
      && u.roles[k].roleId == e.roles[k].roleId
      && (u.roles[k].role.Some? <==> exists j :: 0 <= j < |catalog| && catalog[j].id == e.roles[k].roleId)
      && (u.roles[k].role.Some? ==> u.roles[k].role.value in catalog && u.roles[k].role.value.id == e.roles[k].roleId)
  {
    ToUser(e).(roles := seq(|e.roles|, k requires 0 <= k < |e.roles| => LegacyUserRole(e.roles[k].roleId, FindRole(catalog, e.roles[k].roleId))))
  }

  /** The mapper's view of the record Update returns. The rows that were
      stored before the update were loaded with Include("Roles.Role") and
      carry their catalog role; the rows the update added carry none, since
      no query loaded their role. `loaded` is the set of role ids of the rows
      stored before. */
  function ToUserAfterUpdate(e: LegacyUserEntity, catalog: seq<Role>, loaded: set<int>): (u: LegacyUser)
    ensures u.(roles := ToUser(e).roles) == ToUser(e)
    ensures |u.roles| == |e.roles|
    ensures forall k :: 0 <= k < |e.roles| && e.roles[k].roleId in loaded ==> u.roles[k] == ToUserWithRoles(e, catalog).roles[k]
    ensures forall k :: 0 <= k < |e.roles| && e.roles[k].roleId !in loaded ==> u.roles[k] == ToUser(e).roles[k]
  {
    ToUser(e).(roles := seq(|e.roles|, k requires 0 <= k < |e.roles| =>
      LegacyUserRole(e.roles[k].roleId, if e.roles[k].roleId in loaded then FindRole(catalog, e.roles[k].roleId) else None)))
  }

  /** When every row was loaded before, the record Update returns maps like
      one read with Include("Roles.Role"). */
  lemma AfterUpdateWithoutAdditions(e: LegacyUserEntity, catalog: seq<Role>, loaded: set<int>)
    requires RoleIdsOf(e.roles) <= loaded
    ensures ToUserAfterUpdate(e, catalog, loaded) == ToUserWithRoles(e, catalog)
  {
    var u := ToUserAfterUpdate(e, catalog, loaded);
    var w := ToUserWithRoles(e, catalog);
    forall k | 0 <= k < |e.roles| ensures u.roles[k] == w.roles[k] {
      assert e.roles[k].roleId in RoleIdsOf(e.roles);
    }
  }

  /** One role row per requested role, in order, pointing at the given user id. */
  function RowsFor(roles: seq<LegacyUserRole>, userId: Guid): (r: seq<LegacyUserRoleRow>)
    ensures |r| == |roles|
    ensures forall k :: 0 <= k < |r| ==> r[k].userId == userId && r[k].roleId == roles[k].roleId
  {
    seq(|roles|, k requires 0 <= k < |roles| => LegacyUserRoleRow(userId, roles[k].roleId))
  }

  /** The record CreateUser hands to Insert: active, names copied, the new
      digest and salt, and rows pointing at the still-empty id. */
  function NewEntity(user: LegacyUser, pair: UserPasswordService.HashPair): LegacyUserEntity {
    LegacyUserEntity(EmptyGuid, user.firstName, user.lastName, user.username, pair.hash, pair.salt, true,
      RowsFor(user.roles, EmptyGuid))
  }

  /** The record as Insert stores it, under its generated id. */
  function StoredEntity(user: LegacyUser, pair: UserPasswordService.HashPair, newId: Guid): (e: LegacyUserEntity)
    ensures e.id == newId && e.isActive
    ensures e.firstName == user.firstName && e.lastName == user.lastName && e.username == user.username
    ensures e.passwordHash == pair.hash && e.passwordSalt == pair.salt
    ensures |e.roles| == |user.roles|
    ensures forall k :: 0 <= k < |e.roles| ==> e.roles[k] == LegacyUserRoleRow(newId, user.roles[k].roleId)
  {
    var n := NewEntity(user, pair);
    n.(id := newId, roles := Owned(n.roles, newId))
  }

  /** CreateUser: hash the password (a null or blank one throws and nothing is
      stored), then insert the new active record with one row per role. The
      rows must name roles of the Role table, whose rows are `catalog`. */
  method CreateUser(repo: LegacyUserRepository, catalog: seq<Role>, platform: Platform, user: LegacyUser, freshKey: Key128, newId: Guid)
    returns (r: Result<LegacyUser, Exception>)
    requires repo.Valid()
    modifies repo
    ensures repo.Valid()
    ensures var hashed := LegacyUserPasswordService.CreateHashOutcome(platform, user.password, freshKey);
      && (hashed.Failure? ==> r == Failure(hashed.error) && repo.users == old(repo.users))
      && (hashed.Success? ==>
            var stored := StoredEntity(user, hashed.value, newId);
            var acceptable := IndexOfId(old(repo.users), newId).None? && |WithUsername(old(repo.users), user.username)| == 0 &&
              FitsColumns(stored) && DistinctRoleIds(stored.roles) && RoleIdsOf(stored.roles) <= RoleKeys(catalog);
            && (acceptable ==> r == Success(ToUser(stored)) && repo.users == old(repo.users) + [stored])
            && (!acceptable ==> r == Failure(DbUpdateException) && repo.users == old(repo.users)))
  {
    var hashed := LegacyUserPasswordService.CreateHash(platform, user.password, freshKey);
    if hashed.Failure? {
      return Failure(hashed.error);
    }
    var entity := NewEntity(user, hashed.value);
    ghost var stored := StoredEntity(user, hashed.value, newId);
    assert DistinctRoleIds(entity.roles) <==> DistinctRoleIds(stored.roles) by {
      assert forall k :: 0 <= k < |entity.roles| ==> entity.roles[k].roleId == stored.roles[k].roleId;
    }
    assert RoleIdsOf(entity.roles) == RoleIdsOf(stored.roles) by {
      assert forall k :: 0 <= k < |entity.roles| ==> entity.roles[k].roleId == stored.roles[k].roleId;
    }
    var inserted := repo.Insert(entity, newId, RoleKeys(catalog));
    if inserted.Failure? {
      return Failure(inserted.error);
    }
    return Success(ToUser(inserted.value));
  }

  /** A created user can log in with the password given at creation. */
  lemma CreatedPasswordValidates(platform: Platform, user: LegacyUser, freshKey: Key128, newId: Guid)
    requires LegacyUserPasswordService.CreateHashOutcome(platform, user.password, freshKey).Success?
    ensures var stored := StoredEntity(user, LegacyUserPasswordService.CreateHashOutcome(platform, user.password, freshKey).value, newId);
      UserPasswordService.HashCheck(platform, user.password, stored.passwordHash, stored.passwordSalt) == Success(true)
  {
    UserPasswordService.HashRoundTrip(platform, user.password.value, freshKey);
  }

  /** DeleteUser passes the id straight to the repository's soft delete. */
  method DeleteUser(repo: LegacyUserRepository, id: Guid) returns (r: Result<(), Exception>)
    requires repo.Valid()
    modifies repo
    ensures repo.Valid()
    ensures IndexOfId(old(repo.users), id).None? ==> r == Failure(InvalidOperationException) && repo.users == old(repo.users)
    ensures IndexOfId(old(repo.users), id).Some? ==>
      var i := IndexOfId(old(repo.users), id).value;
      r == Success(()) && repo.users == old(repo.users)[i := old(repo.users)[i].(isActive := false)]
  {
    r := repo.Delete(id);
  }

  // ---------------------------------------------------------------------------
  // GetAll: OrderBy(LastName).ThenBy(FirstName), a stable sort. Strings are
  // compared ordinally, character code by character code.

  /** Ordinal order on strings: a proper prefix comes first. */
  predicate TextLeq(a: string, b: string) {
    if a == [] then true
    else if b == [] then false
    else if a[0] != b[0] then a[0] < b[0]
    else TextLeq(a[1..], b[1..])
  }

  lemma {:induction false} TextLeqTotal(a: string, b: string)
    ensures TextLeq(a, b) || TextLeq(b, a)
    decreases |a|
  {
    if a != [] && b != [] && a[0] == b[0] {
      TextLeqTotal(a[1..], b[1..]);
    }
  }

  lemma {:induction false} TextLeqReflexive(a: string)
    ensures TextLeq(a, a)
    decreases |a|
  {
    if a != [] {
      TextLeqReflexive(a[1..]);
    }
  }

  lemma {:induction false} TextLeqAntisymmetric(a: string, b: string)
    requires TextLeq(a, b) && TextLeq(b, a)
    ensures a == b
    decreases |a|
  {
    if a != [] && b != [] {
      TextLeqAntisymmetric(a[1..], b[1..]);
      assert a == [a[0]] + a[1..] && b == [b[0]] + b[1..];
    }
  }

  lemma {:induction false} TextLeqTransitive(a: string, b: string, c: string)
    requires TextLeq(a, b) && TextLeq(b, c)
    ensures TextLeq(a, c)
    decreases |a|
  {
    if a != [] && b != [] && c != [] && a[0] == b[0] == c[0] {
      TextLeqTransitive(a[1..], b[1..], c[1..]);
    }
  }

  /** The sort key order: last name, then first name. */
  predicate NameLeq(u: LegacyUserEntity, v: LegacyUserEntity) {
    if u.lastName != v.lastName then TextLeq(u.lastName, v.lastName)
    else TextLeq(u.firstName, v.firstName)
  }

  /** Two records share the sort key exactly when each is ordered before the other. */
  lemma NameLeqBothWays(u: LegacyUserEntity, v: LegacyUserEntity)
    ensures (NameLeq(u, v) && NameLeq(v, u)) <==> (u.lastName == v.lastName && u.firstName == v.firstName)
  {
    if NameLeq(u, v) && NameLeq(v, u) {
      if u.lastName != v.lastName {
        TextLeqAntisymmetric(u.lastName, v.lastName);
      }
      TextLeqAntisymmetric(u.firstName, v.firstName);
    }
    if u.lastName == v.lastName && u.firstName == v.firstName {
      TextLeqReflexive(u.firstName);
    }
  }

  lemma NameLeqTotal(u: LegacyUserEntity, v: LegacyUserEntity)
    ensures NameLeq(u, v) || NameLeq(v, u)
  {
    TextLeqTotal(u.lastName, v.lastName);
    TextLeqTotal(u.firstName, v.firstName);
  }

  lemma NameLeqTransitive(u: LegacyUserEntity, v: LegacyUserEntity, w: LegacyUserEntity)
    requires NameLeq(u, v) && NameLeq(v, w)
    ensures NameLeq(u, w)
  {
    if u.lastName == v.lastName == w.lastName {
      TextLeqTransitive(u.firstName, v.firstName, w.firstName);
    } else if u.lastName == v.lastName {
      // w's last name differs from theirs
    } else if v.lastName == w.lastName {
      // u's last name differs from theirs
    } else {
      TextLeqTransitive(u.lastName, v.lastName, w.lastName);
      if u.lastName == w.lastName {
        TextLeqAntisymmetric(u.lastName, v.lastName);
      }
    }
  }

  predicate SortedByName(s: seq<LegacyUserEntity>) {
    forall i, j :: 0 <= i < j < |s| ==> NameLeq(s[i], s[j])
  }

  /** Place x after the last element ordered at or before it. */
  function InsertByName(sorted: seq<LegacyUserEntity>, x: LegacyUserEntity): (r: seq<LegacyUserEntity>)
    ensures |r| == |sorted| + 1
  {
    if sorted == [] || NameLeq(sorted[|sorted| - 1], x) then sorted + [x]
    else InsertByName(sorted[..|sorted| - 1], x) + [sorted[|sorted| - 1]]
  }

  /** The order GetAll returns: a stable sort by last name, then first name. */
  function SortByName(s: seq<LegacyUserEntity>): (r: seq<LegacyUserEntity>)
    ensures |r| == |s|
  {
    if s == [] then []
    else InsertByName(SortByName(s[..|s| - 1]), s[|s| - 1])
  }

  /** Inserting adds x and loses nothing. */
  lemma {:induction false} InsertByNamePermutes(sorted: seq<LegacyUserEntity>, x: LegacyUserEntity)
    ensures multiset(InsertByName(sorted, x)) == multiset(sorted) + multiset{x}
    decreases |sorted|
  {
    if sorted != [] && !NameLeq(sorted[|sorted| - 1], x) {
      var front := sorted[..|sorted| - 1];
      var y := sorted[|sorted| - 1];
      assert sorted == front + [y];
      InsertByNamePermutes(front, x);
      assert InsertByName(sorted, x) == InsertByName(front, x) + [y];
    }
  }

  /** GetAll returns every record exactly as often as the table holds it. */
  lemma {:induction false} SortByNamePermutes(s: seq<LegacyUserEntity>)
    ensures multiset(SortByName(s)) == multiset(s)
    decreases |s|
  {
    if s != [] {
      var front := s[..|s| - 1];
      assert s == front + [s[|s| - 1]];
      SortByNamePermutes(front);
      InsertByNamePermutes(SortByName(front), s[|s| - 1]);
    }
  }

  lemma {:induction false} InsertByNameSorted(sorted: seq<LegacyUserEntity>, x: LegacyUserEntity)
    requires SortedByName(sorted)
    ensures SortedByName(InsertByName(sorted, x))
    decreases |sorted|
  {
    if sorted == [] {
    } else if NameLeq(sorted[|sorted| - 1], x) {
      var r := sorted + [x];
      forall i, j | 0 <= i < j < |r|
        ensures NameLeq(r[i], r[j])
      {
        if j == |sorted| && i < |sorted| - 1 {
          NameLeqTransitive(sorted[i], sorted[|sorted| - 1], x);
        }
      }
    } else {
      var front := sorted[..|sorted| - 1];
      var y := sorted[|sorted| - 1];
      InsertByNameSorted(front, x);
      var ins := InsertByName(front, x);
      NameLeqTotal(y, x);
      var r := ins + [y];
      assert InsertByName(sorted, x) == r;
      InsertByNamePermutes(front, x);
      forall i | 0 <= i < |ins|
        ensures NameLeq(ins[i], y)
      {
        assert ins[i] in multiset(ins);
        if ins[i] != x {
          assert ins[i] in multiset(front);
          var k :| 0 <= k < |front| && front[k] == ins[i];
          assert sorted[k] == front[k];
        }
      }
      forall i, j | 0 <= i < j < |r|
        ensures NameLeq(r[i], r[j])
      {
        if j < |ins| {
          assert r[i] == ins[i] && r[j] == ins[j];
        }
      }
    }
  }

  /** GetAll's order is sorted by last name, then first name. */
  lemma {:induction false} SortByNameSorted(s: seq<LegacyUserEntity>)
    ensures SortedByName(SortByName(s))
    decreases |s|
  {
    if s != [] {
      SortByNameSorted(s[..|s| - 1]);
      InsertByNameSorted(SortByName(s[..|s| - 1]), s[|s| - 1]);
    }
  }

  /** The records with a given full name, in order. */
  function Named(s: seq<LegacyUserEntity>, lastName: string, firstName: string): (r: seq<LegacyUserEntity>)
    ensures forall k :: 0 <= k < |r| ==> r[k].lastName == lastName && r[k].firstName == firstName
  {
    if s == [] then []
    else
      var rest := Named(s[..|s| - 1], lastName, firstName);
      var last := s[|s| - 1];
      if last.lastName == lastName && last.firstName == firstName then rest + [last] else rest
  }

  lemma {:induction false} NamedAppend(a: seq<LegacyUserEntity>, b: seq<LegacyUserEntity>, lastName: string, firstName: string)
    ensures Named(a + b, lastName, firstName) == Named(a, lastName, firstName) + Named(b, lastName, firstName)
    decreases |b|
  {
    if b != [] {
      var front := b[..|b| - 1];
      assert (a + b)[..|a + b| - 1] == a + front;
      NamedAppend(a, front, lastName, firstName);
    } else {
      assert a + b == a;
    }
  }

  lemma NamedSingle(x: LegacyUserEntity, lastName: string, firstName: string)
    ensures Named([x], lastName, firstName) == (if x.lastName == lastName && x.firstName == firstName then [x] else [])
  {
    assert [x][..0] == [];
  }

  lemma {:induction false} InsertByNameStable(sorted: seq<LegacyUserEntity>, x: LegacyUserEntity, lastName: string, firstName: string)
    ensures Named(InsertByName(sorted, x), lastName, firstName) == Named(sorted, lastName, firstName) + Named([x], lastName, firstName)
    decreases |sorted|
  {
    if sorted == [] || NameLeq(sorted[|sorted| - 1], x) {
      NamedAppend(sorted, [x], lastName, firstName);
    } else {
      var front := sorted[..|sorted| - 1];
      var y := sorted[|sorted| - 1];
      var ins := InsertByName(front, x);
      assert InsertByName(sorted, x) == ins + [y];
      assert sorted == front + [y];
      InsertByNameStable(front, x, lastName, firstName);
      NamedAppend(ins, [y], lastName, firstName);
      NamedAppend(front, [y], lastName, firstName);
      // x and y cannot both carry the name: then y would be ordered at or before x
      NamedSingle(x, lastName, firstName);
      NamedSingle(y, lastName, firstName);
      NameLeqBothWays(y, x);
      var nf, nx, ny := Named(front, lastName, firstName), Named([x], lastName, firstName), Named([y], lastName, firstName);
      assert nx == [] || ny == [];
      assert nf + nx + ny == nf + ny + nx;
    }
  }

  /** GetAll is stable: records with the same full name keep the table order. */
  lemma {:induction false} SortByNameStable(s: seq<LegacyUserEntity>, lastName: string, firstName: string)
    ensures Named(SortByName(s), lastName, firstName) == Named(s, lastName, firstName)
    decreases |s|
  {
    if s != [] {
      var front := s[..|s| - 1];
      var last := s[|s| - 1];
      var sortedFront := SortByName(front);
      assert SortByName(s) == InsertByName(sortedFront, last);
      SortByNameStable(front, lastName, firstName);
      InsertByNameStable(sortedFront, last, lastName, firstName);
      assert s == front + [last];
      NamedAppend(front, [last], lastName, firstName);
    }
  }

  /** GetAll: every user, active or not, ordered by last name and then first
      name; Get loads no roles, so every user comes back without them. */
  method GetAll(repo: LegacyUserRepository) returns (r: seq<LegacyUser>)
    ensures |r| == |repo.users|
    ensures forall k :: 0 <= k < |r| ==> r[k] == ToUserUnloaded(SortByName(repo.users)[k])
  {
    var entities := repo.Get(None);
    var ordered := SortByName(entities);
    r := seq(|ordered|, k requires 0 <= k < |ordered| => ToUserUnloaded(ordered[k]));
  }

  /** GetById maps the repository's answer, which does not depend on the id,
      with its roles and their Role navigations loaded from the catalog. */
  method GetById(repo: LegacyUserRepository, catalog: seq<Role>, id: Guid) returns (r: Result<Option<LegacyUser>, Exception>)
    ensures |repo.users| == 0 ==> r == Success(None)
    ensures |repo.users| == 1 ==> r == Success(Some(ToUserWithRoles(repo.users[0], catalog)))
    ensures |repo.users| > 1 ==> r == Failure(InvalidOperationException)
  {
    var found := repo.GetById(id);
    if found.Failure? {
      return Failure(found.error);
    }
    if found.value.None? {
      return Success(None);
    }
    return Success(Some(ToUserWithRoles(found.value.value, catalog)));
  }

  /** GetByUsername: SingleOrDefault over the users with that username, active
      or not; under the unique index it never throws. Get loads no roles. */
  method GetByUsername(repo: LegacyUserRepository, username: string) returns (r: Result<Option<LegacyUser>, Exception>)
    requires repo.Valid()
    ensures r.Success?
    ensures r.value.Some? <==> exists k :: 0 <= k < |repo.users| && repo.users[k].username == username
    ensures r.value.Some? ==> exists k :: 0 <= k < |repo.users| && repo.users[k].username == username && r.value.value == ToUserUnloaded(repo.users[k])
  {
    var matches := repo.Get(Some((u: LegacyUserEntity) => u.username == username));
    UsernameMatchesAtMostOne(repo.users, username);
    assert matches == WithUsername(repo.users, username);
    var single := SingleOrDefault(matches);
    if single.value.None? {
      forall k | 0 <= k < |repo.users|
        ensures repo.users[k].username != username
      {
        assert repo.users[k] in repo.users;
      }
      return Success(None);
    }
    assert matches[0] in repo.users;
    return Success(Some(ToUserUnloaded(single.value.value)));
  }

  /** GetForAuthentication: the user with that username and its roles loaded from the role catalog. */
  method GetForAuthentication(repo: LegacyUserRepository, catalog: seq<Role>, username: string) returns (r: Result<Option<LegacyUser>, Exception>)
    requires repo.Valid()
    ensures r.Success?
    ensures r.value.Some? <==> exists k :: 0 <= k < |repo.users| && repo.users[k].username == username
    ensures r.value.Some? ==>
      exists k :: 0 <= k < |repo.users| && repo.users[k].username == username && r.value.value == ToUserWithRoles(repo.users[k], catalog)
  {
    var found := repo.GetByUsernameWithRoles(username);
    if found.value.None? {
      return Success(None);
    }
    var k :| 0 <= k < |repo.users| && repo.users[k] == found.value.value;
    return Success(Some(ToUserWithRoles(found.value.value, catalog)));
  }

  /** The record UpdateUser hands to Update: a null id maps to the empty Guid,
      and one row per requested role points at that id. */
  function UpdateEntity(user: LegacyUser): (e: LegacyUserEntity)
    ensures e.id == (if user.id.Some? then user.id.value else EmptyGuid)
    ensures RequestedIds(e.roles) == seq(|user.roles|, k requires 0 <= k < |user.roles| => user.roles[k].roleId)
  {
    var id := if user.id.Some? then user.id.value else EmptyGuid;
    LegacyUserEntity(id, user.firstName, user.lastName, user.username, user.passwordHash, user.passwordSalt, user.isActive,
      RowsFor(user.roles, id))
  }

  /** UpdateUser: names copied and the role ids reconciled in place; digest,
      salt and IsActive of the stored record stay as they are. An added role
      must name a role of the Role table, whose rows are `catalog`. */
  method UpdateUser(repo: LegacyUserRepository, catalog: seq<Role>, user: LegacyUser) returns (r: Result<LegacyUser, Exception>)
    requires repo.Valid()
    modifies repo
    ensures repo.Valid()
    ensures var id := UpdateEntity(user).id;
      var requested := seq(|user.roles|, k requires 0 <= k < |user.roles| => user.roles[k].roleId);
      && (IndexOfId(old(repo.users), id).None? ==> r == Failure(InvalidOperationException) && repo.users == old(repo.users))
      && (IndexOfId(old(repo.users), id).Some? ==>
            var i := IndexOfId(old(repo.users), id).value;
            var updated := old(repo.users)[i].(firstName := user.firstName, lastName := user.lastName, username := user.username,
              roles := ReconcileRoles(old(repo.users)[i].roles, requested, id));
            var held := RoleIdsOf(old(repo.users)[i].roles);
            var rejected := (exists k :: 0 <= k < |old(repo.users)| && k != i && old(repo.users)[k].username == user.username) ||
              !FitsColumns(updated) || !(RoleIdsOf(updated.roles) - held <= RoleKeys(catalog));
            && (rejected ==> r == Failure(DbUpdateException) && repo.users == old(repo.users))
            && (!rejected ==> r == Success(ToUserAfterUpdate(updated, catalog, held)) && repo.users == old(repo.users)[i := updated]))
  {
    var entity := UpdateEntity(user);
    var updated, loaded := repo.Update(entity, RoleKeys(catalog));
    if updated.Failure? {
      return Failure(updated.error);
    }
    return Success(ToUserAfterUpdate(updated.value, catalog, loaded));
  }

  /** After UpdateUser the stored user holds exactly the requested role ids, each once. */
  lemma UpdatedRolesAreRequested(stored: LegacyUserEntity, user: LegacyUser)
    requires DistinctRoleIds(stored.roles)
    ensures var requested := seq(|user.roles|, k requires 0 <= k < |user.roles| => user.roles[k].roleId);
      var roles := ReconcileRoles(stored.roles, requested, UpdateEntity(user).id);
      && RoleIdsOf(roles) == (set k | 0 <= k < |user.roles| :: user.roles[k].roleId)
      && DistinctRoleIds(roles)
  {
    var requested := seq(|user.roles|, k requires 0 <= k < |user.roles| => user.roles[k].roleId);
    ReconcileMeaning(stored.roles, requested, UpdateEntity(user).id);
    assert (set k | 0 <= k < |requested| :: requested[k]) == (set k | 0 <= k < |user.roles| :: user.roles[k].roleId);
  }
}
