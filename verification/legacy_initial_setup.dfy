/** The Role table's repository and InitialSetupService (root-level version):
    roles are inserted one at a time, each with its own save, and the
    administrator is created through the legacy UserService. */
module LegacyRoleStore {
  import opened Common
  import opened ServiceModel
  import opened RoleStore

  /** The Role table together with the part of the context's identity map
      that holds roles. */
  class LegacyRoleRepository {
    var roles: seq<Role>
    /** The keys of the stored roles the context tracks: those it has read or inserted. */
    var tracked: set<int>

    ghost predicate Valid()
      reads this
    {
      DistinctIds(roles) && tracked <= RoleKeys(roles)
    }

    constructor ()
      ensures Valid() && roles == [] && tracked == {}
    {
      roles := [];
      tracked := {};
    }

    /** RepositoryBase.Get without a filter: every role, in table order. The
        caller's ToList reads them through the context, which tracks them. */
    method Get() returns (r: seq<Role>)
      requires Valid()
      modifies this
      ensures Valid()
      ensures r == roles && roles == old(roles)
      ensures tracked == old(tracked) + RoleKeys(roles)
    {
      r := roles;
      tracked := tracked + RoleKeys(roles);
    }

    /** RepositoryBase.Insert: Add throws when the context already tracks a
        role with that key; otherwise a key already stored makes SaveChanges
        fail. Either way nothing is added. */
    method Insert(role: Role) returns (r: Result<Role, Exception>)
      requires Valid()
      modifies this
      ensures Valid()
      ensures role.id in old(tracked) ==> r == Failure(InvalidOperationException) && roles == old(roles) && tracked == old(tracked)
      ensures role.id !in old(tracked) && role.id in RoleKeys(old(roles)) ==>
        r == Failure(DbUpdateException) && roles == old(roles) && tracked == old(tracked)
      ensures role.id !in RoleKeys(old(roles)) ==>
        r == Success(role) && roles == old(roles) + [role] && tracked == old(tracked) + {role.id}
    {
      if role.id in tracked {
        return Failure(InvalidOperationException);
      }
      if role.id in RoleKeys(roles) {
        return Failure(DbUpdateException);
      }
      forall k | 0 <= k < |roles|
        ensures roles[k].id != role.id
      {
        assert roles[k].id in RoleKeys(roles);
      }
      KeysAppend(roles, role);
      roles := roles + [role];
      tracked := tracked + {role.id};
      return Success(role);
    }
  }

  /** The keys of a list with one more role. */
  lemma KeysAppend(roles: seq<Role>, role: Role)
    ensures RoleKeys(roles + [role]) == RoleKeys(roles) + {role.id}
  {
    var all := roles + [role];
    forall id | id in RoleKeys(all) ensures id in RoleKeys(roles) + {role.id} {
      var k :| 0 <= k < |all| && all[k].id == id;
      if k < |roles| {
        assert roles[k].id == id;
      }
    }
    forall id | id in RoleKeys(roles) ensures id in RoleKeys(all) {
      var k :| 0 <= k < |roles| && roles[k].id == id;
      assert all[k].id == id;
    }
    assert all[|roles|].id == role.id;
  }
}

module LegacyInitialSetupService {
  import opened Common
  import opened Crypto
  import opened ServiceModel
  import opened RoleStore
  import opened LegacyModel
  import opened LegacyUserStore
  import opened LegacyRoleStore
  import InitialSetupService
  import LegacyUserService
  import LegacyUserPasswordService
  import UserPasswordService

  /** The default administrator: active, holding the Administrator role only. */
  function LegacyAdminUser(n: RoleNumbering): LegacyUser {
    LegacyUser(None, "Default", "Administrator", InitialSetupService.AdminUsername, Some(InitialSetupService.AdminPassword),
      [], [], true, [LegacyUserRole(n.administrator, None)])
  }

  class LegacyInitialSetupService {
    const numbering: RoleNumbering
    const roles: seq<Role>
    const adminUser: LegacyUser

    ghost predicate Valid()
      reads this
    {
      roles == InitialSetupService.SeedRoles(numbering) && adminUser == LegacyAdminUser(numbering)
    }

    constructor (n: RoleNumbering)
      ensures Valid() && numbering == n
    {
      var members := InitialSetupService.EnumMembers(n);
      var seeded: seq<Role> := [];
      for k := 0 to |members|
        invariant seeded == InitialSetupService.SeedRoles(n)[..k]
      {
        seeded := seeded + [Role(members[k].0, members[k].1, members[k].1)];
      }
      var admin := LegacyAdminUser(n).(roles := []);
      admin := admin.(roles := admin.roles + [LegacyUserRole(n.administrator, None)]);
      numbering := n;
      roles := seeded;
      adminUser := admin;
    }

    /** InitialSetup: nothing when a role exists. Otherwise the roles are
        inserted in order until one fails, whose exception ends setup with the
        earlier ones kept; then the administrator is created, which fails when
        the username "admin" or the generated id is already taken. The
        administrator's row names the seeded Administrator role. */
    method InitialSetup(roleRepo: LegacyRoleRepository, userRepo: LegacyUserRepository, platform: Platform,
                        freshKey: Key128, newId: Guid)
      returns (r: Result<(), Exception>)
      requires Valid() && roleRepo.Valid() && userRepo.Valid()
      modifies roleRepo, userRepo
      ensures roleRepo.Valid() && userRepo.Valid()
      ensures |old(roleRepo.roles)| > 0 ==>
        && r == Success(()) && roleRepo.roles == old(roleRepo.roles) && userRepo.users == old(userRepo.users)
        && roleRepo.tracked == RoleKeys(roleRepo.roles)
      ensures |old(roleRepo.roles)| == 0 && !DistinctIds(roles) ==>
        && r == Failure(InvalidOperationException)
        && roleRepo.roles < roles && roles[|roleRepo.roles|].id in RoleKeys(roleRepo.roles)
        && userRepo.users == old(userRepo.users)
      ensures |old(roleRepo.roles)| == 0 && DistinctIds(roles) ==>
        var acceptable := IndexOfId(old(userRepo.users), newId).None? &&
          |WithUsername(old(userRepo.users), InitialSetupService.AdminUsername)| == 0;
        && roleRepo.roles == roles
        && (!acceptable ==> r == Failure(DbUpdateException) && userRepo.users == old(userRepo.users))
        && (acceptable ==>
              && r == Success(())
              && |userRepo.users| == |old(userRepo.users)| + 1
              && userRepo.users[..|old(userRepo.users)|] == old(userRepo.users)
              && var admin := userRepo.users[|old(userRepo.users)|];
              && admin.id == newId && admin.username == InitialSetupService.AdminUsername && admin.isActive
              && admin.firstName == "Default" && admin.lastName == "Administrator"
              && UserPasswordService.HashCheck(platform, Some(InitialSetupService.AdminPassword), admin.passwordHash, admin.passwordSalt) == Success(true)
              && RoleIdsOf(admin.roles) == {numbering.administrator}
              && RoleIdsOf(admin.roles) <= RoleKeys(roleRepo.roles))
    {
      var existing := roleRepo.Get();
      if |existing| > 0 {
        return Success(());
      }
      var inserted := InsertAll(roleRepo, roles);
      if inserted.Failure? {
        return Failure(inserted.error);
      }
      assert !IsNullOrWhiteSpace(adminUser.password) by {
        assert !IsWhiteSpace(InitialSetupService.AdminPassword[0]);
      }
      ghost var pair := UserPasswordService.HashOf(platform, InitialSetupService.AdminPassword, freshKey);
      assert LegacyUserPasswordService.CreateHashOutcome(platform, adminUser.password, freshKey) == Success(pair);
      ghost var stored := LegacyUserService.StoredEntity(adminUser, pair, newId);
      assert stored.roles == [LegacyUserRoleRow(newId, numbering.administrator)];
      assert RoleIdsOf(stored.roles) == {numbering.administrator} by {
        RoleIdsAppend([], LegacyUserRoleRow(newId, numbering.administrator));
      }
      LegacyUserService.CreatedPasswordValidates(platform, adminUser, freshKey, newId);
      InitialSetupService.AdminRoleSeeded(numbering);
      var created := LegacyUserService.CreateUser(userRepo, roleRepo.roles, platform, adminUser, freshKey, newId);
      if created.Failure? {
        return Failure(created.error);
      }
      return Success(());
    }
  }

  /** The seeding loop over an empty table: each role is inserted with its
      own save through one context, which keeps tracking the roles already
      inserted. So a key repeated in the list makes Add throw, and the roles
      inserted before it stay. */
  method InsertAll(roleRepo: LegacyRoleRepository, roles: seq<Role>) returns (r: Result<(), Exception>)
    requires roleRepo.Valid() && roleRepo.roles == []
    modifies roleRepo
    ensures roleRepo.Valid()
    ensures DistinctIds(roles) ==> r == Success(()) && roleRepo.roles == roles
    ensures !DistinctIds(roles) ==>
      r == Failure(InvalidOperationException) && roleRepo.roles < roles && roles[|roleRepo.roles|].id in RoleKeys(roleRepo.roles)
  {
    for k := 0 to |roles|
      invariant roleRepo.Valid()
      invariant roleRepo.roles == roles[..k]
      invariant roleRepo.tracked == RoleKeys(roles[..k])
    {
      assert roles[..k + 1] == roles[..k] + [roles[k]];
      KeysAppend(roles[..k], roles[k]);
      var inserted := roleRepo.Insert(roles[k]);
      if inserted.Failure? {
        assert roles[..k] < roles;
        assert !DistinctIds(roles) by {
          var j :| 0 <= j < k && roles[j].id == roles[k].id;
        }
        return Failure(inserted.error);
      }
    }
    assert roles[..|roles|] == roles;
    return Success(());
  }

  /** With distinct enum values the seeding always succeeds. */
  lemma SeedingSucceeds(n: RoleNumbering)
    requires WellFormedNumbering(n)
    ensures DistinctIds(InitialSetupService.SeedRoles(n))
  {
    InitialSetupService.SeedRolesShape(n);
  }
}
