/** The Role table's repository and InitialSetupService (src): on first start
    the roles of the `Roles` enumeration are seeded and a default administrator
    is created; once any role exists, setup does nothing. */
module RoleStore {
  import opened Common
  import opened ServiceModel

  /** No role id occurs twice. */
  predicate DistinctIds(roles: seq<Role>) {
    forall a, b :: 0 <= a < b < |roles| ==> roles[a].id != roles[b].id
  }

  /** The Role table, keyed by its (not generated) Id column. */
  class RoleRepository {
    var roles: seq<Role>

    ghost predicate Valid()
      reads this
    {
      DistinctIds(roles)
    }

    constructor ()
      ensures Valid() && roles == []
    {
      roles := [];
    }

    method GetRoleCount() returns (count: int)
      ensures count == |roles|
    {
      count := |roles|;
    }

    /** InsertRoles adds the rows in order; a key given twice or already stored makes SaveChanges fail. */
    method InsertRoles(rows: seq<Role>) returns (r: Result<(), Exception>)
      requires Valid()
      modifies this
      ensures Valid()
      ensures DistinctIds(old(roles) + rows) ==> r == Success(()) && roles == old(roles) + rows
      ensures !DistinctIds(old(roles) + rows) ==> r == Failure(DbUpdateException) && roles == old(roles)
    {
      if !DistinctIds(roles + rows) {
        return Failure(DbUpdateException);
      }
      roles := roles + rows;
      return Success(());
    }
  }
}

module InitialSetupService {
  import opened Common
  import opened Crypto
  import opened ServiceModel
  import opened UserStore
  import opened RoleStore
  import UserService
  import UserPasswordService
  import UserPasswordValidationService

  const AdminUsername: string := "admin"
  const AdminPassword: string := "Admin1!"

  /** The position of an enum value in Enum.GetValues, which orders by the
      value read as an unsigned 32-bit number. */
  function UnsignedOrder(value: int): int {
    if value < 0 then value + 0x1_0000_0000 else value
  }

  /** The enumeration's members (value and name), in Enum.GetValues order. */
  function EnumMembers(n: RoleNumbering): (r: seq<(int, string)>)
    ensures |r| == 2
    ensures multiset(r) == multiset{(n.administrator, "Administrator"), (n.user, "User")}
    ensures UnsignedOrder(r[0].0) <= UnsignedOrder(r[1].0)
  {
    if UnsignedOrder(n.administrator) <= UnsignedOrder(n.user)
    then [(n.administrator, "Administrator"), (n.user, "User")]
    else [(n.user, "User"), (n.administrator, "Administrator")]
  }

  /** The default administrator: active, holding the Administrator role only. */
  function AdminUser(n: RoleNumbering): User {
    User(None, "Default", "Administrator", AdminUsername, Some(AdminPassword), [], [], true,
      [UserRole(0, n.administrator, None)])
  }

  /** The seeded roles: one per enum member in Enum.GetValues order, named and described by the member's name. */
  function SeedRoles(n: RoleNumbering): seq<Role> {
    var m := EnumMembers(n);
    [Role(m[0].0, m[0].1, m[0].1), Role(m[1].0, m[1].1, m[1].1)]
  }

  class InitialSetupService {
    const numbering: RoleNumbering
    const roles: seq<Role>
    const adminUser: User

    ghost predicate Valid()
      reads this
    {
      roles == SeedRoles(numbering) && adminUser == AdminUser(numbering)
    }

    constructor (n: RoleNumbering)
      ensures Valid() && numbering == n
    {
      var members := EnumMembers(n);
      var seeded: seq<Role> := [];
      for k := 0 to |members|
        invariant seeded == SeedRoles(n)[..k]
      {
        seeded := seeded + [Role(members[k].0, members[k].1, members[k].1)];
      }
      numbering := n;
      roles := seeded;
      adminUser := AdminUser(n);
    }

    /** InitialSetup: nothing when a role exists; otherwise seed the roles and
        create the administrator. Distinct enum values are needed for the
        seeding to pass the table's primary key. */
    method InitialSetup(roleRepo: RoleRepository, userRepo: UserRepository, platform: Platform, freshKey: Key128)
      returns (r: Result<(), Exception>)
      requires Valid() && roleRepo.Valid() && userRepo.Valid()
      modifies roleRepo, userRepo
      ensures roleRepo.Valid() && userRepo.Valid()
      ensures |old(roleRepo.roles)| > 0 ==> r == Success(()) && unchanged(roleRepo) && unchanged(userRepo)
      ensures |old(roleRepo.roles)| == 0 && !DistinctIds(roles) ==>
        r == Failure(DbUpdateException) && roleRepo.roles == old(roleRepo.roles) && unchanged(userRepo)
      ensures |old(roleRepo.roles)| == 0 && DistinctIds(roles) ==>
        var id := old(userRepo.nextId);
        && r == Success(())
        && roleRepo.roles == roles
        && id !in old(userRepo.users)
        && id in userRepo.users
        && userRepo.users == old(userRepo.users)[id := userRepo.users[id]]
        && userRepo.userRoles == old(userRepo.userRoles) + userRepo.RowsOf(id)
        && userRepo.users[id].firstName == "Default" && userRepo.users[id].lastName == "Administrator"
        && userRepo.users[id].username == AdminUsername && userRepo.users[id].isActive
        && UserPasswordService.HashCheck(platform, Some(AdminPassword), userRepo.users[id].passwordHash, userRepo.users[id].passwordSalt) == Success(true)
        && userRepo.RoleIdsOf(id) == {numbering.administrator}
        && userRepo.RoleIdsOf(id) <= RoleKeys(roleRepo.roles)
    {
      var count := roleRepo.GetRoleCount();
      if count > 0 {
        return Success(());
      }
      assert old(roleRepo.roles) + roles == roles;
      var inserted := roleRepo.InsertRoles(roles);
      if inserted.Failure? {
        return Failure(inserted.error);
      }
      assert !IsNullOrWhiteSpace(adminUser.password) by {
        assert !IsWhiteSpace(AdminPassword[0]);
      }
      AdminRoleSeeded(numbering);
      var created := UserService.CreateUserAsync(userRepo, RoleKeys(roleRepo.roles), platform, adminUser, freshKey);
      assert created.Success?;
      ghost var id := created.value.id;
      assert adminUser.roles == [UserRole(0, numbering.administrator, None)];
      assert userRepo.RowsOf(id) == set k | 0 <= k < 1 :: UserRoleRow(id, adminUser.roles[k].roleId);
      assert UserRoleRow(id, adminUser.roles[0].roleId) in userRepo.RowsOf(id);
      assert userRepo.RowsOf(id) == {UserRoleRow(id, numbering.administrator)};
      return Success(());
    }
  }

  /** The seeded roles are the two enum members, each once, in ascending
      unsigned order of their values; with distinct values their keys are
      distinct, so the first setup passes the primary key. */
  lemma SeedRolesShape(n: RoleNumbering)
    ensures |SeedRoles(n)| == 2
    ensures multiset{SeedRoles(n)[0], SeedRoles(n)[1]} ==
      multiset{Role(n.administrator, "Administrator", "Administrator"), Role(n.user, "User", "User")}
    ensures UnsignedOrder(SeedRoles(n)[0].id) <= UnsignedOrder(SeedRoles(n)[1].id)
    ensures WellFormedNumbering(n) ==> DistinctIds(SeedRoles(n))
  {
  }

  /** The administrator's role is among the seeded roles. */
  lemma AdminRoleSeeded(n: RoleNumbering)
    ensures n.administrator in RoleKeys(SeedRoles(n))
  {
    var s := SeedRoles(n);
    assert s[0].id == n.administrator || s[1].id == n.administrator;
  }

  /** The administrator's password passes the password policy. */
  lemma AdminPasswordAccepted(n: RoleNumbering)
    ensures UserPasswordValidationService.PolicyErrors(AdminUser(n).password) == []
  {
    UserPasswordValidationService.PolicyAcceptsAdminPassword();
  }
}
