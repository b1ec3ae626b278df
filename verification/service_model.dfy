/** The service-layer view of users and roles that the src services pass
    around. The numbering of the `Roles` enumeration is not part of this model,
    so the two numeric values the core relies on are a parameter. */
module ServiceModel {
  import opened Common

  datatype Role = Role(id: int, name: string, description: string)

  /** The keys of a list of roles: the values a role foreign key may take. */
  function RoleKeys(roles: seq<Role>): set<int> {
    set k | 0 <= k < |roles| :: roles[k].id
  }

  /** A role assignment; `role` is the navigation the authentication lookup loads. */
  datatype UserRole = UserRole(userId: int, roleId: int, role: Option<Role>)

  datatype User = User(
    id: Option<int>,
    firstName: string,
    lastName: string,
    username: string,
    password: Option<string>,
    passwordHash: seq<byte>,
    passwordSalt: seq<byte>,
    isActive: bool,
    roles: seq<UserRole>)

  /** The numeric values of the two members of the `Roles` enumeration. */
  datatype RoleNumbering = RoleNumbering(administrator: int, user: int)

  /** Distinct enum members have distinct values. */
  predicate WellFormedNumbering(n: RoleNumbering) {
    n.administrator != n.user
  }
}
