/** UserCapabilitiesService: whether a user may manage users. The service's
    lookup by id is a parameter: the user it finds, if any. */
module UserCapabilitiesService {
  import opened Common
  import opened ServiceModel

  datatype UserCapabilities = UserCapabilities(canManageUsers: bool)

  /** The roles whose holders can manage users, as their enum values. */
  function RolesCanManageUsers(n: RoleNumbering): seq<int> {
    [n.administrator]
  }

  /** `roles.Any(r => RolesCanManageUsers.Contains(r.RoleId))`, scanned from the front. */
  function CanManageUsers(n: RoleNumbering, roles: seq<UserRole>): (r: bool)
    ensures r <==> exists k :: 0 <= k < |roles| && roles[k].roleId in RolesCanManageUsers(n)
  {
    if roles == [] then false
    else if roles[0].roleId in RolesCanManageUsers(n) then true
    else
      var rest := CanManageUsers(n, roles[1..]);
      assert forall k :: 1 <= k < |roles| ==> roles[k] == roles[1..][k - 1];
      assert rest ==> exists k :: 0 <= k < |roles| && roles[k].roleId in RolesCanManageUsers(n) by {
        if rest {
          var k :| 0 <= k < |roles[1..]| && roles[1..][k].roleId in RolesCanManageUsers(n);
          assert roles[k + 1].roleId in RolesCanManageUsers(n);
        }
      }
      rest
  }

  /** GetUserCapabilities: a user the lookup does not find is dereferenced as null. */
  function GetUserCapabilities(n: RoleNumbering, found: Option<User>): (r: Result<UserCapabilities, Exception>)
    ensures found.None? <==> r == Failure(NullReferenceException)
    ensures found.Some? ==>
      r.Success? && (r.value.canManageUsers <==> exists k :: 0 <= k < |found.value.roles| && found.value.roles[k].roleId == n.administrator)
  {
    if found.None? then Failure(NullReferenceException)
    else Success(UserCapabilities(CanManageUsers(n, found.value.roles)))
  }

  /** The role ids a user holds. */
  function HeldRoleIds(roles: seq<UserRole>): set<int> {
    set k | 0 <= k < |roles| :: roles[k].roleId
  }

  /** The answer depends only on the set of role ids held: order and repetition do not matter. */
  lemma CanManageUsersBySet(n: RoleNumbering, a: seq<UserRole>, b: seq<UserRole>)
    requires HeldRoleIds(a) == HeldRoleIds(b)
    ensures CanManageUsers(n, a) == CanManageUsers(n, b)
  {
    if CanManageUsers(n, a) {
      var k :| 0 <= k < |a| && a[k].roleId in RolesCanManageUsers(n);
      assert a[k].roleId in HeldRoleIds(b);
    }
    if CanManageUsers(n, b) {
      var k :| 0 <= k < |b| && b[k].roleId in RolesCanManageUsers(n);
      assert b[k].roleId in HeldRoleIds(a);
    }
  }

  /** Granting more roles never takes the capability away. */
  lemma CanManageUsersMonotone(n: RoleNumbering, a: seq<UserRole>, extra: seq<UserRole>)
    requires CanManageUsers(n, a)
    ensures CanManageUsers(n, a + extra) && CanManageUsers(n, extra + a)
  {
    var k :| 0 <= k < |a| && a[k].roleId in RolesCanManageUsers(n);
    assert (a + extra)[k] == a[k];
    assert (extra + a)[|extra| + k] == a[k];
  }

  /** With distinct enum values, a user holding only the User role cannot manage users. */
  lemma PlainUserCannotManage(n: RoleNumbering, roles: seq<UserRole>)
    requires WellFormedNumbering(n)
    requires forall k :: 0 <= k < |roles| ==> roles[k].roleId == n.user
    ensures !CanManageUsers(n, roles)
  {
  }
}
