/** The service-layer records of the root-level (older) version, whose user
    ids are Guids. A Guid is its 128-bit value; parsing and formatting Guids
    are parameters where they occur. */
module LegacyModel {
  import opened Common
  import opened ServiceModel

  newtype Guid = x: int | 0 <= x < 0x1_0000_0000_0000_0000_0000_0000_0000_0000

  /** Guid.Empty, the value a null `Guid?` maps to. */
  const EmptyGuid: Guid := 0

  /** A role assignment as the service passes it: the role id and the loaded role, if any. */
  datatype LegacyUserRole = LegacyUserRole(roleId: int, role: Option<Role>)

  datatype LegacyUser = LegacyUser(
    id: Option<Guid>,
    firstName: string,
    lastName: string,
    username: string,
    password: Option<string>,
    passwordHash: seq<byte>,
    passwordSalt: seq<byte>,
    isActive: bool,
    roles: seq<LegacyUserRole>)
}
