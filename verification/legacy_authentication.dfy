/** UserAuthenticationService (root-level version): the synchronous
    Authenticate. The decision and the token content are those of the src
    version, over Guid ids; Guid.ToString is a parameter. */
module LegacyUserAuthenticationService {
  import opened Common
  import opened Crypto
  import opened ServiceModel
  import opened LegacyModel
  import opened UserAuthenticationService
  import UserPasswordService
  import LegacyUserPasswordService

  /** `user.Id.ToString()` on a nullable Guid. */
  function GuidIdText(id: Option<Guid>, guidText: Guid -> string): string {
    if id.None? then "" else guidText(id.value)
  }

  predicate LegacyRolesLoaded(roles: seq<LegacyUserRole>) {
    forall k :: 0 <= k < |roles| ==> roles[k].role.Some?
  }

  function LegacyRoleClaims(roles: seq<LegacyUserRole>): seq<Claim>
    requires LegacyRolesLoaded(roles)
  {
    seq(|roles|, k requires 0 <= k < |roles| => Claim(RoleClaimType, roles[k].role.value.name))
  }

  /** What Authenticate returns (None for null) or throws. */
  function LegacyAuthentication(platform: Platform, secret: string, now: int, guidText: Guid -> string,
                                found: Option<LegacyUser>, password: Option<string>)
    : Result<Option<TokenDescriptor>, Exception>
  {
    if found.None? || !found.value.isActive then Success(None)
    else
      var user := found.value;
      var check := UserPasswordService.HashCheck(platform, password, user.passwordHash, user.passwordSalt);
      if check.Failure? then Failure(check.error)
      else if !check.value then Success(None)
      else if !LegacyRolesLoaded(user.roles) then Failure(NullReferenceException)
      else
        var claims := [Claim(NameClaimType, GuidIdText(user.id, guidText))] + LegacyRoleClaims(user.roles);
        Success(Some(TokenDescriptor(claims, now + TokenLifetime, platform.ascii(secret), HmacSha256Signature)))
  }

  method Authenticate(platform: Platform, secret: string, now: int, guidText: Guid -> string,
                      found: Option<LegacyUser>, password: Option<string>)
    returns (r: Result<Option<TokenDescriptor>, Exception>)
    ensures r == LegacyAuthentication(platform, secret, now, guidText, found, password)
  {
    if found.None? || !found.value.isActive {
      return Success(None);
    }
    var user := found.value;
    var valid := LegacyUserPasswordService.ValidateHash(platform, password, user.passwordHash, user.passwordSalt);
    if valid.Failure? {
      return Failure(valid.error);
    }
    if !valid.value {
      return Success(None);
    }
    var key := platform.ascii(secret);
    var roleClaims := new MutableList<Claim>();
    for k := 0 to |user.roles|
      invariant LegacyRolesLoaded(user.roles[..k])
      invariant roleClaims.Items == LegacyRoleClaims(user.roles[..k])
    {
      if user.roles[k].role.None? {
        return Failure(NullReferenceException);
      }
      roleClaims.Add(Claim(RoleClaimType, user.roles[k].role.value.name));
      assert user.roles[..k + 1] == user.roles[..k] + [user.roles[k]];
    }
    assert user.roles[..|user.roles|] == user.roles;
    var allClaims := new MutableList<Claim>();
    allClaims.Add(Claim(NameClaimType, GuidIdText(user.id, guidText)));
    allClaims.AddRange(roleClaims.Items);
    assert allClaims.Items == [Claim(NameClaimType, GuidIdText(user.id, guidText))] + LegacyRoleClaims(user.roles);
    return Success(Some(TokenDescriptor(allClaims.Items, now + TokenLifetime, key, HmacSha256Signature)));
  }

  /** A missing or inactive user gets no token and no exception, whatever the password. */
  lemma LegacyUnknownOrInactiveRejected(platform: Platform, secret: string, now: int, guidText: Guid -> string,
                                        found: Option<LegacyUser>, password: Option<string>)
    requires found.None? || !found.value.isActive
    ensures LegacyAuthentication(platform, secret, now, guidText, found, password) == Success(None)
  {
  }

  /** A token is issued exactly when the user exists, is active, the password
      validates and the roles are loaded; it carries the Name claim with the
      id's text, one Role claim per role in order, and expires after 30 minutes. */
  lemma LegacyTokenIffCredentials(platform: Platform, secret: string, now: int, guidText: Guid -> string,
                                  found: Option<LegacyUser>, password: Option<string>)
    ensures var r := LegacyAuthentication(platform, secret, now, guidText, found, password);
      (r.Success? && r.value.Some?) <==>
      (&& found.Some? && found.value.isActive
       && UserPasswordService.HashCheck(platform, password, found.value.passwordHash, found.value.passwordSalt) == Success(true)
       && LegacyRolesLoaded(found.value.roles))
    ensures var r := LegacyAuthentication(platform, secret, now, guidText, found, password);
      r.Success? && r.value.Some? ==>
        var token := r.value.value;
        && |token.subject| == 1 + |found.value.roles|
        && token.subject[0] == Claim(NameClaimType, GuidIdText(found.value.id, guidText))
        && (forall k :: 0 <= k < |found.value.roles| ==>
              token.subject[1 + k] == Claim(RoleClaimType, found.value.roles[k].role.value.name))
        && token.expires == now + 1800
        && token.key == platform.ascii(secret)
  {
  }
}
