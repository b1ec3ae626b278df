/** UserAuthenticationService (src): the decision whether a username and
    password earn a token, and the token's content. The user lookup result,
    the configured secret and the current UTC time are parameters; the JSON
    Web Token is kept as the descriptor handed to the token handler (claims,
    expiry, signing key and algorithm), not as serialised text. */
module UserAuthenticationService {
  import opened Common
  import opened Crypto
  import opened ServiceModel
  import opened Numbers
  import UserPasswordService

  /** ClaimTypes.Name and ClaimTypes.Role. */
  const NameClaimType: string := "http://schemas.xmlsoap.org/ws/2005/05/identity/claims/name"
  const RoleClaimType: string := "http://schemas.microsoft.com/ws/2008/06/identity/claims/role"

  /** Token lifetime, in seconds: 30 minutes. */
  const TokenLifetime: int := 30 * 60

  datatype Claim = Claim(claimType: string, value: string)

  datatype SigningAlgorithm = HmacSha256Signature

  /** The SecurityTokenDescriptor: subject claims, expiry (UTC, in seconds), key and algorithm. */
  datatype TokenDescriptor = TokenDescriptor(subject: seq<Claim>, expires: int, key: seq<byte>, algorithm: SigningAlgorithm)

  /** `user.Id.ToString()` on a nullable int: the empty string when there is no value. */
  function IdText(id: Option<int>): string {
    if id.None? then "" else IntToString(id.value)
  }

  /** Every role's Role navigation is loaded. */
  predicate RolesLoaded(roles: seq<UserRole>) {
    forall k :: 0 <= k < |roles| ==> roles[k].role.Some?
  }

  /** One Role claim per role, in order. */
  function RoleClaims(roles: seq<UserRole>): seq<Claim>
    requires RolesLoaded(roles)
  {
    seq(|roles|, k requires 0 <= k < |roles| => Claim(RoleClaimType, roles[k].role.value.name))
  }

  /** What AuthenticateAsync returns or throws. */
  function Authentication(platform: Platform, secret: string, now: int, found: Option<User>, password: Option<string>)
    : Result<Option<TokenDescriptor>, Exception>
  {
    if found.None? || !found.value.isActive then Success(None)
    else
      var user := found.value;
      var check := UserPasswordService.HashCheck(platform, password, user.passwordHash, user.passwordSalt);
      if check.Failure? then Failure(check.error)
      else if !check.value then Success(None)
      else if !RolesLoaded(user.roles) then Failure(NullReferenceException)
      else
        var claims := [Claim(NameClaimType, IdText(user.id))] + RoleClaims(user.roles);
        Success(Some(TokenDescriptor(claims, now + TokenLifetime, platform.ascii(secret), HmacSha256Signature)))
  }

  method AuthenticateAsync(platform: Platform, secret: string, now: int, found: Option<User>, password: Option<string>)
    returns (r: Result<Option<TokenDescriptor>, Exception>)
    ensures r == Authentication(platform, secret, now, found, password)
  {
    if found.None? || !found.value.isActive {
      return Success(None);
    }
    var user := found.value;
    var valid := UserPasswordService.ValidateHash(platform, password, user.passwordHash, user.passwordSalt);
    if valid.Failure? {
      return Failure(valid.error);
    }
    if !valid.value {
      return Success(None);
    }
    var key := platform.ascii(secret);
    var roleClaims: seq<Claim> := [];
    for k := 0 to |user.roles|
      invariant RolesLoaded(user.roles[..k])
      invariant roleClaims == RoleClaims(user.roles[..k])
    {
      if user.roles[k].role.None? {
        return Failure(NullReferenceException);
      }
      roleClaims := roleClaims + [Claim(RoleClaimType, user.roles[k].role.value.name)];
      assert user.roles[..k + 1] == user.roles[..k] + [user.roles[k]];
    }
    assert user.roles[..|user.roles|] == user.roles;
    assert RolesLoaded(user.roles);
    var allClaims := new MutableList<Claim>();
    allClaims.Add(Claim(NameClaimType, IdText(user.id)));
    allClaims.AddRange(roleClaims);
    assert allClaims.Items == [Claim(NameClaimType, IdText(user.id))] + RoleClaims(user.roles);
    assert UserPasswordService.HashCheck(platform, password, user.passwordHash, user.passwordSalt) == Success(true);
    return Success(Some(TokenDescriptor(allClaims.Items, now + TokenLifetime, key, HmacSha256Signature)));
  }

  /** A token is issued exactly when the user exists, is active, the password
      validates against the stored digest, and the roles are loaded. */
  lemma TokenIffCredentials(platform: Platform, secret: string, now: int, found: Option<User>, password: Option<string>)
    ensures var r := Authentication(platform, secret, now, found, password);
      (r.Success? && r.value.Some?) <==>
      (&& found.Some? && found.value.isActive
       && UserPasswordService.HashCheck(platform, password, found.value.passwordHash, found.value.passwordSalt) == Success(true)
       && RolesLoaded(found.value.roles))
  {
  }

  /** A missing or inactive user is turned away without the password being checked, so even a blank password raises nothing. */
  lemma UnknownOrInactiveRejected(platform: Platform, secret: string, now: int, found: Option<User>, password: Option<string>)
    requires found.None? || !found.value.isActive
    ensures Authentication(platform, secret, now, found, password) == Success(None)
  {
  }

  /** The password check's exceptions reach the caller unchanged. */
  lemma HashCheckFailuresPropagate(platform: Platform, secret: string, now: int, user: User, password: Option<string>)
    requires user.isActive
    requires UserPasswordService.HashCheck(platform, password, user.passwordHash, user.passwordSalt).Failure?
    ensures Authentication(platform, secret, now, Some(user), password) ==
      Failure(UserPasswordService.HashCheck(platform, password, user.passwordHash, user.passwordSalt).error)
  {
  }

  /** The token holds the Name claim with the user id first, then one Role
      claim per role name in order (duplicates kept); it expires 30 minutes
      after issue and is signed with HMAC-SHA-256 over the secret's ASCII bytes. */
  lemma TokenContent(platform: Platform, secret: string, now: int, found: Option<User>, password: Option<string>)
    requires Authentication(platform, secret, now, found, password).Success?
    requires Authentication(platform, secret, now, found, password).value.Some?
    ensures var token := Authentication(platform, secret, now, found, password).value.value;
      var user := found.value;
      && |token.subject| == 1 + |user.roles|
      && token.subject[0] == Claim(NameClaimType, IdText(user.id))
      && (forall k :: 0 <= k < |user.roles| ==> token.subject[1 + k] == Claim(RoleClaimType, user.roles[k].role.value.name))
      && token.expires == now + 1800
      && token.key == platform.ascii(secret)
      && token.algorithm == HmacSha256Signature
  {
  }

  /** The Name claim of a 32-bit id parses back to that id. */
  lemma NameClaimParsesBack(id: int32)
    ensures ParseInt32(IdText(Some(id))) == Success(id)
  {
    ParseFormatRoundTrip(id);
  }
}
