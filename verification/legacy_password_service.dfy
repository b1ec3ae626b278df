/** UserPasswordService (root-level version). CreateHash tells a null
    password (ArgumentNullException) from a blank one (ArgumentException);
    ValidateHash has the guards, messages and compare loop of the src version. */
module LegacyUserPasswordService {
  import opened Common
  import opened Crypto
  import UserPasswordService
  import UserPasswordValidationService
  import Enums

  const BlankMessage: string := "Value cannot be empty or whitespace"

  /** What CreateHash returns or throws: a pair is made exactly for a
      non-blank password, and the password validates against it. */
  function CreateHashOutcome(platform: Platform, password: Option<string>, freshKey: Key128): (r: Result<UserPasswordService.HashPair, Exception>)
    ensures password.None? ==> r == Failure(ArgumentNullException("password"))
    ensures r.Success? <==> !IsNullOrWhiteSpace(password)
    ensures password.Some? && IsBlank(password.value) ==> r == Failure(ArgumentException(BlankMessage, "password"))
    ensures r.Success? ==> |r.value.hash| == 64 && r.value.salt == freshKey
    ensures r.Success? ==> UserPasswordService.HashCheck(platform, password, r.value.hash, r.value.salt) == Success(true)
  {
    if password.None? then Failure(ArgumentNullException("password"))
    else if IsBlank(password.value) then Failure(ArgumentException(BlankMessage, "password"))
    else
      UserPasswordService.HashRoundTrip(platform, password.value, freshKey);
      Success(UserPasswordService.HashOf(platform, password.value, freshKey))
  }

  method CreateHash(platform: Platform, password: Option<string>, freshKey: Key128) returns (r: Result<UserPasswordService.HashPair, Exception>)
    ensures r == CreateHashOutcome(platform, password, freshKey)
  {
    if password.None? {
      return Failure(ArgumentNullException("password"));
    }
    if IsNullOrWhiteSpace(password) {
      return Failure(ArgumentException(BlankMessage, "password"));
    }
    var passwordSalt := freshKey;
    var passwordHash := platform.hmac512(passwordSalt, platform.utf8(password.value));
    return Success(UserPasswordService.HashPair(passwordHash, passwordSalt));
  }

  method ValidateHash(platform: Platform, password: Option<string>, passwordHash: seq<byte>, passwordSalt: seq<byte>)
    returns (r: Result<bool, Exception>)
    ensures r == UserPasswordService.HashCheck(platform, password, passwordHash, passwordSalt)
  {
    if IsNullOrWhiteSpace(password) {
      return Failure(ArgumentException(BlankMessage, "password"));
    }
    if |passwordHash| != 64 {
      return Failure(ArgumentException("Expected 64-byte password hash", "passwordHash"));
    }
    if |passwordSalt| != 128 {
      return Failure(ArgumentException("Expected 128-byte password salt", "passwordSalt"));
    }
    var computedHash := platform.hmac512(passwordSalt, platform.utf8(password.value));
    for x := 0 to |computedHash|
      invariant computedHash[..x] == passwordHash[..x]
    {
      if computedHash[x] != passwordHash[x] {
        return Success(false);
      }
    }
    assert computedHash == computedHash[..64] == passwordHash[..64] == passwordHash;
    return Success(true);
  }

  /** Only a null password is treated differently from the src version, which
      reports it like a blank one; every other input gives the same outcome. */
  lemma AgreesWithSrcExceptNull(platform: Platform, password: Option<string>, freshKey: Key128)
    ensures password.None? ==> CreateHashOutcome(platform, password, freshKey) == Failure(ArgumentNullException("password"))
    ensures password.Some? && IsBlank(password.value) ==>
      CreateHashOutcome(platform, password, freshKey) == Failure(ArgumentException(UserPasswordService.Message(Enums.EmptyWhiteSpace), "password"))
    ensures password.Some? && !IsBlank(password.value) ==>
      CreateHashOutcome(platform, password, freshKey) == Success(UserPasswordService.HashOf(platform, password.value, freshKey))
  {
  }

  /** CreateHash makes no composition check: passwords the policy rejects are hashed all the same. */
  lemma NoCompositionCheck(platform: Platform, freshKey: Key128)
    ensures UserPasswordValidationService.PolicyErrors(Some("Test")) != [] && CreateHashOutcome(platform, Some("Test"), freshKey).Success?
    ensures UserPasswordValidationService.PolicyErrors(Some("test1")) != [] && CreateHashOutcome(platform, Some("test1"), freshKey).Success?
  {
    UserPasswordValidationService.PolicyRejectsNoDigit();
    UserPasswordValidationService.PolicyRejectsLowerCaseOnly();
    assert !IsWhiteSpace("Test"[0]) && !IsWhiteSpace("test1"[0]);
  }

  /** A password validates against what CreateHash stored for it. */
  lemma LegacyHashRoundTrip(platform: Platform, password: Option<string>, freshKey: Key128)
    requires CreateHashOutcome(platform, password, freshKey).Success?
    ensures var pair := CreateHashOutcome(platform, password, freshKey).value;
      UserPasswordService.HashCheck(platform, password, pair.hash, pair.salt) == Success(true)
  {
  }
}
