/** UserPasswordService: salted HMAC-SHA-512 password digests. CreateHash
    takes a fresh random key as the salt and stores the keyed hash of the
    password's UTF-8 bytes; ValidateHash checks its three guards in order and
    then compares the recomputed digest with the stored one byte by byte,
    returning false at the first difference. */
module UserPasswordService {
  import opened Common
  import opened Enums
  import PasswordValidationDescription
  import opened Crypto

  datatype HashPair = HashPair(hash: seq<byte>, salt: seq<byte>)

  function Message(error: PasswordValidationError): string {
    PasswordValidationDescription.ToDescriptionString(error)
  }

  /** The digest and salt CreateHash stores for a non-blank password and a fresh key. */
  function HashOf(platform: Platform, password: string, freshKey: Key128): (r: HashPair)
    ensures |r.hash| == DigestLength && |r.salt| == KeyLength
    ensures r.salt == freshKey
  {
    HashPair(platform.hmac512(freshKey, platform.utf8(password)), freshKey)
  }

  /** What ValidateHash returns or throws, guard by guard. */
  function HashCheck(platform: Platform, password: Option<string>, hash: seq<byte>, salt: seq<byte>): Result<bool, Exception> {
    if IsNullOrWhiteSpace(password) then Failure(ArgumentException(Message(EmptyWhiteSpace), "password"))
    else if |hash| != 64 then Failure(ArgumentException(Message(Expected64ByteHash), "passwordHash"))
    else if |salt| != 128 then Failure(ArgumentException(Message(Expected128ByteSalt), "passwordSalt"))
    else Success(platform.hmac512(salt, platform.utf8(password.value)) == hash)
  }

  method CreateHash(platform: Platform, password: Option<string>, freshKey: Key128) returns (r: Result<HashPair, Exception>)
    ensures IsNullOrWhiteSpace(password) ==> r == Failure(ArgumentException(Message(EmptyWhiteSpace), "password"))
    ensures !IsNullOrWhiteSpace(password) ==> r == Success(HashOf(platform, password.value, freshKey))
  {
    if IsNullOrWhiteSpace(password) {
      return Failure(ArgumentException(Message(EmptyWhiteSpace), "password"));
    }
    var passwordSalt := freshKey;
    var passwordHash := platform.hmac512(passwordSalt, platform.utf8(password.value));
    return Success(HashPair(passwordHash, passwordSalt));
  }

  method ValidateHash(platform: Platform, password: Option<string>, passwordHash: seq<byte>, passwordSalt: seq<byte>)
    returns (r: Result<bool, Exception>)
    ensures r == HashCheck(platform, password, passwordHash, passwordSalt)
    ensures r.Success? ==> (r.value <==> forall x :: 0 <= x < 64 ==>
      platform.hmac512(passwordSalt, platform.utf8(password.value))[x] == passwordHash[x])
  {
    if IsNullOrWhiteSpace(password) {
      return Failure(ArgumentException(Message(EmptyWhiteSpace), "password"));
    }
    if |passwordHash| != 64 {
      return Failure(ArgumentException(Message(Expected64ByteHash), "passwordHash"));
    }
    if |passwordSalt| != 128 {
      return Failure(ArgumentException(Message(Expected128ByteSalt), "passwordSalt"));
    }
    var computedHash := platform.hmac512(passwordSalt, platform.utf8(password.value));
    for x := 0 to |computedHash|
      invariant computedHash[..x] == passwordHash[..x]
    {
      if computedHash[x] != passwordHash[x] {
        return Success(false);
      }
    }
    assert computedHash == computedHash[..64] == passwordHash[..64] == passwordHash;
    return Success(true);
  }

  /** The first failing guard decides the exception: blank password, then hash length, then salt length. */
  lemma GuardOrder(platform: Platform, password: Option<string>, hash: seq<byte>, salt: seq<byte>)
    ensures HashCheck(platform, password, hash, salt).Failure? <==>
      IsNullOrWhiteSpace(password) || |hash| != 64 || |salt| != 128
    ensures IsNullOrWhiteSpace(password) ==>
      HashCheck(platform, password, hash, salt).error.paramName == "password"
    ensures !IsNullOrWhiteSpace(password) && |hash| != 64 ==>
      HashCheck(platform, password, hash, salt).error.message == "Expected 64-byte password hash"
    ensures !IsNullOrWhiteSpace(password) && |hash| == 64 && |salt| != 128 ==>
      HashCheck(platform, password, hash, salt).error.message == "Expected 128-byte password salt"
  {
  }

  /** A password validates against the digest and salt CreateHash made from it. */
  lemma HashRoundTrip(platform: Platform, password: string, freshKey: Key128)
    requires !IsBlank(password)
    ensures HashCheck(platform, Some(password), HashOf(platform, password, freshKey).hash,
                      HashOf(platform, password, freshKey).salt) == Success(true)
  {
  }

  /** The service's unit tests: a 1-byte hash, and a 1-byte salt beside a 64-byte hash. */
  lemma HashCheckTestVectors(platform: Platform, password: string, b: byte)
    requires !IsBlank(password)
    ensures HashCheck(platform, Some(password), [b], seq(128, _ => b)) ==
      Failure(ArgumentException("Expected 64-byte password hash", "passwordHash"))
    ensures HashCheck(platform, Some(password), seq(64, _ => b), [b]) ==
      Failure(ArgumentException("Expected 128-byte password salt", "passwordSalt"))
  {
  }
}
