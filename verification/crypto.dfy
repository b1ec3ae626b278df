/** The cryptographic and encoding primitives the core calls into, kept
    abstract: HMAC-SHA-512 (RFC 2104 over FIPS 180-4 SHA-512) is any function
    of key and message whose every output is 64 bytes, the random key of a new
    HMACSHA512 instance is any 128-byte sequence, and the UTF-8 and ASCII
    encoders are arbitrary functions from text to bytes. */
module Crypto {
  import opened Common

  const DigestLength: nat := 64
  const KeyLength: nat := 128

  /** A keyed hash whose output is always 64 bytes long. */
  type Hmac512 = f: (seq<byte>, seq<byte>) -> seq<byte> | forall key, message :: |f(key, message)| == 64
    witness (key: seq<byte>, message: seq<byte>) => seq(64, _ => 0)

  /** The key a new HMACSHA512 instance draws at random. */
  type Key128 = k: seq<byte> | |k| == 128 witness seq(128, _ => 0)

  /** The primitives of the platform the services run on. */
  datatype Platform = Platform(
    hmac512: Hmac512,
    utf8: string -> seq<byte>,
    ascii: string -> seq<byte>)
}
