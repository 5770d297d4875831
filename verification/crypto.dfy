/** The hash and key-stretching primitives the codec calls. Their internals
    belong to a separate library, so they enter the model as function-valued
    parameters: any function of these types is allowed. */
module Crypto {
  import opened Bits

  /** A SHA-256 digest. */
  type Digest = d: seq<byte> | |d| == 32 witness seq(32, _ => 0)

  /** SHA-256 over a byte string. */
  type Sha256 = seq<byte> -> Digest

  /** A 64-byte derived key (the BIP-39 seed). */
  type Key = k: seq<byte> | |k| == 64 witness seq(64, _ => 0)

  /** The pseudorandom function handed to PBKDF2. */
  datatype Prf = HmacSha512

  /** One PBKDF2 invocation (section 5.2 of RFC 8018): the pseudorandom
      function with its output length, password, salt, iteration count and
      derived-key length. */
  datatype KdfRequest = KdfRequest(prf: Prf, prfLen: nat, password: string, salt: string, rounds: nat, keyLen: nat)

  /** PBKDF2; every request made by this model asks for 64 bytes. */
  type Pbkdf2 = KdfRequest -> Key
}
