/**
 * The stored-password layout of `hash_password` and `verify_password`: a 32-byte
 * random salt followed by the key derived from the password and that salt. The key
 * derivation (PBKDF2-HMAC-SHA256 over the UTF-8 bytes of the password, 100000
 * rounds) is a function the caller supplies, and the random salt is an input.
 */
module Passwords {

  newtype byte = x: int | 0 <= x < 256

  /** The length of the salt `hash_password` draws, and where `verify_password` splits. */
  const SaltLength: nat := 32

  /** A key derivation function from a password and a salt to a key. */
  type Kdf = (string, seq<byte>) -> seq<byte>

  /** `stored[:32]`: the first 32 bytes, or all of them when there are fewer. */
  function StoredSalt(stored: seq<byte>): (salt: seq<byte>)
    ensures |salt| == if |stored| < SaltLength then |stored| else SaltLength
    ensures salt <= stored
  {
    if |stored| < SaltLength then stored else stored[..SaltLength]
  }

  /** `stored[32:]`: what follows the first 32 bytes, empty when there is nothing after them. */
  function StoredKey(stored: seq<byte>): (key: seq<byte>)
    ensures StoredSalt(stored) + key == stored
  {
    if |stored| < SaltLength then [] else stored[SaltLength..]
  }

  /** `hash_password` with the salt drawn: the salt, then the derived key. */
  function HashPassword(kdf: Kdf, password: string, salt: seq<byte>): (stored: seq<byte>)
    requires |salt| == SaltLength
    ensures |stored| == SaltLength + |kdf(password, salt)|
  {
    salt + kdf(password, salt)
  }

  /** `verify_password`: derive a key from the provided password and the stored salt, and compare. */
  function VerifyPassword(kdf: Kdf, stored: seq<byte>, provided: string): (ok: bool)
    ensures |stored| >= SaltLength ==>
      (ok <==> stored == stored[..SaltLength] + kdf(provided, stored[..SaltLength]))
  {
    kdf(provided, StoredSalt(stored)) == StoredKey(stored)
  }

  /** Splitting a stored password recovers exactly the salt and the key it was built from. */
  lemma SplitRecoversSaltAndKey(kdf: Kdf, password: string, salt: seq<byte>)
    requires |salt| == SaltLength
    ensures StoredSalt(HashPassword(kdf, password, salt)) == salt
    ensures StoredKey(HashPassword(kdf, password, salt)) == kdf(password, salt)
  {
  }

  /**
   * A stored password accepts exactly the passwords whose key under its salt is the
   * key of the password it was made from; in particular it accepts that password.
   */
  lemma VerifyAcceptsIffSameKey(kdf: Kdf, password: string, salt: seq<byte>, provided: string)
    requires |salt| == SaltLength
    ensures VerifyPassword(kdf, HashPassword(kdf, password, salt), provided) <==> kdf(provided, salt) == kdf(password, salt)
    ensures VerifyPassword(kdf, HashPassword(kdf, password, salt), password)
  {
  }
}
