/**
 * A stand-in for `bcryptjs`. `genSalt` is randomness, so the salt is an
 * argument; the cost factor is the 10 the server asks for. Like bcrypt, the
 * digest reads only the first 72 characters of the password, and on those it
 * is injective, which gives `compare` its two properties: it accepts every
 * password that agrees with the hashed one on the first 72 characters and
 * rejects every other one. One-wayness and timing are not modelled.
 */
module Bcrypt {

  const SaltRounds: nat := 10

  /**
   * The model hashes at most this many leading characters of a password.
   * bcrypt counts bytes instead, and repeats the bytes of a shorter password.
   */
  const MaxPasswordLength: nat := 72

  datatype PasswordHash = PasswordHash(rounds: nat, salt: nat, digest: string)

  /** The part of a password that bcrypt reads. */
  function Truncated(password: string): (t: string)
    ensures |t| <= MaxPasswordLength
    ensures t <= password
    ensures |password| <= MaxPasswordLength ==> t == password
  {
    if |password| <= MaxPasswordLength then password else password[..MaxPasswordLength]
  }

  function Digest(salt: nat, password: string): string
  {
    Truncated(password)
  }

  /** `bcrypt.hash(password, salt)` for a salt generated with `SaltRounds`. */
  function Hash(password: string, salt: nat): PasswordHash
  {
    PasswordHash(SaltRounds, salt, Digest(salt, password))
  }

  /** `bcrypt.compare(password, hash)`. */
  function Compare(password: string, h: PasswordHash): bool
  {
    Digest(h.salt, password) == h.digest
  }

  /** `compare(p, hash(p))` holds, whatever the salt. */
  lemma CompareHash(password: string, salt: nat)
    ensures Compare(password, Hash(password, salt))
  {
  }

  /** A hash accepts exactly the passwords that agree with its own on the first 72 characters. */
  lemma CompareOnlyHashed(password: string, attempt: string, salt: nat)
    ensures Compare(attempt, Hash(password, salt)) <==> Truncated(attempt) == Truncated(password)
  {
  }

  /** Among passwords of at most 72 characters, a hash accepts its own and no other. */
  lemma CompareShortPasswords(password: string, attempt: string, salt: nat)
    requires |password| <= MaxPasswordLength && |attempt| <= MaxPasswordLength
    ensures Compare(attempt, Hash(password, salt)) <==> attempt == password
  {
    CompareOnlyHashed(password, attempt, salt);
  }

  /** Passwords sharing their first 72 characters are interchangeable, whatever follows. */
  lemma LongPasswordsCollide(prefix: string, password: string, attempt: string, salt: nat)
    requires |prefix| == MaxPasswordLength
    ensures Compare(prefix + attempt, Hash(prefix + password, salt))
  {
    assert (prefix + attempt)[..MaxPasswordLength] == prefix;
    assert (prefix + password)[..MaxPasswordLength] == prefix;
  }
}
