/**
 * The two foreign libraries the core calls, passed in as values because the model cannot see
 * inside them: passlib's bcrypt context and python-jose's JWT codec. What the core relies on is
 * stated as predicates over those values (`SoundHasher` here; the token round trip, which is about
 * the claims the core issues, next to them in OAuth2), which the theorems that need them take as
 * requirements.
 */
module Crypto {
  import opened Wrappers

  /** bcrypt: `hash` takes the plaintext and the random salt; `verify` checks a plaintext against a digest. */
  datatype Hasher = Hasher(hash: (string, string) -> string, verify: (string, string) -> bool)

  /** A digest always verifies against the plaintext it was made from, whatever the salt. */
  ghost predicate SoundHasher(h: Hasher)
  {
    forall password, salt :: h.verify(password, h.hash(password, salt))
  }

  /** A JWT claim value. */
  datatype Claim = Num(n: int) | Text(s: string) | Null

  /** A JWT claims set (section 4 of RFC 7519). */
  type Payload = map<string, Claim>

  /** The `exp` claim name (section 4.1.4 of RFC 7519). */
  const ExpClaim: string := "exp"

  /**
   * The codec bound to the process-wide secret key and algorithm. `decode(token, now)` gives the
   * payload, or None when jose raises JWTError: bad signature, malformed token, or a rejected `exp`.
   */
  datatype JwtCodec = JwtCodec(encode: Payload -> string, decode: (string, int) -> Option<Payload>)
}
