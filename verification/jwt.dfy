/** The part of `jsonwebtoken` the API relies on. Signing and signature
    checking are cryptography and stay abstract (a `Codec` passed in); the
    claims the API puts in a token, the 7-day lifetime and the expiry check
    done at verification time are modelled exactly. Time is in whole seconds,
    as in the library's `iat` and `exp` claims. */
module Jwt {
  import opened Common

  /** `expiresIn: '7d'`. */
  const TokenLifetime: int := 7 * 24 * 60 * 60

  /** The fallback of `process.env.JWT_SECRET || 'dev-secret'`. */
  const DevSecret: string := "dev-secret"

  /** The payload the login route signs, with the `iat` and `exp` claims the
      library adds. */
  datatype Claims = Claims(sub: UserId, role: string, iat: int, exp: int)

  /** `encode` signs claims with a secret; `decode` checks a token's signature
      under a secret and gives back its claims, or `None` for a malformed token
      or a bad signature. */
  datatype Codec = Codec(encode: (Claims, string) -> string, decode: (string, string) -> Option<Claims>)

  /** What a working signature scheme guarantees: a token decodes, under the
      secret it was signed with, to the claims it was signed over; and a token
      is a non-empty string without spaces (JWTs are base64url segments joined
      by dots). */
  ghost predicate SoundCodec(codec: Codec)
  {
    forall claims, secret ::
      && codec.decode(codec.encode(claims, secret), secret) == Some(claims)
      && codec.encode(claims, secret) != ""
      && ' ' !in codec.encode(claims, secret)
  }

  /** `process.env.JWT_SECRET || 'dev-secret'`: an unset or empty variable
      falls back to the development secret. */
  function Secret(env: Option<string>): (secret: string)
    ensures secret != ""
    ensures env.Some? && env.value != "" ==> secret == env.value
    ensures env.None? || env.value == "" ==> secret == DevSecret
  {
    if env.Some? && env.value != "" then env.value else DevSecret
  }

  /** `jwt.sign({ sub, role }, secret, { expiresIn: '7d' })` at time `now`. */
  function Sign(codec: Codec, sub: UserId, role: string, secret: string, now: int): (token: string)
    // Under a sound codec the token carries exactly `sub` and `role`, issued
    // now and expiring seven days later, and fits in an `Authorization` header
    // field.
    ensures SoundCodec(codec) ==> codec.decode(token, secret) == Some(Claims(sub, role, now, now + TokenLifetime))
    ensures SoundCodec(codec) ==> token != "" && ' ' !in token
  {
    codec.encode(Claims(sub, role, now, now + TokenLifetime), secret)
  }

  datatype VerifyError = Invalid | Expired

  /** `jwt.verify(token, secret)` at time `now`: the signature must check and
      the clock must be strictly before `exp`. */
  function Verify(codec: Codec, token: string, secret: string, now: int): (r: Result<Claims, VerifyError>)
    ensures r.Ok? ==> codec.decode(token, secret) == Some(r.value) && now < r.value.exp
    ensures codec.decode(token, secret).Some? && now < codec.decode(token, secret).value.exp ==>
      r == Ok(codec.decode(token, secret).value)
    ensures codec.decode(token, secret).None? ==> r == Err(Invalid)
    ensures r == Err(Expired) <==> codec.decode(token, secret).Some? && codec.decode(token, secret).value.exp <= now
  {
    match codec.decode(token, secret)
    case None => Err(Invalid)
    case Some(claims) => if now >= claims.exp then Err(Expired) else Ok(claims)
  }

  /** A token signed at `issued` verifies, under the same secret, to the
      signed subject and role during the seven days that follow and is
      rejected as expired from then on. */
  lemma SignThenVerify(codec: Codec, sub: UserId, role: string, secret: string, issued: int, now: int)
    requires SoundCodec(codec)
    ensures now < issued + TokenLifetime ==>
      Verify(codec, Sign(codec, sub, role, secret, issued), secret, now) == Ok(Claims(sub, role, issued, issued + TokenLifetime))
    ensures now >= issued + TokenLifetime ==>
      Verify(codec, Sign(codec, sub, role, secret, issued), secret, now) == Err(Expired)
  {
    var claims := Claims(sub, role, issued, issued + TokenLifetime);
    assert codec.decode(codec.encode(claims, secret), secret) == Some(claims);
  }

  /** Seven days and one second after issue a token no longer verifies. */
  lemma ExpiredAfterSevenDays(codec: Codec, sub: UserId, role: string, secret: string, issued: int)
    requires SoundCodec(codec)
    ensures Verify(codec, Sign(codec, sub, role, secret, issued), secret, issued + 604800 + 1) == Err(Expired)
  {
    SignThenVerify(codec, sub, role, secret, issued, issued + 604800 + 1);
  }
}
