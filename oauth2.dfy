/**
 * app/oauth2.py: building the claims of an access token, verifying a token back to the user id it
 * carries, and resolving that id to a stored user. The signing itself is the JwtCodec parameter,
 * already bound to the process-wide secret key and algorithm; the lifetime `ttl` is in minutes.
 */
module OAuth2 {
  import opened Wrappers
  import opened Schemas
  import opened Crypto
  import opened Models

  /** The claim that names the subject user. */
  const UserIdClaim: string := "user_id"

  /** The claims set `create_access_token` encodes: a copy of `data` with `exp` set to now + ttl. */
  function AccessPayload(data: Payload, now: int, ttl: int): (p: Payload)
    ensures ExpClaim in p && p[ExpClaim] == Num(now + ttl)
    ensures p.Keys == data.Keys + {ExpClaim}
    ensures forall k :: k in data && k != ExpClaim ==> p[k] == data[k]
  {
    data[ExpClaim := Num(now + ttl)]
  }

  /**
   * What the core relies on from jose: a token encoded from the claims the core issues, an integer
   * user_id and a numeric `exp`, decodes to those claims until `exp` has passed (no leeway, section
   * 4.1.4 of RFC 7519). Other claims sets (`aud`, `nbf`, `sub`, a string `exp`, ...) meet further
   * checks in jose and are left unconstrained.
   */
  ghost predicate IssuedTokensRoundTrip(jwt: JwtCodec)
  {
    forall p: Payload, now: int ::
      p.Keys == {UserIdClaim, ExpClaim} && p[UserIdClaim].Num? && p[ExpClaim].Num? ==>
        jwt.decode(jwt.encode(p), now) == if p[ExpClaim].n < now then None else Some(p)
  }

  /** create_access_token: the signed token for `data`, expiring `ttl` minutes after `now`. */
  function CreateAccessToken(jwt: JwtCodec, ttl: int, data: Payload, now: int): (token: string)
    ensures IssuedTokensRoundTrip(jwt) && data.Keys == {UserIdClaim} && data[UserIdClaim].Num? ==>
      forall t :: jwt.decode(token, t) == if now + ttl < t then None else Some(AccessPayload(data, now, ttl))
  {
    assert data.Keys == {UserIdClaim} ==> AccessPayload(data, now, ttl).Keys == {UserIdClaim, ExpClaim};
    jwt.encode(AccessPayload(data, now, ttl))
  }

  /**
   * verify_access_token: every decoding failure and a missing or null user_id give the same 401.
   * A user_id that pydantic cannot read as an int raises outside the JWTError handler.
   */
  function VerifyAccessToken(jwt: JwtCodec, token: string, now: int): (r: Result<TokenData, Error>)
    ensures jwt.decode(token, now).None? ==> r == Err(Unauthorized)
    ensures jwt.decode(token, now).Some? && UserIdClaim !in jwt.decode(token, now).value ==> r == Err(Unauthorized)
    ensures (jwt.decode(token, now).Some? && UserIdClaim in jwt.decode(token, now).value
             && jwt.decode(token, now).value[UserIdClaim].Null?) ==> r == Err(Unauthorized)
    ensures (jwt.decode(token, now).Some? && UserIdClaim in jwt.decode(token, now).value
             && jwt.decode(token, now).value[UserIdClaim].Text?) ==> r == Err(ServerError(ClaimValidation))
    ensures r.Ok? <==> jwt.decode(token, now).Some? && UserIdClaim in jwt.decode(token, now).value
                       && jwt.decode(token, now).value[UserIdClaim].Num?
    ensures r.Ok? ==> r.value == TokenData(Some(jwt.decode(token, now).value[UserIdClaim].n))
    ensures r.Err? ==> r.error == Unauthorized || r.error == ServerError(ClaimValidation)
  {
    match jwt.decode(token, now)
    case None => Err(Unauthorized)
    case Some(payload) =>
      if UserIdClaim !in payload then Err(Unauthorized)
      else match payload[UserIdClaim]
        case Null => Err(Unauthorized)
        case Num(n) => Ok(TokenData(Some(n)))
        case Text(_) => Err(ServerError(ClaimValidation))
  }

  /** get_current_user: the stored user the token names, or the same 401 as for a bad token. */
  function GetCurrentUser(users: map<int, User>, jwt: JwtCodec, token: string, now: int): (r: Result<User, Error>)
    ensures r.Ok? <==> VerifyAccessToken(jwt, token, now).Ok? && VerifyAccessToken(jwt, token, now).value.id.value in users
    ensures r.Ok? ==> r.value == users[VerifyAccessToken(jwt, token, now).value.id.value]
    ensures VerifyAccessToken(jwt, token, now).Err? ==> r.Err? && r.error == VerifyAccessToken(jwt, token, now).error
    ensures VerifyAccessToken(jwt, token, now).Ok? && r.Err? ==> r.error == Unauthorized
  {
    match VerifyAccessToken(jwt, token, now)
    case Err(e) => Err(e)
    case Ok(data) =>
      if data.id.Some? && data.id.value in users then Ok(users[data.id.value]) else Err(Unauthorized)
  }

  /** The resolved user's id is the token's user_id. */
  lemma CurrentUserMatchesToken(db: Db, jwt: JwtCodec, token: string, now: int)
    requires Consistent(db)
    ensures var r := GetCurrentUser(db.users, jwt, token, now);
      r.Ok? ==> VerifyAccessToken(jwt, token, now) == Ok(TokenData(Some(r.value.id))) && r.value.id in db.users
  {
  }

  /** A token for a deleted user is refused exactly like a token that does not decode at all. */
  lemma DeletedUserLikeBadToken(users: map<int, User>, jwt: JwtCodec, token: string, bad: string, now: int)
    requires VerifyAccessToken(jwt, token, now).Ok? && VerifyAccessToken(jwt, token, now).value.id.value !in users
    requires jwt.decode(bad, now).None?
    ensures GetCurrentUser(users, jwt, token, now) == GetCurrentUser(users, jwt, bad, now) == Err(Unauthorized)
  {
  }

  /** With a codec that round-trips, a token built from {"user_id": id} verifies to id until it expires. */
  lemma IssuedTokenVerifies(jwt: JwtCodec, ttl: int, id: int, issued: int, now: int)
    requires IssuedTokensRoundTrip(jwt)
    ensures var token := CreateAccessToken(jwt, ttl, map[UserIdClaim := Num(id)], issued);
      VerifyAccessToken(jwt, token, now) == if now <= issued + ttl then Ok(TokenData(Some(id))) else Err(Unauthorized)
  {
    var p := AccessPayload(map[UserIdClaim := Num(id)], issued, ttl);
    assert UserIdClaim in p && p[UserIdClaim] == Num(id);
  }
}
