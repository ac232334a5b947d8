/**
  * `auth.py`: the access-token payload, reading the subject back out of a
  * verified token, and the dependency chain user exists, then active, then
  * admin.
  *
  * HS256 signing (section 3.2 of RFC 7518) is kept abstract: a token records
  * its claims and the key that signed it, and verification succeeds exactly
  * for the same key. Times are whole seconds since the epoch, the resolution of
  * the NumericDate `exp` claim (section 4.1.4 of RFC 7519).
  */
module Auth {
  import opened Wrappers
  import opened Models

  /** A JSON claim value: the kinds the payload can carry here. */
  datatype ClaimValue = Str(s: string) | Int(i: int) | Null

  type Claims = map<string, ClaimValue>

  /** A signed token: its payload and the key it was signed with. */
  datatype Token = Token(claims: Claims, key: string)

  /** `ACCESS_TOKEN_EXPIRE_MINUTES`, in seconds. */
  const AccessTokenLifetime: int := 30 * 60

  /** When a token created at `now` expires: `now + expires_delta` when a
      non-zero delta is given (a zero `timedelta` is falsy), otherwise thirty
      minutes after `now`. */
  function Expiry(expiresDelta: Option<int>, now: int): (exp: int)
    ensures expiresDelta.Some? && expiresDelta.value != 0 ==> exp == now + expiresDelta.value
    ensures expiresDelta.None? || expiresDelta.value == 0 ==> exp == now + AccessTokenLifetime
  {
    match expiresDelta
    case Some(delta) => if delta != 0 then now + delta else now + AccessTokenLifetime
    case None => now + AccessTokenLifetime
  }

  /** `create_access_token(data, expires_delta)`: a copy of `data` with the
      `exp` claim set, signed with `secretKey`. */
  function CreateAccessToken(data: Claims, expiresDelta: Option<int>, now: int, secretKey: string): (t: Token)
    ensures t.key == secretKey
    ensures t.claims.Keys == data.Keys + {"exp"}
    ensures t.claims["exp"] == Int(Expiry(expiresDelta, now))
    ensures forall k :: k in data && k != "exp" ==> t.claims[k] == data[k]
  {
    Token(data["exp" := Int(Expiry(expiresDelta, now))], secretKey)
  }

  /** The claim checks `jwt.decode` makes after the signature: an `exp` must be
      a number not earlier than `now`, and a `sub` must be a string. */
  predicate ClaimsAccepted(claims: Claims, now: int) {
    && ("exp" in claims ==> claims["exp"].Int? && now <= claims["exp"].i)
    && ("sub" in claims ==> claims["sub"].Str?)
  }

  /** `jwt.decode(token, key)`: the claims when the signature checks out and the
      claims are accepted; `None` for a `JWTError`. */
  function JwtDecode(t: Token, key: string, now: int): (r: Option<Claims>)
    ensures r.Some? <==> t.key == key && ClaimsAccepted(t.claims, now)
    ensures r.Some? ==> r.value == t.claims
  {
    if t.key == key && ClaimsAccepted(t.claims, now) then Some(t.claims) else None
  }

  /** The error every failed token check raises. */
  const CredentialsError: HttpError := HttpError(Unauthorized, "Could not validate credentials")

  /** `decode_access_token(token)` as it would behave if its `except JWTError`
      branch could log: a token that does not verify, and a verified payload
      without a `sub` claim (section 4.1.2 of RFC 7519), both give 401;
      otherwise the subject. */
  function DecodeAccessToken(t: Token, key: string, now: int): (r: Result<string, HttpError>)
    ensures r.Ok? <==> JwtDecode(t, key, now).Some? && "sub" in t.claims
    ensures r.Ok? ==> t.claims["sub"] == Str(r.value)
    ensures r.Err? ==> r.error == CredentialsError
  {
    match JwtDecode(t, key, now)
    case None => Err(CredentialsError)
    case Some(payload) =>
      if "sub" !in payload then Err(CredentialsError)
      else Ok(payload["sub"].s)
  }

  /** `decode_access_token(token)` as written: the `except JWTError` branch
      formats an unbound name, so a token that does not verify ends in a
      `NameError`, which the framework turns into a 500. */
  function DecodeAccessTokenAsWritten(t: Token, key: string, now: int): (r: Result<string, HttpError>)
    ensures JwtDecode(t, key, now).None? ==> r.Err? && r.error.status == InternalServerError
  {
    match JwtDecode(t, key, now)
    case None => Err(HttpError(InternalServerError, "NameError"))
    case Some(payload) =>
      if "sub" !in payload then Err(CredentialsError)
      else Ok(payload["sub"].s)
  }

  /** The two readings agree on every token that verifies and differ on every
      token that does not: the written code never answers 401 for a bad
      signature or an expired token. */
  lemma {:induction false} DecodeAsWrittenDiffers(t: Token, key: string, now: int)
    ensures JwtDecode(t, key, now).Some? ==> DecodeAccessTokenAsWritten(t, key, now) == DecodeAccessToken(t, key, now)
    ensures JwtDecode(t, key, now).None? ==>
      && DecodeAccessToken(t, key, now) == Err(CredentialsError)
      && DecodeAccessTokenAsWritten(t, key, now).error.status != Unauthorized
  {
  }

  /** A token made for a subject decodes back to that subject with the same key
      until it expires, and is refused after that or under another key. */
  lemma {:induction false} TokenRoundTrip(subject: string, expiresDelta: Option<int>, created: int, key: string, key2: string, now: int)
    ensures var t := CreateAccessToken(map["sub" := Str(subject)], expiresDelta, created, key);
      && (now <= Expiry(expiresDelta, created) ==> DecodeAccessToken(t, key, now) == Ok(subject))
      && (now > Expiry(expiresDelta, created) ==> DecodeAccessToken(t, key, now).Err?)
      && (key2 != key ==> DecodeAccessToken(t, key2, now).Err?)
  {
    var t := CreateAccessToken(map["sub" := Str(subject)], expiresDelta, created, key);
    assert "sub" in t.claims && t.claims["sub"] == Str(subject);
  }

  /** `db.query(User).filter(User.username == username).first()`. */
  function FindByUsername(users: seq<User>, username: string): (r: Option<nat>)
    ensures r.Some? ==> r.value < |users| && users[r.value].username == username
                        && forall j :: 0 <= j < r.value ==> users[j].username != username
    ensures r.None? <==> forall j :: 0 <= j < |users| ==> users[j].username != username
  {
    FirstWhere(users, (u: User) => u.username == username)
  }

  /** The steps of `get_current_user` after the token is read: the error of
      the decoding passed on, then 401 when no user has the subject as
      username, then 400 when that user is inactive; otherwise the user. */
  function CurrentUserFrom(users: seq<User>, decoded: Result<string, HttpError>): (r: Result<User, HttpError>)
    ensures r.Ok? ==> r.value in users && r.value.isActive
  {
    match decoded
    case Err(e) => Err(e)
    case Ok(username) =>
      match FindByUsername(users, username)
      case None => Err(HttpError(Unauthorized, "User not found"))
      case Some(i) =>
        if !users[i].isActive then Err(HttpError(BadRequest, "Inactive user"))
        else Ok(users[i])
  }

  /** `get_current_user` with the corrected decoding, the one the handlers'
      model relies on. */
  function GetCurrentUser(users: seq<User>, t: Token, key: string, now: int): (r: Result<User, HttpError>)
    ensures r.Ok? ==> r.value in users && r.value.isActive
  {
    CurrentUserFrom(users, DecodeAccessToken(t, key, now))
  }

  /** `get_current_user` as written, on top of `DecodeAccessTokenAsWritten`. */
  function GetCurrentUserAsWritten(users: seq<User>, t: Token, key: string, now: int): (r: Result<User, HttpError>)
    ensures r.Ok? ==> r.value in users && r.value.isActive
  {
    CurrentUserFrom(users, DecodeAccessTokenAsWritten(t, key, now))
  }

  /** The written dependency and the corrected one agree on every token that
      verifies; on one that does not, the written one answers 500 where the
      corrected one answers 401. */
  lemma {:induction false} GetCurrentUserAsWrittenDiffers(users: seq<User>, t: Token, key: string, now: int)
    ensures JwtDecode(t, key, now).Some? ==> GetCurrentUserAsWritten(users, t, key, now) == GetCurrentUser(users, t, key, now)
    ensures JwtDecode(t, key, now).None? ==>
      && GetCurrentUser(users, t, key, now) == Err(CredentialsError)
      && GetCurrentUserAsWritten(users, t, key, now).Err?
      && GetCurrentUserAsWritten(users, t, key, now).error.status == InternalServerError
  {
    DecodeAsWrittenDiffers(t, key, now);
  }

  /** The checks of `get_current_user` run in order: a bad token or a missing
      user is a 401 before the active flag is looked at, an inactive user is a
      400, and otherwise the result is the first user with that username. */
  lemma {:induction false} GetCurrentUserOrder(users: seq<User>, t: Token, key: string, now: int)
    ensures var r := GetCurrentUser(users, t, key, now);
      && (DecodeAccessToken(t, key, now).Err? ==> r == Err(CredentialsError))
      && (DecodeAccessToken(t, key, now).Ok? ==>
            var i := FindByUsername(users, DecodeAccessToken(t, key, now).value);
            && (i.None? ==> r.Err? && r.error.status == Unauthorized)
            && (i.Some? && !users[i.value].isActive ==> r.Err? && r.error.status == BadRequest)
            && (i.Some? && users[i.value].isActive ==> r == Ok(users[i.value])))
  {
  }

  /** `get_current_admin_user`: 403 unless the authenticated user is an admin,
      who is returned unchanged. */
  function GetCurrentAdminUser(current: Result<User, HttpError>): (r: Result<User, HttpError>)
    ensures current.Err? ==> r == current
    ensures current.Ok? && current.value.role != RoleAdmin ==> r.Err? && r.error.status == Forbidden
    ensures current.Ok? && current.value.role == RoleAdmin ==> r == current
  {
    match current
    case Err(e) => Err(e)
    case Ok(user) =>
      if user.role != RoleAdmin then Err(HttpError(Forbidden, "Not enough permissions"))
      else Ok(user)
  }

  /** A user with a fresh token for their username gets through the whole
      chain, and through the admin check exactly when their role is admin. */
  lemma {:induction false} FreshTokenAuthenticates(users: seq<User>, i: nat, expiresDelta: Option<int>, created: int,
                                key: string, now: int)
    requires i < |users| && users[i].isActive
    requires forall j :: 0 <= j < i ==> users[j].username != users[i].username
    requires now <= Expiry(expiresDelta, created)
    ensures var t := CreateAccessToken(map["sub" := Str(users[i].username)], expiresDelta, created, key);
      && GetCurrentUser(users, t, key, now) == Ok(users[i])
      && (GetCurrentAdminUser(GetCurrentUser(users, t, key, now)).Ok? <==> users[i].role == RoleAdmin)
  {
    TokenRoundTrip(users[i].username, expiresDelta, created, key, key, now);
  }
}
