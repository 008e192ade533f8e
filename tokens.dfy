/**
 * The token half of src/user/api.py: the constants, `create_access_token`,
 * `create_refresh_token`, `decode_token`, `verify_refresh_token`, the
 * `Authorization: Bearer <token>` header handling of `get_current_user` and
 * `refresh_access_token`, and those two handlers. Every function here is
 * pure: the wall clock is the parameter `now`, in whole seconds since the
 * epoch.
 */
module AuthTokens {
  import opened Wrappers
  import opened PyText
  import opened Jwt

  const SecretKey: string := "your-secret-key"
  const Algorithm: string := "HS256"
  const AccessTokenExpireMinutes: nat := 15
  const RefreshTokenExpireDays: nat := 7

  /** `timedelta(minutes=ACCESS_TOKEN_EXPIRE_MINUTES)` in seconds. */
  const AccessTokenLifetime: nat := AccessTokenExpireMinutes * 60
  /** `timedelta(days=REFRESH_TOKEN_EXPIRE_DAYS)` in seconds. */
  const RefreshTokenLifetime: nat := RefreshTokenExpireDays * 24 * 60 * 60

  const AccessType: string := "access"
  const RefreshType: string := "refresh"
  const BearerPrefix: string := "Bearer "

  /** The 401 detail of `get_current_user` for a header without the Bearer prefix. */
  const HeaderDetail: string := "Invalid authorization header format. Expected 'Bearer <token>'"
  /** The 401 detail of `get_current_user` for a wrong `type` or a null `sub`, re-wrapped by its own `except`. */
  const NoSubjectDetail: string := "Invalid or expired token: 401: Invalid credentials: no subject in token"

  /** An `HTTPException`: its status code and its detail text. */
  datatype HttpError = HttpError(status: nat, detail: string)

  /** The body `refresh_access_token` returns. */
  datatype RefreshResponse = RefreshResponse(accessToken: string, tokenType: string)

  // ---- Issuing --------------------------------------------------------------

  /**
   * `to_encode = data.copy(); to_encode.update({"exp": exp, "type": tokenType})`:
   * every key of `data` survives with its value, except that `exp` and `type`
   * are overwritten. The caller's `data` is a value here, so it cannot change.
   */
  function TypedClaims(data: Dict, exp: nat, tokenType: string): (payload: Dict)
    ensures forall k :: k != "exp" && k != "type" ==> Get(payload, k) == Get(data, k)
    ensures Get(payload, "exp") == Some(Num(exp))
    ensures Get(payload, "type") == Some(Str(tokenType))
    ensures KeySet(payload) == KeySet(data) + {"exp", "type"}
    ensures UniqueKeys(data) ==> UniqueKeys(payload)
  {
    Put(Put(data, "exp", Num(exp)), "type", Str(tokenType))
  }

  /** `jwt.encode(to_encode, SECRET_KEY, algorithm=ALGORITHM)` for the typed claims. */
  function SignedToken(data: Dict, exp: nat, tokenType: string): string {
    Encode(TypedClaims(data, exp, tokenType), SecretKey, Algorithm)
  }

  /** `datetime.now(timezone.utc) + delta`: the instant a token issued at `now` expires. */
  function ExpiryTime(now: nat, delta: nat): nat {
    now + delta
  }

  /** `create_access_token(data, expires_delta)` at time `now`. */
  function CreateAccessToken(data: Dict, now: nat, expiresDelta: nat): string {
    SignedToken(data, ExpiryTime(now, expiresDelta), AccessType)
  }

  /** `create_refresh_token(data)` at time `now`. */
  function CreateRefreshToken(data: Dict, now: nat): string {
    SignedToken(data, ExpiryTime(now, RefreshTokenLifetime), RefreshType)
  }

  /** The payload `{"sub": email}` the handlers pass to the token constructors. */
  function SubjectData(sub: Claim): (data: Dict)
    ensures UniqueKeys(data) && Get(data, "sub") == Some(sub)
    ensures KeySet(data) == {"sub"}
  {
    [("sub", sub)]
  }

  // ---- Reading --------------------------------------------------------------

  /** `decode_token(token)`: the payload, or the message of the exception it raises. */
  function DecodeToken(token: string, now: nat): (r: Result<Dict, string>)
    ensures r.Success? <==> Decode(token, SecretKey, [Algorithm], now).Success?
    ensures r.Success? ==> r.value == Decode(token, SecretKey, [Algorithm], now).value
    ensures r == Failure("Token has expired") <==> Decode(token, SecretKey, [Algorithm], now) == Failure(ExpiredSignature)
    ensures r == Failure("Invalid token") <==> Decode(token, SecretKey, [Algorithm], now) == Failure(InvalidToken)
  {
    match Decode(token, SecretKey, [Algorithm], now)
    case Success(payload) => Success(payload)
    case Failure(ExpiredSignature) => Failure("Token has expired")
    case Failure(InvalidToken) => Failure("Invalid token")
  }

  /** The first space-separated field of `s` is the longest prefix of `s` without a space. */
  lemma {:induction false} FirstField(s: string, sep: char)
    ensures var f := Split(s, sep)[0];
      sep !in f && |f| <= |s| && s[..|f|] == f && (|f| == |s| || s[|f|] == sep)
    decreases |s|
  {
    if s != [] && s[0] != sep {
      FirstField(s[1..], sep);
    }
  }

  /**
   * The token of an `Authorization` header: `None` when the header does not
   * start with "Bearer ", otherwise `header.split(" ")[1]`, which is the text
   * after "Bearer " up to the next space or the end.
   */
  function BearerToken(authorization: string): (token: Option<string>)
    ensures token.Some? <==> StartsWith(authorization, BearerPrefix)
    ensures token.Some? ==>
      var n := |BearerPrefix| + |token.value|;
      ' ' !in token.value && n <= |authorization| &&
      authorization[..n] == BearerPrefix + token.value &&
      (n == |authorization| || authorization[n] == ' ')
  {
    if StartsWith(authorization, BearerPrefix) then
      var rest := authorization[|BearerPrefix|..];
      assert authorization == "Bearer" + [' '] + rest;
      SplitAfterField("Bearer", rest, ' ');
      FirstField(rest, ' ');
      Some(Split(authorization, ' ')[1])
    else None
  }

  /**
   * The guarded part of `get_current_user`: the `sub` claim of a valid
   * access token, or a 401 carrying the message of whatever was raised.
   */
  function AccessSubject(token: string, now: nat): (r: Result<Claim, HttpError>)
    ensures r.Failure? ==> r.error.status == 401
    ensures r.Success? ==>
      && DecodeToken(token, now).Success?
      && Get(DecodeToken(token, now).value, "type") == Some(Str(AccessType))
      && Get(DecodeToken(token, now).value, "sub") == Some(r.value)
      && r.value != Null
    ensures (DecodeToken(token, now).Success? && Get(DecodeToken(token, now).value, "type") == Some(Str(AccessType)) &&
             Get(DecodeToken(token, now).value, "sub").Some? && Get(DecodeToken(token, now).value, "sub").value != Null) ==>
      r == Success(Get(DecodeToken(token, now).value, "sub").value)
    ensures DecodeToken(token, now).Failure? ==>
      r == Failure(HttpError(401, "Invalid or expired token: " + DecodeToken(token, now).error))
    ensures DecodeToken(token, now).Success? && r.Failure? ==> r.error == HttpError(401, NoSubjectDetail)
  {
    match DecodeToken(token, now)
    case Failure(message) => Failure(HttpError(401, "Invalid or expired token: " + message))
    case Success(payload) =>
      if Get(payload, "type") != Some(Str(AccessType)) then
        Failure(HttpError(401, NoSubjectDetail))
      else match Get(payload, "sub")
        case Some(sub) =>
          if sub == Null then Failure(HttpError(401, NoSubjectDetail))
          else Success(sub)
        case None => Failure(HttpError(401, NoSubjectDetail))
  }

  /** The dependency `get_current_user`: the `sub` claim of a valid access token in the header, or a 401. */
  function GetCurrentUser(authorization: string, now: nat): (r: Result<Claim, HttpError>)
    ensures r.Failure? ==> r.error.status == 401
    ensures r.Success? ==>
      && BearerToken(authorization).Some?
      && var token := BearerToken(authorization).value;
      && DecodeToken(token, now).Success?
      && Get(DecodeToken(token, now).value, "type") == Some(Str(AccessType))
      && Get(DecodeToken(token, now).value, "sub") == Some(r.value)
      && r.value != Null
    ensures BearerToken(authorization).None? ==> r == Failure(HttpError(401, HeaderDetail))
    ensures BearerToken(authorization).Some? ==>
      var token := BearerToken(authorization).value;
      (DecodeToken(token, now).Success? && Get(DecodeToken(token, now).value, "type") == Some(Str(AccessType)) &&
       Get(DecodeToken(token, now).value, "sub").Some? && Get(DecodeToken(token, now).value, "sub").value != Null) ==>
      r == Success(Get(DecodeToken(token, now).value, "sub").value)
    ensures BearerToken(authorization).Some? && DecodeToken(BearerToken(authorization).value, now).Failure? ==>
      r == Failure(HttpError(401, "Invalid or expired token: " + DecodeToken(BearerToken(authorization).value, now).error))
  {
    match BearerToken(authorization)
    case None =>
      Failure(HttpError(401, HeaderDetail))
    case Some(token) => AccessSubject(token, now)
  }

  /** `verify_refresh_token(token)`: the `sub` claim (`Null` when absent) of a valid refresh token. */
  function VerifyRefreshToken(token: string, now: nat): (r: Result<Claim, string>)
    ensures r.Success? ==>
      && DecodeToken(token, now).Success?
      && Get(DecodeToken(token, now).value, "type") == Some(Str(RefreshType))
      && (Get(DecodeToken(token, now).value, "sub") == Some(r.value) ||
          (Get(DecodeToken(token, now).value, "sub") == None && r.value == Null))
    ensures Decode(token, SecretKey, [Algorithm], now) == Failure(ExpiredSignature) ==> r == Failure("Refresh token expired")
    ensures Decode(token, SecretKey, [Algorithm], now) == Failure(InvalidToken) ==> r == Failure("Invalid refresh token")
    ensures Decode(token, SecretKey, [Algorithm], now).Success? ==>
      (r.Success? <==> Get(Decode(token, SecretKey, [Algorithm], now).value, "type") == Some(Str(RefreshType)))
    ensures Decode(token, SecretKey, [Algorithm], now).Success? && r.Failure? ==> r.error == "Not a refresh token"
  {
    match Decode(token, SecretKey, [Algorithm], now)
    case Failure(ExpiredSignature) => Failure("Refresh token expired")
    case Failure(InvalidToken) => Failure("Invalid refresh token")
    case Success(payload) =>
      if Get(payload, "type") != Some(Str(RefreshType)) then Failure("Not a refresh token")
      else match Get(payload, "sub")
        case Some(sub) => Success(sub)
        case None => Success(Null)
  }

  /** The handler `refresh_access_token`: a new access token for the subject of a refresh token. */
  function RefreshAccessToken(authorization: string, now: nat): (r: Result<RefreshResponse, HttpError>)
    ensures r.Failure? ==> r.error.status == if BearerToken(authorization).None? then 400 else 401
    ensures r.Success? ==>
      && BearerToken(authorization).Some?
      && VerifyRefreshToken(BearerToken(authorization).value, now).Success?
      && var sub := VerifyRefreshToken(BearerToken(authorization).value, now).value;
      && r.value == RefreshResponse(CreateAccessToken(SubjectData(sub), now, AccessTokenLifetime), "bearer")
    ensures BearerToken(authorization).None? ==> r == Failure(HttpError(400, "Invalid authorization header format"))
    ensures BearerToken(authorization).Some? ==>
      (r.Success? <==> VerifyRefreshToken(BearerToken(authorization).value, now).Success?)
    ensures BearerToken(authorization).Some? && VerifyRefreshToken(BearerToken(authorization).value, now).Failure? ==>
      r == Failure(HttpError(401, VerifyRefreshToken(BearerToken(authorization).value, now).error))
  {
    match BearerToken(authorization)
    case None => Failure(HttpError(400, "Invalid authorization header format"))
    case Some(token) =>
      match VerifyRefreshToken(token, now)
      case Failure(message) => Failure(HttpError(401, message))
      case Success(sub) =>
        Success(RefreshResponse(CreateAccessToken(SubjectData(sub), now, AccessTokenLifetime), "bearer"))
  }

  // ---- Properties -----------------------------------------------------------

  /** `"Bearer a b"` yields `"a"`, `"Bearer "` the empty token; any other start is refused. */
  lemma BearerExamples()
    ensures BearerToken("Bearer a b") == Some("a")
    ensures BearerToken("Bearer ") == Some("")
    ensures BearerToken("bearer a") == None
    ensures BearerToken("Bearer") == None
  {
    var h := "Bearer a b";
    assert h[..7] == BearerPrefix;
    var t := BearerToken(h).value;
    assert h[7] == 'a' && h[8] == ' ';
    assert forall i :: 0 <= i < |t| ==> t[i] == h[..7 + |t|][7 + i];
    assert |t| == 1 && t == [t[0]];
    assert "bearer a"[..7] != BearerPrefix by { assert "bearer a"[0] != BearerPrefix[0]; }
  }

  /** A token without spaces travels through the header unchanged. */
  lemma BearerOfToken(token: string)
    requires ' ' !in token
    ensures BearerToken(BearerPrefix + token) == Some(token)
  {
    var h := BearerPrefix + token;
    assert h[..|BearerPrefix|] == BearerPrefix;
    var t := BearerToken(h).value;
    var n := |BearerPrefix| + |t|;
    assert h[..n] == BearerPrefix + t;
    assert n == |h| && h[..n] == h;
    assert (BearerPrefix + t)[|BearerPrefix|..] == t;
    assert (BearerPrefix + token)[|BearerPrefix|..] == token;
  }

  /** The claims the service signs expire exactly at their `exp`. */
  lemma TypedClaimsExpiry(data: Dict, exp: nat, tokenType: string, now: nat)
    ensures CheckExpiry(TypedClaims(data, exp, tokenType), now) ==
      if exp <= now then Failure(ExpiredSignature) else Success(TypedClaims(data, exp, tokenType))
  {
  }

  /** A token the service signed decodes to its claims until its `exp`. */
  lemma DecodeSigned(data: Dict, exp: nat, tokenType: string, now: nat)
    requires UniqueKeys(data)
    ensures Decode(SignedToken(data, exp, tokenType), SecretKey, [Algorithm], now) ==
      if exp <= now then Failure(ExpiredSignature) else Success(TypedClaims(data, exp, tokenType))
  {
    DecodeEncode(TypedClaims(data, exp, tokenType), SecretKey, Algorithm, [Algorithm], now);
    TypedClaimsExpiry(data, exp, tokenType, now);
  }

  /**
   * `create_access_token(data, expires_delta)` issued at `issuedAt` decodes to
   * the copy of `data` with `exp = issuedAt + expires_delta` and `type = "access"`
   * until that instant, and is expired from then on.
   */
  lemma CreateAccessTokenDecodes(data: Dict, issuedAt: nat, expiresDelta: nat, now: nat)
    requires UniqueKeys(data)
    ensures Decode(CreateAccessToken(data, issuedAt, expiresDelta), SecretKey, [Algorithm], now) ==
      if ExpiryTime(issuedAt, expiresDelta) <= now then Failure(ExpiredSignature)
      else Success(TypedClaims(data, ExpiryTime(issuedAt, expiresDelta), AccessType))
    ensures ExpiryTime(issuedAt, expiresDelta) == issuedAt + expiresDelta
  {
    DecodeSigned(data, ExpiryTime(issuedAt, expiresDelta), AccessType, now);
  }

  /**
   * `create_refresh_token(data)` issued at `issuedAt` decodes to the copy of
   * `data` with `exp` seven days later and `type = "refresh"` until then, and
   * is expired from then on.
   */
  lemma CreateRefreshTokenDecodes(data: Dict, issuedAt: nat, now: nat)
    requires UniqueKeys(data)
    ensures Decode(CreateRefreshToken(data, issuedAt), SecretKey, [Algorithm], now) ==
      if ExpiryTime(issuedAt, RefreshTokenLifetime) <= now then Failure(ExpiredSignature)
      else Success(TypedClaims(data, ExpiryTime(issuedAt, RefreshTokenLifetime), RefreshType))
    ensures ExpiryTime(issuedAt, RefreshTokenLifetime) == issuedAt + 7 * 24 * 60 * 60
  {
    DecodeSigned(data, ExpiryTime(issuedAt, RefreshTokenLifetime), RefreshType, now);
  }

  /** A token the service signed travels intact in an `Authorization` header. */
  lemma BearerSigned(data: Dict, exp: nat, tokenType: string)
    ensures BearerToken(BearerPrefix + SignedToken(data, exp, tokenType)) == Some(SignedToken(data, exp, tokenType))
  {
    BearerOfToken(SignedToken(data, exp, tokenType));
  }

  /** An unexpired access token yields its subject, or the 401 of a null one. */
  lemma AccessSubjectSigned(data: Dict, sub: Claim, exp: nat, now: nat)
    requires UniqueKeys(data) && Get(data, "sub") == Some(sub)
    requires now < exp
    ensures AccessSubject(SignedToken(data, exp, AccessType), now) ==
      if sub == Null
      then Failure(HttpError(401, NoSubjectDetail))
      else Success(sub)
  {
    DecodeSigned(data, exp, AccessType, now);
  }

  /** An unexpired access token is accepted, and `get_current_user` returns its subject. */
  lemma AccessTokenAccepted(data: Dict, sub: Claim, issuedAt: nat, expiresDelta: nat, now: nat)
    requires UniqueKeys(data) && Get(data, "sub") == Some(sub) && sub != Null
    requires now < issuedAt + expiresDelta
    ensures GetCurrentUser(BearerPrefix + CreateAccessToken(data, issuedAt, expiresDelta), now) == Success(sub)
  {
    BearerSigned(data, ExpiryTime(issuedAt, expiresDelta), AccessType);
    AccessSubjectSigned(data, sub, ExpiryTime(issuedAt, expiresDelta), now);
  }

  /** Once its `exp` has passed, an access token is refused with 401 "Token has expired". */
  lemma AccessTokenExpires(data: Dict, issuedAt: nat, expiresDelta: nat, now: nat)
    requires UniqueKeys(data)
    requires ExpiryTime(issuedAt, expiresDelta) <= now
    ensures GetCurrentUser(BearerPrefix + CreateAccessToken(data, issuedAt, expiresDelta), now)
      == Failure(HttpError(401, "Invalid or expired token: " + "Token has expired"))
  {
    BearerSigned(data, ExpiryTime(issuedAt, expiresDelta), AccessType);
    DecodeSigned(data, ExpiryTime(issuedAt, expiresDelta), AccessType, now);
  }

  /** A refresh token is never accepted where an access token is required. */
  lemma RefreshTokenNotAccess(data: Dict, issuedAt: nat, now: nat)
    requires UniqueKeys(data)
    ensures GetCurrentUser(BearerPrefix + CreateRefreshToken(data, issuedAt), now).Failure?
  {
    BearerSigned(data, ExpiryTime(issuedAt, RefreshTokenLifetime), RefreshType);
    DecodeSigned(data, ExpiryTime(issuedAt, RefreshTokenLifetime), RefreshType, now);
  }

  /** `verify_refresh_token` refuses an unexpired access token the service signed as the wrong type. */
  lemma RefreshOfAccessSigned(data: Dict, exp: nat, now: nat)
    requires UniqueKeys(data)
    requires now < exp
    ensures VerifyRefreshToken(SignedToken(data, exp, AccessType), now) == Failure("Not a refresh token")
  {
    DecodeSigned(data, exp, AccessType, now);
    assert Get(TypedClaims(data, exp, AccessType), "type") == Some(Str(AccessType));
  }

  /** `verify_refresh_token` refuses an expired token the service signed as expired. */
  lemma RefreshOfExpiredSigned(data: Dict, exp: nat, tokenType: string, now: nat)
    requires UniqueKeys(data)
    requires exp <= now
    ensures VerifyRefreshToken(SignedToken(data, exp, tokenType), now) == Failure("Refresh token expired")
  {
    DecodeSigned(data, exp, tokenType, now);
  }

  /** `refresh_access_token` answers a refused token with 401 and the message of the refusal. */
  lemma RefreshRefused(token: string, now: nat)
    requires ' ' !in token
    requires VerifyRefreshToken(token, now).Failure?
    ensures RefreshAccessToken(BearerPrefix + token, now)
      == Failure(HttpError(401, VerifyRefreshToken(token, now).error))
  {
    BearerOfToken(token);
  }

  /** An access token is never accepted as a refresh token. */
  lemma AccessTokenNotRefresh(data: Dict, issuedAt: nat, expiresDelta: nat, now: nat)
    requires UniqueKeys(data)
    ensures RefreshAccessToken(BearerPrefix + CreateAccessToken(data, issuedAt, expiresDelta), now)
      == Failure(HttpError(401, if ExpiryTime(issuedAt, expiresDelta) <= now then "Refresh token expired" else "Not a refresh token"))
  {
    var exp := ExpiryTime(issuedAt, expiresDelta);
    BearerSigned(data, exp, AccessType);
    if exp <= now {
      RefreshOfExpiredSigned(data, exp, AccessType, now);
    } else {
      RefreshOfAccessSigned(data, exp, now);
    }
    RefreshRefused(SignedToken(data, exp, AccessType), now);
  }

  /** An unexpired refresh token buys a fresh access token for the same subject, and nothing else. */
  lemma RefreshTokenAccepted(sub: Claim, issuedAt: nat, now: nat)
    requires now < issuedAt + RefreshTokenLifetime
    ensures RefreshAccessToken(BearerPrefix + CreateRefreshToken(SubjectData(sub), issuedAt), now)
      == Success(RefreshResponse(CreateAccessToken(SubjectData(sub), now, AccessTokenLifetime), "bearer"))
  {
    BearerSigned(SubjectData(sub), ExpiryTime(issuedAt, RefreshTokenLifetime), RefreshType);
    DecodeSigned(SubjectData(sub), ExpiryTime(issuedAt, RefreshTokenLifetime), RefreshType, now);
  }

  /**
   * What `refresh_access_token` hands out is an access token: it is refused
   * as a refresh token, and it is accepted as an access token for the
   * refresh token's subject until it expires (unless that subject is null).
   */
  lemma RefreshIssuesAccessOnly(authorization: string, now: nat, later: nat)
    requires RefreshAccessToken(authorization, now).Success?
    requires now <= later < now + AccessTokenLifetime
    ensures var newToken := RefreshAccessToken(authorization, now).value.accessToken;
      var sub := VerifyRefreshToken(BearerToken(authorization).value, now).value;
      && RefreshAccessToken(BearerPrefix + newToken, later) == Failure(HttpError(401, "Not a refresh token"))
      && GetCurrentUser(BearerPrefix + newToken, later) ==
           if sub == Null
           then Failure(HttpError(401, NoSubjectDetail))
           else Success(sub)
  {
    var sub := VerifyRefreshToken(BearerToken(authorization).value, now).value;
    var exp := ExpiryTime(now, AccessTokenLifetime);
    var token := SignedToken(SubjectData(sub), exp, AccessType);
    assert RefreshAccessToken(authorization, now).value.accessToken == token;
    BearerSigned(SubjectData(sub), exp, AccessType);
    RefreshOfAccessSigned(SubjectData(sub), exp, later);
    RefreshRefused(token, later);
    AccessSubjectSigned(SubjectData(sub), sub, exp, later);
  }
}
