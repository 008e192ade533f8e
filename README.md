# Email one-time-password authentication, modelled in Dafny

This project models the authentication core of a FastAPI service that signs users in with a
one-time code sent by e-mail:

- `POST /auth/login` finds or inserts the user row for an address, stores a fresh six-digit
  code and a zero attempt counter in Redis, and queues the mail.
- `POST /auth/verify-otp` checks the code in a fixed order: no code, then the lock after five
  wrong guesses, then the comparison, then the row lookup. On success it flags the row as
  verified, deletes both Redis keys and issues an access token and a refresh token.
- `POST /auth/register` reads the subject of the access token in the `Authorization: Bearer`
  header and stores the user's names.
- `POST /auth/refresh-token` trades a refresh token for a new access token.

The tokens are JSON Web Tokens (RFC 7519) signed with HS256 (section 3.2 of RFC 7518). They carry
`sub`, `exp` (section 4.1.4 of RFC 7519) and a `type` claim that separates access tokens from
refresh tokens.

Modules, one per file:

- `Wrappers`: `Option` and `Result`.
- `PyText`: Python's `str.startswith` and `str.split(sep)`, with the join that `split` inverts.
- `HexCodec`: a textual encoding of strings and numbers that can be parsed back. It stands in
  for JSON and base64url inside the token.
- `Jwt`: the dictionary payload (`dict.get`, `d[k] = v`), the compact three-segment token, and
  `jwt.encode`/`jwt.decode` with PyJWT's order of checks and its two error kinds.
- `OtpGenerator`: `generate_otp`. The random draws are an input.
- `UserModel`: the `User` row and the defaults of a new row.
- `AuthTokens`: the constants, `create_access_token`, `create_refresh_token`, `decode_token`,
  `get_current_user`, `verify_refresh_token`, `refresh_access_token`.
- `AuthFlow`: `login`, `verify_otp` and `register_user` as pure steps over the whole store. The
  store is the Redis codes, the Redis attempt counters, the users table keyed by the unique
  `email` column, and the mail queue.
- `AuthProperties`: the store invariant and the properties that span several requests.
- `AuthService`: a class holding the same four collections as fields. Its methods perform the
  handlers in place and are proved equal to the `AuthFlow` steps.

The wall clock is a parameter `now` in whole seconds. Randomness is a sequence of digits. A
Redis key lapsing after its 600-second lifetime is an explicit step, `ExpireStep`.

Behaviour that the code has and a reader might not expect:

- `register_user` does not require a verified address. Any valid access token whose subject
  has a row can register.
- Addresses are compared exactly, with no case folding.
- Inside `get_current_user`, the handler's own 401 for a wrong `type` or a missing `sub` is
  caught again by `except Exception`. Its text is then re-wrapped, so the detail reads
  `Invalid or expired token: 401: Invalid credentials: no subject in token`.
- `verify_otp` treats an empty stored code like a missing one (`if not expected_otp`).
- `Authorization.split(" ")[1]` takes the text between the first and the second space, so
  `"Bearer "` gives the empty token.

## Model

| member | source | states |
|---|---|---|
| PyText.Split | src/user/api.py:36 | `str.split(" ")` yields at least one field, and no field contains the separator |
| PyText.StartsWithMeans | src/user/api.py:30 | `s.startswith(prefix)` holds exactly when `s` is `prefix` followed by the rest of `s` |
| PyText.SplitJoin | src/user/api.py:36 | splitting a join of separator-free fields gives those fields back |
| PyText.JoinSplit | src/user/api.py:36 | joining the fields of a split gives the original text back |
| AuthTokens.FirstField | src/user/api.py:36 | the first field is the longest separator-free prefix, ended by the separator or the end of the text |
| Jwt.Get | src/user/api.py:40-46 | `payload.get(k)` is present exactly when `k` is one of the payload's keys, and then returns a value stored under `k`; with unique keys it is the one value stored under `k` |
| Jwt.Put | src/user/api.py:67 | `d[k] = v` makes `k` map to `v`, leaves every other key's value alone, keeps keys unique, and appends a new key at the end |
| Jwt.ParseEncodeDict | src/user/api.py:68 | a payload with unique keys survives serialisation and parsing unchanged |
| Jwt.Encode | src/user/api.py:68 | `jwt.encode` produces three dot-separated segments: the header naming the algorithm, the payload, and the signature over both; the token contains no space |
| Jwt.Decode | src/user/api.py:80 | `jwt.decode` succeeds, or reports expiry, only for a token whose header parses and names an algorithm in `algorithms`, whose signature matches under the key and whose payload parses; for every such token the result is the `exp` check of its payload, so it succeeds with that payload while `exp` is absent or later than now and reports `ExpiredSignature` exactly when `exp` is at or before now |
| Jwt.CheckExpiry | src/user/api.py:80-83 | the `exp` check passes the payload through unchanged when `exp` is absent or later than now, and reports `ExpiredSignature` exactly when a numeric `exp` is not later than now |
| Jwt.DecodeEncode | src/user/api.py:78-85 | decoding an encoded payload with the same key and an accepted algorithm gives the payload back, or `ExpiredSignature` once `exp <= now` |
| Jwt.OtherAlgorithmRejected | src/user/api.py:80 | a token whose header names an algorithm outside `algorithms=[ALGORITHM]` is invalid |
| Jwt.WrongKeyRejected | src/user/api.py:80 | a token signed under another key of the same length is invalid |
| Jwt.TamperedPayloadRejected | src/user/api.py:80 | a token whose signature belongs to a different payload text is invalid, whatever its expiry |
| OtpGenerator.GenerateOtp | src/utils/generate_otp.py:5-6 | the code has exactly `length` characters (none for a negative length), all decimal digits, and the i-th digit is the i-th draw |
| OtpGenerator.GenerateOtpInjective | src/utils/generate_otp.py:6 | different draws give different codes |
| OtpGenerator.GenerateOtpSurjective | src/utils/generate_otp.py:6 | every digit string is the code of the draws it spells |
| OtpGenerator.DefaultAndEmptyLengths | src/utils/generate_otp.py:5 | the default length gives six digits; a length of zero or less gives the empty code |
| UserModel.NewUser | src/user/model.py:9-13 | a new row has its address, no names, and neither `email_verified` nor `registerd` set |
| AuthTokens.TypedClaims | src/user/api.py:65-67 | the signed claims keep every key of `data` except `exp` and `type`, set `exp` and `type`, add only those two keys, and keep keys unique |
| AuthTokens.CreateAccessTokenDecodes | src/user/api.py:61-68 | an access token issued at `t` with lifetime `d` decodes to `data` plus `exp = t + d` and `type = access` before `t + d`, and is expired from then on |
| AuthTokens.CreateRefreshTokenDecodes | src/user/api.py:71-75 | a refresh token issued at `t` decodes to `data` plus `exp` seven days later and `type = refresh` before then, and is expired from then on |
| AuthTokens.SubjectData | src/user/api.py:177-178 | the data `{"sub": email}` has the single key `sub`, mapped to the address |
| AuthTokens.DecodeToken | src/user/api.py:78-85 | `decode_token` succeeds exactly when `jwt.decode` does, with the same payload; it raises `Token has expired` exactly on `ExpiredSignatureError` and `Invalid token` exactly on any other invalid token |
| AuthTokens.BearerToken | src/user/api.py:30-36 | a token is found exactly when the header starts with `"Bearer "`; it is the longest space-free text after the prefix |
| AuthTokens.BearerExamples | src/user/api.py:30-36 | `"Bearer a b"` gives `"a"` and `"Bearer "` gives `""`; `"bearer a"` and `"Bearer"` are refused |
| AuthTokens.BearerOfToken | src/user/api.py:36 | a space-free token behind `"Bearer "` is read back unchanged |
| AuthTokens.AccessSubject | src/user/api.py:38-58 | success happens exactly when the token decodes, its `type` is `access` and its `sub` is present and non-null, and then returns that `sub`; a decoding failure is a 401 reading `Invalid or expired token: ` followed by its message; any other failure is the 401 with the no-subject text |
| AuthTokens.GetCurrentUser | src/user/api.py:29-58 | a header without `"Bearer "` is a 401 with the header-format text; for a Bearer token, success happens exactly when it decodes to `type` `access` with a non-null `sub`, and returns that `sub`; a decoding failure is a 401 carrying its message; every failure is a 401 |
| AuthTokens.VerifyRefreshToken | src/user/api.py:194-203 | an expired token is refused with `Refresh token expired` and any other invalid token with `Invalid refresh token`; a decoded token succeeds exactly when its `type` is `refresh`, otherwise `Not a refresh token`; the result is `sub`, or null when `sub` is absent |
| AuthTokens.RefreshAccessToken | src/user/api.py:206-222 | a header without `"Bearer "` is a 400 with the header-format text; for a Bearer token, success happens exactly when `verify_refresh_token` accepts it, and a refusal is a 401 carrying its message; success returns a new access token for the refresh token's subject, lifetime 15 minutes, type `bearer` |
| AuthTokens.TypedClaimsExpiry | src/user/api.py:66-67 | the signed claims expire exactly at the `exp` they were given |
| AuthTokens.DecodeSigned | src/user/api.py:78-85 | a token the service signed decodes to its claims before `exp` and is expired from `exp` on |
| AuthTokens.BearerSigned | src/user/api.py:36 | a token the service signed passes through the Bearer header unchanged |
| AuthTokens.AccessSubjectSigned | src/user/api.py:38-53 | an unexpired access token yields its `sub`, or the 401 of a missing subject when `sub` is null |
| AuthTokens.AccessTokenAccepted | src/user/api.py:61-68 | before its expiry, `get_current_user` accepts a fresh access token and returns its `sub` |
| AuthTokens.AccessTokenExpires | src/user/api.py:53-57 | from its expiry on, an access token is refused with 401 `Invalid or expired token: Token has expired` |
| AuthTokens.RefreshTokenNotAccess | src/user/api.py:38-43 | `get_current_user` never accepts a refresh token |
| AuthTokens.RefreshOfAccessSigned | src/user/api.py:197-198 | `verify_refresh_token` refuses an unexpired access token with `Not a refresh token` |
| AuthTokens.RefreshOfExpiredSigned | src/user/api.py:200-201 | `verify_refresh_token` refuses any expired token the service signed with `Refresh token expired` |
| AuthTokens.RefreshRefused | src/user/api.py:215-218 | a refused refresh token becomes a 401 carrying the refusal's message |
| AuthTokens.AccessTokenNotRefresh | src/user/api.py:194-218 | `refresh_access_token` never accepts an access token: 401 with the expiry or wrong-type message |
| AuthTokens.RefreshTokenAccepted | src/user/api.py:206-222 | an unexpired refresh token buys an access token for the same subject, issued at the time of the request |
| AuthTokens.RefreshIssuesAccessOnly | src/user/api.py:220-222 | what `refresh_access_token` returns is refused as a refresh token; for its 15 minutes it is accepted as an access token for the same subject, unless that subject is null |
| AuthFlow.LoginStep | src/user/api.py:92-124 | login inserts a default row only for an unknown address and leaves existing rows alone; it stores a six-digit code and a zero counter for that address only, queues exactly that code for that address, and answers with the stored row's flags |
| AuthFlow.Check | src/user/api.py:132-166 | the branch taken follows the handler's order: no live code, then the counter at 5 or more, then a wrong code, then a missing row; only a live code, under 5 attempts, equal to the guess, for a known row, verifies |
| AuthFlow.VerifyStore | src/user/api.py:152-175 | a wrong guess adds exactly one to the counter (`incr` from 0 when absent); a verification flags the row and deletes both keys; the other branches change nothing |
| AuthFlow.VerifyAnswer | src/user/api.py:134-186 | the answer is the no-code refusal exactly when there is no code, the lock refusal exactly when the counter is at 5, `Invalid OTP.` exactly on a wrong guess, a 404 exactly when the row is missing, and otherwise the confirmation; in a valid store the confirmation carries the access token and the refresh token for the address, issued at the time of the request |
| AuthFlow.RegisterStep | src/user/api.py:229-251 | a failure of `get_current_user` passes through unchanged; success happens exactly when the subject is an address with a row; then only that row changes (both names set, `registerd` set) and the names are echoed; Redis and the mail queue are untouched |
| AuthFlow.ExpireStep | src/user/api.py:114-115 | the lapse of the 600-second keys removes the code and counter of one address and nothing else |
| AuthProperties.LoginPreservesValid | src/user/api.py:98-118 | login keeps the invariant: rows under their own address, code and counter set together, codes only for known rows and only ones that were mailed, counters at most 5 |
| AuthProperties.VerifyPreservesValid | src/user/api.py:145-175 | verification keeps the invariant |
| AuthProperties.RegisterPreservesValid | src/user/api.py:234-246 | registration keeps the invariant |
| AuthProperties.ExpirePreservesValid | src/user/api.py:114-115 | key expiry keeps the invariant |
| AuthProperties.EmptyStoreValid | src/user/api.py:92-251 | the store before any request, with no codes, counters, rows or mails, satisfies the invariant that every handler keeps |
| AuthProperties.RunPreservesValid | src/user/api.py:92-251 | any sequence of logins, verifications, registrations and expiries from a valid store ends in a valid store |
| AuthProperties.VerifyKeepsRows | src/user/api.py:169 | verification never removes a row, changes its address, or clears a flag |
| AuthProperties.RegisterKeepsRows | src/user/api.py:240-243 | registration never removes a row, changes its address, or clears a flag |
| AuthProperties.RunKeepsRows | src/user/api.py:92-251 | across any sequence of requests, rows are never lost, and `email_verified` and `registerd` are never cleared once set |
| AuthProperties.LoginTwiceSameRows | src/user/api.py:98-106 | a second login for the same address adds no row |
| AuthProperties.LoginReportsExistingRow | src/user/api.py:120-124 | login answers with the existing row's `email_verified` and `registerd` |
| AuthProperties.VerifiedCodeWasMailed | src/user/api.py:113-118 | in a valid store, a verification succeeds only with a code that was mailed to that address |
| AuthProperties.CodeIsSingleUse | src/user/api.py:173-175 | after a verification, the next verification for the address reports `OTP expired or not found.` and changes nothing |
| AuthProperties.ExpiredCodeRefused | src/user/api.py:132-139 | after the keys lapse, verification reports `OTP expired or not found.` and changes nothing |
| AuthProperties.VerifyStepBudget | src/user/api.py:145-159 | one verification counts at most one wrong guess, and the remaining budget drops by at least that much |
| AuthProperties.GuessesBounded | src/user/api.py:145-159 | any run of verifications for one address counts at most `5 - tries` wrong guesses |
| AuthProperties.AtMostFiveGuesses | src/user/api.py:145 | no code ever admits more than five wrong guesses |
| AuthProperties.WrongGuessesCount | src/user/api.py:152-159 | wrong guesses under the threshold each add one to the counter and leave codes and rows alone |
| AuthProperties.LockedAfterFiveWrongGuesses | src/user/api.py:145-152 | after a login and five wrong guesses, the right code is refused with the lock message |
| AuthProperties.LoginThenVerify | src/user/api.py:113-186 | the code a login mails verifies the address, flags the row and issues both tokens for that address |
| AuthProperties.VerifiedAccessTokenAccepted | src/user/api.py:177 | the access token from a verification makes `get_current_user` return the address for 15 minutes |
| AuthProperties.VerifiedRefreshTokenAccepted | src/user/api.py:178 | the refresh token from a verification buys access tokens for the address for 7 days |
| AuthProperties.RegisterAfterVerify | src/user/api.py:234-251 | with the access token from a verification, registration succeeds; the row ends with both names and both flags set |
| AuthService.Service.Login | src/user/api.py:92-124 | the in-place handler leaves the store and answer that `LoginStep` specifies and keeps the invariant |
| AuthService.Service.VerifyOtp | src/user/api.py:128-186 | the in-place handler leaves the store of `VerifyStore` and returns the answer of `VerifyAnswer`, keeping the invariant |
| AuthService.Service.RegisterUser | src/user/api.py:229-251 | the in-place handler leaves the store and answer that `RegisterStep` specifies and keeps the invariant |
| AuthService.Service.Expire | src/user/api.py:114-115 | the lapse of one address's keys, in place, as `ExpireStep` specifies, keeping the invariant |

## Left out

- Concurrency: two requests running at once, such as races on `incr` or on insert-if-absent, are not modelled. Every handler is one atomic step.
- Redis lifetimes: `setex(…, 600, …)` is modelled as keys that stay until the explicit step `ExpireStep` removes both keys of an address together. A lapse of only one of the two keys, and the lifetime-free key that `incr` would create on a missing counter, are not distinguished.
- The counter's text form: Redis stores the counter as text and `int(tries)` parses it. The model keeps it as a number.
- Mail delivery: `send_otp_email` and SMTP are out of scope. A queued mail is recorded in `outbox` and never sent.
- Cryptography and serialisation: HMAC-SHA256, base64url and JSON are replaced by a parseable text encoding, and the signature is an injective function of key and message.
- Jwt.WrongKeyRejected: holds only for keys of equal length. The stand-in signature is injective only there, unlike HMAC.
- PyJWT checks that never arise here: `nbf`, `iat`, `aud`, `iss`, the string type of `sub`, and a non-integer `exp` beyond "invalid" are not modelled.
- Time: `datetime.now(timezone.utc)` is the parameter `now`, in whole seconds.
- Redis keyspace: the code under `email` and the counter under `email:tries` share one Redis keyspace. The model keeps them in two maps, so the two key families are taken as disjoint. `EmailStr`, with the validator's default settings, admits no `:` in an address (no quoted local parts, no address literals), so the families cannot meet for validated input. A login for the string `a:tries` would overwrite the counter of `a` in Redis; the model does not show that collision.
- Request validation: the pydantic request schemas are not modelled. This covers `EmailStr` normalisation and the six-character bound on `otp`. Any string is accepted.
- Response validation: the pydantic checks on responses are not modelled.
- Database: sessions, commits and rollbacks are not modelled.
- Row columns: the identifier, timestamp and status mixins are not modelled.
- Lookups that return no row: `.one()` finding no row in `register_user` is modelled as an HTTP 500 (`NoRowError`) with the plain text `Internal Server Error`. The exception text that a debug server would show instead is not modelled.
- Foreign modules: `src/utils/redis_cache.py` is not part of this model. The client is taken to return text (`decode_responses=True`).
- `read_profile`: only returns the dependency's result, so it adds nothing beyond `GetCurrentUser`.
- Startup and settings: `main.py`, the settings modules and the database manager are not modelled.
