/**
 * The state machine behind the handlers `login`, `verify_otp` and
 * `register_user` of src/user/api.py, as pure step functions over the whole
 * store: the two Redis keys per address (the code under `email` and the
 * attempt counter under `email:tries`), the `tbl_users` rows keyed by their
 * unique e-mail address, and the mails queued for delivery. Each step is one
 * request handled atomically; the class in auth_service.dfy performs the same
 * steps in place.
 */
module AuthFlow {
  import opened Wrappers
  import opened Jwt
  import opened OtpGenerator
  import opened UserModel
  import opened AuthTokens

  /** The lifetime `setex` gives both Redis keys; a lapse is the step `ExpireStep`. */
  const OtpTtlSeconds: nat := 600
  /** `int(tries) >= 5` locks the code. */
  const MaxAttempts: nat := 5

  const ExpiredMessage: string := "OTP expired or not found."
  const LockedMessage: string := "Too many incorrect attempts. Please request a new OTP."
  const InvalidMessage: string := "Invalid OTP."
  const VerifiedMessage: string := "Email verified successfully."

  /** `background_tasks.add_task(send_otp_email, email, otp)`: a mail waiting to go out. */
  datatype Mail = OtpMail(to: string, code: string)

  /**
   * Everything the handlers read or write. `codes[e]` is the Redis value under
   * `e`, `tries[e]` the one under `e:tries` (written as a number, read back
   * with `int`), `users[e]` the row whose `email` is `e`.
   */
  datatype Store = Store(
    codes: map<string, string>,
    tries: map<string, nat>,
    users: map<string, User>,
    outbox: seq<Mail>)

  /** The six values `random.randint(0, 9)` returns while `login` builds a code. */
  type OtpDraws = d: seq<Digit> | |d| == DefaultOtpLength witness [0, 0, 0, 0, 0, 0]

  /** The store of a fresh deployment. */
  function EmptyStore(): Store {
    Store(map[], map[], map[], [])
  }

  /** `EmailVerifyResponse` */
  datatype LoginResponse = LoginResponse(email: string, verified: bool, registered: bool)

  /** `VerifyOtpResponse` */
  datatype VerifyOtpResponse = VerifyOtpResponse(
    email: string,
    verified: bool,
    message: string,
    accessToken: Option<string>,
    refreshToken: Option<string>)

  /** `UserCreateResponse` */
  datatype RegisterResponse = RegisterResponse(firstName: string, lastName: string)

  /**
   * What every step keeps true: each row sits under its own address, a
   * code and its counter are set and cleared together, a code exists only
   * for a known user and was mailed to that address, and no counter goes
   * beyond the lock threshold.
   */
  predicate Valid(s: Store) {
    && (forall e :: e in s.users ==> s.users[e].email == e)
    && s.codes.Keys == s.tries.Keys
    && s.codes.Keys <= s.users.Keys
    && (forall e :: e in s.codes ==> OtpMail(e, s.codes[e]) in s.outbox)
    && (forall e :: e in s.tries ==> s.tries[e] <= MaxAttempts)
  }

  /** The counter as `verify_otp` sees it: an absent key counts as no attempts (`incr` starts from 0). */
  function TriesOf(s: Store, email: string): nat {
    if email in s.tries then s.tries[email] else 0
  }

  /** `if not expected_otp`: no code, or an empty one. */
  predicate CodeLive(s: Store, email: string) {
    email in s.codes && s.codes[email] != ""
  }

  // ---- login ----------------------------------------------------------------

  /**
   * `login(email)` with `draws` the six values `randint` returns: find or
   * insert the row, store a fresh code and a zero counter, queue the mail,
   * and answer with the row's flags.
   */
  function LoginStep(s: Store, email: string, draws: OtpDraws): (r: (Store, LoginResponse))
    ensures r.0.users.Keys == s.users.Keys + {email}
    ensures forall e :: e in s.users ==> r.0.users[e] == s.users[e]
    ensures email !in s.users ==> r.0.users[email] == NewUser(email)
    ensures email in r.0.codes && |r.0.codes[email]| == DefaultOtpLength && IsDigitString(r.0.codes[email])
    ensures email in r.0.tries && r.0.tries[email] == 0
    ensures forall e :: e != email ==>
      (e in r.0.codes <==> e in s.codes) && (e in s.codes ==> r.0.codes[e] == s.codes[e]) &&
      (e in r.0.tries <==> e in s.tries) && (e in s.tries ==> r.0.tries[e] == s.tries[e])
    ensures r.0.outbox == s.outbox + [OtpMail(email, r.0.codes[email])]
    ensures r.1 == LoginResponse(email, r.0.users[email].emailVerified, r.0.users[email].registered)
  {
    var users := if email in s.users then s.users else s.users[email := NewUser(email)];
    var otp := GenerateOtp(DefaultOtpLength, draws);
    (Store(s.codes[email := otp], s.tries[email := 0], users, s.outbox + [OtpMail(email, otp)]),
     LoginResponse(email, users[email].emailVerified, users[email].registered))
  }

  // ---- verify_otp -----------------------------------------------------------

  /** Which branch of `verify_otp` a request takes. */
  datatype Verdict = NoCode | Locked | WrongCode | NoUser | Verified

  /**
   * The checks of `verify_otp`, in the handler's order: no code, then the
   * lock, then the comparison, then the row lookup.
   */
  function Check(s: Store, email: string, otp: string): (v: Verdict)
    ensures v == NoCode <==> !CodeLive(s, email)
    ensures v == Locked <==> CodeLive(s, email) && TriesOf(s, email) >= MaxAttempts
    ensures v == WrongCode <==> CodeLive(s, email) && TriesOf(s, email) < MaxAttempts && otp != s.codes[email]
    ensures v == NoUser <==>
      CodeLive(s, email) && TriesOf(s, email) < MaxAttempts && otp == s.codes[email] && email !in s.users
    ensures v == Verified <==>
      CodeLive(s, email) && TriesOf(s, email) < MaxAttempts && otp == s.codes[email] && email in s.users
  {
    if !CodeLive(s, email) then NoCode
    else if email in s.tries && s.tries[email] >= MaxAttempts then Locked
    else if otp != s.codes[email] then WrongCode
    else if email !in s.users then NoUser
    else Verified
  }

  /**
   * What `verify_otp` leaves in the store: a wrong guess under the threshold
   * costs exactly one attempt (`incr`); a match flags the row and deletes
   * both keys; every other branch changes nothing.
   */
  function VerifyStore(s: Store, email: string, otp: string): (t: Store)
    ensures Check(s, email, otp) in {NoCode, Locked, NoUser} ==> t == s
    ensures Check(s, email, otp) == WrongCode ==> t == s.(tries := s.tries[email := TriesOf(s, email) + 1])
    ensures Check(s, email, otp) == Verified ==>
      t == s.(users := s.users[email := s.users[email].(emailVerified := true)],
              codes := s.codes - {email}, tries := s.tries - {email})
  {
    match Check(s, email, otp)
    case WrongCode => s.(tries := s.tries[email := TriesOf(s, email) + 1])
    case Verified =>
      s.(users := s.users[email := s.users[email].(emailVerified := true)],
         codes := s.codes - {email}, tries := s.tries - {email})
    case _ => s
  }

  /** A refusal of `verify_otp`: not verified, no tokens. */
  function Refusal(email: string, message: string): VerifyOtpResponse {
    VerifyOtpResponse(email, false, message, None, None)
  }

  /** The two tokens a successful verification issues for `email`, at time `now`. */
  function AccessFor(email: string, now: nat): string {
    CreateAccessToken(SubjectData(Str(email)), now, AccessTokenLifetime)
  }

  function RefreshFor(email: string, now: nat): string {
    CreateRefreshToken(SubjectData(Str(email)), now)
  }

  /**
   * What `verify_otp` answers: a refusal with the branch's message, the 404
   * of a missing row, or the confirmation with both tokens for the row's
   * address.
   */
  function VerifyAnswer(s: Store, email: string, otp: string, now: nat): (r: Result<VerifyOtpResponse, HttpError>)
    ensures r.Success? && r.value.verified <==> Check(s, email, otp) == Verified
    ensures r.Failure? <==> Check(s, email, otp) == NoUser
    ensures r.Failure? ==> r.error == HttpError(404, "User not found.")
    ensures r.Success? ==> r.value.email == email
    ensures r.Success? ==> (r.value.accessToken.Some? <==> r.value.verified)
    ensures r.Success? ==> (r.value.refreshToken.Some? <==> r.value.verified)
    ensures r.Success? && r.value.message == InvalidMessage <==> Check(s, email, otp) == WrongCode
    ensures r == Success(Refusal(email, ExpiredMessage)) <==> Check(s, email, otp) == NoCode
    ensures r == Success(Refusal(email, LockedMessage)) <==> Check(s, email, otp) == Locked
    ensures Valid(s) && Check(s, email, otp) == Verified ==>
      r == Success(VerifyOtpResponse(email, true, VerifiedMessage, Some(AccessFor(email, now)), Some(RefreshFor(email, now))))
  {
    match Check(s, email, otp)
    case NoCode => Success(Refusal(email, ExpiredMessage))
    case Locked => Success(Refusal(email, LockedMessage))
    case WrongCode => Success(Refusal(email, InvalidMessage))
    case NoUser => Failure(HttpError(404, "User not found."))
    case Verified =>
      var address := s.users[email].email;
      Success(VerifyOtpResponse(email, true, VerifiedMessage, Some(AccessFor(address, now)), Some(RefreshFor(address, now))))
  }

  // ---- register_user --------------------------------------------------------

  /** The plain HTTP 500 the server answers when `.one()` raises `NoResultFound` and nothing catches it. */
  const NoRowError: HttpError := HttpError(500, "Internal Server Error")

  /**
   * `register_user(first_name, last_name)` behind the dependency
   * `get_current_user`: the row of the token's subject gets both names and
   * the `registerd` flag, and the names are echoed back.
   */
  function RegisterStep(s: Store, authorization: string, firstName: string, lastName: string, now: nat):
    (r: (Store, Result<RegisterResponse, HttpError>))
    ensures GetCurrentUser(authorization, now).Failure? ==>
      r == (s, Failure(GetCurrentUser(authorization, now).error))
    ensures r.1.Success? <==>
      GetCurrentUser(authorization, now).Success? &&
      GetCurrentUser(authorization, now).value.Str? &&
      GetCurrentUser(authorization, now).value.s in s.users
    ensures r.1.Success? ==>
      var email := GetCurrentUser(authorization, now).value.s;
      && r.0.users.Keys == s.users.Keys
      && r.0.users[email] == s.users[email].(firstName := Some(firstName), lastName := Some(lastName), registered := true)
      && (forall e :: e in s.users && e != email ==> r.0.users[e] == s.users[e])
      && r.1.value == RegisterResponse(firstName, lastName)
    ensures r.1.Failure? ==> r.0 == s
    ensures r.0.codes == s.codes && r.0.tries == s.tries && r.0.outbox == s.outbox
  {
    match GetCurrentUser(authorization, now)
    case Failure(e) => (s, Failure(e))
    case Success(sub) =>
      if sub.Str? && sub.s in s.users then
        var user := s.users[sub.s].(firstName := Some(firstName), lastName := Some(lastName), registered := true);
        (s.(users := s.users[sub.s := user]), Success(RegisterResponse(firstName, lastName)))
      else (s, Failure(NoRowError))
  }

  // ---- Redis TTL ------------------------------------------------------------

  /** The `OtpTtlSeconds` lifetime of both keys for `email` runs out. */
  function ExpireStep(s: Store, email: string): (r: Store)
    ensures email !in r.codes && email !in r.tries
    ensures forall e :: e != email ==>
      (e in r.codes <==> e in s.codes) && (e in s.codes ==> r.codes[e] == s.codes[e]) &&
      (e in r.tries <==> e in s.tries) && (e in s.tries ==> r.tries[e] == s.tries[e])
    ensures r.users == s.users && r.outbox == s.outbox
  {
    s.(codes := s.codes - {email}, tries := s.tries - {email})
  }
}
