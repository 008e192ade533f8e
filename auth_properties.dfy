/**
 * What the handlers of src/user/api.py guarantee together: the store
 * invariant, the attempt budget of a code, single use, lock-out, rows that
 * are never lost or un-verified, and the login → verify → register story.
 */
module AuthProperties {
  import opened Wrappers
  import opened Jwt
  import opened OtpGenerator
  import opened UserModel
  import opened AuthTokens
  import opened AuthFlow

  // ---- Requests and runs ----------------------------------------------------

  /** One request to the service, or the lapse of a code's Redis keys. */
  datatype Action =
    | Login(email: string, draws: OtpDraws)
    | Verify(email: string, otp: string, now: nat)
    | Register(authorization: string, firstName: string, lastName: string, now: nat)
    | Expire(email: string)

  function Apply(s: Store, a: Action): Store {
    match a
    case Login(email, draws) => LoginStep(s, email, draws).0
    case Verify(email, otp, now) => VerifyStore(s, email, otp)
    case Register(authorization, firstName, lastName, now) => RegisterStep(s, authorization, firstName, lastName, now).0
    case Expire(email) => ExpireStep(s, email)
  }

  /** The store after handling `actions` one after the other. */
  function Run(s: Store, actions: seq<Action>): Store
    decreases |actions|
  {
    if actions == [] then s else Run(Apply(s, actions[0]), actions[1..])
  }

  /** Repeated `verify_otp` calls for one address: the final store and the branch each call took. */
  function VerifyRun(s: Store, email: string, otps: seq<string>): (r: (Store, seq<Verdict>))
    ensures |r.1| == |otps|
    decreases |otps|
  {
    if otps == [] then (s, [])
    else
      var rest := VerifyRun(VerifyStore(s, email, otps[0]), email, otps[1..]);
      (rest.0, [Check(s, email, otps[0])] + rest.1)
  }

  /**
   * How many of `verdicts` are wrong guesses, i.e. answers "Invalid OTP."
   * (the `VerifyAnswer` contract ties the message to the branch).
   */
  function MismatchCount(verdicts: seq<Verdict>): nat {
    if verdicts == [] then 0
    else (if verdicts[0] == WrongCode then 1 else 0) + MismatchCount(verdicts[1..])
  }

  /** The wrong guesses a live code still tolerates before it locks. */
  function Budget(s: Store, email: string): nat {
    if CodeLive(s, email) && TriesOf(s, email) <= MaxAttempts then MaxAttempts - TriesOf(s, email) else 0
  }

  // ---- The store invariant --------------------------------------------------

  lemma EmptyStoreValid()
    ensures Valid(EmptyStore())
  {
  }

  lemma LoginPreservesValid(s: Store, email: string, draws: OtpDraws)
    requires Valid(s)
    ensures Valid(LoginStep(s, email, draws).0)
  {
    var r := LoginStep(s, email, draws).0;
    forall e | e in r.codes
      ensures OtpMail(e, r.codes[e]) in r.outbox
    {
      if e != email {
        assert OtpMail(e, s.codes[e]) in s.outbox;
      }
    }
  }

  lemma VerifyPreservesValid(s: Store, email: string, otp: string)
    requires Valid(s)
    ensures Valid(VerifyStore(s, email, otp))
  {
  }

  lemma RegisterPreservesValid(s: Store, authorization: string, firstName: string, lastName: string, now: nat)
    requires Valid(s)
    ensures Valid(RegisterStep(s, authorization, firstName, lastName, now).0)
  {
  }

  lemma ExpirePreservesValid(s: Store, email: string)
    requires Valid(s)
    ensures Valid(ExpireStep(s, email))
  {
  }

  lemma ApplyPreservesValid(s: Store, a: Action)
    requires Valid(s)
    ensures Valid(Apply(s, a))
  {
    match a
    case Login(email, draws) => LoginPreservesValid(s, email, draws);
    case Verify(email, otp, now) => VerifyPreservesValid(s, email, otp);
    case Register(authorization, firstName, lastName, now) =>
      RegisterPreservesValid(s, authorization, firstName, lastName, now);
    case Expire(email) => ExpirePreservesValid(s, email);
  }

  /** Every sequence of requests from a valid store, in particular from an empty one, keeps it valid. */
  lemma {:induction false} RunPreservesValid(s: Store, actions: seq<Action>)
    requires Valid(s)
    ensures Valid(Run(s, actions))
    decreases |actions|
  {
    if actions != [] {
      ApplyPreservesValid(s, actions[0]);
      RunPreservesValid(Apply(s, actions[0]), actions[1..]);
    }
  }

  // ---- Rows -----------------------------------------------------------------

  /** No request deletes a row, changes its address, or clears a flag once set. */
  predicate RowsKept(s: Store, t: Store) {
    && s.users.Keys <= t.users.Keys
    && forall e :: e in s.users ==>
         && t.users[e].email == s.users[e].email
         && (s.users[e].emailVerified ==> t.users[e].emailVerified)
         && (s.users[e].registered ==> t.users[e].registered)
  }

  lemma RegisterKeepsRows(s: Store, authorization: string, firstName: string, lastName: string, now: nat)
    ensures RowsKept(s, RegisterStep(s, authorization, firstName, lastName, now).0)
  {
  }

  lemma VerifyKeepsRows(s: Store, email: string, otp: string)
    ensures RowsKept(s, VerifyStore(s, email, otp))
  {
  }

  lemma ApplyKeepsRows(s: Store, a: Action)
    ensures RowsKept(s, Apply(s, a))
  {
    match a
    case Login(email, draws) =>
    case Verify(email, otp, now) => VerifyKeepsRows(s, email, otp);
    case Register(authorization, firstName, lastName, now) =>
      RegisterKeepsRows(s, authorization, firstName, lastName, now);
    case Expire(email) =>
  }

  lemma {:induction false} RunKeepsRows(s: Store, actions: seq<Action>)
    ensures RowsKept(s, Run(s, actions))
    decreases |actions|
  {
    if actions != [] {
      var t := Apply(s, actions[0]);
      ApplyKeepsRows(s, actions[0]);
      RunKeepsRows(t, actions[1..]);
    }
  }

  /** Logging in again never adds a second row: the rows are those of the first login. */
  lemma LoginTwiceSameRows(s: Store, email: string, first: OtpDraws, second: OtpDraws)
    ensures var once := LoginStep(s, email, first).0;
      LoginStep(once, email, second).0.users == once.users
  {
  }

  /** The flags `login` answers with are those of the row already there, if any. */
  lemma LoginReportsExistingRow(s: Store, email: string, draws: OtpDraws)
    requires email in s.users
    ensures LoginStep(s, email, draws).1 ==
      LoginResponse(email, s.users[email].emailVerified, s.users[email].registered)
  {
  }

  // ---- Codes ----------------------------------------------------------------

  /** A verification succeeds only with a code that was mailed to that address. */
  lemma VerifiedCodeWasMailed(s: Store, email: string, otp: string, now: nat)
    requires Valid(s)
    requires VerifyAnswer(s, email, otp, now).Success? && VerifyAnswer(s, email, otp, now).value.verified
    ensures OtpMail(email, otp) in s.outbox
  {
  }

  /** A code works once: the next verification for the address finds nothing, whatever it sends. */
  lemma CodeIsSingleUse(s: Store, email: string, otp: string, again: string, later: nat)
    requires Check(s, email, otp) == Verified
    ensures var t := VerifyStore(s, email, otp);
      VerifyStore(t, email, again) == t &&
      VerifyAnswer(t, email, again, later) == Success(Refusal(email, ExpiredMessage))
  {
  }

  /** Once the keys have lapsed, verification reports the code as expired and changes nothing. */
  lemma ExpiredCodeRefused(s: Store, email: string, otp: string, now: nat)
    ensures var t := ExpireStep(s, email);
      VerifyStore(t, email, otp) == t &&
      VerifyAnswer(t, email, otp, now) == Success(Refusal(email, ExpiredMessage))
  {
  }

  /** One request for `email` spends at most the attempts it counts. */
  lemma VerifyStepBudget(s: Store, email: string, otp: string)
    ensures MismatchCount([Check(s, email, otp)]) + Budget(VerifyStore(s, email, otp), email) <= Budget(s, email)
  {
    var v := Check(s, email, otp);
    assert MismatchCount([v]) == (if v == WrongCode then 1 else 0);
    if v == WrongCode {
      assert TriesOf(VerifyStore(s, email, otp), email) == TriesOf(s, email) + 1;
    }
  }

  lemma MismatchCountAppend(v: Verdict, rest: seq<Verdict>)
    ensures MismatchCount([v] + rest) == MismatchCount([v]) + MismatchCount(rest)
  {
    assert ([v] + rest)[1..] == rest;
  }

  /**
   * However many guesses are sent, at most `MaxAttempts - tries` of them are
   * compared and refused as "Invalid OTP." before the code locks or is used.
   */
  lemma {:induction false} GuessesBounded(s: Store, email: string, otps: seq<string>)
    ensures MismatchCount(VerifyRun(s, email, otps).1) <= Budget(s, email)
    decreases |otps|
  {
    if otps != [] {
      var t := VerifyStore(s, email, otps[0]);
      VerifyStepBudget(s, email, otps[0]);
      GuessesBounded(t, email, otps[1..]);
      MismatchCountAppend(Check(s, email, otps[0]), VerifyRun(t, email, otps[1..]).1);
    }
  }

  /** Hence no address ever gets more than five guesses at one code. */
  lemma AtMostFiveGuesses(s: Store, email: string, otps: seq<string>)
    ensures MismatchCount(VerifyRun(s, email, otps).1) <= MaxAttempts
  {
    GuessesBounded(s, email, otps);
  }

  /** Wrong guesses under the threshold each cost one attempt and leave the code in place. */
  lemma {:induction false} WrongGuessesCount(s: Store, email: string, wrong: seq<string>)
    requires CodeLive(s, email)
    requires TriesOf(s, email) + |wrong| <= MaxAttempts
    requires forall i :: 0 <= i < |wrong| ==> wrong[i] != s.codes[email]
    ensures var r := VerifyRun(s, email, wrong);
      && r.0.codes == s.codes && r.0.users == s.users
      && TriesOf(r.0, email) == TriesOf(s, email) + |wrong|
      && forall i :: 0 <= i < |wrong| ==> r.1[i] == WrongCode
    decreases |wrong|
  {
    if wrong != [] {
      var t := VerifyStore(s, email, wrong[0]);
      assert t.codes == s.codes && TriesOf(t, email) == TriesOf(s, email) + 1;
      WrongGuessesCount(t, email, wrong[1..]);
    }
  }

  /**
   * Five wrong guesses after a login lock the code: the right code is then
   * refused with the lock message, because the counter is checked first.
   */
  lemma LockedAfterFiveWrongGuesses(s: Store, email: string, draws: OtpDraws, wrong: seq<string>, now: nat)
    requires |wrong| == MaxAttempts
    requires forall i :: 0 <= i < |wrong| ==> wrong[i] != LoginStep(s, email, draws).0.codes[email]
    ensures var s1 := LoginStep(s, email, draws).0;
      var s2 := VerifyRun(s1, email, wrong).0;
      Check(s2, email, s1.codes[email]) == Locked &&
      VerifyAnswer(s2, email, s1.codes[email], now) == Success(Refusal(email, LockedMessage))
  {
    var s1 := LoginStep(s, email, draws).0;
    WrongGuessesCount(s1, email, wrong);
  }

  // ---- The whole story ------------------------------------------------------

  /** After a login, the mailed code verifies the address and issues both tokens for it. */
  lemma LoginThenVerify(s: Store, email: string, draws: OtpDraws, now: nat)
    requires Valid(s)
    ensures var s1 := LoginStep(s, email, draws).0;
      var code := GenerateOtp(DefaultOtpLength, draws);
      && s1.outbox[|s1.outbox| - 1] == OtpMail(email, code)
      && Check(s1, email, code) == Verified
      && VerifyAnswer(s1, email, code, now) ==
           Success(VerifyOtpResponse(email, true, VerifiedMessage, Some(AccessFor(email, now)), Some(RefreshFor(email, now))))
      && VerifyStore(s1, email, code).users[email].emailVerified
  {
    var s1 := LoginStep(s, email, draws).0;
    var code := GenerateOtp(DefaultOtpLength, draws);
    assert s1.codes[email] == code && code != [];
    assert TriesOf(s1, email) == 0;
    assert email in s1.users && s1.users[email].email == email;
  }

  /** The access token of a verification names the address until it expires. */
  lemma VerifiedAccessTokenAccepted(email: string, now: nat, later: nat)
    requires now <= later < now + AccessTokenLifetime
    ensures GetCurrentUser(BearerPrefix + AccessFor(email, now), later) == Success(Str(email))
  {
    AccessTokenAccepted(SubjectData(Str(email)), Str(email), now, AccessTokenLifetime, later);
  }

  /** The refresh token of a verification buys access tokens for the address for seven days. */
  lemma VerifiedRefreshTokenAccepted(email: string, now: nat, later: nat)
    requires now <= later < now + RefreshTokenLifetime
    ensures RefreshAccessToken(BearerPrefix + RefreshFor(email, now), later)
      == Success(RefreshResponse(AccessFor(email, later), "bearer"))
  {
    RefreshTokenAccepted(Str(email), now, later);
  }

  /**
   * With the access token from a verification, registration sets the names
   * and the flag on that address's row, which stays verified.
   */
  lemma RegisterAfterVerify(s: Store, email: string, otp: string, now: nat, later: nat, firstName: string, lastName: string)
    requires Valid(s)
    requires Check(s, email, otp) == Verified
    requires now <= later < now + AccessTokenLifetime
    ensures var s1 := VerifyStore(s, email, otp);
      var r := RegisterStep(s1, BearerPrefix + AccessFor(email, now), firstName, lastName, later);
      && r.1 == Success(RegisterResponse(firstName, lastName))
      && r.0.users[email] == User(email, Some(firstName), Some(lastName), true, true)
  {
    VerifiedAccessTokenAccepted(email, now, later);
  }
}
