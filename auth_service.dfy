/**
 * The handlers `login`, `verify_otp` and `register_user` of src/user/api.py
 * as they run: each request updates the Redis keys, the `tbl_users` rows and
 * the mail queue in place. Every method is proved to do exactly what the
 * matching step of `AuthFlow` specifies, and to keep the store invariant.
 */
module AuthService {
  import opened Wrappers
  import opened OtpGenerator
  import opened UserModel
  import opened AuthTokens
  import opened AuthFlow
  import AuthProperties

  class Service {
    /** Redis: the code stored under each address. */
    var codes: map<string, string>
    /** Redis: the counter stored under `address:tries`. */
    var tries: map<string, nat>
    /** `tbl_users`, keyed by the unique `email` column. */
    var users: map<string, User>
    /** The background tasks queued so far, oldest first. */
    var outbox: seq<Mail>

    function State(): Store
      reads this
    {
      Store(codes, tries, users, outbox)
    }

    predicate Valid()
      reads this
    {
      AuthFlow.Valid(State())
    }

    constructor()
      ensures State() == EmptyStore()
      ensures Valid()
    {
      codes := map[];
      tries := map[];
      users := map[];
      outbox := [];
    }

    /** `POST /auth/login` */
    method Login(email: string, draws: OtpDraws) returns (response: LoginResponse)
      modifies this
      ensures (State(), response) == LoginStep(old(State()), email, draws)
      ensures old(Valid()) ==> Valid()
    {
      ghost var before := State();
      if email !in users {
        users := users[email := NewUser(email)];
      }
      var otp := GenerateOtp(DefaultOtpLength, draws);
      codes := codes[email := otp];
      tries := tries[email := 0];
      outbox := outbox + [OtpMail(email, otp)];
      response := LoginResponse(email, users[email].emailVerified, users[email].registered);
      if AuthFlow.Valid(before) {
        AuthProperties.LoginPreservesValid(before, email, draws);
      }
    }

    /** `POST /auth/verify-otp` at time `now`. */
    method VerifyOtp(email: string, otp: string, now: nat) returns (response: Result<VerifyOtpResponse, HttpError>)
      modifies this
      ensures State() == VerifyStore(old(State()), email, otp)
      ensures response == VerifyAnswer(old(State()), email, otp, now)
      ensures old(Valid()) ==> Valid()
    {
      ghost var before := State();
      ghost var verdict := Check(before, email, otp);
      if AuthFlow.Valid(before) {
        AuthProperties.VerifyPreservesValid(before, email, otp);
      }
      if email !in codes || codes[email] == "" {
        assert verdict == NoCode;
        return Success(Refusal(email, ExpiredMessage));
      }
      if email in tries && tries[email] >= MaxAttempts {
        assert verdict == Locked;
        return Success(Refusal(email, LockedMessage));
      }
      if otp != codes[email] {
        assert verdict == WrongCode;
        var current := if email in tries then tries[email] else 0;
        tries := tries[email := current + 1];
        assert State() == before.(tries := before.tries[email := TriesOf(before, email) + 1]);
        return Success(Refusal(email, InvalidMessage));
      }
      if email !in users {
        assert verdict == NoUser;
        return Failure(HttpError(404, "User not found."));
      }
      assert verdict == Verified;
      users := users[email := users[email].(emailVerified := true)];
      codes := codes - {email};
      tries := tries - {email};
      assert State() == before.(users := before.users[email := before.users[email].(emailVerified := true)],
                                codes := before.codes - {email}, tries := before.tries - {email});
      var address := users[email].email;
      response := Success(VerifyOtpResponse(email, true, VerifiedMessage, Some(AccessFor(address, now)), Some(RefreshFor(address, now))));
    }

    /** `POST /auth/register` with the `Authorization` header the dependency reads, at time `now`. */
    method RegisterUser(authorization: string, firstName: string, lastName: string, now: nat)
      returns (response: Result<RegisterResponse, HttpError>)
      modifies this
      ensures (State(), response) == RegisterStep(old(State()), authorization, firstName, lastName, now)
      ensures old(Valid()) ==> Valid()
    {
      ghost var before := State();
      if AuthFlow.Valid(before) {
        AuthProperties.RegisterPreservesValid(before, authorization, firstName, lastName, now);
      }
      var current := GetCurrentUser(authorization, now);
      if current.Failure? {
        return Failure(current.error);
      }
      var subject := current.value;
      if !(subject.Str? && subject.s in users) {
        return Failure(NoRowError);
      }
      var user := users[subject.s];
      user := user.(firstName := Some(firstName), lastName := Some(lastName), registered := true);
      users := users[subject.s := user];
      response := Success(RegisterResponse(user.firstName.value, user.lastName.value));
    }

    /** The Redis lifetime of both keys for `email` runs out. */
    method Expire(email: string)
      modifies this
      ensures State() == ExpireStep(old(State()), email)
      ensures old(Valid()) ==> Valid()
    {
      codes := codes - {email};
      tries := tries - {email};
    }
  }
}
