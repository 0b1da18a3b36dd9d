/**
 * Properties that relate several calls of the customer endpoints: what a
 * customer can do right after registering or resetting a password, and how
 * the current-OTP rule treats superseded and expired codes.
 */
module Flows {
  import opened Wrappers
  import opened Policy
  import opened Decimal
  import opened Models
  import opened Views
  import opened Fields

  function LoginRequest(email: string, password: string): (d: RequestData)
    ensures Get(d, "email") == Some(email) && Get(d, "password") == Some(password)
  {
    map["email" := email, "password" := password]
  }

  function OtpRequest(email: string): (d: RequestData)
    ensures Get(d, "email") == Some(email)
  {
    map["email" := email]
  }

  function ResetRequest(email: string, newPassword: string, confirmPassword: string, otp: string): (d: RequestData)
    ensures ResetFieldsPresent(d)
    ensures d["email"] == email && d["new_password"] == newPassword
    ensures d["confirm_password"] == confirmPassword && d["otp"] == otp
  {
    map["email" := email, "new_password" := newPassword, "confirm_password" := confirmPassword, "otp" := otp]
  }

  /**
   * A customer who has just registered, and did not register as deleted, can
   * log in with the email and password as stored, that is trimmed, and gets
   * the tokens of the new row.  For an email and a password sent without
   * surrounding whitespace these are the values sent.
   */
  lemma {:induction false} RegisterThenLogin(db: Db, data: RequestData, accepts: bool)
    requires WellFormed(db)
    requires Registration(db, data, accepts).response.Success?
    requires "is_deleted" in data ==> data["is_deleted"] !in TrueValues
    ensures Login(Registration(db, data, accepts).db, LoginRequest(Strip(data["email"]), Strip(data["password"])))
         == Success(UserLoggedInSuccessfully, Some(TokensFor(|db.customers| + 1)))
  {
    var o := Registration(db, data, accepts);
    var cs := o.db.customers;
    var n := |db.customers|;
    var email := Strip(data["email"]);
    forall j | 0 <= j < |cs| && j != n ensures !IsActiveWith(cs[j], email) {
      assert cs[j] == cs[..n][j] == db.customers[j];
    }
    assert OnlyActiveMatch(cs, email, n);
    var req := LoginRequest(email, Strip(data["password"]));
    assert Get(req, "email") == Some(email) && Get(req, "password") == Some(Strip(data["password"]));
  }

  /**
   * A registration that sends `is_deleted` as true stores a soft-deleted
   * customer: the response is a success with tokens, yet every later login
   * with that email is answered WRONG_EMAIL.
   */
  lemma {:induction false} RegisteredAsDeletedCannotLogin(db: Db, data: RequestData, accepts: bool, password: string)
    requires WellFormed(db)
    requires Registration(db, data, accepts).response.Success?
    requires "is_deleted" in data && data["is_deleted"] in TrueValues
    requires password != ""
    ensures Login(Registration(db, data, accepts).db, LoginRequest(Strip(data["email"]), password))
         == CustomBadRequest(WrongEmail)
  {
    var o := Registration(db, data, accepts);
    var cs := o.db.customers;
    var n := |db.customers|;
    var email := Strip(data["email"]);
    forall j | 0 <= j < |cs| ensures !IsActiveWith(cs[j], email) {
      if j < n {
        assert cs[j] == cs[..n][j] == db.customers[j];
      }
    }
    var req := LoginRequest(email, password);
    assert Get(req, "email") == Some(email) && Get(req, "password") == Some(password);
  }

  /** A registration whose password has a trailing space. */
  const PaddedRequest: RequestData := map["username" := "u", "email" := "a@b.co", "password" := "Abcde1! "]

  /**
   * A password that meets the policy only thanks to a trailing space: the
   * registration succeeds, the password stored is seven characters long and
   * so breaks the policy, and a login with the password as sent is refused.
   */
  lemma PaddedPasswordIsStoredShort()
    ensures Registration(Db([], [], []), PaddedRequest, true).response.Success?
    ensures Registration(Db([], [], []), PaddedRequest, true).db.customers[0].password == "Abcde1!"
    ensures !MeetsPolicy("Abcde1!", ViewMinLength)
    ensures Login(Registration(Db([], [], []), PaddedRequest, true).db, LoginRequest("a@b.co", "Abcde1! "))
         == CustomBadRequest(IncorrectPassword)
  {
    PaddedPasswordTrimsShort();
    PaddedRequestIsAdmitted();
    PaddedRequestFields();
    SentPasswordRefusedOnceTrimmed(Db([], [], []), PaddedRequest, true);
  }

  /** The padded password passes the inline chain, and trimming leaves a seven-character one that does not. */
  lemma PaddedPasswordTrimsShort()
    ensures PolicyCheck("Abcde1! ", ViewMinLength).None?
    ensures Strip("Abcde1! ") == "Abcde1!" && !MeetsPolicy("Abcde1!", ViewMinLength)
  {
    PaddedPasswordMeetsPolicy();
    PaddedPasswordTrims();
  }

  lemma PaddedPasswordMeetsPolicy()
    ensures MeetsPolicy("Abcde1! ", ViewMinLength)
  {
    var p := "Abcde1! ";
    assert InClass(p[5], Digit) && InClass(p[1], Lower) && InClass(p[0], Upper) && InClass(p[6], Special);
  }

  lemma PaddedPasswordTrims()
    ensures Strip("Abcde1! ") == "Abcde1!"
  {
    var p := "Abcde1! ";
    var stored := "Abcde1!";
    assert LeadingWhitespace(p) == 0;
    assert p[..7] == stored;
    assert TrailingWhitespace(stored) == 0;
    assert TrailingWhitespace(p) == 1;
  }

  /** Every check of the registration view passes for the padded request on an empty store. */
  lemma PaddedRequestIsAdmitted()
    requires PolicyCheck("Abcde1! ", ViewMinLength).None?
    ensures PasswordAdmissible(PaddedRequest)
    ensures !EmailClash(Db([], [], []), PaddedRequest) && !MobileClash(Db([], [], []), PaddedRequest)
    ensures RegistrationSerializerValid(Db([], [], []), PaddedRequest, true)
    ensures Trimmed(PaddedRequest["email"]) && !Trimmed(PaddedRequest["password"])
    ensures "is_deleted" !in PaddedRequest
  {
    PaddedRequestFields();
  }

  /** The padded request's fields as the registration serializer reads them. */
  lemma PaddedRequestFields()
    ensures PaddedRequest["password"] == "Abcde1! "
    ensures FilledIn(PaddedRequest, "username", 255) && FilledIn(PaddedRequest, "email", 254)
    ensures CharFieldAccepts(PaddedRequest, "password")
    ensures "is_deleted" !in PaddedRequest && "mobile_no" !in PaddedRequest
    ensures Trimmed(PaddedRequest["email"]) && !Trimmed(PaddedRequest["password"])
  {
    PaddedRequestKeys();
    PaddedPasswordTrims();
    PaddedFieldsHaveNoNull();
    var email := "a@b.co";
    assert Trimmed(email) by {
      assert email[0] == 'a' && email[|email| - 1] == 'o';
    }
    assert Trimmed("u");
  }

  /** None of the padded request's values, as sent or as stored, holds a NUL character. */
  lemma PaddedFieldsHaveNoNull()
    ensures '\0' !in "u" && '\0' !in "a@b.co" && '\0' !in "Abcde1!" && '\0' !in "Abcde1! "
  {
    var e, p, q := "a@b.co", "Abcde1!", "Abcde1! ";
    assert forall i :: 0 <= i < |q| ==> q[i] != '\0';
    assert forall i :: 0 <= i < |e| ==> e[i] != '\0';
    assert forall i :: 0 <= i < |p| ==> p[i] != '\0';
  }

  /** The keys and values of the padded request. */
  lemma PaddedRequestKeys()
    ensures PaddedRequest["username"] == "u" && PaddedRequest["email"] == "a@b.co"
    ensures PaddedRequest["password"] == "Abcde1! "
    ensures "is_deleted" !in PaddedRequest && "mobile_no" !in PaddedRequest
  {
  }

  /**
   * After a registration that trimmed the password, logging in with the
   * password as it was sent is refused as incorrect.
   */
  lemma {:induction false} SentPasswordRefusedOnceTrimmed(db: Db, data: RequestData, accepts: bool)
    requires WellFormed(db)
    requires Registration(db, data, accepts).response.Success?
    requires "is_deleted" in data ==> data["is_deleted"] !in TrueValues
    requires Trimmed(data["email"]) && !Trimmed(data["password"])
    ensures Login(Registration(db, data, accepts).db, LoginRequest(data["email"], data["password"]))
         == CustomBadRequest(IncorrectPassword)
  {
    var o := Registration(db, data, accepts);
    var cs := o.db.customers;
    var n := |db.customers|;
    var email := data["email"];
    forall j | 0 <= j < |cs| && j != n ensures !IsActiveWith(cs[j], email) {
      assert cs[j] == cs[..n][j] == db.customers[j];
    }
    assert OnlyActiveMatch(cs, email, n);
    var req := LoginRequest(email, data["password"]);
    assert Get(req, "email") == Some(email) && Get(req, "password") == Some(data["password"]);
    assert data["password"] != cs[n].password;
  }

  /** An email held only by a soft-deleted customer passes the views' own check, and the unique validator of the serializer then rejects it. */
  lemma {:induction false} SoftDeletedEmailIsNotReusable(db: Db, data: RequestData, accepts: bool, i: nat)
    requires WellFormed(db)
    requires i < |db.customers| && db.customers[i].isDeleted
    requires "email" in data && data["email"] == db.customers[i].email && Trimmed(data["email"])
    requires PasswordAdmissible(data) && !MobileClash(db, data)
    ensures Registration(db, data, accepts).response == SerializerRejected
  {
    var email := data["email"];
    forall j | 0 <= j < |db.customers| ensures !IsActiveWith(db.customers[j], email) {
      if j < i {
        assert db.customers[j].email != db.customers[i].email;
      } else if j > i {
        assert db.customers[i].email != db.customers[j].email;
      }
    }
    assert !EmailClash(db, data);
  }

  /** After an OTP has been issued, the customer's current OTP is the row just appended. */
  lemma {:induction false} IssuedOtpIsCurrent(db: Db, email: string, code: nat, now: int, mailOk: bool)
    requires WellFormed(db)
    requires 1000 <= code <= 9999
    requires |OtpVerification(db, OtpRequest(email), code, now, mailOk).db.otps| == |db.otps| + 1
    ensures var o := OtpVerification(db, OtpRequest(email), code, now, mailOk);
      CurrentOtp(o.db, email) == Some(OtpRecord(o.db.otps[|db.otps|].customerId, DecimalString(code), now))
  {
    var o := OtpVerification(db, OtpRequest(email), code, now, mailOk);
    var rec := o.db.otps[|db.otps|];
    var k: nat :| OnlyActiveMatch(db.customers, email, k) && rec.customerId == db.customers[k].id;
    assert o.db.otps == db.otps + [rec] by {
      assert o.db.otps == o.db.otps[..|db.otps|] + [rec];
    }
    LatestOtpAfterAppend(db.otps, rec, rec.customerId);
    DecimalRoundTrip(code);
    FourDigitCode(code);
    assert rec.otp == DecimalString(code) by {
      NumeralRoundTrip(rec.otp);
    }
  }

  /**
   * Issue an OTP, then reset the password with that code inside the two
   * minutes, sending a new password without NUL characters: the reset succeeds, a login with the new password as stored
   * (trimmed) succeeds, and a login with any other non-empty password, the
   * old one included, is refused as incorrect.
   */
  lemma {:induction false} ResetThenLogin(db: Db, email: string, code: nat, issuedAt: int,
                                          newPassword: string, now: int)
    requires WellFormed(db)
    requires 1000 <= code <= 9999
    requires OtpVerification(db, OtpRequest(email), code, issuedAt, true).response.Success?
    requires now - issuedAt < OtpValiditySeconds
    requires MeetsPolicy(newPassword, ViewMinLength) && '\0' !in newPassword
    ensures
      var issued := OtpVerification(db, OtpRequest(email), code, issuedAt, true).db;
      var reset := ForgotPassword(issued, ResetRequest(email, newPassword, newPassword, DecimalString(code)), now);
      && reset.response == Success(YourPasswordUpdatedSuccessfully, None)
      && Login(reset.db, LoginRequest(email, Strip(newPassword))).Success?
      && forall other :: other != Strip(newPassword) && other != "" ==>
           Login(reset.db, LoginRequest(email, other)) == CustomBadRequest(IncorrectPassword)
  {
    var issued := OtpVerification(db, OtpRequest(email), code, issuedAt, true).db;
    var k := IssuedCodeResets(db, email, code, issuedAt, newPassword, now);
    var stored := Strip(newPassword);
    var written := issued.(customers := issued.customers[k := issued.customers[k].(password := stored)]);
    assert ForgotPassword(issued, ResetRequest(email, newPassword, newPassword, DecimalString(code)), now).db == written;
    LoginAfterPasswordWrite(issued, email, k, stored);
  }

  /** The reset with a freshly issued code succeeds, and writes the trimmed password of the customer at k. */
  lemma {:induction false} IssuedCodeResets(db: Db, email: string, code: nat, issuedAt: int,
                                            newPassword: string, now: int) returns (k: nat)
    requires WellFormed(db)
    requires 1000 <= code <= 9999
    requires OtpVerification(db, OtpRequest(email), code, issuedAt, true).response.Success?
    requires now - issuedAt < OtpValiditySeconds
    requires MeetsPolicy(newPassword, ViewMinLength) && '\0' !in newPassword
    ensures
      var issued := OtpVerification(db, OtpRequest(email), code, issuedAt, true).db;
      var reset := ForgotPassword(issued, ResetRequest(email, newPassword, newPassword, DecimalString(code)), now);
      && OnlyActiveMatch(issued.customers, email, k) && email != "" && Strip(newPassword) != ""
      && reset.response == Success(YourPasswordUpdatedSuccessfully, None)
      && reset.db == issued.(customers := issued.customers[k := issued.customers[k].(password := Strip(newPassword))])
  {
    var issued := OtpVerification(db, OtpRequest(email), code, issuedAt, true).db;
    var data := ResetRequest(email, newPassword, newPassword, DecimalString(code));
    IssuedOtpIsCurrent(db, email, code, issuedAt, true);
    assert OtpAccepted(issued, data, now);
    ForgotPasswordDecisionOrder(issued, data, now);
    var reset := ForgotPassword(issued, data, now);
    k :| OnlyActiveMatch(issued.customers, email, k)
      && reset.db == issued.(customers := issued.customers[k := issued.customers[k].(password := Strip(newPassword))]);
    PolicyPasswordIsNotBlank(newPassword);
  }

  /**
   * The same reset with a new password that meets the policy but holds a NUL
   * character: the serializer rejects it, the view returns None, and the
   * store is left as it was.
   */
  lemma {:induction false} NullPasswordResetReturnsNone(db: Db, email: string, code: nat, issuedAt: int,
                                                        newPassword: string, now: int)
    requires WellFormed(db)
    requires 1000 <= code <= 9999
    requires OtpVerification(db, OtpRequest(email), code, issuedAt, true).response.Success?
    requires now - issuedAt < OtpValiditySeconds
    requires MeetsPolicy(newPassword, ViewMinLength) && '\0' in newPassword
    ensures
      var issued := OtpVerification(db, OtpRequest(email), code, issuedAt, true).db;
      ForgotPassword(issued, ResetRequest(email, newPassword, newPassword, DecimalString(code)), now)
        == Outcome(ReturnedNone, issued)
  {
    var issued := OtpVerification(db, OtpRequest(email), code, issuedAt, true).db;
    var data := ResetRequest(email, newPassword, newPassword, DecimalString(code));
    IssuedOtpIsCurrent(db, email, code, issuedAt, true);
    assert OtpAccepted(issued, data, now);
    ForgotPasswordDecisionOrder(issued, data, now);
  }

  /**
   * A reset whose new password meets the policy only thanks to a trailing
   * space stores the trimmed password, which is seven characters long and
   * breaks the policy.
   */
  lemma {:induction false} PaddedResetIsStoredShort(db: Db, email: string, code: nat, issuedAt: int, now: int)
    returns (k: nat)
    requires WellFormed(db)
    requires 1000 <= code <= 9999
    requires OtpVerification(db, OtpRequest(email), code, issuedAt, true).response.Success?
    requires now - issuedAt < OtpValiditySeconds
    ensures
      var issued := OtpVerification(db, OtpRequest(email), code, issuedAt, true).db;
      var reset := ForgotPassword(issued, ResetRequest(email, "Abcde1! ", "Abcde1! ", DecimalString(code)), now);
      && reset.response.Success?
      && OnlyActiveMatch(issued.customers, email, k)
      && reset.db.customers[k].password == "Abcde1!"
      && !MeetsPolicy(reset.db.customers[k].password, ViewMinLength)
  {
    var p := "Abcde1! ";
    PaddedPasswordTrimsShort();
    PaddedPasswordMeetsPolicy();
    PaddedFieldsHaveNoNull();
    k := IssuedCodeResets(db, email, code, issuedAt, p, now);
    var issued := OtpVerification(db, OtpRequest(email), code, issuedAt, true).db;
    var reset := ForgotPassword(issued, ResetRequest(email, p, p, DecimalString(code)), now);
    var stored := Strip(p);
    assert reset.db.customers == issued.customers[k := issued.customers[k].(password := stored)];
    assert reset.db.customers[k].password == stored == "Abcde1!";
  }

  /** Once the only active customer with an email has a new password, login accepts that password and refuses every other. */
  lemma {:induction false} LoginAfterPasswordWrite(db: Db, email: string, k: nat, password: string)
    requires OnlyActiveMatch(db.customers, email, k) && email != "" && password != ""
    ensures var written := db.(customers := db.customers[k := db.customers[k].(password := password)]);
      && Login(written, LoginRequest(email, password)).Success?
      && forall other :: other != password && other != "" ==>
           Login(written, LoginRequest(email, other)) == CustomBadRequest(IncorrectPassword)
  {
    var written := db.(customers := db.customers[k := db.customers[k].(password := password)]);
    var cs := written.customers;
    assert OnlyActiveMatch(cs, email, k) by {
      forall j | 0 <= j < |cs| && j != k ensures !IsActiveWith(cs[j], email) {
        assert cs[j] == db.customers[j];
      }
    }
    assert GetActive(cs, email) == Found(k);
    forall other | other != password && other != ""
      ensures Login(written, LoginRequest(email, other)) == CustomBadRequest(IncorrectPassword)
    {
      var req := LoginRequest(email, other);
      assert Get(req, "email") == Some(email) && Get(req, "password") == Some(other);
      assert other != cs[k].password;
    }
    var req := LoginRequest(email, password);
    assert Get(req, "email") == Some(email) && Get(req, "password") == Some(password);
  }

  /**
   * Only the latest OTP counts: after a second OTP has been issued, the code
   * of the first one is refused as not matching, even while the first is
   * still inside its own two minutes.
   */
  lemma {:induction false} SupersededOtpIsRefused(db: Db, email: string, first: nat, second: nat,
                                                  firstAt: int, secondAt: int, now: int,
                                                  newPassword: string)
    requires WellFormed(db)
    requires 1000 <= first <= 9999 && 1000 <= second <= 9999 && first != second
    requires OtpVerification(db, OtpRequest(email), first, firstAt, true).response.Success?
    requires now - secondAt < OtpValiditySeconds
    ensures
      var once := OtpVerification(db, OtpRequest(email), first, firstAt, true).db;
      var twice := OtpVerification(once, OtpRequest(email), second, secondAt, true).db;
      ForgotPassword(twice, ResetRequest(email, newPassword, newPassword, DecimalString(first)), now).response
        == CustomBadRequest(OtpDoesntMatch)
  {
    var once := OtpVerification(db, OtpRequest(email), first, firstAt, true).db;
    OtpVerificationKeepsWellFormed(db, OtpRequest(email), first, firstAt, true);
    assert once.customers == db.customers;
    assert GetActive(once.customers, email).Found?;
    var twice := OtpVerification(once, OtpRequest(email), second, secondAt, true).db;
    IssuedOtpIsCurrent(once, email, second, secondAt, true);
    var current := CurrentOtp(twice, email).value;
    assert current.otp == DecimalString(second) && current.createdAt == secondAt;
    DecimalStringInjective(first, second);
    var data := ResetRequest(email, newPassword, newPassword, DecimalString(first));
    assert ConfirmationAgrees(twice, data);
    assert OtpFresh(current, now) && current.otp != data["otp"];
    ForgotPasswordDecisionOrder(twice, data, now);
  }

  /** A correct code presented two minutes or more after it was issued is refused as expired. */
  lemma {:induction false} ExpiredOtpIsRefusedEvenIfCorrect(db: Db, email: string, code: nat, issuedAt: int,
                                                            newPassword: string, now: int)
    requires WellFormed(db)
    requires 1000 <= code <= 9999
    requires OtpVerification(db, OtpRequest(email), code, issuedAt, true).response.Success?
    requires now - issuedAt >= OtpValiditySeconds
    ensures
      var issued := OtpVerification(db, OtpRequest(email), code, issuedAt, true).db;
      ForgotPassword(issued, ResetRequest(email, newPassword, newPassword, DecimalString(code)), now).response
        == CustomBadRequest(OtpExpired)
  {
    var issued := OtpVerification(db, OtpRequest(email), code, issuedAt, true).db;
    IssuedOtpIsCurrent(db, email, code, issuedAt, true);
    var data := ResetRequest(email, newPassword, newPassword, DecimalString(code));
    assert ConfirmationAgrees(issued, data);
    var current := CurrentOtp(issued, email).value;
    assert current.createdAt == issuedAt;
    assert !OtpFresh(current, now);
    ForgotPasswordDecisionOrder(issued, data, now);
  }
}
