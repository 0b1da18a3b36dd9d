/**
 * The four customer endpoints of ee_customers/views.py: Registration.post,
 * Login.post, OTPVerification.post (which issues an OTP) and
 * ForgotPassword.patch (which resets a password against the current OTP).
 *
 * Each endpoint is given twice: as a pure function from the store and the
 * request to the response and the new store, whose contract states the
 * decision order and the frame; and as a method of the class `Store`, which
 * performs the same steps on its fields and is proved to agree with the
 * function.  The clock (`timezone.now()`) and the random code
 * (`random.randint(1000, 9999)`) are parameters; the part of the registration
 * serializer's validation that the Customers model does not determine is a
 * boolean `accepts`; whether the mail transport raised is the boolean
 * `mailOk`.
 */
module Views {
  import opened Wrappers
  import opened Policy
  import opened Decimal
  import opened Models
  import opened Fields

  /** The message constants of common/constants.py that the views return. */
  datatype Message =
    | PasswordLengthShouldBeBetween8To20
    | PasswordMustHaveOneNumber
    | PasswordMustHaveOneSmallercaseLetter
    | PasswordMustHaveOneUppercaseLetter
    | PasswordMustHaveOneSpecialCharacter
    | EmailAlreadyExists
    | MobileNoAlreadyExists
    | UserRegisteredSuccessfully
    | BadRequest
    | UserLoggedInSuccessfully
    | WrongEmail
    | IncorrectPassword
    | OtpSentSuccessfullyToYourEmailId
    | NewPasswordDoesntMatch
    | OtpExpired
    | OtpDoesntMatch
    | YourPasswordUpdatedSuccessfully

  /** The access/refresh pair minted for a customer; its contents are opaque here. */
  datatype TokenPair = TokensFor(customerId: nat)

  /**
   * What an endpoint returns: a success response, a bad-request response with
   * its message, the validation error the registration serializer raises, the
   * generic error of the catch-all handlers of registration and login, or an
   * exception that escapes the view.  The catch-alls of OTPVerification.post
   * and ForgotPassword.patch call `traceback.print_exc(e)`, which passes the
   * exception as the `limit` argument; comparing it with 0 raises TypeError
   * inside the handler, so those two views end with that uncaught error.
   * When the reset view falls off its end it returns None, and the
   * framework's check that a view returns a response fails: `ReturnedNone`.
   */
  datatype Response =
    | Success(message: Message, tokens: Option<TokenPair>)
    | CustomBadRequest(message: Message)
    | SerializerRejected
    | GenericError
    | UncaughtTypeError
    | ReturnedNone

  /** `request.data` of a JSON request whose values are strings. */
  type RequestData = map<string, string>

  datatype Outcome = Outcome(response: Response, db: Db)

  /** `request.data.get(key)` */
  function Get(data: RequestData, key: string): Option<string> {
    if key in data then Some(data[key]) else None
  }

  /** Python's `not v` for a value that is missing or a string. */
  predicate Falsy(v: Option<string>) {
    v.None? || v.value == ""
  }

  /** The key is present and its value is not blank once trimmed, as a required character field demands. */
  predicate NonBlank(data: RequestData, key: string) {
    key in data && Strip(data[key]) != []
  }

  /**
   * A character field's own checks of a required value: not blank once
   * trimmed, and no NUL character in the trimmed value (the validator every
   * character field carries).
   */
  predicate CharFieldAccepts(data: RequestData, key: string) {
    NonBlank(data, key) && '\0' !in Strip(data[key])
  }

  /** Moreover the trimmed value respects the column's `max_length`. */
  predicate FilledIn(data: RequestData, key: string, maxLength: nat) {
    CharFieldAccepts(data, key) && |Strip(data[key])| <= maxLength
  }

  function PolicyMessage(v: Violation): Message {
    match v
    case Length => PasswordLengthShouldBeBetween8To20
    case Number => PasswordMustHaveOneNumber
    case SmallerCase => PasswordMustHaveOneSmallercaseLetter
    case UpperCase => PasswordMustHaveOneUppercaseLetter
    case SpecialCharacter => PasswordMustHaveOneSpecialCharacter
  }

  predicate IsPolicyMessage(m: Message) {
    m.PasswordLengthShouldBeBetween8To20? || m.PasswordMustHaveOneNumber?
    || m.PasswordMustHaveOneSmallercaseLetter? || m.PasswordMustHaveOneUppercaseLetter?
    || m.PasswordMustHaveOneSpecialCharacter?
  }

  predicate IsPolicyRejection(r: Response) {
    r.CustomBadRequest? && IsPolicyMessage(r.message)
  }

  // ---------------------------------------------------------------------
  // Registration.post

  /** The password check passes, or is skipped because no password was sent. */
  predicate PasswordAdmissible(data: RequestData) {
    "password" !in data || PolicyCheck(data["password"], ViewMinLength).None?
  }

  predicate EmailClash(db: Db, data: RequestData) {
    "email" in data && ActiveEmail(db.customers, data["email"])
  }

  predicate MobileClash(db: Db, data: RequestData) {
    "mobile_no" in data && ActiveMobile(db.customers, data["mobile_no"])
  }

  /** `is_deleted` as the serializer reads it; when it is not sent the column default, false, applies. */
  function DeletedFlag(data: RequestData): (b: Option<bool>)
    ensures b == Some(true) <==> "is_deleted" in data && data["is_deleted"] in TrueValues
    ensures b.None? <==> "is_deleted" in data && data["is_deleted"] !in TrueValues + FalseValues
  {
    if "is_deleted" in data then ParseBoolean(data["is_deleted"]) else Some(false)
  }

  /** The mobile number the serializer stores: the trimmed value, or none when it was not sent. */
  function MobileField(data: RequestData): Option<string> {
    if "mobile_no" in data then Some(Strip(data["mobile_no"])) else None
  }

  /** The row `registration_serializer.save()` inserts: the trimmed fields and the `is_deleted` read from the request. */
  function NewCustomer(db: Db, data: RequestData): (c: Customer)
    requires "username" in data && "email" in data && "password" in data && DeletedFlag(data).Some?
    ensures c.id == |db.customers| + 1
    ensures Trimmed(c.username) && Trimmed(c.email) && Trimmed(c.password)
    ensures c.mobileNo.Some? ==> Trimmed(c.mobileNo.value)
    ensures c.isDeleted <==> "is_deleted" in data && data["is_deleted"] in TrueValues
  {
    Customer(|db.customers| + 1, Strip(data["username"]), Strip(data["email"]), Strip(data["password"]),
             MobileField(data), DeletedFlag(data).value)
  }

  /**
   * `RegistrationSerializer(...).is_valid()`: the rules a model serializer
   * derives from the Customers model.  Username, email and password are
   * required, not blank once trimmed and free of NUL characters (as a
   * supplied mobile_no is); username and email respect their
   * `max_length` (255 and 254); email and mobile_no carry unique validators
   * over ALL rows, applied to the trimmed value; a supplied mobile_no is not
   * blank and has at most 50 characters; a supplied is_deleted is one of the
   * boolean field's strings.  `accepts` stands for the rest (the email
   * format, the date of birth and the credit).
   */
  predicate RegistrationSerializerValid(db: Db, data: RequestData, accepts: bool)
    ensures RegistrationSerializerValid(db, data, accepts) ==>
      && "username" in data && "email" in data && "password" in data && DeletedFlag(data).Some?
      && var c := NewCustomer(db, data);
         && c.username != [] && c.email != [] && c.password != []
         && '\0' !in c.username && '\0' !in c.email && '\0' !in c.password
         && (forall i :: 0 <= i < |db.customers| ==> db.customers[i].email != c.email)
         && (c.mobileNo.Some? ==> forall i :: 0 <= i < |db.customers| ==> db.customers[i].mobileNo != c.mobileNo)
  {
    && accepts
    && FilledIn(data, "username", 255) && FilledIn(data, "email", 254) && CharFieldAccepts(data, "password")
    && !EmailTaken(db.customers, Strip(data["email"]))
    && ("mobile_no" in data ==> FilledIn(data, "mobile_no", 50) && !MobileTaken(db.customers, Strip(data["mobile_no"])))
    && DeletedFlag(data).Some?
  }

  /** Registration.post */
  function Registration(db: Db, data: RequestData, accepts: bool): (o: Outcome)
    // the password chain runs only when a password was sent, and its first failure is reported
    ensures "password" in data && PolicyCheck(data["password"], ViewMinLength).Some? ==>
      o.response == CustomBadRequest(PolicyMessage(PolicyCheck(data["password"], ViewMinLength).value))
    ensures IsPolicyRejection(o.response) <==> !PasswordAdmissible(data)
    // uniqueness among active customers, on the values as sent: email first, then mobile number
    ensures o.response == CustomBadRequest(EmailAlreadyExists) <==>
      PasswordAdmissible(data) && EmailClash(db, data)
    ensures o.response == CustomBadRequest(MobileNoAlreadyExists) <==>
      PasswordAdmissible(data) && !EmailClash(db, data) && MobileClash(db, data)
    ensures o.response == SerializerRejected <==>
      PasswordAdmissible(data) && !EmailClash(db, data) && !MobileClash(db, data)
      && !RegistrationSerializerValid(db, data, accepts)
    ensures o.response.Success? <==>
      PasswordAdmissible(data) && !EmailClash(db, data) && !MobileClash(db, data)
      && RegistrationSerializerValid(db, data, accepts)
    // every failure leaves the store as it was
    ensures !o.response.Success? ==> o.db == db
    // success inserts exactly one customer holding the trimmed fields and returns its tokens
    ensures o.response.Success? ==>
      && |o.db.customers| == |db.customers| + 1
      && o.db.customers[..|db.customers|] == db.customers
      && o.db.otps == db.otps && o.db.outbox == db.outbox
      && MeetsPolicy(data["password"], ViewMinLength)
      && var c := o.db.customers[|db.customers|];
         && c.id == |db.customers| + 1
         && c.username == Strip(data["username"]) && c.email == Strip(data["email"])
         && c.password == Strip(data["password"]) && c.mobileNo == MobileField(data)
         && (c.isDeleted <==> "is_deleted" in data && data["is_deleted"] in TrueValues)
         && o.response == Success(UserRegisteredSuccessfully, Some(TokensFor(c.id)))
  {
    if "password" in data && PolicyCheck(data["password"], ViewMinLength).Some? then
      Outcome(CustomBadRequest(PolicyMessage(PolicyCheck(data["password"], ViewMinLength).value)), db)
    else if EmailClash(db, data) then
      Outcome(CustomBadRequest(EmailAlreadyExists), db)
    else if MobileClash(db, data) then
      Outcome(CustomBadRequest(MobileNoAlreadyExists), db)
    else if !RegistrationSerializerValid(db, data, accepts) then
      Outcome(SerializerRejected, db)
    else
      var c := NewCustomer(db, data);
      assert (db.customers + [c])[..|db.customers|] == db.customers;
      Outcome(Success(UserRegisteredSuccessfully, Some(TokensFor(c.id))),
              db.(customers := db.customers + [c]))
  }

  lemma RegistrationKeepsWellFormed(db: Db, data: RequestData, accepts: bool)
    requires WellFormed(db)
    ensures WellFormed(Registration(db, data, accepts).db)
  {
    var o := Registration(db, data, accepts);
    if o.response.Success? {
      var c := NewCustomer(db, data);
      assert o.db == db.(customers := db.customers + [c]);
      InsertKeepsWellFormed(db, c);
    }
  }

  /** Appending a row with the next id, and with an email and a mobile number no row holds, keeps the invariant. */
  lemma InsertKeepsWellFormed(db: Db, c: Customer)
    requires WellFormed(db)
    requires c.id == |db.customers| + 1
    requires forall i :: 0 <= i < |db.customers| ==> db.customers[i].email != c.email
    requires c.mobileNo.Some? ==> forall i :: 0 <= i < |db.customers| ==> db.customers[i].mobileNo != c.mobileNo
    ensures WellFormed(db.(customers := db.customers + [c]))
  {
    var cs := db.customers + [c];
    var n := |db.customers|;
    forall i, j | 0 <= i < j < |cs| ensures cs[i].email != cs[j].email {
      if j == n {
        assert cs[i] == db.customers[i];
      }
    }
  }

  /**
   * The password check as evidently intended: the policy applied to the
   * password the serializer will store, which is the trimmed one.  It admits
   * exactly the passwords whose stored form meets the policy, and it agrees
   * with the inline chain on every password without surrounding whitespace.
   */
  function StoredPasswordCheck(p: string): (v: Option<Violation>)
    ensures v.None? <==> MeetsPolicy(Strip(p), ViewMinLength)
    ensures Trimmed(p) ==> v == PolicyCheck(p, ViewMinLength)
  {
    PolicyCheck(Strip(p), ViewMinLength)
  }

  // ---------------------------------------------------------------------
  // Login.post

  /** Login.post; the password comparison is on the stored plaintext. */
  function Login(db: Db, data: RequestData): (r: Response)
    ensures r == CustomBadRequest(BadRequest) <==> Falsy(Get(data, "email")) || Falsy(Get(data, "password"))
    ensures r == CustomBadRequest(WrongEmail) <==>
      !Falsy(Get(data, "email")) && !Falsy(Get(data, "password"))
      && !ActiveEmail(db.customers, data["email"])
    ensures r == CustomBadRequest(IncorrectPassword) <==>
      !Falsy(Get(data, "email")) && !Falsy(Get(data, "password"))
      && exists k: nat :: OnlyActiveMatch(db.customers, data["email"], k)
                     && db.customers[k].password != data["password"]
    ensures r.Success? <==>
      !Falsy(Get(data, "email")) && !Falsy(Get(data, "password"))
      && exists k: nat :: OnlyActiveMatch(db.customers, data["email"], k)
                     && db.customers[k].password == data["password"]
    ensures forall k: nat :: r.Success? && OnlyActiveMatch(db.customers, data["email"], k) ==>
      r == Success(UserLoggedInSuccessfully, Some(TokensFor(db.customers[k].id)))
  {
    var email := Get(data, "email");
    var password := Get(data, "password");
    if Falsy(email) || Falsy(password) then CustomBadRequest(BadRequest)
    else
      match GetActive(db.customers, email.value)
      case DoesNotExist => CustomBadRequest(WrongEmail)
      case MultipleObjectsReturned => GenericError
      case Found(k) =>
        if password.value != db.customers[k].password then CustomBadRequest(IncorrectPassword)
        else Success(UserLoggedInSuccessfully, Some(TokensFor(db.customers[k].id)))
  }

  // ---------------------------------------------------------------------
  // OTPVerification.post

  /** The row just appended is an OTP of the only active customer with this email, holding the four-digit numeral of `code`. */
  ghost predicate IssuedFor(cs: seq<Customer>, email: string, code: nat, now: int, rec: OtpRecord) {
    && (exists k: nat :: OnlyActiveMatch(cs, email, k) && rec.customerId == cs[k].id)
    && |rec.otp| == 4 && AllDigits(rec.otp) && DecimalValue(rec.otp) == code
    && rec.createdAt == now
  }

  /**
   * `OTPVerificationSerializer(data=...).is_valid()`: `customer_id` names an
   * existing customer, deleted or not, and `otp` is not blank, holds no NUL
   * character and has at most 255 characters once trimmed.  On the code as
   * sent: it holds a character that is not whitespace and no NUL.
   */
  predicate OtpSerializerValid(db: Db, customerId: nat, otp: string)
    ensures OtpSerializerValid(db, customerId, otp) <==>
      && (exists i :: 0 <= i < |db.customers| && db.customers[i].id == customerId)
      && (exists j :: 0 <= j < |otp| && !IsWhitespace(otp[j]))
      && '\0' !in otp && |Strip(otp)| <= 255
  {
    StripKeepsVisible(otp, '\0');
    && (exists i :: 0 <= i < |db.customers| && db.customers[i].id == customerId)
    && Strip(otp) != [] && '\0' !in Strip(otp) && |Strip(otp)| <= 255
  }

  /**
   * The data the view hands to its serializer always passes it, and saving
   * stores the code unchanged; so the BAD_REQUEST branch after `is_valid()`
   * is never taken.
   */
  lemma OtpSerializerAccepts(db: Db, k: nat, code: nat)
    requires k < |db.customers| && 1000 <= code <= 9999
    ensures OtpSerializerValid(db, db.customers[k].id, DecimalString(code))
    ensures Strip(DecimalString(code)) == DecimalString(code)
  {
    FourDigitCode(code);
    DigitsAreTrimmed(DecimalString(code));
  }

  /** OTPVerification.post: append a fresh OTP row for the customer and mail the code. */
  function OtpVerification(db: Db, data: RequestData, code: nat, now: int, mailOk: bool): (o: Outcome)
    requires 1000 <= code <= 9999
    ensures o.response == CustomBadRequest(BadRequest) <==> Falsy(Get(data, "email"))
    ensures o.response == CustomBadRequest(WrongEmail) <==>
      !Falsy(Get(data, "email")) && !ActiveEmail(db.customers, data["email"])
    // several active rows, or a failing mail transport, end in the catch-all, which raises
    ensures o.response == UncaughtTypeError <==>
      !Falsy(Get(data, "email"))
      && (GetActive(db.customers, data["email"]) == MultipleObjectsReturned
          || (GetActive(db.customers, data["email"]).Found? && !mailOk))
    // customers never change; earlier OTP rows are never touched
    ensures o.db.customers == db.customers
    ensures |db.otps| <= |o.db.otps| <= |db.otps| + 1 && o.db.otps[..|db.otps|] == db.otps
    // a row is appended exactly when the customer was found, whether or not the mail then goes out
    ensures |o.db.otps| == |db.otps| + 1 <==>
      !Falsy(Get(data, "email")) && GetActive(db.customers, data["email"]).Found?
    ensures |o.db.otps| == |db.otps| + 1 ==>
      IssuedFor(db.customers, data["email"], code, now, o.db.otps[|db.otps|])
    // success means the row was appended and the mail carrying its code went out
    ensures o.response.Success? <==> |o.db.otps| == |db.otps| + 1 && mailOk
    ensures o.response.Success? ==>
      o.response == Success(OtpSentSuccessfullyToYourEmailId, None)
      && o.db.outbox == db.outbox + [Mail(data["email"], o.db.otps[|db.otps|].otp)]
    ensures !o.response.Success? ==> o.db.outbox == db.outbox
  {
    var email := Get(data, "email");
    if Falsy(email) then Outcome(CustomBadRequest(BadRequest), db)
    else
      match GetActive(db.customers, email.value)
      case DoesNotExist => Outcome(CustomBadRequest(WrongEmail), db)
      case MultipleObjectsReturned => Outcome(UncaughtTypeError, db)
      case Found(k) =>
        var otp := DecimalString(code);
        OtpSerializerAccepts(db, k, code);
        FourDigitCode(code);
        DecimalRoundTrip(code);
        var rec := OtpRecord(db.customers[k].id, Strip(otp), now);
        var saved := db.(otps := db.otps + [rec]);
        assert saved.otps[..|db.otps|] == db.otps;
        if mailOk then
          Outcome(Success(OtpSentSuccessfullyToYourEmailId, None),
                  saved.(outbox := db.outbox + [Mail(email.value, otp)]))
        else
          Outcome(UncaughtTypeError, saved)
  }

  lemma OtpVerificationKeepsWellFormed(db: Db, data: RequestData, code: nat, now: int, mailOk: bool)
    requires WellFormed(db)
    requires 1000 <= code <= 9999
    ensures WellFormed(OtpVerification(db, data, code, now, mailOk).db)
  {
    var o := OtpVerification(db, data, code, now, mailOk);
    if |o.db.otps| == |db.otps| + 1 {
      var rec := o.db.otps[|db.otps|];
      var k: nat :| OnlyActiveMatch(db.customers, data["email"], k) && rec.customerId == db.customers[k].id;
      OtpAppendKeepsWellFormed(db, o.db);
    }
  }

  /** Appending an OTP row that refers to an existing customer, and changing nothing else but the outbox, keeps the invariant. */
  lemma OtpAppendKeepsWellFormed(db: Db, next: Db)
    requires WellFormed(db)
    requires next.customers == db.customers
    requires |next.otps| == |db.otps| + 1 && next.otps[..|db.otps|] == db.otps
    requires 1 <= next.otps[|db.otps|].customerId <= |db.customers|
    ensures WellFormed(next)
  {
    forall i | 0 <= i < |next.otps| ensures 1 <= next.otps[i].customerId <= |next.customers| {
      if i < |db.otps| {
        assert next.otps[i] == next.otps[..|db.otps|][i];
      }
    }
  }

  /**
   * OTPVerification.post as evidently intended, with a catch-all that answers
   * `GenericException()` as those of registration and login do: the same
   * tables, and the generic error exactly where the view as written raises.
   */
  function OtpVerificationIntended(db: Db, data: RequestData, code: nat, now: int, mailOk: bool): (o: Outcome)
    requires 1000 <= code <= 9999
    ensures !o.response.UncaughtTypeError?
    ensures o.response == GenericError <==>
      !Falsy(Get(data, "email"))
      && (GetActive(db.customers, data["email"]) == MultipleObjectsReturned
          || (GetActive(db.customers, data["email"]).Found? && !mailOk))
    ensures o.db == OtpVerification(db, data, code, now, mailOk).db
  {
    var written := OtpVerification(db, data, code, now, mailOk);
    if written.response.UncaughtTypeError? then Outcome(GenericError, written.db) else written
  }

  // ---------------------------------------------------------------------
  // ForgotPassword.patch

  const ResetKeys: set<string> := {"email", "new_password", "confirm_password", "otp"}

  predicate ResetFieldsPresent(data: RequestData) {
    "email" in data && "new_password" in data && "confirm_password" in data && "otp" in data
  }

  /**
   * The customer's current OTP: the OTP row with the highest primary key
   * among the rows of the only active customer with this email; none when
   * there is no such customer or it has no OTP row.
   */
  function CurrentOtp(db: Db, email: string): (rec: Option<OtpRecord>)
    ensures rec.Some? ==>
      exists k: nat, j: nat :: (OnlyActiveMatch(db.customers, email, k)
                      && LatestOtp(db.otps, db.customers[k].id) == Some(j) && rec.value == db.otps[j])
    ensures rec.None? <==>
      forall k: nat :: OnlyActiveMatch(db.customers, email, k) ==> LatestOtp(db.otps, db.customers[k].id).None?
  {
    match GetActive(db.customers, email)
    case Found(k) =>
      (match LatestOtp(db.otps, db.customers[k].id)
       case Some(j) => Some(db.otps[j])
       case None => None)
    case _ => None
  }

  /** Every field is there, the customer exists, and new and confirmation agree. */
  predicate ConfirmationAgrees(db: Db, data: RequestData) {
    ResetFieldsPresent(data) && GetActive(db.customers, data["email"]).Found?
    && data["new_password"] == data["confirm_password"]
  }

  /** Moreover the current OTP is younger than two minutes and equals the supplied code. */
  predicate OtpAccepted(db: Db, data: RequestData, now: int) {
    ConfirmationAgrees(db, data) && CurrentOtp(db, data["email"]).Some?
    && OtpFresh(CurrentOtp(db, data["email"]).value, now)
    && CurrentOtp(db, data["email"]).value.otp == data["otp"]
  }

  /**
   * `request.data` as the view leaves it: the four fields deleted, and
   * `password` set to the new password once the view has passed the OTP and
   * policy checks and reached the assignment before `is_valid()`.  The
   * reset serializer was built on this same dictionary, so this is also what
   * it validates.
   */
  function ResetRequestData(data: RequestData, setsPassword: bool): RequestData
    requires ResetFieldsPresent(data)
  {
    var kept := data - ResetKeys;
    if setsPassword then kept["password" := data["new_password"]] else kept
  }

  /**
   * What the view leaves in `request.data`: none of the four fields; every
   * other key as sent, except `password`, which holds the new password once
   * the view has reached its assignment, and is otherwise as sent.
   */
  lemma ResetRequestDataKeys(data: RequestData, setsPassword: bool)
    requires ResetFieldsPresent(data)
    ensures var d := ResetRequestData(data, setsPassword);
      && (forall key :: key in ResetKeys ==> key !in d)
      && (forall key :: key !in ResetKeys && key != "password" ==>
            (key in d <==> key in data) && (key in d ==> d[key] == data[key]))
      && (setsPassword ==> "password" in d && d["password"] == data["new_password"])
      && (!setsPassword ==> ("password" in d <==> "password" in data))
  {
  }

  /**
   * `ResetPasswordSerializer(data=request.data).is_valid()`: password is its
   * one field, required, not blank once trimmed and free of NUL characters;
   * so it holds exactly when the password holds a character that is not
   * whitespace and no NUL.
   */
  predicate ResetSerializerValid(data: RequestData)
    ensures ResetSerializerValid(data) <==>
      && "password" in data
      && (exists i :: 0 <= i < |data["password"]| && !IsWhitespace(data["password"][i]))
      && '\0' !in data["password"]
  {
    if "password" in data then StripKeepsVisible(data["password"], '\0'); CharFieldAccepts(data, "password")
    else false
  }

  /**
   * Once the new password has passed the policy, the serializer sees it as
   * `password` and rejects it exactly when it holds a NUL character; in
   * that case alone the view falls off its end after `is_valid()`.
   */
  lemma {:induction false} ResetSerializerAfterPolicy(data: RequestData)
    requires ResetFieldsPresent(data) && MeetsPolicy(data["new_password"], ViewMinLength)
    ensures ResetSerializerValid(ResetRequestData(data, true)) <==> '\0' !in data["new_password"]
    ensures ResetRequestData(data, true)["password"] == data["new_password"]
  {
    ResetRequestDataKeys(data, true);
    PolicyPasswordIsNotBlank(data["new_password"]);
    var p := data["new_password"];
    var i :| 0 <= i < |p| && InClass(p[i], Digit);
    assert !IsWhitespace(p[i]);
  }

  /** A password meeting the policy holds a digit, so it is not blank once trimmed. */
  lemma {:induction false} PolicyPasswordIsNotBlank(p: string)
    requires MeetsPolicy(p, ViewMinLength)
    ensures Strip(p) != []
  {
    var i :| 0 <= i < |p| && InClass(p[i], Digit);
    NotBlankWhenSomeCharIsNot(p, i);
  }

  /** ForgotPassword.patch; `ForgotPasswordDecisionOrder` states which response each request gets. */
  function ForgotPassword(db: Db, data: RequestData, now: int): (o: Outcome)
    // a missing field is raised inside the try block, and the catch-all raises in turn
    ensures !ResetFieldsPresent(data) ==> o == Outcome(UncaughtTypeError, db)
    ensures o.response.Success? ==>
      OtpAccepted(db, data, now) && MeetsPolicy(data["new_password"], ViewMinLength) && '\0' !in data["new_password"]
    // only success writes, and it writes that one customer's password, trimmed
    ensures !o.response.Success? ==> o.db == db
    ensures o.response.Success? ==>
      o.response == Success(YourPasswordUpdatedSuccessfully, None)
      && exists k: nat :: (OnlyActiveMatch(db.customers, data["email"], k)
                      && o.db == db.(customers := db.customers[k := db.customers[k].(password := Strip(data["new_password"]))]))
  {
    if !ResetFieldsPresent(data) then Outcome(UncaughtTypeError, db)
    else
      var newPassword := data["new_password"];
      var confirmPassword := data["confirm_password"];
      var email := data["email"];
      var otp := data["otp"];
      match GetActive(db.customers, email)
      case DoesNotExist => Outcome(UncaughtTypeError, db)
      case MultipleObjectsReturned => Outcome(UncaughtTypeError, db)
      case Found(k) =>
        var customerOtp := LatestOtp(db.otps, db.customers[k].id);
        if newPassword != confirmPassword then Outcome(CustomBadRequest(NewPasswordDoesntMatch), db)
        else if customerOtp.None? then Outcome(UncaughtTypeError, db)
        else
          var rec := db.otps[customerOtp.value];
          if !OtpFresh(rec, now) then Outcome(CustomBadRequest(OtpExpired), db)
          else if rec.otp != otp then Outcome(CustomBadRequest(OtpDoesntMatch), db)
          else
            var v := PolicyCheck(newPassword, ViewMinLength);
            if v.Some? then Outcome(CustomBadRequest(PolicyMessage(v.value)), db)
            else
              // `password` is set, and the serializer built on this dictionary judges it
              var seen := ResetRequestData(data, true);
              ResetSerializerAfterPolicy(data);
              if !ResetSerializerValid(seen) then Outcome(ReturnedNone, db)
              else
                Outcome(Success(YourPasswordUpdatedSuccessfully, None),
                        db.(customers := db.customers[k := db.customers[k].(password := Strip(newPassword))]))
  }

  /**
   * The checks of the reset view in their order, each outcome as an
   * if-and-only-if: a missing field or customer, new password against its
   * confirmation (before any OTP is inspected), a missing OTP row, the age of
   * the current OTP (whatever code was sent), the code against the current
   * OTP only, the password policy, and last the reset serializer, which
   * rejects a new password holding a NUL character and leaves the view to
   * return None.
   */
  lemma ForgotPasswordDecisionOrder(db: Db, data: RequestData, now: int)
    ensures var r := ForgotPassword(db, data, now).response;
      && (r == UncaughtTypeError <==>
            !ResetFieldsPresent(data) || !GetActive(db.customers, data["email"]).Found?
            || (ConfirmationAgrees(db, data) && CurrentOtp(db, data["email"]).None?))
      && (r == CustomBadRequest(NewPasswordDoesntMatch) <==>
            ResetFieldsPresent(data) && GetActive(db.customers, data["email"]).Found?
            && data["new_password"] != data["confirm_password"])
      && (r == CustomBadRequest(OtpExpired) <==>
            ConfirmationAgrees(db, data) && CurrentOtp(db, data["email"]).Some?
            && !OtpFresh(CurrentOtp(db, data["email"]).value, now))
      && (r == CustomBadRequest(OtpDoesntMatch) <==>
            ConfirmationAgrees(db, data) && CurrentOtp(db, data["email"]).Some?
            && OtpFresh(CurrentOtp(db, data["email"]).value, now)
            && CurrentOtp(db, data["email"]).value.otp != data["otp"])
      && (IsPolicyRejection(r) <==>
            OtpAccepted(db, data, now) && !MeetsPolicy(data["new_password"], ViewMinLength))
      && (OtpAccepted(db, data, now) && !MeetsPolicy(data["new_password"], ViewMinLength) ==>
            r == CustomBadRequest(PolicyMessage(PolicyCheck(data["new_password"], ViewMinLength).value)))
      && (r == ReturnedNone <==>
            OtpAccepted(db, data, now) && MeetsPolicy(data["new_password"], ViewMinLength)
            && '\0' in data["new_password"])
      && (r.Success? <==>
            OtpAccepted(db, data, now) && MeetsPolicy(data["new_password"], ViewMinLength)
            && '\0' !in data["new_password"])
  {
    ForgotPasswordLateOutcomes(db, data, now);
  }

  /** The outcomes of the reset view once the code has been accepted: the policy, then the serializer. */
  lemma ForgotPasswordLateOutcomes(db: Db, data: RequestData, now: int)
    ensures var r := ForgotPassword(db, data, now).response;
      && (r == ReturnedNone ==> OtpAccepted(db, data, now))
      && (IsPolicyRejection(r) ==> OtpAccepted(db, data, now))
      && (OtpAccepted(db, data, now) ==>
            && (!MeetsPolicy(data["new_password"], ViewMinLength) ==>
                  r == CustomBadRequest(PolicyMessage(PolicyCheck(data["new_password"], ViewMinLength).value)))
            && (MeetsPolicy(data["new_password"], ViewMinLength) && '\0' in data["new_password"] ==>
                  r == ReturnedNone)
            && (MeetsPolicy(data["new_password"], ViewMinLength) && '\0' !in data["new_password"] ==>
                  r.Success?))
  {
    if OtpAccepted(db, data, now) && MeetsPolicy(data["new_password"], ViewMinLength) {
      ResetSerializerAfterPolicy(data);
    }
  }

  lemma ForgotPasswordKeepsWellFormed(db: Db, data: RequestData, now: int)
    requires WellFormed(db)
    ensures WellFormed(ForgotPassword(db, data, now).db)
  {
    var o := ForgotPassword(db, data, now);
    if o.response.Success? {
      var k: nat :| OnlyActiveMatch(db.customers, data["email"], k)
        && o.db == db.(customers := db.customers[k := db.customers[k].(password := Strip(data["new_password"]))]);
      PasswordWriteKeepsWellFormed(db, k, Strip(data["new_password"]));
    }
  }

  /** Overwriting one customer's password keeps the invariant: ids, emails, mobile numbers and OTP rows stay as they were. */
  lemma PasswordWriteKeepsWellFormed(db: Db, k: nat, password: string)
    requires WellFormed(db) && k < |db.customers|
    ensures WellFormed(db.(customers := db.customers[k := db.customers[k].(password := password)]))
  {
    var cs := db.customers[k := db.customers[k].(password := password)];
    assert forall i :: 0 <= i < |cs| ==>
      cs[i].id == db.customers[i].id && cs[i].email == db.customers[i].email
      && cs[i].mobileNo == db.customers[i].mobileNo;
  }

  /**
   * ForgotPassword.patch as evidently intended, with a catch-all that answers
   * `GenericException()`: the same tables, and the generic error exactly
   * where the view as written raises (a missing field or customer, or no OTP
   * row once the passwords agree).
   */
  function ForgotPasswordIntended(db: Db, data: RequestData, now: int): (o: Outcome)
    ensures !o.response.UncaughtTypeError?
    ensures o.response == GenericError <==>
      !ResetFieldsPresent(data) || !GetActive(db.customers, data["email"]).Found?
      || (ConfirmationAgrees(db, data) && CurrentOtp(db, data["email"]).None?)
    ensures o.db == ForgotPassword(db, data, now).db
  {
    var written := ForgotPassword(db, data, now);
    ForgotPasswordDecisionOrder(db, data, now);
    if written.response.UncaughtTypeError? then Outcome(GenericError, written.db) else written
  }

  // ---------------------------------------------------------------------
  // The store the views act on, updated in place

  /** The incoming request; the reset view deletes and sets keys of its data. */
  class Request {
    var data: RequestData

    constructor (d: RequestData)
      ensures data == d
    {
      data := d;
    }
  }

  /** The customers and OTP tables and the mail transport's outbox. */
  class Store {
    var customers: seq<Customer>
    var otps: seq<OtpRecord>
    var outbox: seq<Mail>

    function State(): Db
      reads this
    {
      Db(customers, otps, outbox)
    }

    ghost predicate Valid()
      reads this
    {
      WellFormed(State())
    }

    constructor ()
      ensures Valid() && State() == Db([], [], [])
    {
      customers, otps, outbox := [], [], [];
    }

    method RegistrationPost(req: Request, accepts: bool) returns (r: Response)
      requires Valid()
      modifies this
      ensures Valid()
      ensures Outcome(r, State()) == Registration(old(State()), req.data, accepts)
    {
      RegistrationKeepsWellFormed(State(), req.data, accepts);
      if "password" in req.data {
        var password := req.data["password"];
        var violation := PolicyCheck(password, ViewMinLength);
        if violation.Some? {
          return CustomBadRequest(PolicyMessage(violation.value));
        }
      }
      if "email" in req.data && ActiveEmail(customers, req.data["email"]) {
        return CustomBadRequest(EmailAlreadyExists);
      }
      if "mobile_no" in req.data && ActiveMobile(customers, req.data["mobile_no"]) {
        return CustomBadRequest(MobileNoAlreadyExists);
      }
      if !RegistrationSerializerValid(State(), req.data, accepts) {
        return SerializerRejected;
      }
      var customer := NewCustomer(State(), req.data);
      customers := customers + [customer];
      r := Success(UserRegisteredSuccessfully, Some(TokensFor(customer.id)));
    }

    method LoginPost(req: Request) returns (r: Response)
      ensures r == Login(State(), req.data)
    {
      var email := Get(req.data, "email");
      var password := Get(req.data, "password");
      if Falsy(email) || Falsy(password) {
        return CustomBadRequest(BadRequest);
      }
      var lookup := GetActive(customers, email.value);
      match lookup {
        case DoesNotExist =>
          r := CustomBadRequest(WrongEmail);
        case MultipleObjectsReturned =>
          r := GenericError;
        case Found(k) =>
          var customer := customers[k];
          if password.value != customer.password {
            r := CustomBadRequest(IncorrectPassword);
          } else {
            r := Success(UserLoggedInSuccessfully, Some(TokensFor(customer.id)));
          }
      }
    }

    method OtpVerificationPost(req: Request, code: nat, now: int, mailOk: bool) returns (r: Response)
      requires Valid()
      requires 1000 <= code <= 9999
      modifies this
      ensures Valid()
      ensures Outcome(r, State()) == OtpVerification(old(State()), req.data, code, now, mailOk)
    {
      OtpVerificationKeepsWellFormed(State(), req.data, code, now, mailOk);
      var email := Get(req.data, "email");
      if Falsy(email) {
        return CustomBadRequest(BadRequest);
      }
      var otp := DecimalString(code);
      var lookup := GetActive(customers, email.value);
      match lookup {
        case DoesNotExist =>
          r := CustomBadRequest(WrongEmail);
        case MultipleObjectsReturned =>
          r := UncaughtTypeError;
        case Found(k) =>
          // the serializer always accepts this data (OtpSerializerAccepts)
          otps := otps + [OtpRecord(customers[k].id, Strip(otp), now)];
          if !mailOk {
            return UncaughtTypeError;
          }
          outbox := outbox + [Mail(email.value, otp)];
          r := Success(OtpSentSuccessfullyToYourEmailId, None);
      }
    }

    method ForgotPasswordPatch(req: Request, now: int) returns (r: Response)
      requires Valid()
      modifies this, req
      ensures Valid()
      ensures Outcome(r, State()) == ForgotPassword(old(State()), old(req.data), now)
      ensures !ResetFieldsPresent(old(req.data)) ==> req.data == old(req.data)
      ensures ResetFieldsPresent(old(req.data)) ==>
        req.data == ResetRequestData(old(req.data), r.Success? || r == ReturnedNone)
    {
      if !ResetFieldsPresent(req.data) {
        return UncaughtTypeError;
      }
      var newPassword := req.data["new_password"];
      var confirmPassword := req.data["confirm_password"];
      var email := req.data["email"];
      var otp := req.data["otp"];
      ghost var sent := req.data;
      req.data := req.data - ResetKeys;

      var lookup := GetActive(customers, email);
      if !lookup.Found? {
        return UncaughtTypeError;
      }
      var k := lookup.index;
      var customerOtp := LatestOtp(otps, customers[k].id);
      if newPassword != confirmPassword {
        return CustomBadRequest(NewPasswordDoesntMatch);
      }
      if customerOtp.None? {
        return UncaughtTypeError;
      }
      var rec := otps[customerOtp.value];
      if !OtpFresh(rec, now) {
        return CustomBadRequest(OtpExpired);
      }
      if rec.otp != otp {
        return CustomBadRequest(OtpDoesntMatch);
      }
      var violation := PolicyCheck(newPassword, ViewMinLength);
      if violation.Some? {
        return CustomBadRequest(PolicyMessage(violation.value));
      }
      req.data := req.data["password" := newPassword];
      assert req.data == ResetRequestData(sent, true);
      if !ResetSerializerValid(req.data) {
        return ReturnedNone;
      }
      // the serializer stores the trimmed password
      PasswordWriteKeepsWellFormed(State(), k, Strip(newPassword));
      customers := customers[k := customers[k].(password := Strip(newPassword))];
      r := Success(YourPasswordUpdatedSuccessfully, None);
    }
  }
}
