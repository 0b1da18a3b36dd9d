# EatElite customer credentials, modelled in Dafny

This project models the customer credential lifecycle of the EatElite service. It covers the four
customer endpoints in `EatElite/ee_customers/views.py`:

- registration
- login
- OTP issuance (the `otpverification` endpoint)
- OTP-gated password reset (`forgotpassword`)

It also covers the password validator `validate_password` in `EatElite/common/helpers.py`, and the
parts of the model serializers in `EatElite/ee_customers/serializers.py` that the views depend on.

Modules, leaf first:

- `Wrappers` (`wrappers.dfy`): the `Option` datatype.
- `Policy` (`policy.dfy`): the password-composition chain.
  - `Search` models a `re.search` over a one-character class.
  - `ClassCheck` is the four class tests in their order.
  - `PolicyCheck(s, minLen)` is the chain the views run inline, with the bounds [8, 20].
  - `ValidatePassword` is the helper as written, with its separate `< 6` and `> 20` tests.
  - All are proved against a reference definition, `MeetsPolicy`, and against the first-failure order: length, digit, lowercase, uppercase, special.
- `Decimal` (`decimal.dfy`): `str(n)` for the random OTP integer, with its inverse and both round trips.
- `Fields` (`fields.dfy`): how the REST framework fields that the model serializers generate read a value.
  - `Strip` is `str.strip()`, which character fields apply before validating and saving.
  - `ParseBoolean` is the boolean field's reading of a string.
- `Models` (`models.dfy`): the records and the database guarantees the views depend on.
  - `Customer`, `OtpRecord`, `Db` and the invariant `WellFormed`: ids follow insertion order, `email` and `mobile_no` are unique over all rows, and every OTP row names an existing customer.
  - `GetActive` models Django's `get(email=..., is_deleted=False)` with its three outcomes.
  - `LatestOtp` models `.filter(customer_id=...).last()`.
  - `OtpFresh` models the two-minute window.
- `Views` (`views.dfy`): each endpoint appears twice.
  - As a pure function from the store and `request.data` to the response and the new store. Its contract states the decision order, the frame and the success state.
  - As a method of the class `Store`, whose fields are the customer table, the OTP table and the mail outbox. The method carries out the same steps on those fields and is proved equal to the function.
  - `ForgotPasswordPatch` also deletes and sets keys of `Request.data`, as the view does with `request.data`.
  - The serializers' validation is modelled where the models determine it: `RegistrationSerializerValid`, `OtpSerializerValid` and `ResetSerializerValid`.
- `Flows` (`flows.dfy`): properties across calls.
  - Registering and then logging in succeeds, unless the request registered the customer as deleted.
  - A password that meets the policy only because of surrounding whitespace is stored shorter and fails the policy, at registration and at reset.
  - An issued OTP becomes the current one.
  - Issuing an OTP, resetting the password with it and logging in succeeds, and any other password is refused. A new password holding a NUL character makes the reset view return None instead.
  - A superseded OTP code is refused.
  - A correct but expired code is refused.
  - A soft-deleted customer's email cannot be registered again.

Inputs that the handlers get from outside are parameters:

- the clock: `now`, in whole seconds
- the random code: `code`, required to be in [1000, 9999] as `random.randint(1000, 9999)` guarantees
- the registration serializer's validation that `models.py` does not determine (the email format, the date of birth and the credit): `accepts`
- whether the mail transport raised: `mailOk`

Every character field of the three serializers rejects a value that is blank once trimmed, and one
that holds a NUL character; both rules are modelled explicitly. The OTP and reset serializers need no
parameter: their rules follow from the models.

- `Views.OtpSerializerAccepts` proves that OTP issuance always hands its serializer valid data, so the BAD_REQUEST branch at views.py:117-118 is never taken.
- `Views.ResetSerializerAfterPolicy` proves that, once the new password has passed the policy, the reset serializer rejects it exactly when it holds a NUL character. In that case alone the view falls through the `if` at views.py:168 and returns None.

Where the intended design of the service and its code disagree, the model follows the code:

- `validate_password` accepts 6 and 7 characters. Only the views use [8, 20].
- The views check the password as sent, but the serializer stores it with surrounding whitespace removed. The same holds for the username, the email and the mobile number. The serializer's non-blank, length and unique rules apply to the trimmed values.
- `is_deleted` is among the registration serializer's fields (`fields = "__all__"`). A request can therefore register a customer who is already soft-deleted. A value that is not one of the boolean field's strings is a validation error.
- The catch-all handlers of the OTP and reset views call `traceback.print_exc(e)`. That passes the exception as the `limit` argument, and comparing it with 0 raises TypeError. Those two views therefore end in an uncaught error (`UncaughtTypeError`) instead of the generic error. This happens when the mail transport fails, when a reset request lacks a field, and when a reset finds no customer or no OTP row.
- A new password that meets the policy but holds a NUL character passes every check of the reset view, and the serializer then rejects it. The view has no `else` for that test, so it returns None and writes nothing (`ReturnedNone`).
- An email held only by a soft-deleted customer passes the views' own uniqueness check. The model
  serializer's unique validator still rejects it, because the email column is unique over all rows
  (`models.py:12`). The email is therefore not reusable, and `Flows.SoftDeletedEmailIsNotReusable` proves it.
- Passwords are stored and compared in plaintext, as the code does.

## Model

| member | source | states |
|---|---|---|
| `Policy.Search` | EatElite/ee_customers/views.py:36-42 | `re.search` with a character class returns the leftmost position holding a character of the class, and returns None exactly when no character of the string is in the class |
| `Policy.ClassCheck` | EatElite/ee_customers/views.py:36-43 | the four class tests accept exactly the strings that contain a digit, a lowercase letter, an uppercase letter and one of `$#@!*`; otherwise they report the first absent class in the order digit, lowercase, uppercase, special (each as an if-and-only-if), and never the length message |
| `Policy.PolicyCheck` | EatElite/ee_customers/views.py:34-43 | the inline chain accepts exactly the passwords with length in [minLen, 20] that contain a digit, a lowercase letter, an uppercase letter and one of `$#@!*`; otherwise it reports the first failing rule in the order length, digit, lowercase, uppercase, special (each as an if-and-only-if) |
| `Policy.ValidatePassword` | EatElite/common/helpers.py:29-44 | `validate_password` returns True iff the length is in [6, 20] and all four classes occur; too short and too long both give the LENGTH message; otherwise it reports the first failing class in the same order |
| `Policy.HelperAgreesWithViews` | EatElite/common/helpers.py:31 | the helper and the inline chain of the views give the same outcome on every string whose length is not 6 or 7; on lengths 6 and 7 the views report LENGTH while the helper goes on to the class tests |
| `Policy.HelperAcceptsSixCharacters` | EatElite/common/helpers.py:31-32 | the six-character password `Abc1!x` is accepted by the helper, whose length message says 8 to 20, and refused with LENGTH by the views |
| `Decimal.DecimalString` | EatElite/ee_customers/views.py:104 | `str(n)` is a non-empty string of decimal digits with no leading zero |
| `Decimal.DecimalRoundTrip` | EatElite/ee_customers/views.py:104 | reading back the rendered OTP gives the number drawn: `int(str(n)) == n` |
| `Decimal.NumeralRoundTrip` | EatElite/ee_customers/views.py:104 | a digit string without a leading zero is the rendering of its own value: `str(int(s)) == s` |
| `Decimal.DecimalStringInjective` | EatElite/ee_customers/views.py:104 | different drawn numbers give different OTP codes |
| `Decimal.FourDigitCode` | EatElite/ee_customers/views.py:104 | every number in [1000, 9999] renders to exactly four digits with a non-zero first digit |
| `Fields.Strip` | EatElite/ee_customers/models.py:10-15 | the value a character field keeps is the slice of the input between its leading and trailing whitespace: everything before and after it is whitespace, it has no whitespace at either end, it is empty exactly when the input is all whitespace, and an input without surrounding whitespace is kept as it is |
| `Fields.StripKeepsVisible` | EatElite/ee_customers/models.py:10-15 | trimming removes only whitespace: a character that is not whitespace, such as NUL, occurs in the trimmed value iff it occurs in the input |
| `Fields.StripIdempotent` | EatElite/ee_customers/models.py:10-15 | trimming a trimmed value changes nothing |
| `Fields.ParseBoolean` | EatElite/common/models.py:10 | the boolean field reads exactly its fourteen true strings as true and its fourteen false strings as false, and rejects every other string |
| `Models.WellFormed` | EatElite/ee_customers/models.py:9-15 | the database guarantees: ids in insertion order from 1, email unique over all rows, mobile number unique where present, every OTP row naming an existing customer; its contract adds that no two customers share a primary key |
| `Models.ActiveIndices` | EatElite/ee_customers/views.py:45-46 | the positions, in increasing order, of exactly the non-deleted customers with the email |
| `Models.GetActive` | EatElite/ee_customers/views.py:79 | `get(email=..., is_deleted=False)` raises DoesNotExist iff no active customer has the email; it finds row k iff k is the only active customer with the email; it raises MultipleObjectsReturned iff two active customers share the email |
| `Models.GetActiveNeverMultiple` | EatElite/ee_customers/models.py:12 | the unique index on email rules out MultipleObjectsReturned |
| `Models.LatestOtp` | EatElite/ee_customers/views.py:147 | `.last()` gives the customer's OTP row with the highest primary key: every later row belongs to another customer; it gives None iff the customer has no OTP row |
| `Models.LatestOtpAfterAppend` | EatElite/ee_customers/views.py:114 | appending an OTP row makes it its customer's latest and leaves every other customer's latest unchanged |
| `Models.OtpFresh` | EatElite/ee_customers/views.py:150 | in whole seconds, an OTP passes the two-minute test exactly up to 119 seconds after its creation |
| `Views.DeletedFlag` | EatElite/common/models.py:10 | `is_deleted` reads as true iff it was sent as one of the true strings; it is a validation error iff it was sent as a string that is neither true nor false; when absent the default, false, applies |
| `Views.NewCustomer` | EatElite/ee_customers/views.py:55 | the row `save()` inserts gets the next id, a trimmed username, email, password and mobile number, and is soft-deleted iff `is_deleted` was sent as true |
| `Views.RegistrationSerializerValid` | EatElite/ee_customers/serializers.py:5-8 | when the serializer accepts, username, email and password are present, their stored forms are not blank and hold no NUL character, and the stored email and mobile number are held by no row, deleted or not |
| `Views.Registration` | EatElite/ee_customers/views.py:25-66 | when a password is sent, the policy chain runs first and its first failure is returned. EMAIL_ALREADY_EXISTS holds iff the password passed and an active customer holds the email as sent. MOBILE_NO_ALREADY_EXISTS holds iff, after those, `mobile_no` was supplied and is held by an active customer. A serializer rejection comes next. Every failure leaves the store unchanged. Success holds iff all of these passed and the serializer accepted. Success appends exactly one row: the next id, the trimmed username, email and password, the trimmed mobile number if one was sent, and the `is_deleted` flag as sent. The password as sent met the policy. OTPs and mail are untouched, and the response carries the new row's tokens |
| `Views.RegistrationKeepsWellFormed` | EatElite/ee_customers/models.py:9-15 | registration keeps ids sequential and email and mobile number unique over all rows |
| `Views.InsertKeepsWellFormed` | EatElite/ee_customers/views.py:55 | inserting a row with the next id and an email and mobile number that no row holds keeps the invariant |
| `Views.StoredPasswordCheck` | EatElite/ee_customers/views.py:34-43 | the intended password check, applied to the password as it will be stored: it admits exactly the passwords whose trimmed form meets the policy, and agrees with the inline chain on every password without surrounding whitespace |
| `Views.Login` | EatElite/ee_customers/views.py:71-93 | a missing or empty email or password gives BAD_REQUEST; otherwise no active customer with the email gives WRONG_EMAIL; the only active customer having a different password gives INCORRECT_PASSWORD; success holds iff that customer's stored password equals the one sent, and returns its tokens |
| `Views.Store.LoginPost` | EatElite/ee_customers/views.py:71-93 | the imperative handler returns the response `Views.Login` specifies and has no modifies clause, so it never changes the store |
| `Views.OtpSerializerValid` | EatElite/ee_customers/serializers.py:11-14 | the OTP serializer accepts iff `customer_id` names an existing customer, deleted or not, and the code as sent holds a character that is not whitespace, holds no NUL character, and has at most 255 characters once trimmed |
| `Views.OtpSerializerAccepts` | EatElite/ee_customers/views.py:107-118 | the OTP serializer accepts every row the view builds, because the customer exists and the four-digit code is not blank, holds no NUL and is shorter than 255 characters; the code is stored unchanged, so the BAD_REQUEST branch is never taken |
| `Views.OtpVerification` | EatElite/ee_customers/views.py:97-125 | a missing or empty email gives BAD_REQUEST; an unknown or soft-deleted email gives WRONG_EMAIL. Several active rows, or a failing mail transport after the customer was found, end in the uncaught TypeError of the catch-all. Customers never change and earlier OTP rows are kept. A row is appended exactly when the customer is found. That row belongs to the customer, its code is the four-digit numeral of the drawn number, and it is stamped with `now`. Success holds iff that row was appended and the mail went out, and the mail carries the code to that email. Only success sends mail |
| `Views.OtpVerificationKeepsWellFormed` | EatElite/ee_customers/models.py:26 | every OTP row still refers to an existing customer after issuance |
| `Views.OtpAppendKeepsWellFormed` | EatElite/ee_customers/views.py:114 | appending an OTP row that names an existing customer, with the customers unchanged, keeps the invariant |
| `Views.OtpVerificationIntended` | EatElite/ee_customers/views.py:123-125 | with a catch-all that answers the generic error, the view never raises, answers the generic error exactly where the view as written raises, and writes the same tables |
| `Views.CurrentOtp` | EatElite/ee_customers/views.py:146-147 | the current OTP is the latest row of the only active customer with the email; there is none iff no such customer has an OTP row |
| `Views.ResetRequestDataKeys` | EatElite/ee_customers/views.py:140-166 | the view leaves `request.data` without the four fields and with every other key as sent, except `password`, which holds the new password once the view has reached line 166 |
| `Views.ResetSerializerValid` | EatElite/ee_customers/serializers.py:17-20 | the reset serializer accepts iff `password` is present, holds a character that is not whitespace, and holds no NUL character |
| `Views.ResetSerializerAfterPolicy` | EatElite/ee_customers/views.py:166-169 | once the new password has passed the policy, the data the reset serializer sees has that password, and the serializer accepts it iff it holds no NUL character |
| `Views.PolicyPasswordIsNotBlank` | EatElite/ee_customers/views.py:155-164 | a password the chain accepts contains a digit, so it is not blank once trimmed |
| `Views.ForgotPassword` | EatElite/ee_customers/views.py:130-179 | a missing field ends in the uncaught error and changes nothing; success requires that the current OTP was fresh and matched, that the new password equalled its confirmation and met the [8, 20] policy, and that it holds no NUL character; only success writes, and it overwrites exactly the password of the only active customer with the email, with the trimmed new password |
| `Views.ForgotPasswordDecisionOrder` | EatElite/ee_customers/views.py:132-179 | the reset view's outcomes in their order, each as an if-and-only-if: a missing field or customer ends in the uncaught error; NEW_PASSWORD_DOESNT_MATCH comes before any OTP is inspected; a missing OTP row ends in the uncaught error; OTP_EXPIRED when the current OTP is 120 s old or more, whatever code was sent; OTP_DOESNT_MATCH when the code differs from the current OTP; then the policy's first failure; then None when the new password holds a NUL character, which the serializer rejects; success exactly when all of these pass |
| `Views.ForgotPasswordLateOutcomes` | EatElite/ee_customers/views.py:153-170 | once the code is accepted, a password failing the policy gets the chain's first failure, a policy-meeting one holding NUL gets None, and any other succeeds; None and the policy messages occur only after the code was accepted |
| `Views.ForgotPasswordKeepsWellFormed` | EatElite/ee_customers/views.py:169 | a password reset keeps the store's invariant |
| `Views.PasswordWriteKeepsWellFormed` | EatElite/ee_customers/views.py:169 | overwriting one customer's password keeps the invariant |
| `Views.ForgotPasswordIntended` | EatElite/ee_customers/views.py:177-179 | with a catch-all that answers the generic error, the view never raises; it answers the generic error exactly for a missing field or customer, or for a missing OTP row once the passwords agree, and writes the same tables |
| `Views.Store.RegistrationPost` | EatElite/ee_customers/views.py:25-66 | the in-place handler keeps the store invariant, and its response and new tables are those of `Views.Registration` |
| `Views.Store.OtpVerificationPost` | EatElite/ee_customers/views.py:97-125 | the in-place handler keeps the store invariant, and its response and new tables are those of `Views.OtpVerification` |
| `Views.Store.ForgotPasswordPatch` | EatElite/ee_customers/views.py:130-179 | the in-place handler keeps the invariant; its response and tables are those of `Views.ForgotPassword`; `request.data` is unchanged when a field is missing, and otherwise loses the four fields and gains `password` exactly when the view reached line 166, that is on success and on the serializer's rejection |
| `Flows.RegisterThenLogin` | EatElite/ee_customers/views.py:55-59 | after a successful registration that did not send `is_deleted` as true, a login with the email and password as stored (trimmed) succeeds and returns the tokens of the new customer |
| `Flows.RegisteredAsDeletedCannotLogin` | EatElite/ee_customers/serializers.py:8 | a registration that sends `is_deleted` as true succeeds and returns tokens, yet every later login with that email gets WRONG_EMAIL |
| `Flows.PaddedPasswordIsStoredShort` | EatElite/ee_customers/views.py:34-55 | `Abcde1! ` passes the views' policy chain and registers, but the stored password is `Abcde1!`, which fails the policy, and a login with the password as sent gets INCORRECT_PASSWORD |
| `Flows.SentPasswordRefusedOnceTrimmed` | EatElite/ee_customers/views.py:81 | after registering with a password that has surrounding whitespace, a login with the password as sent gets INCORRECT_PASSWORD |
| `Flows.SoftDeletedEmailIsNotReusable` | EatElite/ee_customers/views.py:45-53 | an email held only by a soft-deleted customer is not reported as EMAIL_ALREADY_EXISTS, but the registration serializer rejects it |
| `Flows.IssuedOtpIsCurrent` | EatElite/ee_customers/views.py:104-114 | right after an OTP is issued, the customer's current OTP is the appended row, with the four-digit code and `now`, whether or not the mail then went out |
| `Flows.IssuedCodeResets` | EatElite/ee_customers/views.py:146-170 | a reset with a freshly issued code and matching policy-meeting passwords without NUL characters succeeds and writes the trimmed new password of the customer with the email |
| `Flows.ResetThenLogin` | EatElite/ee_customers/views.py:149-170 | issuing an OTP and then resetting with its code inside two minutes, with matching policy-meeting passwords without NUL characters, succeeds. A login with the new password as stored then succeeds, and a login with any other non-empty password, the old one included, gets INCORRECT_PASSWORD |
| `Flows.NullPasswordResetReturnsNone` | EatElite/ee_customers/views.py:166-168 | the same reset with a policy-meeting new password holding a NUL character returns None and leaves the store as it was |
| `Flows.PaddedResetIsStoredShort` | EatElite/ee_customers/views.py:155-169 | a reset with `Abcde1! ` succeeds, and the customer's stored password becomes `Abcde1!`, which fails the policy |
| `Flows.LoginAfterPasswordWrite` | EatElite/ee_customers/views.py:79-87 | once the only active customer with an email has a new password, login with that password succeeds and login with any other non-empty password gets INCORRECT_PASSWORD |
| `Flows.SupersededOtpIsRefused` | EatElite/ee_customers/views.py:147-152 | after a second OTP is issued, the first code gets OTP_DOESNT_MATCH while the second is fresh, even inside the first code's own window |
| `Flows.ExpiredOtpIsRefusedEvenIfCorrect` | EatElite/ee_customers/views.py:150 | the correct code presented 120 s or more after issuance gets OTP_EXPIRED |

## Left out

- Mail transport (`send_mail`, helpers.py:18-26): it is I/O. It is modelled only as an entry appended to the outbox, and its failure is a boolean parameter.
- Token minting and persistence (`get_authentication_tokens`, `save_customer_auth_tokens`): their code is not part of this model. A token pair is an opaque value naming its customer, and the token table is not modelled.
- `random.randint` and `timezone.now()` are parameters. Time is in whole seconds, so sub-second `timedelta` precision is not modelled.
- Serializer validation that `models.py` does not determine (email format, date of birth, credit): it is the boolean `accepts`. The registration serializer's required, non-blank, maximum-length, boolean and unique-field rules are modelled explicitly.
- The string sets the boolean field reads as true and false are those of current REST framework releases. The non-string values it also accepts are not modelled, because requests are modelled as maps of strings.
- How the validation error raised by `is_valid(raise_exception=True)` (views.py:53) is rendered is not modelled: `exceptions.generic` is not part of this model. It is the response `SerializerRejected`.
- How Django renders an exception that escapes a view (an HTTP 500 response, or a debug page) is not modelled. It is the response `UncaughtTypeError`. The failed check of the framework when a view returns None is likewise the response `ReturnedNone`.
- The character fields' rejection of surrogate code points is not modelled: a Dafny `char` cannot hold one.
- Requests are assumed not to run in a database transaction (`ATOMIC_REQUESTS` off, Django's default). So the OTP row saved at views.py:114 stays when the mail then raises.
- `request.data` values that are not strings (JSON null, numbers) are not modelled: requests are maps from strings to strings. In particular a numeric `otp` would never equal the stored string.
- A form-encoded request is not modelled: there `request.data` is immutable and the `del` at views.py:140 raises.
- Fields not modelled: date of birth, credit, `updated_at`, the customers' `created_at` and the OTP primary key. OTP rows are kept in primary-key order instead.
- Customer ids are modelled as positions 1, 2, 3, and so on. A real `BigAutoField` may leave gaps.
- HTTP status codes, URL routing and the re-raise of `BadRequest` at views.py:62-63 are not modelled.
- Concurrency and races on the unique indexes are not modelled: the model is sequential.
- Password hashing is not modelled: the code compares plaintext, and so does the model.

## Findings

| source | as written | input that shows it | evidently intended | confidence | as-written member | corrected member |
|---|---|---|---|---|---|---|
| EatElite/common/helpers.py:31-32 | `validate_password` rejects only passwords shorter than 6, yet the message it returns is PASSWORD_LENGTH_SHOULD_BE_BETWEEN_8_TO_20 | `Abc1!x` (6 characters) is accepted by the helper and refused by the views | lower bound 8, as the message and the views (views.py:34, 155) say | medium, not executed | `Policy.HelperAcceptsSixCharacters` | `Policy.PolicyCheck` |
| EatElite/ee_customers/views.py:34-55 | the policy is checked on the password as sent, but the serializer stores it trimmed | `Abcde1! ` passes the check, and the stored `Abcde1!` has 7 characters | every stored password meets the policy, so the check applies to the trimmed password | medium, not executed | `Flows.PaddedPasswordIsStoredShort` | `Views.StoredPasswordCheck` |
| EatElite/ee_customers/views.py:155-169 | the reset checks the new password as sent, but `update` stores it trimmed | `Abcde1! ` with a fresh, matching code is accepted, and `Abcde1!` (7 characters) is stored | every stored password meets the policy, so the check applies to the trimmed password | medium, not executed | `Flows.PaddedResetIsStoredShort` | `Views.StoredPasswordCheck` |
| EatElite/ee_customers/views.py:123-125 | `traceback.print_exc(e)` passes the exception as `limit`, so the catch-all raises TypeError instead of answering | an OTP request for an existing customer while the mail transport fails | the catch-all logs the traceback and answers the generic error, as registration and login do | high, not executed | `Views.OtpVerification` | `Views.OtpVerificationIntended` |
| EatElite/ee_customers/views.py:177-179 | the same `traceback.print_exc(e)` call in the reset view | a reset request without `otp` | a missing field, customer or OTP row answers the generic error | high, not executed | `Views.ForgotPassword` | `Views.ForgotPasswordIntended` |
