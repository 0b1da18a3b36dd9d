/**
 * The password-composition policy of the customer views.
 *
 * The views check a candidate password with an if/elif chain of regular
 * expression searches in which the first failing rule wins: the length, then
 * `[0-9]`, `[a-z]`, `[A-Z]` and finally the special set `[$#@!*]`.  The same
 * chain appears inline twice in ee_customers/views.py with the bounds [8, 20],
 * and once more as `validate_password` in common/helpers.py, where the lower
 * bound is 6 although the message it returns speaks of 8 to 20.
 */
module Policy {
  import opened Wrappers

  const MaxLength: nat := 20
  /** Lower bound of the two inline chains in the views. */
  const ViewMinLength: nat := 8
  /** Lower bound of `validate_password` in the helpers. */
  const HelperMinLength: nat := 6

  /** The four character classes the chain searches for. */
  datatype CharClass = Digit | Lower | Upper | Special

  /** Which rule rejected the password; each one has its own message constant. */
  datatype Violation =
    | Length            // PASSWORD_LENGTH_SHOULD_BE_BETWEEN_8_TO_20
    | Number            // PASSWORD_MUST_HAVE_ONE_NUMBER
    | SmallerCase       // PASSWORD_MUST_HAVE_ONE_SMALLERCASE_LETTER
    | UpperCase         // PASSWORD_MUST_HAVE_ONE_UPPERCASE_LETTER
    | SpecialCharacter  // PASSWORD_MUST_HAVE_ONE_SPECIAL_CHARACTER

  /** What `validate_password` returns: `True`, or a bad-request response carrying the rule's message. */
  datatype Verdict = Accepted | Refused(violation: Violation)

  /** Membership in the regex character classes; the ranges are ASCII ranges. */
  predicate InClass(c: char, k: CharClass) {
    match k
    case Digit => '0' <= c <= '9'
    case Lower => 'a' <= c <= 'z'
    case Upper => 'A' <= c <= 'Z'
    case Special => c == '$' || c == '#' || c == '@' || c == '!' || c == '*'
  }

  /** Reference meaning of "the string contains a character of class k". */
  predicate Contains(s: string, k: CharClass) {
    exists i :: 0 <= i < |s| && InClass(s[i], k)
  }

  /**
   * `re.search` with a one-character class: the position of the leftmost
   * match, or None when no character of the string is in the class.
   */
  function Search(s: string, k: CharClass): (m: Option<nat>)
    ensures m.Some? ==> m.value < |s| && InClass(s[m.value], k)
    ensures m.Some? ==> forall j :: 0 <= j < m.value ==> !InClass(s[j], k)
    ensures m.None? <==> !Contains(s, k)
  {
    if s == [] then None
    else if InClass(s[0], k) then Some(0)
    else
      match Search(s[1..], k)
      case None => None
      case Some(i) => Some(i + 1)
  }

  /** The four class tests of the chain, in source order; the first absent class wins. */
  function ClassCheck(s: string): (v: Option<Violation>)
    ensures v.None? <==> Contains(s, Digit) && Contains(s, Lower) && Contains(s, Upper) && Contains(s, Special)
    ensures v != Some(Length)
    ensures v == Some(Number) <==> !Contains(s, Digit)
    ensures v == Some(SmallerCase) <==> Contains(s, Digit) && !Contains(s, Lower)
    ensures v == Some(UpperCase) <==> Contains(s, Digit) && Contains(s, Lower) && !Contains(s, Upper)
    ensures v == Some(SpecialCharacter) <==>
      Contains(s, Digit) && Contains(s, Lower) && Contains(s, Upper) && !Contains(s, Special)
  {
    if Search(s, Digit).None? then Some(Number)
    else if Search(s, Lower).None? then Some(SmallerCase)
    else if Search(s, Upper).None? then Some(UpperCase)
    else if Search(s, Special).None? then Some(SpecialCharacter)
    else None
  }

  predicate LengthWithin(s: string, minLen: nat) {
    minLen <= |s| <= MaxLength
  }

  /** Reference definition of an acceptable password: every rule holds. */
  predicate MeetsPolicy(s: string, minLen: nat) {
    LengthWithin(s, minLen) && Contains(s, Digit) && Contains(s, Lower)
    && Contains(s, Upper) && Contains(s, Special)
  }

  /**
   * The inline chain of the views (with minLen 8).  The contract says that
   * the chain accepts exactly the passwords meeting every rule, and that the
   * violation it reports is the first failing rule in the order
   * length, digit, lowercase, uppercase, special.
   */
  function PolicyCheck(s: string, minLen: nat): (v: Option<Violation>)
    ensures v.None? <==> MeetsPolicy(s, minLen)
    ensures v == Some(Length) <==> !LengthWithin(s, minLen)
    ensures v == Some(Number) <==> LengthWithin(s, minLen) && !Contains(s, Digit)
    ensures v == Some(SmallerCase) <==>
      LengthWithin(s, minLen) && Contains(s, Digit) && !Contains(s, Lower)
    ensures v == Some(UpperCase) <==>
      LengthWithin(s, minLen) && Contains(s, Digit) && Contains(s, Lower) && !Contains(s, Upper)
    ensures v == Some(SpecialCharacter) <==>
      LengthWithin(s, minLen) && Contains(s, Digit) && Contains(s, Lower) && Contains(s, Upper)
      && !Contains(s, Special)
  {
    if |s| < minLen || |s| > MaxLength then Some(Length) else ClassCheck(s)
  }

  /**
   * `validate_password` as written: two separate length tests, both mapped
   * to the same LENGTH message, followed by the class chain.
   */
  function ValidatePassword(s: string): (r: Verdict)
    ensures r == Accepted <==> MeetsPolicy(s, HelperMinLength)
    ensures |s| < HelperMinLength ==> r == Refused(Length)
    ensures |s| > MaxLength ==> r == Refused(Length)
    ensures r == Refused(Number) <==> LengthWithin(s, HelperMinLength) && !Contains(s, Digit)
    ensures r == Refused(SmallerCase) <==>
      LengthWithin(s, HelperMinLength) && Contains(s, Digit) && !Contains(s, Lower)
    ensures r == Refused(UpperCase) <==>
      LengthWithin(s, HelperMinLength) && Contains(s, Digit) && Contains(s, Lower) && !Contains(s, Upper)
    ensures r == Refused(SpecialCharacter) <==>
      LengthWithin(s, HelperMinLength) && Contains(s, Digit) && Contains(s, Lower) && Contains(s, Upper)
      && !Contains(s, Special)
  {
    if |s| < HelperMinLength then Refused(Length)
    else if |s| > MaxLength then Refused(Length)
    else
      match ClassCheck(s)
      case None => Accepted
      case Some(v) => Refused(v)
  }

  function ToVerdict(v: Option<Violation>): Verdict {
    match v
    case None => Accepted
    case Some(w) => Refused(w)
  }

  /**
   * The helper and the inline chain of the views agree on every password
   * whose length is neither 6 nor 7.  On those two lengths the views report
   * LENGTH while the helper goes on to the class tests.
   */
  lemma HelperAgreesWithViews(s: string)
    ensures |s| != 6 && |s| != 7 ==> ValidatePassword(s) == ToVerdict(PolicyCheck(s, ViewMinLength))
    ensures |s| == 6 || |s| == 7 ==>
      PolicyCheck(s, ViewMinLength) == Some(Length) && ValidatePassword(s) == ToVerdict(ClassCheck(s))
  {
  }

  /**
   * A six-character password that the helper accepts although the message
   * of its own length rule says "between 8 to 20"; the views reject it.
   */
  lemma HelperAcceptsSixCharacters()
    ensures ValidatePassword("Abc1!x") == Accepted
    ensures PolicyCheck("Abc1!x", ViewMinLength) == Some(Length)
  {
    var s := "Abc1!x";
    assert InClass(s[3], Digit) && InClass(s[1], Lower) && InClass(s[0], Upper) && InClass(s[4], Special);
  }
}
