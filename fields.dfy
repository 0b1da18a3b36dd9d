/**
 * How the serializers of the customer views read a string field before
 * validating and saving it.  A model serializer maps `CharField`,
 * `TextField` and `EmailField` columns to REST framework character fields,
 * which trim surrounding whitespace (`str.strip()`), and treat a value that
 * is empty after trimming as blank; it maps `BooleanField` columns to a
 * field that reads a fixed set of strings as true or false.
 */
module Fields {
  import opened Wrappers
  import opened Decimal

  /** Python's `str.isspace` for one character. */
  predicate IsWhitespace(c: char) {
    || c == ' ' || '\t' <= c <= '\r' || '\U{1C}' <= c <= '\U{1F}'
    || c == '\U{85}' || c == '\U{A0}' || c == '\U{1680}' || '\U{2000}' <= c <= '\U{200A}'
    || c == '\U{2028}' || c == '\U{2029}' || c == '\U{202F}' || c == '\U{205F}' || c == '\U{3000}'
  }

  /** The string has no whitespace at either end. */
  predicate Trimmed(s: string) {
    s == [] || (!IsWhitespace(s[0]) && !IsWhitespace(s[|s| - 1]))
  }

  /** Every character is whitespace: the value is blank once trimmed. */
  predicate AllWhitespace(s: string) {
    forall i :: 0 <= i < |s| ==> IsWhitespace(s[i])
  }

  /** The number of whitespace characters that open the string. */
  function LeadingWhitespace(s: string): (n: nat)
    ensures n <= |s|
    ensures forall i :: 0 <= i < n ==> IsWhitespace(s[i])
    ensures n < |s| ==> !IsWhitespace(s[n])
  {
    if s == [] || !IsWhitespace(s[0]) then 0 else 1 + LeadingWhitespace(s[1..])
  }

  /** The number of whitespace characters that close the string. */
  function TrailingWhitespace(s: string): (n: nat)
    ensures n <= |s|
    ensures forall i :: |s| - n <= i < |s| ==> IsWhitespace(s[i])
    ensures n < |s| ==> !IsWhitespace(s[|s| - 1 - n])
  {
    if s == [] || !IsWhitespace(s[|s| - 1]) then 0 else 1 + TrailingWhitespace(s[..|s| - 1])
  }

  /**
   * `s.strip()`: the slice of s between its leading and its trailing
   * whitespace.  It is empty exactly when s is all whitespace, it has no
   * whitespace at either end, and it is s itself when s has none there.
   */
  function Strip(s: string): (r: string)
    ensures |r| <= |s|
    ensures r == [] <==> AllWhitespace(s)
    ensures Trimmed(r)
    ensures Trimmed(s) ==> r == s
    ensures LeadingWhitespace(s) + |r| <= |s| && r == s[LeadingWhitespace(s)..LeadingWhitespace(s) + |r|]
    ensures forall i :: LeadingWhitespace(s) + |r| <= i < |s| ==> IsWhitespace(s[i])
  {
    var lead := LeadingWhitespace(s);
    if lead == |s| then []
    else
      var trail := TrailingWhitespace(s);
      assert trail < |s| - lead;
      assert !AllWhitespace(s) by {
        assert !IsWhitespace(s[lead]);
      }
      s[lead..|s| - trail]
  }

  /** Trimming twice is trimming once. */
  lemma StripIdempotent(s: string)
    ensures Strip(Strip(s)) == Strip(s)
  {
  }

  /** Trimming removes whitespace only: every other character occurs in the trimmed value iff it occurs in the input. */
  lemma StripKeepsVisible(s: string, c: char)
    requires !IsWhitespace(c)
    ensures c in Strip(s) <==> c in s
  {
    var r := Strip(s);
    var lead := LeadingWhitespace(s);
    if c in s {
      var i :| 0 <= i < |s| && s[i] == c;
      assert lead <= i < lead + |r|;
      assert r[i - lead] == c;
    }
  }

  /** A string holding a character that is not whitespace is not blank. */
  lemma {:induction false} NotBlankWhenSomeCharIsNot(s: string, i: nat)
    requires i < |s| && !IsWhitespace(s[i])
    ensures Strip(s) != []
  {
    assert !AllWhitespace(s);
  }

  /** A numeral has no surrounding whitespace, so trimming keeps it. */
  lemma DigitsAreTrimmed(s: string)
    requires AllDigits(s)
    ensures Strip(s) == s
  {
    if s != [] {
      assert IsDigit(s[0]) && IsDigit(s[|s| - 1]);
    }
  }

  /** The strings the boolean field reads as true. */
  const TrueValues: set<string> :=
    {"t", "T", "y", "Y", "yes", "Yes", "YES", "true", "True", "TRUE", "on", "On", "ON", "1"}

  /** The strings the boolean field reads as false. */
  const FalseValues: set<string> :=
    {"f", "F", "n", "N", "no", "No", "NO", "false", "False", "FALSE", "off", "Off", "OFF", "0"}

  /** The boolean field's reading of a string; None is the field's "must be a valid boolean" error. */
  function ParseBoolean(s: string): (b: Option<bool>)
    ensures b == Some(true) <==> s in TrueValues
    ensures b == Some(false) <==> s in FalseValues
    ensures b.None? <==> s !in TrueValues && s !in FalseValues
  {
    if s in TrueValues then Some(true)
    else if s in FalseValues then Some(false)
    else None
  }
}
