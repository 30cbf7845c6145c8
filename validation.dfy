/**
 * app/utils/validation.ts: per-field checks of a value, chosen from the
 * field's name. Every check accepts the empty value; a rejected value always
 * carries a message.
 */
module Validation {
  import opened Wrappers
  import opened Text
  import Formatting

  /** `{ isValid, error? }`. */
  datatype ValidationResult = ValidationResult(isValid: bool, error: Option<string>)

  const Valid := ValidationResult(true, None)

  function Invalid(message: string): (r: ValidationResult)
    ensures !r.isValid && r.error == Some(message)
  {
    ValidationResult(false, Some(message))
  }

  const EmailError := "Invalid email format"
  const PhoneError := "Phone number must be 10-11 digits"
  const ZipError := "ZIP code must be 5 or 9 digits"

  // ---------------------------------------------------------------------------
  // E-mail addresses

  /** A character of the class `[^\s@]`. */
  predicate Plain(c: char) {
    !IsSpace(c) && c != '@'
  }

  /** Every character of `s[i..j]` is in `[^\s@]`. */
  predicate PlainRange(s: string, i: int, j: int) {
    forall k :: i <= k < j && 0 <= k < |s| ==> Plain(s[k])
  }

  /**
   * `/^[^\s@]+@[^\s@]+\.[^\s@]+$/.test(s)`: the text splits at an `@` at `a`
   * and a `.` at `b` into three non-empty runs of `[^\s@]`.
   */
  predicate EmailRegex(s: string) {
    exists a, b :: 0 < a < |s| && a + 1 < b < |s| - 1
      && s[a] == '@' && s[b] == '.'
      && PlainRange(s, 0, a) && PlainRange(s, a + 1, b) && PlainRange(s, b + 1, |s|)
  }

  /** The only `@` of `s` is at `a`. */
  predicate OnlyAtSignAt(s: string, a: int) {
    0 <= a < |s| && s[a] == '@' && forall k :: 0 <= k < |s| && k != a ==> s[k] != '@'
  }

  /**
   * A well-formed address in plain words: no whitespace; exactly one `@`, with
   * something before it; after it a `.` that is neither the first nor the last
   * character of the part after the `@`.
   */
  predicate EmailShape(s: string) {
    (forall k :: 0 <= k < |s| ==> !IsSpace(s[k]))
    && (exists a :: 0 < a < |s| && OnlyAtSignAt(s, a)
          && exists b :: a + 1 < b < |s| - 1 && s[b] == '.')
  }

  lemma RegexShape(s: string, a: int, b: int)
    requires 0 < a < |s| && a + 1 < b < |s| - 1
    requires s[a] == '@' && s[b] == '.'
    requires PlainRange(s, 0, a) && PlainRange(s, a + 1, b) && PlainRange(s, b + 1, |s|)
    ensures EmailShape(s)
  {
    forall k | 0 <= k < |s| ensures !IsSpace(s[k]) && (k != a ==> s[k] != '@') {
      if k < a {
      } else if k == a || k == b {
      } else if k < b {
      } else {
      }
    }
    assert OnlyAtSignAt(s, a);
  }

  lemma ShapeRegex(s: string, a: int, b: int)
    requires (forall k :: 0 <= k < |s| ==> !IsSpace(s[k]))
    requires 0 < a < |s| && OnlyAtSignAt(s, a)
    requires a + 1 < b < |s| - 1 && s[b] == '.'
    ensures EmailRegex(s)
  {
    assert PlainRange(s, 0, a) && PlainRange(s, a + 1, b) && PlainRange(s, b + 1, |s|);
  }

  /** The regular expression accepts exactly the well-formed addresses. */
  lemma EmailRegexShape(s: string)
    ensures EmailRegex(s) <==> EmailShape(s)
  {
    if EmailRegex(s) {
      var a, b :| 0 < a < |s| && a + 1 < b < |s| - 1
        && s[a] == '@' && s[b] == '.'
        && PlainRange(s, 0, a) && PlainRange(s, a + 1, b) && PlainRange(s, b + 1, |s|);
      RegexShape(s, a, b);
    }
    if EmailShape(s) {
      var a :| 0 < a < |s| && OnlyAtSignAt(s, a) && exists b :: a + 1 < b < |s| - 1 && s[b] == '.';
      var b :| a + 1 < b < |s| - 1 && s[b] == '.';
      ShapeRegex(s, a, b);
    }
  }

  /** `validateEmail`: the empty value is accepted; otherwise the address must be well formed. */
  function ValidateEmail(email: string): (r: ValidationResult)
    ensures r.isValid <==> email == "" || EmailShape(email)
    ensures r.isValid ==> r.error == None
    ensures !r.isValid ==> r.error == Some(EmailError)
  {
    if email == "" then Valid
    else
      EmailRegexShape(email);
      if !EmailRegex(email) then Invalid(EmailError) else Valid
  }

  // ---------------------------------------------------------------------------
  // Phone numbers, ZIP codes and states

  /** `validatePhone`: a non-empty number must have 10 or 11 digits. */
  function ValidatePhone(phone: string): (r: ValidationResult)
    ensures r.isValid <==> phone == "" || 10 <= |Digits(phone)| <= 11
    ensures r.isValid ==> r.error == None
    ensures !r.isValid ==> r.error == Some(PhoneError)
  {
    if phone == "" then Valid
    else
      var digits := Digits(phone);
      if |digits| < 10 || |digits| > 11 then Invalid(PhoneError) else Valid
  }

  /** `validateZipCode`: a non-empty code must have 5 or 9 digits. */
  function ValidateZipCode(zip: string): (r: ValidationResult)
    ensures r.isValid <==> zip == "" || |Digits(zip)| == 5 || |Digits(zip)| == 9
    ensures r.isValid ==> r.error == None
    ensures !r.isValid ==> r.error == Some(ZipError)
  {
    if zip == "" then Valid
    else
      var digits := Digits(zip);
      if |digits| != 5 && |digits| != 9 then Invalid(ZipError) else Valid
  }

  /** The abbreviations `validateState` knows, in the order of the source list. */
  const ValidStates: seq<string> := [
    "AL", "AK", "AZ", "AR", "CA", "CO", "CT", "DE", "FL", "GA",
    "HI", "ID", "IL", "IN", "IA", "KS", "KY", "LA", "ME", "MD",
    "MA", "MI", "MN", "MS", "MO", "MT", "NE", "NV", "NH", "NJ",
    "NM", "NY", "NC", "ND", "OH", "OK", "OR", "PA", "RI", "SC",
    "SD", "TN", "TX", "UT", "VT", "VA", "WA", "WV", "WI", "WY", "DC"
  ]

  /**
   * `validateState`: a known two-letter code is accepted, and so is every
   * other value, since full state names are allowed too.
   */
  function ValidateState(state: string): (r: ValidationResult)
    ensures r.isValid && r.error == None
  {
    if state == "" then Valid
    else if |state| == 2 && Upper(state) in ValidStates then Valid
    else Valid
  }

  // ---------------------------------------------------------------------------
  // Choosing the check from the field name

  datatype ValidationRule = EmailCheck | PhoneCheck | ZipCheck | StateCheck | NoCheck

  /** The first rule whose words occur in the lower-cased field name, in the order e-mail, phone, ZIP, state. */
  function ValidationRuleOf(fieldName: string): ValidationRule {
    var f := Lower(fieldName);
    if Contains(f, "email") then EmailCheck
    else if Contains(f, "phone") || Contains(f, "tel") then PhoneCheck
    else if Contains(f, "zip") || Contains(f, "postal") then ZipCheck
    else if Contains(f, "state") && !Contains(f, "license") then StateCheck
    else NoCheck
  }

  /** `validateField`: the empty value is accepted; otherwise the field's check decides. */
  function ValidateField(fieldName: string, value: string): (r: ValidationResult)
    ensures value == "" ==> r == Valid
    ensures !r.isValid ==> r.error.Some?
    ensures !r.isValid ==> ValidationRuleOf(fieldName) in {EmailCheck, PhoneCheck, ZipCheck}
    ensures ValidationRuleOf(fieldName) in {StateCheck, NoCheck} ==> r == Valid
  {
    if value == "" then Valid
    else
      match ValidationRuleOf(fieldName)
      case EmailCheck => ValidateEmail(value)
      case PhoneCheck => ValidatePhone(value)
      case ZipCheck => ValidateZipCode(value)
      case StateCheck => ValidateState(value)
      case NoCheck => Valid
  }

  /**
   * Which check a non-empty value gets, by the words of the lower-cased field
   * name: email first, then phone or tel, then zip or postal; a state field
   * (one that does not also say license) and any other field accept it.
   */
  lemma ValidateFieldDispatch(fieldName: string, value: string)
    requires value != ""
    ensures var f, r := Lower(fieldName), ValidateField(fieldName, value);
      var email := Contains(f, "email");
      var phone := Contains(f, "phone") || Contains(f, "tel");
      var zip := Contains(f, "zip") || Contains(f, "postal");
      && (email ==> r == ValidateEmail(value))
      && (!email && phone ==> r == ValidatePhone(value))
      && (!email && !phone && zip ==> r == ValidateZipCode(value))
      && (!email && !phone && !zip ==> r == Valid)
  {
  }

  /** Every check accepts the empty value. */
  lemma EmptyIsValid(fieldName: string)
    ensures ValidateEmail("").isValid && ValidatePhone("").isValid
    ensures ValidateZipCode("").isValid && ValidateState("").isValid
    ensures ValidateField(fieldName, "").isValid
  {
  }

  /** A named e-mail field is checked as an address whatever else its name says. */
  lemma EmailFieldFirst(fieldName: string, value: string)
    requires Contains(Lower(fieldName), "email")
    ensures ValidateField(fieldName, value) == ValidateEmail(value)
  {
  }

  /** A field rejects a value only by the message of the check its name selects. */
  lemma ValidateFieldMessage(fieldName: string, value: string)
    requires !ValidateField(fieldName, value).isValid
    ensures ValidateField(fieldName, value).error == Some(
      match ValidationRuleOf(fieldName)
      case EmailCheck => EmailError
      case PhoneCheck => PhoneError
      case _ => ZipError)
  {
  }

  // ---------------------------------------------------------------------------
  // Formatting and validation together

  /** Formatting a phone number does not change whether it validates. */
  lemma FormatPhoneKeepsValidity(phone: string)
    ensures ValidatePhone(Formatting.FormatPhoneNumber(phone)) == ValidatePhone(phone)
  {
  }

  /** Formatting a ZIP code does not change whether it validates. */
  lemma FormatZipKeepsValidity(zip: string)
    ensures ValidateZipCode(Formatting.FormatZipCode(zip)) == ValidateZipCode(zip)
  {
  }

  /** A valid address has no whitespace, so formatting it only lower-cases it, and it stays valid. */
  lemma FormatEmailKeepsValidity(email: string)
    requires ValidateEmail(email).isValid
    ensures Formatting.FormatEmail(email) == Lower(email)
    ensures ValidateEmail(Formatting.FormatEmail(email)).isValid
  {
    if email != "" {
      var a :| 0 < a < |email| && OnlyAtSignAt(email, a) && exists b :: a + 1 < b < |email| - 1 && email[b] == '.';
      var b :| a + 1 < b < |email| - 1 && email[b] == '.';
      var low := Lower(email);
      assert IsTrimmed(low) by {
        assert !IsSpace(email[0]) && !IsSpace(email[|email| - 1]);
      }
      TrimOfTrimmed(low);
      forall k | 0 <= k < |low| ensures !IsSpace(low[k]) && (k != a ==> low[k] != '@') {
        assert low[k] == LowerChar(email[k]);
      }
      assert low[b] == '.';
      assert OnlyAtSignAt(low, a);
      assert EmailShape(low);
    }
  }

  /**
   * The two modules choose by different orders: a field whose name mentions
   * both e-mail and phone is formatted as a phone number but checked as an
   * e-mail address.
   */
  lemma EmailPhoneFieldDisagree(fieldName: string)
    requires Contains(Lower(fieldName), "email") && Contains(Lower(fieldName), "phone")
    ensures Formatting.FormatRuleOf(fieldName) == Formatting.PhoneFormat
    ensures ValidationRuleOf(fieldName) == EmailCheck
  {
  }

  /** A field named "Email Tel" is one such field. */
  lemma EmailTelExample()
    ensures Formatting.FormatRuleOf("Email Tel") == Formatting.PhoneFormat
    ensures ValidationRuleOf("Email Tel") == EmailCheck
  {
    var f := Lower("Email Tel");
    assert f == "email tel";
    OccursContains(f, "email", 0);
    assert f[6..9] == "tel";
    OccursContains(f, "tel", 6);
  }
}
