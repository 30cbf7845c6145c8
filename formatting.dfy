/**
 * app/utils/formatting.ts: per-field formatting of a value before it is
 * written into a form, chosen from the field's name. `new Date(text)` is
 * not modelled; a date parser is passed in instead.
 */
module Formatting {
  import opened Wrappers
  import opened Text

  // ---------------------------------------------------------------------------
  // Phone numbers

  /** `(ddd) ddd-dddd` from ten digits. */
  function PhoneText(d: string): string
    requires |d| == 10
  {
    "(" + d[..3] + ") " + d[3..6] + "-" + d[6..]
  }

  /** `+1 (ddd) ddd-dddd` from eleven digits, the first of which is the country code `1`. */
  function IntlPhoneText(d: string): string
    requires |d| == 11
  {
    "+1 (" + d[1..4] + ") " + d[4..7] + "-" + d[7..]
  }

  /**
   * `formatPhoneNumber`: ten digits get the national layout, eleven digits
   * starting with `1` the international one, anything else stays as it is.
   * Formatting never changes the digits of the number.
   */
  function FormatPhoneNumber(phone: string): (r: string)
    ensures Digits(r) == Digits(phone)
    ensures r == "" <==> phone == ""
    ensures |Digits(phone)| != 10 && !(|Digits(phone)| == 11 && Digits(phone)[0] == '1') ==> r == phone
  {
    if phone == "" then ""
    else
      var digits := Digits(phone);
      if |digits| == 10 then
        PhoneTextDigits(digits);
        PhoneText(digits)
      else if |digits| == 11 && digits[0] == '1' then
        IntlPhoneTextDigits(digits);
        IntlPhoneText(digits)
      else phone
  }

  /** Separators contribute no digits. */
  lemma Digits3(a: string, b: string, c: string)
    ensures Digits(a + b + c) == Digits(a) + Digits(b) + Digits(c)
  {
    DigitsAppend(a + b, c);
    DigitsAppend(a, b);
  }

  lemma AllDigitsSlices(d: string, i: nat, j: nat)
    requires i <= j <= |d| && forall k :: 0 <= k < |d| ==> IsDigit(d[k])
    ensures Digits(d[i..j]) == d[i..j]
  {
    DigitsOfDigits(d[i..j]);
  }

  lemma PhoneTextDigits(d: string)
    requires |d| == 10 && forall k :: 0 <= k < |d| ==> IsDigit(d[k])
    ensures Digits(PhoneText(d)) == d
  {
    AllDigitsSlices(d, 0, 3);
    AllDigitsSlices(d, 3, 6);
    AllDigitsSlices(d, 6, 10);
    assert d[0..3] == d[..3] && d[6..10] == d[6..];
    PhoneLayoutDigits(d[..3], d[3..6], d[6..]);
    assert d[..3] + d[3..6] + d[6..] == d;
  }

  /** The layout `(a) b-c` holds the digits of its three parts and no others. */
  lemma PhoneLayoutDigits(a: string, b: string, c: string)
    requires Digits(a) == a && Digits(b) == b && Digits(c) == c
    ensures Digits("(" + a + ") " + b + "-" + c) == a + b + c
  {
    assert Digits("(") == [] && Digits(") ") == [] && Digits("-") == [];
    SeparatedDigits("(", a, ") ", b, "-", c);
  }

  /** Parts without digits between digit strings contribute nothing. */
  lemma SeparatedDigits(x: string, a: string, y: string, b: string, z: string, c: string)
    requires Digits(x) == [] && Digits(y) == [] && Digits(z) == []
    requires Digits(a) == a && Digits(b) == b && Digits(c) == c
    ensures Digits(x + a + y + b + z + c) == a + b + c
  {
    var p1 := x + a;
    DigitsAppend(x, a);
    assert Digits(p1) == a;
    var p2 := p1 + y;
    DigitsAppend(p1, y);
    assert Digits(p2) == a;
    var p3 := p2 + b;
    DigitsAppend(p2, b);
    assert Digits(p3) == a + b;
    var p4 := p3 + z;
    DigitsAppend(p3, z);
    assert Digits(p4) == a + b;
    DigitsAppend(p4, c);
  }

  lemma IntlPhoneTextDigits(d: string)
    requires |d| == 11 && d[0] == '1' && forall k :: 0 <= k < |d| ==> IsDigit(d[k])
    ensures Digits(IntlPhoneText(d)) == d
  {
    var national := d[1..];
    assert |national| == 10;
    PhoneTextDigits(national);
    assert d[1..4] == national[..3] && d[4..7] == national[3..6] && d[7..] == national[6..];
    assert IntlPhoneText(d) == "+1 " + PhoneText(national);
    assert Digits("+1 ") == "1" by {
      assert "+1 "[1..] == "1 ";
      assert "1 "[1..] == " ";
    }
    DigitsAppend("+1 ", PhoneText(national));
    assert "1" + national == d;
  }

  /**
   * The two layouts: ten digits give `(ddd) ddd-dddd` and eleven digits
   * starting with `1` give `+1 (ddd) ddd-dddd`, the digits in their order.
   */
  lemma FormatPhoneCases(phone: string)
    ensures var d, r := Digits(phone), FormatPhoneNumber(phone);
      |d| == 10 ==>
        && |r| == 14 && r[0] == '(' && r[4..6] == ") " && r[9] == '-'
        && r[1..4] == d[..3] && r[6..9] == d[3..6] && r[10..] == d[6..]
    ensures var d, r := Digits(phone), FormatPhoneNumber(phone);
      |d| == 11 && d[0] == '1' ==>
        && |r| == 17 && r[..4] == "+1 (" && r[7..9] == ") " && r[12] == '-'
        && r[4..7] == d[1..4] && r[9..12] == d[4..7] && r[13..] == d[7..]
  {
    var d := Digits(phone);
    if |d| == 10 || |d| == 11 {
      assert phone != "" by {
        assert Digits("") == "";
      }
    }
    if |d| == 10 {
      PhoneTextLayout(d);
    } else if |d| == 11 {
      IntlPhoneTextLayout(d);
    }
  }

  lemma PhoneTextLayout(d: string)
    requires |d| == 10
    ensures var r := PhoneText(d);
      && |r| == 14 && r[0] == '(' && r[4..6] == ") " && r[9] == '-'
      && r[1..4] == d[..3] && r[6..9] == d[3..6] && r[10..] == d[6..]
  {
    var r := PhoneText(d);
    var head := "(" + d[..3] + ") ";
    var tail := d[3..6] + "-" + d[6..];
    assert r == head + tail;
    assert |head| == 6 && head[1..4] == d[..3];
    assert tail[..3] == d[3..6] && tail[3] == '-' && tail[4..] == d[6..];
  }

  lemma IntlPhoneTextLayout(d: string)
    requires |d| == 11
    ensures var r := IntlPhoneText(d);
      && |r| == 17 && r[..4] == "+1 (" && r[7..9] == ") " && r[12] == '-'
      && r[4..7] == d[1..4] && r[9..12] == d[4..7] && r[13..] == d[7..]
  {
    var r := IntlPhoneText(d);
    var head := "+1 (" + d[1..4] + ") ";
    var tail := d[4..7] + "-" + d[7..];
    assert r == head + tail;
    assert |head| == 9 && head[..4] == "+1 (" && head[4..7] == d[1..4];
    assert tail[..3] == d[4..7] && tail[3] == '-' && tail[4..] == d[7..];
  }

  /** Formatting a formatted phone number changes nothing. */
  lemma FormatPhoneIdempotent(phone: string)
    ensures FormatPhoneNumber(FormatPhoneNumber(phone)) == FormatPhoneNumber(phone)
  {
  }

  // ---------------------------------------------------------------------------
  // Dates

  /** What a valid `Date` answers to `getMonth() + 1`, `getDate()` and `getFullYear()`. */
  datatype CalendarDate = CalendarDate(month: nat, day: nat, year: int)

  predicate ValidDate(d: CalendarDate) {
    1 <= d.month <= 12 && 1 <= d.day <= 31
  }

  /** `MM/DD/YYYY`: month and day padded to two digits, the year as `String(year)`. */
  function DateText(d: CalendarDate): string {
    Pad2(NatToString(d.month)) + "/" + Pad2(NatToString(d.day)) + "/" + IntToString(d.year)
  }

  /**
   * `formatDate`, with `parseDate(text)` standing for `new Date(text)`:
   * `None` is the invalid date, for which the text is returned unchanged.
   */
  function FormatDate(date: string, parseDate: string -> Option<CalendarDate>): (r: string)
    ensures date == "" ==> r == ""
    ensures date != "" && parseDate(date).None? ==> r == date
    ensures date != "" && parseDate(date).Some? ==> r == DateText(parseDate(date).value)
  {
    if date == "" then ""
    else
      match parseDate(date)
      case None => date
      case Some(d) => DateText(d)
  }

  /** A number below 100, padded to two digits, reads back as itself. */
  lemma Pad2Value(n: nat)
    requires n < 100
    ensures var s := Pad2(NatToString(n));
      |s| == 2 && (forall k :: 0 <= k < 2 ==> IsDigit(s[k])) && DecimalValue(s) == n
  {
    var t := NatToString(n);
    DecimalRoundTrip(n);
    if n < 10 {
      DecimalLeadingZero(t);
    } else {
      assert |t| == 2 by {
        assert n / 10 < 10;
      }
    }
  }

  /** The text of a valid date has its slashes at 2 and 5, and the month and day read back from it. */
  lemma DateTextReadsBack(d: CalendarDate)
    requires ValidDate(d)
    ensures var s := DateText(d);
      && |s| > 6 && s[2] == '/' && s[5] == '/'
      && (forall k :: 0 <= k < 2 ==> IsDigit(s[k]))
      && (forall k :: 3 <= k < 5 ==> IsDigit(s[k]))
      && DecimalValue(s[..2]) == d.month
      && DecimalValue(s[3..5]) == d.day
      && s[6..] == IntToString(d.year)
  {
    var s := DateText(d);
    var m, dd := Pad2(NatToString(d.month)), Pad2(NatToString(d.day));
    Pad2Value(d.month);
    Pad2Value(d.day);
    assert s == m + "/" + dd + "/" + IntToString(d.year);
    assert s[..2] == m;
    assert s[3..5] == dd;
  }

  /**
   * A text that parses to a date comes out as `MM/DD/YYYY`: the month and
   * the day read back as two-digit numbers and the year follows the second slash.
   */
  lemma FormatDateReadsBack(date: string, parseDate: string -> Option<CalendarDate>)
    requires date != "" && parseDate(date).Some? && ValidDate(parseDate(date).value)
    ensures var r, d := FormatDate(date, parseDate), parseDate(date).value;
      && |r| > 6 && r[2] == '/' && r[5] == '/'
      && (forall k :: 0 <= k < 2 ==> IsDigit(r[k]))
      && (forall k :: 3 <= k < 5 ==> IsDigit(r[k]))
      && DecimalValue(r[..2]) == d.month
      && DecimalValue(r[3..5]) == d.day
      && r[6..] == IntToString(d.year)
  {
    DateTextReadsBack(parseDate(date).value);
  }

  // ---------------------------------------------------------------------------
  // States

  /** A postal abbreviation: two upper-case letters. */
  type Abbreviation = s: string | |s| == 2 && IsUpperChar(s[0]) && IsUpperChar(s[1]) witness "AL"

  // The table in chunks; each chunk is checked against `Abbreviation` on its own.
  const States0: seq<(string, Abbreviation)> := [("alabama", "AL"), ("alaska", "AK"), ("arizona", "AZ"), ("arkansas", "AR"), ("california", "CA"), ("colorado", "CO")]
  const States1: seq<(string, Abbreviation)> := [("connecticut", "CT"), ("delaware", "DE"), ("florida", "FL"), ("georgia", "GA"), ("hawaii", "HI"), ("idaho", "ID")]
  const States2: seq<(string, Abbreviation)> := [("illinois", "IL"), ("indiana", "IN"), ("iowa", "IA"), ("kansas", "KS"), ("kentucky", "KY"), ("louisiana", "LA")]
  const States3: seq<(string, Abbreviation)> := [("maine", "ME"), ("maryland", "MD"), ("massachusetts", "MA"), ("michigan", "MI"), ("minnesota", "MN"), ("mississippi", "MS")]
  const States4: seq<(string, Abbreviation)> := [("missouri", "MO"), ("montana", "MT"), ("nebraska", "NE"), ("nevada", "NV"), ("new hampshire", "NH"), ("new jersey", "NJ")]
  const States5: seq<(string, Abbreviation)> := [("new mexico", "NM"), ("new york", "NY"), ("north carolina", "NC"), ("north dakota", "ND"), ("ohio", "OH"), ("oklahoma", "OK")]
  const States6: seq<(string, Abbreviation)> := [("oregon", "OR"), ("pennsylvania", "PA"), ("rhode island", "RI"), ("south carolina", "SC"), ("south dakota", "SD"), ("tennessee", "TN")]
  const States7: seq<(string, Abbreviation)> := [("texas", "TX"), ("utah", "UT"), ("vermont", "VT"), ("virginia", "VA"), ("washington", "WA"), ("west virginia", "WV")]
  const States8: seq<(string, Abbreviation)> := [("wisconsin", "WI"), ("wyoming", "WY"), ("district of columbia", "DC")]

  /** The lower-case state names and their postal abbreviations, in the order of the source table. */
  const StateTable: seq<(string, Abbreviation)> :=
    States0 + States1 + States2 + States3 + States4 + States5 + States6 + States7 + States8

  /** `table[key]`: the value of the first entry with that key. */
  function Lookup(table: seq<(string, Abbreviation)>, key: string): (r: Option<Abbreviation>)
    ensures r.Some? ==> exists i :: 0 <= i < |table| && table[i] == (key, r.value)
    ensures r.None? ==> forall i :: 0 <= i < |table| ==> table[i].0 != key
  {
    if table == [] then None
    else if table[0].0 == key then Some(table[0].1)
    else Lookup(table[1..], key)
  }

  /** An abbreviation is already upper case. */
  lemma AbbreviationUpper(a: Abbreviation)
    ensures Upper(a) == a
  {
    UpperOfUpper(a);
  }

  /**
   * `formatState`: any input of length two is upper-cased; otherwise the
   * trimmed, lower-cased input is looked up, and the input is kept when the
   * table has no such name.
   */
  function FormatState(state: string): (r: string)
    ensures state == "" ==> r == ""
    ensures |state| == 2 ==> r == Upper(state)
  {
    if state == "" then ""
    else if |state| == 2 then Upper(state)
    else
      match Lookup(StateTable, Trim(Lower(state)))
      case Some(abbreviation) => abbreviation
      case None => state
  }

  /** The result of `formatState` is an abbreviation from the table, the upper-cased input, or the input. */
  lemma FormatStateCases(state: string)
    requires state != "" && |state| != 2
    ensures var r := FormatState(state);
      || (exists i :: 0 <= i < |StateTable| && StateTable[i] == (Trim(Lower(state)), r))
      || (r == state && forall i :: 0 <= i < |StateTable| ==> StateTable[i].0 != Trim(Lower(state)))
  {
  }

  /** Formatting a formatted state changes nothing. */
  lemma FormatStateIdempotent(state: string)
    ensures FormatState(FormatState(state)) == FormatState(state)
  {
    if state != "" && |state| == 2 {
      UpperIdempotent(state);
    } else if state != "" {
      var found := Lookup(StateTable, Trim(Lower(state)));
      if found.Some? {
        AbbreviationUpper(found.value);
      }
    }
  }

  // ---------------------------------------------------------------------------
  // ZIP codes and e-mail addresses

  /** `ddddd-dddd` from nine digits. */
  function ZipText(d: string): string
    requires |d| == 9
  {
    d[..5] + "-" + d[5..]
  }

  lemma ZipTextDigits(d: string)
    requires |d| == 9 && forall k :: 0 <= k < |d| ==> IsDigit(d[k])
    ensures Digits(ZipText(d)) == d
  {
    AllDigitsSlices(d, 0, 5);
    AllDigitsSlices(d, 5, 9);
    assert d[0..5] == d[..5] && d[5..9] == d[5..];
    assert Digits("-") == [];
    Digits3(d[..5], "-", d[5..]);
    assert d[..5] + d[5..] == d;
  }

  /**
   * `formatZipCode`: five digits give the bare digits, nine digits the
   * `ddddd-dddd` layout, anything else stays as it is; the digits never change.
   */
  function FormatZipCode(zip: string): (r: string)
    ensures Digits(r) == Digits(zip)
    ensures r == "" <==> zip == ""
    ensures |Digits(zip)| == 5 ==> r == Digits(zip)
    ensures |Digits(zip)| != 5 && |Digits(zip)| != 9 ==> r == zip
  {
    if zip == "" then ""
    else
      var digits := Digits(zip);
      if |digits| == 5 then
        DigitsOfDigits(digits);
        digits
      else if |digits| == 9 then
        ZipTextDigits(digits);
        ZipText(digits)
      else zip
  }

  /** Nine digits give `ddddd-dddd`, the digits in their order. */
  lemma FormatZipNine(zip: string)
    requires |Digits(zip)| == 9
    ensures var d, r := Digits(zip), FormatZipCode(zip);
      |r| == 10 && r[..5] == d[..5] && r[5] == '-' && r[6..] == d[5..]
  {
    assert zip != "" by {
      assert Digits("") == "";
    }
  }

  lemma FormatZipIdempotent(zip: string)
    ensures FormatZipCode(FormatZipCode(zip)) == FormatZipCode(zip)
  {
  }

  /** `formatEmail`: lower-cased and trimmed. */
  function FormatEmail(email: string): (r: string)
    ensures email == "" ==> r == ""
    ensures IsTrimmed(r) && forall k :: 0 <= k < |r| ==> !IsUpperChar(r[k])
    ensures exists i ::
      && 0 <= i && i + |r| <= |email|
      && Lower(email)[i..i + |r|] == r
      && AllSpace(Lower(email)[..i]) && AllSpace(Lower(email)[i + |r|..])
  {
    if email == "" then
      assert Lower(email)[0..0] == "" && AllSpace(Lower(email)[..0]) && AllSpace(Lower(email)[0..]);
      ""
    else
      TrimTrimmed(Lower(email));
      LowerTrimNoUpper(email);
      TrimSplit(Lower(email));
      Trim(Lower(email))
  }

  lemma LowerTrimNoUpper(s: string)
    ensures forall k :: 0 <= k < |Trim(Lower(s))| ==> !IsUpperChar(Trim(Lower(s))[k])
  {
    forall k | 0 <= k < |Trim(Lower(s))| ensures !IsUpperChar(Trim(Lower(s))[k]) {
      TrimChars(Lower(s), k);
    }
  }

  lemma FormatEmailIdempotent(email: string)
    ensures FormatEmail(FormatEmail(email)) == FormatEmail(email)
  {
    var r := FormatEmail(email);
    if r != "" {
      LowerOfLower(r);
      TrimOfTrimmed(r);
    }
  }

  // ---------------------------------------------------------------------------
  // Choosing the format from the field name

  datatype FormatRule = PhoneFormat | DateFormat | StateFormat | ZipFormat | EmailFormat | NoFormat

  /** The first rule whose words occur in the lower-cased field name, in the order phone, date, state, ZIP, e-mail. */
  function FormatRuleOf(fieldName: string): FormatRule {
    var f := Lower(fieldName);
    if Contains(f, "phone") || Contains(f, "tel") then PhoneFormat
    else if Contains(f, "date") then DateFormat
    else if Contains(f, "state") && !Contains(f, "license") then StateFormat
    else if Contains(f, "zip") || Contains(f, "postal") then ZipFormat
    else if Contains(f, "email") then EmailFormat
    else NoFormat
  }

  /**
   * Which formatter a non-empty value gets, by the words of the lower-cased
   * field name: phone or tel first, then date, then state (unless the name
   * also says license), then zip or postal, then email; any other name leaves
   * the value as it is.
   */
  lemma AutoFormatDispatch(fieldName: string, value: string, parseDate: string -> Option<CalendarDate>)
    requires value != ""
    ensures var f, r := Lower(fieldName), AutoFormat(fieldName, value, parseDate);
      var phone := Contains(f, "phone") || Contains(f, "tel");
      var date := Contains(f, "date");
      var state := Contains(f, "state") && !Contains(f, "license");
      var zip := Contains(f, "zip") || Contains(f, "postal");
      var email := Contains(f, "email");
      && (phone ==> r == FormatPhoneNumber(value))
      && (!phone && date ==> r == FormatDate(value, parseDate))
      && (!phone && !date && state ==> r == FormatState(value))
      && (!phone && !date && !state && zip ==> r == FormatZipCode(value))
      && (!phone && !date && !state && !zip && email ==> r == FormatEmail(value))
      && (!phone && !date && !state && !zip && !email ==> r == value)
  {
    var rule := FormatRuleOf(fieldName);
    assert AutoFormat(fieldName, value, parseDate) == match rule
      case PhoneFormat => FormatPhoneNumber(value)
      case DateFormat => FormatDate(value, parseDate)
      case StateFormat => FormatState(value)
      case ZipFormat => FormatZipCode(value)
      case EmailFormat => FormatEmail(value)
      case NoFormat => value;
  }

  /** `autoFormat`: the empty value stays empty; otherwise the field's rule applies. */
  function AutoFormat(fieldName: string, value: string, parseDate: string -> Option<CalendarDate>): (r: string)
    ensures value == "" ==> r == ""
    ensures FormatRuleOf(fieldName) == NoFormat ==> r == value
  {
    if value == "" then ""
    else
      match FormatRuleOf(fieldName)
      case PhoneFormat => FormatPhoneNumber(value)
      case DateFormat => FormatDate(value, parseDate)
      case StateFormat => FormatState(value)
      case ZipFormat => FormatZipCode(value)
      case EmailFormat => FormatEmail(value)
      case NoFormat => value
  }

  /** Every rule but the date rule (whose parser is arbitrary) is idempotent. */
  lemma AutoFormatIdempotent(fieldName: string, value: string, parseDate: string -> Option<CalendarDate>)
    requires FormatRuleOf(fieldName) != DateFormat
    ensures AutoFormat(fieldName, AutoFormat(fieldName, value, parseDate), parseDate)
         == AutoFormat(fieldName, value, parseDate)
  {
    match FormatRuleOf(fieldName)
    case PhoneFormat => FormatPhoneIdempotent(value);
    case StateFormat => FormatStateIdempotent(value);
    case ZipFormat => FormatZipIdempotent(value);
    case EmailFormat => FormatEmailIdempotent(value);
    case NoFormat =>
  }

  /** Phone and ZIP fields keep their digits. */
  lemma AutoFormatDigits(fieldName: string, value: string, parseDate: string -> Option<CalendarDate>)
    requires FormatRuleOf(fieldName) == PhoneFormat || FormatRuleOf(fieldName) == ZipFormat
    ensures Digits(AutoFormat(fieldName, value, parseDate)) == Digits(value)
  {
  }
}
