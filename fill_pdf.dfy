/**
 * app/api/fill-pdf/route.ts: the route's own `autoFormat`, whose rules fall
 * through to the next one when they do not apply, and the loop that writes
 * a person's values into the text fields of a form.
 *
 * The form is what `pdfDoc.getForm()` returns: a fixed set of named fields,
 * each of one kind, and the text each text field holds.
 */
module FillPdf {
  import opened Wrappers
  import opened Text
  import opened Records
  import Formatting

  // ---------------------------------------------------------------------------
  // The route's `autoFormat`

  predicate PhoneWord(f: string) { Contains(f, "phone") || Contains(f, "tel") }
  predicate DateWord(f: string) { Contains(f, "date") }
  predicate ZipWord(f: string) { Contains(f, "zip") || Contains(f, "postal") }
  predicate EmailWord(f: string) { Contains(f, "email") }

  predicate AnyRuleWord(f: string) {
    PhoneWord(f) || DateWord(f) || ZipWord(f) || EmailWord(f)
  }

  /** The phone rule: a phone field with exactly ten digits gets `(ddd) ddd-dddd`; otherwise the date rule decides. */
  function PhoneRule(f: string, value: string, parseDate: string -> Option<Formatting.CalendarDate>): string {
    var digits := Digits(value);
    if PhoneWord(f) && |digits| == 10 then Formatting.PhoneText(digits)
    else DateRule(f, value, parseDate)
  }

  /** The date rule: a date field whose value parses gets `MM/DD/YYYY`; otherwise the ZIP rule decides. */
  function DateRule(f: string, value: string, parseDate: string -> Option<Formatting.CalendarDate>): string {
    if DateWord(f) && parseDate(value).Some? then Formatting.DateText(parseDate(value).value)
    else ZipRule(f, value)
  }

  /** The ZIP rule: a ZIP field with exactly nine digits gets `ddddd-dddd`; otherwise the e-mail rule decides. */
  function ZipRule(f: string, value: string): string {
    var digits := Digits(value);
    if ZipWord(f) && |digits| == 9 then Formatting.ZipText(digits)
    else EmailRule(f, value)
  }

  /** The e-mail rule: an e-mail field is lower-cased and trimmed; anything else is kept. */
  function EmailRule(f: string, value: string): string {
    if EmailWord(f) then Trim(Lower(value)) else value
  }

  /** `autoFormat` of the fill route. */
  function InlineAutoFormat(fieldName: string, value: string, parseDate: string -> Option<Formatting.CalendarDate>): (r: string)
    ensures value == "" ==> r == ""
    ensures !AnyRuleWord(Lower(fieldName)) ==> r == value
  {
    if value == "" then "" else PhoneRule(Lower(fieldName), value, parseDate)
  }

  /**
   * Which rule formats a non-empty value, by the words of the lower-cased
   * field name and the value itself: a phone field's ten digits first, then a
   * date field's parsed date, then a ZIP field's nine digits, then an e-mail
   * field; a rule whose word matches but whose value does not falls through
   * to the next, and a value no rule takes is kept as it is.
   */
  lemma InlineDispatch(fieldName: string, value: string, parseDate: string -> Option<Formatting.CalendarDate>)
    requires value != ""
    ensures var f, d, r := Lower(fieldName), Digits(value), InlineAutoFormat(fieldName, value, parseDate);
      var phone := PhoneWord(f) && |d| == 10;
      var date := DateWord(f) && parseDate(value).Some?;
      var zip := ZipWord(f) && |d| == 9;
      && (phone ==> r == Formatting.PhoneText(d))
      && (!phone && date ==> r == Formatting.DateText(parseDate(value).value))
      && (!phone && !date && zip ==> r == Formatting.ZipText(d))
      && (!phone && !date && !zip && EmailWord(f) ==> r == Formatting.FormatEmail(value))
      && (!phone && !date && !zip && !EmailWord(f) ==> r == value)
  {
  }

  /** A date field whose value parses is formatted as the shared formatter does it. */
  lemma InlineDateAgrees(fieldName: string, value: string, parseDate: string -> Option<Formatting.CalendarDate>)
    requires Formatting.FormatRuleOf(fieldName) == Formatting.DateFormat
    requires value != "" && parseDate(value).Some?
    ensures InlineAutoFormat(fieldName, value, parseDate) == Formatting.AutoFormat(fieldName, value, parseDate)
    ensures InlineAutoFormat(fieldName, value, parseDate) == Formatting.DateText(parseDate(value).value)
  {
  }

  /** A phone field with ten digits is formatted as the shared formatter does it. */
  lemma InlinePhoneAgrees(fieldName: string, value: string, parseDate: string -> Option<Formatting.CalendarDate>)
    requires PhoneWord(Lower(fieldName)) && |Digits(value)| == 10
    ensures InlineAutoFormat(fieldName, value, parseDate) == Formatting.AutoFormat(fieldName, value, parseDate)
    ensures InlineAutoFormat(fieldName, value, parseDate) == Formatting.PhoneText(Digits(value))
  {
  }

  /**
   * Eleven digits with a leading `1` are left alone here, where the shared
   * formatter gives `+1 (ddd) ddd-dddd`.
   */
  lemma InlineElevenDigits(fieldName: string, value: string, parseDate: string -> Option<Formatting.CalendarDate>)
    requires var f := Lower(fieldName); PhoneWord(f) && !DateWord(f) && !ZipWord(f) && !EmailWord(f)
    requires var d := Digits(value); |d| == 11 && d[0] == '1'
    ensures InlineAutoFormat(fieldName, value, parseDate) == value
    ensures Formatting.AutoFormat(fieldName, value, parseDate) == Formatting.IntlPhoneText(Digits(value))
  {
  }

  /** The phone rule formats nothing but ten digits. */
  lemma InlinePhoneOnlyTen(fieldName: string, value: string, parseDate: string -> Option<Formatting.CalendarDate>)
    requires var f := Lower(fieldName); !DateWord(f) && !ZipWord(f) && !EmailWord(f)
    requires |Digits(value)| != 10
    ensures InlineAutoFormat(fieldName, value, parseDate) == value
  {
  }

  /** A phone value that is not ten digits falls through to the ZIP rule. */
  lemma InlinePhoneFallsToZip(fieldName: string, value: string, parseDate: string -> Option<Formatting.CalendarDate>)
    requires var f := Lower(fieldName); PhoneWord(f) && ZipWord(f) && !DateWord(f)
    requires |Digits(value)| == 9
    ensures InlineAutoFormat(fieldName, value, parseDate) == Formatting.ZipText(Digits(value))
  {
  }

  /** A phone value that is not ten digits falls through to the e-mail rule. */
  lemma InlinePhoneFallsToEmail(fieldName: string, value: string, parseDate: string -> Option<Formatting.CalendarDate>)
    requires var f := Lower(fieldName); PhoneWord(f) && EmailWord(f) && !DateWord(f) && !ZipWord(f)
    requires value != "" && |Digits(value)| != 10
    ensures InlineAutoFormat(fieldName, value, parseDate) == Formatting.FormatEmail(value)
  {
  }

  /** Five digits are left alone in a ZIP field, where the shared formatter keeps only the digits. */
  lemma InlineZipFive(fieldName: string, value: string, parseDate: string -> Option<Formatting.CalendarDate>)
    requires Formatting.FormatRuleOf(fieldName) == Formatting.ZipFormat && !EmailWord(Lower(fieldName))
    requires |Digits(value)| == 5
    ensures InlineAutoFormat(fieldName, value, parseDate) == value
    ensures Formatting.AutoFormat(fieldName, value, parseDate) == Digits(value)
  {
  }

  /** A ZIP field with nine digits is dashed as the shared formatter does it. */
  lemma InlineZipNine(fieldName: string, value: string, parseDate: string -> Option<Formatting.CalendarDate>)
    requires Formatting.FormatRuleOf(fieldName) == Formatting.ZipFormat
    requires |Digits(value)| == 9
    ensures InlineAutoFormat(fieldName, value, parseDate) == Formatting.AutoFormat(fieldName, value, parseDate)
    ensures InlineAutoFormat(fieldName, value, parseDate) == Formatting.ZipText(Digits(value))
  {
  }

  /** An e-mail field is lower-cased and trimmed, as the shared formatter does it. */
  lemma InlineEmailAgrees(fieldName: string, value: string, parseDate: string -> Option<Formatting.CalendarDate>)
    requires Formatting.FormatRuleOf(fieldName) == Formatting.EmailFormat
    ensures InlineAutoFormat(fieldName, value, parseDate) == Formatting.AutoFormat(fieldName, value, parseDate)
  {
  }

  /** Outside date fields (whose parser is arbitrary) formatting a formatted value changes nothing. */
  lemma InlineIdempotent(fieldName: string, value: string, parseDate: string -> Option<Formatting.CalendarDate>)
    requires !DateWord(Lower(fieldName))
    ensures var r := InlineAutoFormat(fieldName, value, parseDate);
      InlineAutoFormat(fieldName, r, parseDate) == r
  {
    var f := Lower(fieldName);
    var d := Digits(value);
    if value != "" {
      if PhoneWord(f) && |d| == 10 {
        Formatting.PhoneTextDigits(d);
      } else if ZipWord(f) && |d| == 9 {
        Formatting.ZipTextDigits(d);
      } else if EmailWord(f) {
        var r := Trim(Lower(value));
        DigitsTrim(Lower(value));
        DigitsLower(value);
        Formatting.LowerTrimNoUpper(value);
        LowerOfLower(r);
        TrimTrimmed(Lower(value));
        TrimOfTrimmed(r);
      }
    }
  }

  // ---------------------------------------------------------------------------
  // The fill loop

  /** The kinds of form field; only text fields are written. */
  datatype FieldKind = TextField | CheckBox | RadioGroup | Dropdown | OptionList | Button | Signature

  /** The value the person has for a mapping entry's column, when the loop goes on to use it. */
  function EntryValue(entry: (string, string), personData: Record): (r: Option<string>)
    ensures r.Some? ==> entry.1 != "" && r.value != "" && Get(personData, entry.1) == r
  {
    if entry.1 == "" then None
    else
      match Get(personData, entry.1)
      case None => None
      case Some(v) => if v == "" then None else Some(v)
  }

  /** Whether the loop writes anything for an entry: a mapped column with a value, naming a text field. */
  predicate Writes(fields: map<string, FieldKind>, entry: (string, string), personData: Record) {
    entry.0 in fields && fields[entry.0] == TextField && EntryValue(entry, personData).Some?
  }

  /** One step of the loop, on the texts the form holds. */
  function FillEntry(texts: map<string, string>, fields: map<string, FieldKind>, entry: (string, string),
                     personData: Record, parseDate: string -> Option<Formatting.CalendarDate>): map<string, string>
  {
    if Writes(fields, entry, personData) then
      texts[entry.0 := InlineAutoFormat(entry.0, EntryValue(entry, personData).value, parseDate)]
    else texts
  }

  /** The texts after the loop has run over the mapping entries in order. */
  function Filled(texts: map<string, string>, fields: map<string, FieldKind>, mapping: seq<(string, string)>,
                  personData: Record, parseDate: string -> Option<Formatting.CalendarDate>): map<string, string>
    decreases |mapping|
  {
    if mapping == [] then texts
    else
      var n := |mapping| - 1;
      FillEntry(Filled(texts, fields, mapping[..n], personData, parseDate), fields, mapping[n], personData, parseDate)
  }

  /** The names whose `getField` throws: mapped entries naming no field of the form. */
  function Failures(fields: map<string, FieldKind>, mapping: seq<(string, string)>): (r: seq<string>)
    ensures forall k :: 0 <= k < |r| ==> r[k] !in fields
    decreases |mapping|
  {
    if mapping == [] then []
    else
      var n := |mapping| - 1;
      var e := mapping[n];
      Failures(fields, mapping[..n]) + (if e.1 != "" && e.0 !in fields then [e.0] else [])
  }

  /** A PDF form: its fields, which filling never changes, and the text in each filled text field. */
  class Form {
    const fields: map<string, FieldKind>
    var texts: map<string, string>

    constructor (fields: map<string, FieldKind>, texts: map<string, string>)
      ensures this.fields == fields && this.texts == texts
    {
      this.fields := fields;
      this.texts := texts;
    }

    /**
     * The fill step of `POST`: for each mapping entry with a column, look the
     * field up (a missing one is reported and skipped), take the person's
     * value (a missing or empty one is skipped), format it, and write it when
     * the field is a text field.
     */
    method Fill(fieldMapping: seq<(string, string)>, personData: Record,
                parseDate: string -> Option<Formatting.CalendarDate>) returns (failed: seq<string>)
      modifies this
      ensures texts == Filled(old(texts), fields, fieldMapping, personData, parseDate)
      ensures failed == Failures(fields, fieldMapping)
    {
      failed := [];
      var i := 0;
      while i < |fieldMapping|
        invariant 0 <= i <= |fieldMapping|
        invariant texts == Filled(old(texts), fields, fieldMapping[..i], personData, parseDate)
        invariant failed == Failures(fields, fieldMapping[..i])
      {
        FillStepAt(old(texts), fields, fieldMapping, i, personData, parseDate);
        ghost var before := texts;
        var (pdfFieldName, sheetColumn) := fieldMapping[i];
        if sheetColumn != "" {
          if pdfFieldName !in fields {
            failed := failed + [pdfFieldName];
          } else {
            var field := fields[pdfFieldName];
            var value := Get(personData, sheetColumn);
            if value.Some? && value.value != "" {
              var formatted := InlineAutoFormat(pdfFieldName, value.value, parseDate);
              if field == TextField {
                texts := texts[pdfFieldName := formatted];
              }
            }
          }
        }
        assert texts == FillEntry(before, fields, fieldMapping[i], personData, parseDate);
        i := i + 1;
      }
      assert fieldMapping[..i] == fieldMapping;
    }
  }

  // ---------------------------------------------------------------------------
  // What filling does

  /** One more entry of the loop: `Filled` and `Failures` of the first `i + 1` entries, unfolded. */
  lemma FillStepAt(texts: map<string, string>, fields: map<string, FieldKind>, mapping: seq<(string, string)>,
                   i: nat, personData: Record, parseDate: string -> Option<Formatting.CalendarDate>)
    requires i < |mapping|
    ensures Filled(texts, fields, mapping[..i + 1], personData, parseDate)
         == FillEntry(Filled(texts, fields, mapping[..i], personData, parseDate), fields, mapping[i], personData, parseDate)
    ensures Failures(fields, mapping[..i + 1])
         == Failures(fields, mapping[..i]) + (if mapping[i].1 != "" && mapping[i].0 !in fields then [mapping[i].0] else [])
  {
    assert mapping[..i + 1][..i] == mapping[..i];
  }

  lemma {:induction false} FilledAppend(texts: map<string, string>, fields: map<string, FieldKind>,
                                        a: seq<(string, string)>, b: seq<(string, string)>,
                                        personData: Record, parseDate: string -> Option<Formatting.CalendarDate>)
    ensures Filled(texts, fields, a + b, personData, parseDate)
         == Filled(Filled(texts, fields, a, personData, parseDate), fields, b, personData, parseDate)
    decreases |b|
  {
    if b == [] {
      assert a + b == a;
    } else {
      var n := |b| - 1;
      assert (a + b)[..|a + b| - 1] == a + b[..n];
      FilledAppend(texts, fields, a, b[..n], personData, parseDate);
    }
  }

  /**
   * An entry that writes nothing (no column, no value, no such field, or a
   * field that is not a text field) can be taken out: the other entries fill
   * exactly as before, so a field that fails stops none of the others.
   */
  lemma SkippedEntryIrrelevant(texts: map<string, string>, fields: map<string, FieldKind>,
                               mapping: seq<(string, string)>, i: nat,
                               personData: Record, parseDate: string -> Option<Formatting.CalendarDate>)
    requires i < |mapping| && !Writes(fields, mapping[i], personData)
    ensures Filled(texts, fields, mapping[..i] + mapping[i + 1..], personData, parseDate)
         == Filled(texts, fields, mapping, personData, parseDate)
  {
    var a, b := mapping[..i], mapping[i + 1..];
    assert mapping == (a + [mapping[i]]) + b;
    FilledAppend(texts, fields, a + [mapping[i]], b, personData, parseDate);
    FilledAppend(texts, fields, a, b, personData, parseDate);
    assert (a + [mapping[i]])[..|a|] == a;
  }

  /** A name the mapping does not mention keeps its text. */
  lemma {:induction false} FilledUnmentioned(texts: map<string, string>, fields: map<string, FieldKind>,
                                             mapping: seq<(string, string)>, name: string,
                                             personData: Record, parseDate: string -> Option<Formatting.CalendarDate>)
    requires name !in Keys(mapping)
    ensures var r := Filled(texts, fields, mapping, personData, parseDate);
      (name in r <==> name in texts) && (name in r ==> r[name] == texts[name])
    decreases |mapping|
  {
    if mapping != [] {
      var n := |mapping| - 1;
      KeysPrefix(mapping, n);
      FilledUnmentioned(texts, fields, mapping[..n], name, personData, parseDate);
    }
  }

  /** Every text the loop changes or adds belongs to a text field. */
  lemma {:induction false} FilledOnlyText(texts: map<string, string>, fields: map<string, FieldKind>,
                                          mapping: seq<(string, string)>, name: string,
                                          personData: Record, parseDate: string -> Option<Formatting.CalendarDate>)
    requires var r := Filled(texts, fields, mapping, personData, parseDate);
      name in r && (name !in texts || r[name] != texts[name])
    ensures name in fields && fields[name] == TextField
    decreases |mapping|
  {
    var n := |mapping| - 1;
    var before := Filled(texts, fields, mapping[..n], personData, parseDate);
    if !(Writes(fields, mapping[n], personData) && mapping[n].0 == name) {
      FilledOnlyText(texts, fields, mapping[..n], name, personData, parseDate);
    }
  }

  /**
   * With each field named once, the text of a mapped field is the formatted
   * value of its column when the loop writes it, and its old text otherwise.
   */
  lemma {:induction false} FilledEntry(texts: map<string, string>, fields: map<string, FieldKind>,
                                       mapping: seq<(string, string)>, i: nat,
                                       personData: Record, parseDate: string -> Option<Formatting.CalendarDate>)
    requires Distinct(Keys(mapping)) && i < |mapping|
    ensures var r := Filled(texts, fields, mapping, personData, parseDate);
      var name := mapping[i].0;
      if Writes(fields, mapping[i], personData) then
        name in r && r[name] == InlineAutoFormat(name, EntryValue(mapping[i], personData).value, parseDate)
      else
        (name in r <==> name in texts) && (name in r ==> r[name] == texts[name])
    decreases |mapping|
  {
    var n := |mapping| - 1;
    KeysPrefix(mapping, n);
    DistinctPrefix(Keys(mapping), n);
    if i == n {
      assert Keys(mapping)[n] !in Keys(mapping)[..n];
      FilledLast(texts, fields, mapping, personData, parseDate);
    } else {
      assert mapping[..n][i] == mapping[i];
      assert Keys(mapping)[i] != Keys(mapping)[n];
      FilledEntry(texts, fields, mapping[..n], i, personData, parseDate);
    }
  }

  /** The last entry decides its field when no earlier entry names it. */
  lemma FilledLast(texts: map<string, string>, fields: map<string, FieldKind>,
                   mapping: seq<(string, string)>,
                   personData: Record, parseDate: string -> Option<Formatting.CalendarDate>)
    requires |mapping| > 0 && mapping[|mapping| - 1].0 !in Keys(mapping[..|mapping| - 1])
    ensures var r := Filled(texts, fields, mapping, personData, parseDate);
      var entry := mapping[|mapping| - 1];
      if Writes(fields, entry, personData) then
        entry.0 in r && r[entry.0] == InlineAutoFormat(entry.0, EntryValue(entry, personData).value, parseDate)
      else
        (entry.0 in r <==> entry.0 in texts) && (entry.0 in r ==> r[entry.0] == texts[entry.0])
  {
    var n := |mapping| - 1;
    FilledUnmentioned(texts, fields, mapping[..n], mapping[n].0, personData, parseDate);
  }

  /** Every failure reported names a mapped entry with a column and no such field, and every such entry is reported. */
  lemma {:induction false} FailuresComplete(fields: map<string, FieldKind>, mapping: seq<(string, string)>, i: nat)
    requires i < |mapping| && mapping[i].1 != "" && mapping[i].0 !in fields
    ensures mapping[i].0 in Failures(fields, mapping)
    decreases |mapping|
  {
    var n := |mapping| - 1;
    if i < n {
      assert mapping[..n][i] == mapping[i];
      FailuresComplete(fields, mapping[..n], i);
    }
  }

  // ---------------------------------------------------------------------------
  // Keys of a prefix

  lemma KeysPrefix(mapping: seq<(string, string)>, n: nat)
    requires n <= |mapping|
    ensures Keys(mapping[..n]) == Keys(mapping)[..n]
  {
    assert forall k :: 0 <= k < n ==> Keys(mapping[..n])[k] == mapping[k].0;
  }

  lemma DistinctPrefix(ks: seq<string>, n: nat)
    requires n <= |ks| && Distinct(ks)
    ensures Distinct(ks[..n])
  {
  }
}
