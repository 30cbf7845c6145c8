# form-filler, modelled in Dafny

form-filler is a small web app that fills PDF forms from spreadsheet rows. It has four parts, and this project models and proves each one:

- **Loading a sheet.** The app reads a CSV file into rows. It works out whether the sheet is transposed, with one column per provider and attribute rows. It then builds one record per provider and drops the providers marked "termed". This covers `app/api/parse-spreadsheet/route.ts` and its copy `app/api/load-default-csv/route.ts`.
- **The conversion script.** `convert-transposed-csv.js` turns a transposed sheet into the standard layout. It has its own multi-line CSV reader, a transposer and a CSV writer.
- **Per-field formatting and validation.** This covers `app/utils/formatting.ts` and `app/utils/validation.ts`. The fill route has a different inline `autoFormat`. Its loop writes a person's values into the text fields of a form (`app/api/fill-pdf/route.ts`).
- **The browser store** of mapping templates and of the history of filled forms (`app/utils/storage.ts`).

Modules:

- `Wrappers`: Option and Result.
- `Text`: what the source relies on of JavaScript strings:
  - ASCII `trim`, `toLowerCase` and `toUpperCase`;
  - `includes`;
  - stripping non-digits with `replace(/\D/g, '')`;
  - decimal text.
- `Records`: a `Record<string, string>` as an insertion-ordered list of pairs.
- `Grid`: the raw matrix and its attribute rows.
- `SpreadsheetCsv`: the line-based `parseCSV` of the two routes.
- `Normalize`: the detector, the transposed and standard record builders, the termed filter and the handler.
- `ConvertScript`: the script.
- `Interop`: what the app's loader makes of the script's output.
- `Formatting`, `Validation`, `FillPdf` and `Storage`.

The code is written imperatively in some places, and the model is imperative in the same places:

- The character loops and the transposers are methods with loop invariants. Both parsers, both transposers and the fill loop are proved against functions over their inputs.
- The store is a class, `Storage.MappingStore`, whose two fields hold the template list and the history list.
- The rest is functions and lemmas.

The code has three classification orders, and the model follows the code:

- `formatting.ts` chooses phone, date, state, ZIP, e-mail.
- `validation.ts` chooses e-mail, phone, ZIP, state.
- The fill route's inline `autoFormat` tries phone, date, ZIP and e-mail. Each rule that does not apply falls through to the next.

`Validation.EmailPhoneFieldDisagree` proves that the two utility files classify the same field name differently.

## Model

| member | source | states |
|---|---|---|
| Records.Put | app/api/parse-spreadsheet/route.ts:145 | `person[key] = value` binds the key to the value, leaves every other key's value alone, keeps an existing key in place and appends a new one |
| Records.GetPutAll | app/api/parse-spreadsheet/route.ts:140-146 | after a run of assignments a key holds its last assigned value, or its value before the run |
| Records.KeysPutAll | app/api/parse-spreadsheet/route.ts:140-146 | after a run of assignments the keys are the old keys followed by the new ones in first-assignment order |
| Grid.AttributeRowsExact | app/api/parse-spreadsheet/route.ts:126 | the attribute rows are exactly the rows after the first whose first cell is non-blank |
| Grid.LabelledRowsFilter | app/api/parse-spreadsheet/route.ts:126 | the attribute-row filter keeps order and multiplicity: a single row is kept iff it has a label, and the filter distributes over concatenation |
| Grid.Labels | convert-transposed-csv.js:88 | one label per attribute row: its trimmed first cell |
| SpreadsheetCsv.TokenizeLine | app/api/parse-spreadsheet/route.ts:162-189 | the character loop over a line yields exactly the line's quote-aware fields, each trimmed |
| SpreadsheetCsv.ParseCsv | app/api/parse-spreadsheet/route.ts:155-193 | the loop over the lines returns the rows of the non-blank lines, the blank ones skipped |
| SpreadsheetCsv.TokensCount | app/api/parse-spreadsheet/route.ts:166-188 | a line has exactly one field more than it has commas outside quotes |
| SpreadsheetCsv.LineFieldsShape | app/api/parse-spreadsheet/route.ts:178-188 | every row has 1 + (commas outside quotes) fields and every field is trimmed |
| SpreadsheetCsv.NonBlankExact | app/api/parse-spreadsheet/route.ts:157-160 | the lines kept are exactly those whose trim is non-empty |
| SpreadsheetCsv.NonBlankFilter | app/api/parse-spreadsheet/route.ts:157-160 | the blank-line skip keeps order and multiplicity: a single line is kept iff its trim is non-empty, and the skip distributes over concatenation |
| SpreadsheetCsv.RowsPerLine | app/api/parse-spreadsheet/route.ts:157-160 | exactly one row per non-blank line, in line order |
| SpreadsheetCsv.CsvRowsPerLine | app/api/load-default-csv/route.ts:151-189 | `parseCSV` of the loader: one row per non-blank line, each with at least one field, all fields trimmed |
| Normalize.DetectTransposed | app/api/parse-spreadsheet/route.ts:96-117 | transposed iff there are two or more rows, the first cell reads `column 1`, `name` or blank, the second row has a label, and the first row has more than three cells |
| Normalize.KeptIndices | app/api/parse-spreadsheet/route.ts:131-133 | every converted provider column is in range and has a non-empty name free of "termed" |
| Normalize.KeptIndicesIncreasing | app/api/parse-spreadsheet/route.ts:129-133 | the converted provider columns are listed in column order |
| Normalize.KeptIndicesComplete | app/api/parse-spreadsheet/route.ts:131-133 | every provider column with a non-empty name free of "termed" is converted |
| Normalize.ConvertTransposed | app/api/parse-spreadsheet/route.ts:120-152 | the nested loops return exactly the records of the kept provider columns |
| Normalize.PeopleFromIndices | app/api/parse-spreadsheet/route.ts:131-149 | the k-th record is the record of the k-th kept column |
| Normalize.TransposedOrder | app/api/parse-spreadsheet/route.ts:120-152 | one record per kept provider column, in column order, never more than the provider columns |
| Normalize.TransposedPersonKeys | app/api/parse-spreadsheet/route.ts:135-146 | a transposed record's keys are `Name` followed by the labels, each once, with `Name` first |
| Normalize.TransposedKeys | app/api/parse-spreadsheet/route.ts:120-152 | every transposed record has the same keys in the same order |
| Normalize.TransposedPersonGet | app/api/parse-spreadsheet/route.ts:135-146 | a key's value is the trimmed cell of the last attribute row with that label; for `Name` with no such row it is the provider name; otherwise the key is absent |
| Normalize.NameRowOverwrites | app/api/parse-spreadsheet/route.ts:135-145 | an attribute row labelled `Name` replaces the provider name |
| Normalize.Headers | app/api/parse-spreadsheet/route.ts:57 | every header is non-empty and trimmed and is the trimmed text of some header cell, and every non-blank header cell is among them |
| Normalize.HeadersInOrder | app/api/parse-spreadsheet/route.ts:57 | the k-th header is the trimmed cell of the k-th non-blank column, the columns are increasing, and no non-blank column is skipped |
| Normalize.HeadersEmpty | app/api/parse-spreadsheet/route.ts:57-64 | no header is left iff every header cell is blank |
| Normalize.ContentRowsExact | app/api/parse-spreadsheet/route.ts:68 | the data rows kept are exactly those with a non-blank cell |
| Normalize.ContentRowsFilter | app/api/parse-spreadsheet/route.ts:68 | the blank-row filter keeps order and multiplicity: a single row is kept iff it has a non-blank cell, and the filter distributes over concatenation |
| Normalize.HeaderPairs | app/api/parse-spreadsheet/route.ts:71-73 | the k-th header gets the trimmed k-th cell of the row, or `''` |
| Normalize.StandardShape | app/api/parse-spreadsheet/route.ts:57-75 | the standard path fails iff no header is left; otherwise there is one record per kept row and each has the headers as keys |
| Normalize.StandardPersonBinding | app/api/parse-spreadsheet/route.ts:71-73 | with distinct headers the record is the header/cell pairs in header order; blank headers shift the later ones onto earlier cells |
| Normalize.StandardPersonGet | app/api/parse-spreadsheet/route.ts:71-73 | a header's value is the trimmed cell of its last column, so with a repeated header the later column wins |
| Normalize.ActivePeopleExact | app/api/parse-spreadsheet/route.ts:79-83 | the kept records are exactly those whose name value does not mention "termed" in any case |
| Normalize.ActivePeopleFilter | app/api/parse-spreadsheet/route.ts:79-83 | the termed filter keeps order and multiplicity: a single record is kept iff its name value does not mention "termed", and the filter distributes over concatenation |
| Normalize.NamelessKept | app/api/parse-spreadsheet/route.ts:80-82 | a record with none of the four name keys set is kept |
| Normalize.NormalizedActive | app/api/parse-spreadsheet/route.ts:43-83 | no returned record mentions "termed"; the handler fails iff the sheet is standard and its header row is blank |
| Normalize.PeopleOf | app/api/parse-spreadsheet/route.ts:43-83 | the handler's branch on the detector returns the normalised records or the header error |
| Normalize.LoadCsv | app/api/load-default-csv/route.ts:35-75 | parsing then normalising the default CSV gives the normalised records of its rows |
| ConvertScript.ParseContent | convert-transposed-csv.js:23-70 | the reader's character loop returns exactly the rows of the scan of the file |
| ConvertScript.ScanShape | convert-transposed-csv.js:41-70 | every emitted row has a non-empty cell and only trimmed cells |
| ConvertScript.ScanRowsShape | convert-transposed-csv.js:23-70 | every row read from a file has a non-empty cell and only trimmed cells |
| ConvertScript.CrLfOnce | convert-transposed-csv.js:56-58 | outside quotes `\r\n` ends one row, exactly as `\n` does |
| ConvertScript.LoneCrBreaks | convert-transposed-csv.js:45-58 | outside quotes a lone `\r` ends a row as `\n` does |
| ConvertScript.QuotedBreak | convert-transposed-csv.js:45-61 | inside quotes a line break is part of the field |
| ConvertScript.Transpose | convert-transposed-csv.js:79-105 | the provider loop returns the header row followed by the rows of the provider columns not named `TERM>` |
| ConvertScript.ProviderRow | convert-transposed-csv.js:96-102 | the inner loop gives the provider name followed by its trimmed value on each attribute row |
| ConvertScript.ProviderValuesAt | convert-transposed-csv.js:99-102 | value j of a provider is the trimmed cell i+1 of attribute row j, or `''` |
| ConvertScript.ConvertedColumns | convert-transposed-csv.js:92-94 | the columns that get a row are in range and not named `TERM>` |
| ConvertScript.ConvertedColumnsComplete | convert-transposed-csv.js:92-94 | every column not named `TERM>` gets a row |
| ConvertScript.ConvertedColumnsIncreasing | convert-transposed-csv.js:92-94 | the rows come in column order |
| ConvertScript.ProviderRowsAt | convert-transposed-csv.js:92-105 | the k-th provider row belongs to the k-th converted column |
| ConvertScript.ProviderNameTrimmed | convert-transposed-csv.js:93 | a provider name is never empty and is trimmed: the trimmed header cell or `Provider n` |
| ConvertScript.TransposeRows | convert-transposed-csv.js:79-105 | the output is `Name` plus the labels, then one row per converted column in order |
| ConvertScript.TransposeCell | convert-transposed-csv.js:99-102 | cell j+1 of a provider row is the trimmed cell of attribute row j under that provider |
| ConvertScript.ProviderRowRead | convert-transposed-csv.js:96-102 | a provider row is as wide as the header and reads back as a row |
| ConvertScript.HeaderRowRead | convert-transposed-csv.js:88 | the header row reads back as a row |
| ConvertScript.TransposeRead | convert-transposed-csv.js:79-105 | the output is rectangular and every row reads back as a row |
| ConvertScript.TransposeComplete | convert-transposed-csv.js:92-105 | every column not named `TERM>` has its row in the output |
| ConvertScript.SerializeRoundTrip | convert-transposed-csv.js:108-116 | the script's reader reads what its writer wrote back as the same rows, for trimmed rows without `\r` that have a non-empty cell |
| ConvertScript.Convert | convert-transposed-csv.js:20-118 | the script fails iff the reader finds no row; otherwise it writes the transposed rows |
| ConvertScript.ConvertReadsBack | convert-transposed-csv.js:108-116 | without `\r` in the input cells, the output reads back as exactly the rows written |
| ConvertScript.NoLineBreak | convert-transposed-csv.js:88-101 | a line break that no input cell holds appears in no output cell |
| Interop.RowTokens | app/api/parse-spreadsheet/route.ts:166-188 | the loader's tokenizer splits an encoded row back into its cells |
| Interop.SplitJoin | app/api/parse-spreadsheet/route.ts:157 | `split(/\r?\n/)` undoes `join('\n')` for parts without line breaks |
| Interop.LineOfRow | app/api/parse-spreadsheet/route.ts:159-189 | an encoded loadable row is a non-blank line that reads back as the row |
| Interop.LoaderReadsBack | app/api/parse-spreadsheet/route.ts:155-193 | `parseCSV` reads the script's output back as the rows written, for trimmed rows with a non-empty cell and no line break in any cell |
| Interop.ConvertedLoads | convert-transposed-csv.js:108-116 | a converted sheet without line breaks in its cells loads into the app as the script's rows |
| Interop.ConvertedDetectedTransposed | app/api/parse-spreadsheet/route.ts:96-117 | the script's output for a sheet with at least three attributes and one converted provider is taken for a transposed sheet and transposed a second time |
| Formatting.FormatPhoneNumber | app/utils/formatting.ts:3-18 | empty gives empty, only empty gives empty, formatting never changes the digits, and a number with neither ten digits nor eleven starting with `1` is returned unchanged |
| Formatting.FormatPhoneCases | app/utils/formatting.ts:10-14 | ten digits give `(ddd) ddd-dddd` and eleven starting with `1` give `+1 (ddd) ddd-dddd`, each digit group in place and in order |
| Formatting.PhoneTextDigits | app/utils/formatting.ts:10-11 | `(ddd) ddd-dddd` holds exactly the ten digits it was made from |
| Formatting.IntlPhoneTextDigits | app/utils/formatting.ts:12-13 | `+1 (ddd) ddd-dddd` holds exactly the eleven digits it was made from |
| Formatting.FormatPhoneIdempotent | app/utils/formatting.ts:3-18 | formatting a formatted phone number changes nothing |
| Formatting.FormatDate | app/utils/formatting.ts:20-36 | empty gives empty; a date that does not parse is returned unchanged; a parsed date gives its `MM/DD/YYYY` text |
| Formatting.FormatDateReadsBack | app/utils/formatting.ts:24-32 | for text that parses to a date, the result has slashes at 2 and 5, the month and day read back from the two-digit fields, and the year follows |
| Formatting.Pad2Value | app/utils/formatting.ts:28-29 | a month or day padded to two digits reads back as itself |
| Formatting.DateTextReadsBack | app/utils/formatting.ts:27-32 | `MM/DD/YYYY` has its slashes at 2 and 5, and the month and day read back from it |
| Formatting.Lookup | app/utils/formatting.ts:66 | a found abbreviation is the table's entry for the key; nothing found means no entry has that key |
| Formatting.AbbreviationUpper | app/utils/formatting.ts:42-56 | every abbreviation in the table is already upper case |
| Formatting.FormatState | app/utils/formatting.ts:38-67 | empty gives empty; any input of raw length two is upper-cased |
| Formatting.FormatStateCases | app/utils/formatting.ts:58-66 | otherwise the result is the table's abbreviation of the trimmed lower-cased name, or the input when the table has no such name |
| Formatting.FormatStateIdempotent | app/utils/formatting.ts:38-67 | formatting a formatted state changes nothing |
| Formatting.ZipTextDigits | app/utils/formatting.ts:78-79 | `ddddd-dddd` holds exactly the nine digits it was made from |
| Formatting.FormatZipCode | app/utils/formatting.ts:69-83 | empty gives empty, only empty gives empty, formatting never changes the digits, five digits give the bare digits, and any count other than five or nine returns the input unchanged |
| Formatting.FormatZipNine | app/utils/formatting.ts:78-79 | nine digits give `ddddd-dddd`, the two groups in place and in order |
| Formatting.FormatZipIdempotent | app/utils/formatting.ts:69-83 | formatting a formatted ZIP code changes nothing |
| Formatting.FormatEmail | app/utils/formatting.ts:85-88 | empty gives empty; the result is the lower-cased input with only whitespace removed at either end, so it is trimmed and holds no upper-case letter |
| Formatting.LowerTrimNoUpper | app/utils/formatting.ts:87 | lower-casing then trimming leaves no upper-case letter |
| Formatting.FormatEmailIdempotent | app/utils/formatting.ts:85-88 | formatting a formatted address changes nothing |
| Formatting.AutoFormat | app/utils/formatting.ts:91-117 | an empty value stays empty; a field name with no rule word leaves the value unchanged; the rule cases are in `Formatting.AutoFormatDispatch` |
| Formatting.AutoFormatDispatch | app/utils/formatting.ts:94-116 | a non-empty value of a field whose lower-cased name says phone or tel is formatted as a phone number, else date as a date, else state without license as a state, else zip or postal as a ZIP code, else email as an address, else left unchanged |
| Formatting.AutoFormatIdempotent | app/utils/formatting.ts:91-117 | for every rule but the date rule, formatting twice equals formatting once |
| Formatting.AutoFormatDigits | app/utils/formatting.ts:96-110 | phone and ZIP fields keep their digits |
| Validation.EmailRegexShape | app/utils/validation.ts:13 | the regex accepts exactly these addresses: no whitespace; one `@` with text before it; after it a `.` that is neither the first nor the last character |
| Validation.ValidateEmail | app/utils/validation.ts:8-19 | valid iff empty or well formed; otherwise invalid with "Invalid email format" |
| Validation.ValidatePhone | app/utils/validation.ts:21-32 | valid iff empty or 10 to 11 digits; otherwise invalid with "Phone number must be 10-11 digits" |
| Validation.ValidateZipCode | app/utils/validation.ts:34-45 | valid iff empty or 5 or 9 digits; otherwise invalid with "ZIP code must be 5 or 9 digits" |
| Validation.ValidateState | app/utils/validation.ts:47-66 | every state value is valid, without an error |
| Validation.ValidateField | app/utils/validation.ts:68-92 | the empty value is valid; a rejection always carries a message and comes from the e-mail, phone or ZIP check; state fields and fields with no rule accept every value; the rule cases are in `Validation.ValidateFieldDispatch` |
| Validation.ValidateFieldDispatch | app/utils/validation.ts:73-91 | a non-empty value of a field whose lower-cased name says email is checked as an address, else phone or tel as a phone number, else zip or postal as a ZIP code, and is otherwise valid |
| Validation.EmptyIsValid | app/utils/validation.ts:9-71 | every validator, and `validateField` for every field, accepts the empty value |
| Validation.EmailFieldFirst | app/utils/validation.ts:75-77 | a name mentioning e-mail is checked as an address whatever else it says |
| Validation.ValidateFieldMessage | app/utils/validation.ts:73-91 | a rejection carries the message of the check the name selects |
| Validation.FormatPhoneKeepsValidity | app/utils/validation.ts:26-31 | formatting a phone number does not change whether it validates |
| Validation.FormatZipKeepsValidity | app/utils/validation.ts:39-44 | formatting a ZIP code does not change whether it validates |
| Validation.FormatEmailKeepsValidity | app/utils/validation.ts:13-18 | a valid address formats to its lower-cased self and stays valid |
| Validation.EmailPhoneFieldDisagree | app/utils/validation.ts:75-81 | a name mentioning both e-mail and phone is formatted as a phone number but validated as an address |
| Validation.EmailTelExample | app/utils/validation.ts:75-81 | the field "Email Tel" is one such name |
| FillPdf.InlineAutoFormat | app/api/fill-pdf/route.ts:5-45 | an empty value gives `''`; with no rule word in the name the value is returned unchanged; the rule cases are in `FillPdf.InlineDispatch` |
| FillPdf.InlineDispatch | app/api/fill-pdf/route.ts:10-44 | a non-empty value gets `(ddd) ddd-dddd` when the name says phone or tel and it has ten digits, else `MM/DD/YYYY` when the name says date and it parses, else `ddddd-dddd` when the name says zip or postal and it has nine digits, else lower-cased and trimmed when the name says email, else it is kept; a rule whose word matches but whose value does not falls through |
| FillPdf.InlineDateAgrees | app/api/fill-pdf/route.ts:19-29 | a date field whose value parses gets its `MM/DD/YYYY` text, as the shared formatter gives it |
| FillPdf.InlinePhoneAgrees | app/api/fill-pdf/route.ts:11-16 | ten digits in a phone field give `(ddd) ddd-dddd`, as the shared formatter does |
| FillPdf.InlineElevenDigits | app/api/fill-pdf/route.ts:11-16 | eleven digits starting with 1 are left unchanged here but get `+1 (ddd) ddd-dddd` from the shared formatter |
| FillPdf.InlinePhoneOnlyTen | app/api/fill-pdf/route.ts:11-16 | without later rule words, a value without exactly ten digits is unchanged |
| FillPdf.InlinePhoneFallsToZip | app/api/fill-pdf/route.ts:11-37 | in a phone and ZIP field, nine digits fall through to the ZIP layout |
| FillPdf.InlinePhoneFallsToEmail | app/api/fill-pdf/route.ts:11-42 | in a phone and e-mail field, a value without exactly ten digits is lower-cased and trimmed |
| FillPdf.InlineZipFive | app/api/fill-pdf/route.ts:32-37 | five digits in a ZIP field are left unchanged here; the shared formatter keeps only the digits |
| FillPdf.InlineZipNine | app/api/fill-pdf/route.ts:32-37 | nine digits in a ZIP field are dashed, as the shared formatter does |
| FillPdf.InlineEmailAgrees | app/api/fill-pdf/route.ts:40-42 | an e-mail field is lower-cased and trimmed, as the shared formatter does |
| FillPdf.InlineIdempotent | app/api/fill-pdf/route.ts:5-45 | outside date fields, formatting a value twice equals formatting it once |
| FillPdf.EntryValue | app/api/fill-pdf/route.ts:71-77 | a value is used only for a mapped column and only when the person has a non-empty value there |
| FillPdf.Failures | app/api/fill-pdf/route.ts:73-89 | every reported failure names a field the form does not have |
| FillPdf.Form.constructor | app/api/fill-pdf/route.ts:67 | the form starts with the given fields and texts |
| FillPdf.Form.Fill | app/api/fill-pdf/route.ts:70-90 | the loop leaves exactly the texts of the fill function and reports exactly the entries whose field lookup throws |
| FillPdf.SkippedEntryIrrelevant | app/api/fill-pdf/route.ts:70-90 | an entry that writes nothing can be removed and the other fields fill as before, so one failure stops none of the others |
| FillPdf.FilledUnmentioned | app/api/fill-pdf/route.ts:70-90 | a field no entry names keeps its text |
| FillPdf.FilledOnlyText | app/api/fill-pdf/route.ts:83-86 | every text added or changed belongs to a text field |
| FillPdf.FilledEntry | app/api/fill-pdf/route.ts:70-86 | when each field is named once, a mapped text field gets the formatted value of its column, or keeps its text when the entry is skipped |
| FillPdf.FailuresComplete | app/api/fill-pdf/route.ts:73-89 | every mapped entry naming a missing field is reported |
| Storage.FindIndex | app/utils/storage.ts:42 | the index of the first template with that name, or -1 iff there is none |
| Storage.MappingFor | app/utils/storage.ts:67-71 | `null` iff no template has that name |
| Storage.MappingStore.constructor | app/utils/storage.ts:56-64 | an empty store has no templates and no history |
| Storage.MappingStore.SaveMappingTemplate | app/utils/storage.ts:26-53 | the templates become the saved list; the history is untouched |
| Storage.MappingStore.GetMappingForPDF | app/utils/storage.ts:67-71 | returns the mappings of the first template with that name, or none |
| Storage.MappingStore.SaveToHistory | app/utils/storage.ts:74-96 | the history becomes the new entry followed by the old ones, capped at 100; the templates are untouched |
| Storage.MappingStore.ClearHistory | app/utils/storage.ts:110-112 | the history is emptied and the templates are untouched |
| Storage.MappingStore.ImportMappings | app/utils/storage.ts:121-139 | succeeds iff the text parsed; then the templates become the imported list, otherwise nothing changes |
| Storage.FindFirst | app/utils/storage.ts:42 | the first template with a name is the one `findIndex` finds |
| Storage.SaveExisting | app/utils/storage.ts:42-44 | saving under a known name keeps the length and that template's fields and `createdAt`, sets its mappings and `lastUsed`, and changes no other template |
| Storage.SaveNew | app/utils/storage.ts:33-47 | saving under a new name appends exactly one template, stamped with the two clock readings for `createdAt` and `lastUsed` |
| Storage.MappingAfterSave | app/utils/storage.ts:42-71 | after a save the name's mappings are the saved ones, and every other name's are unchanged |
| Storage.MappingAfterImport | app/utils/storage.ts:125-131 | after an import the name has the imported mappings, every other name's mappings are unchanged, and the list grows only for a new name |
| Storage.SaveUnique | app/utils/storage.ts:42-47 | saving keeps file names unique |
| Storage.ImportUnique | app/utils/storage.ts:125-131 | importing keeps file names unique |
| Storage.HistoryPrepend | app/utils/storage.ts:89-91 | the new entry comes first, the old ones follow in order, and the length is min(old + 1, 100) |

## Left out

- Transport and I/O are not modelled:
  - request and response objects and the 400/500 answers;
  - XLSX decoding and the file-type check;
  - the `readFileSync` fallback paths of the default loader;
  - the script's file read and write, and `process.exit`;
  - console output;
  - pdf-lib's load and save.
  The models start from the text or rows those calls produce.
- Cells are strings. `String(h)` of non-string workbook cells, and non-string values in the posted person data, are not modelled.
- `new Date(text)` depends on locale and time zone. `Formatting.FormatDate` and the fill route's date rule take `parseDate` as a parameter; `None` stands for the invalid date. `Formatting.AutoFormatIdempotent` and `FillPdf.InlineIdempotent` exclude date fields for this reason.
- JavaScript details that are not modelled:
  - whitespace, lower-case and upper-case are ASCII only;
  - object keys that look like integers are not enumerated first;
  - object prototype keys are not modelled. For example, `stateMap['constructor']` is truthy in the source; here it is just a missing key.
- pdf-lib's fields are abstracted:
  - a field is a name with a kind;
  - `getField` throws exactly when the name is missing;
  - `setText` is taken never to throw, so its own limits (such as a maximum length) are not modelled;
  - `Form.fields` is fixed, because filling never adds or removes a field.
- Storage:
  - `localStorage` is always available and always holds valid JSON. A write that throws, and a corrupt stored list (which `getSavedMappings` reads as empty), are not modelled.
  - Clock readings (`toISOString`) and history ids (`Date.now` and `Math.random`) are parameters. `saveMappingTemplate` reads the clock twice, and its two readings are two parameters.
  - `JSON.parse` of an imported text is its result: a template, or `None` when the text does not parse. A parsed value that is not a template is not modelled.
  - `exportMappings` is not modelled: it is only serialisation.
- `Normalize.ConvertTransposed` does not model the source's `if (!attributeName) continue` (app/api/parse-spreadsheet/route.ts:142). Every attribute row has a non-blank label, so that branch can never fire.
- `ConvertScript.Transpose` does not model the script's `!providerName` (convert-transposed-csv.js:94). A provider name is never empty (`ConvertScript.ProviderNameTrimmed`).
- `ConvertScript.ProviderRow`: the script's inner loop is a separate method here, called from the provider loop.
- The detector can take a converted sheet for a transposed one. This is a known limitation of the heuristic and is not corrected. `Interop.ConvertedDetectedTransposed` proves when it happens.
- Not modelled: the UI (`app/page.tsx`), the Google Sheets route, field extraction with pdf-lib, and the build configuration. None of them is part of the modelled core.
