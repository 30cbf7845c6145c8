/**
 * `parseCSV` of app/api/parse-spreadsheet/route.ts, copied unchanged into
 * app/api/load-default-csv/route.ts: the text is split into lines first and
 * every non-blank line is tokenized on its own, so a quoted field cannot span
 * lines.
 */
module SpreadsheetCsv {
  import opened Text
  import opened Grid

  /** Drops one carriage return at the end of a line. */
  function DropCR(s: string): string {
    if s != [] && s[|s| - 1] == '\r' then s[..|s| - 1] else s
  }

  /** `text.split(/\r?\n/)`, where `line` is the line read so far. */
  function SplitFrom(text: string, line: string): (lines: seq<string>)
    ensures |lines| >= 1
    decreases |text|
  {
    if text == [] then [line]
    else if text[0] == '\n' then [DropCR(line)] + SplitFrom(text[1..], "")
    else SplitFrom(text[1..], line + [text[0]])
  }

  function SplitLines(text: string): seq<string> {
    SplitFrom(text, "")
  }

  /**
   * The raw (untrimmed) fields of the rest `s` of a line, in quote state
   * `inQuotes`, with `current` the field read so far. Inside quotes `""` is
   * one literal quote; any other `"` toggles the state and is dropped; a comma
   * outside quotes ends the field.
   */
  function Tokens(s: string, inQuotes: bool, current: string): (fields: seq<string>)
    ensures |fields| >= 1
    decreases |s|
  {
    if s == [] then [current]
    else if s[0] == '"' then
      if inQuotes && |s| > 1 && s[1] == '"' then Tokens(s[2..], inQuotes, current + "\"")
      else Tokens(s[1..], !inQuotes, current)
    else if s[0] == ',' && !inQuotes then [current] + Tokens(s[1..], inQuotes, "")
    else Tokens(s[1..], inQuotes, current + [s[0]])
  }

  function TrimAll(fields: seq<string>): (trimmed: seq<string>)
    ensures |trimmed| == |fields|
    ensures forall k :: 0 <= k < |fields| ==> trimmed[k] == Trim(fields[k])
  {
    if fields == [] then [] else [Trim(fields[0])] + TrimAll(fields[1..])
  }

  /** The row one line yields: its fields, each trimmed when it is closed. */
  function LineFields(line: string): seq<string> {
    TrimAll(Tokens(line, false, ""))
  }

  /** The number of commas in `s` that stand outside quotes. */
  function OutsideCommas(s: string, inQuotes: bool): nat
    decreases |s|
  {
    if s == [] then 0
    else if s[0] == '"' then
      if inQuotes && |s| > 1 && s[1] == '"' then OutsideCommas(s[2..], inQuotes)
      else OutsideCommas(s[1..], !inQuotes)
    else (if s[0] == ',' && !inQuotes then 1 else 0) + OutsideCommas(s[1..], inQuotes)
  }

  /** The rows of the first lines of `lines`: one per line whose trim is not empty. */
  function RowsOf(lines: seq<string>): Matrix
    decreases |lines|
  {
    if lines == [] then []
    else
      var last := lines[|lines| - 1];
      RowsOf(lines[..|lines| - 1]) + (if Trim(last) == "" then [] else [LineFields(last)])
  }

  /** The lines whose trim is not empty, in order. */
  function NonBlank(lines: seq<string>): (kept: seq<string>)
    ensures |kept| <= |lines|
    decreases |lines|
  {
    if lines == [] then []
    else
      var last := lines[|lines| - 1];
      NonBlank(lines[..|lines| - 1]) + (if Trim(last) == "" then [] else [last])
  }

  /** The lines kept are exactly the lines whose trim is not empty. */
  lemma {:induction false} NonBlankExact(lines: seq<string>)
    ensures forall l :: l in NonBlank(lines) <==> l in lines && Trim(l) != ""
    decreases |lines|
  {
    if lines != [] {
      var init, last := lines[..|lines| - 1], lines[|lines| - 1];
      NonBlankExact(init);
      assert lines == init + [last];
    }
  }

  /**
   * The blank-line filter keeps order and multiplicity: it keeps a single
   * line iff its trim is non-empty, and it distributes over concatenation.
   */
  lemma {:induction false} NonBlankFilter(a: seq<string>, b: seq<string>, line: string)
    ensures NonBlank([line]) == if Trim(line) == "" then [] else [line]
    ensures NonBlank(a + b) == NonBlank(a) + NonBlank(b)
    decreases |b|
  {
    NonBlankSnoc([], line);
    assert [] + [line] == [line];
    if b == [] {
      assert a + b == a;
    } else {
      var b', x := b[..|b| - 1], b[|b| - 1];
      NonBlankFilter(a, b', line);
      NonBlankSnoc(b', x);
      NonBlankSnoc(a + b', x);
      assert b == b' + [x];
      ConcatAssoc(a, b', [x]);
      ConcatAssoc(NonBlank(a), NonBlank(b'), if Trim(x) == "" then [] else [x]);
    }
  }

  lemma NonBlankSnoc(init: seq<string>, line: string)
    ensures NonBlank(init + [line]) == NonBlank(init) + (if Trim(line) == "" then [] else [line])
  {
    assert (init + [line])[..|init|] == init;
  }

  /** What `parseCSV(text)` returns. */
  function CsvRows(text: string): Matrix {
    RowsOf(SplitLines(text))
  }

  /** The character loop over one line. */
  method TokenizeLine(line: string) returns (row: seq<string>)
    ensures row == LineFields(line)
  {
    row := [];
    ghost var raw: seq<string> := [];
    var current := "";
    var inQuotes := false;
    var i := 0;
    assert line[i..] == line;
    while i < |line|
      invariant 0 <= i <= |line|
      invariant raw + Tokens(line[i..], inQuotes, current) == Tokens(line, false, "")
      invariant row == TrimAll(raw)
    {
      ghost var rest := line[i..];
      assert rest[1..] == line[i + 1..];
      var c := line[i];
      if c == '"' {
        if inQuotes && i + 1 < |line| && line[i + 1] == '"' {
          // Escaped quote
          assert rest[2..] == line[i + 2..];
          current := current + "\"";
          i := i + 1;
        } else {
          inQuotes := !inQuotes;
        }
      } else if c == ',' && !inQuotes {
        TrimAllSnoc(raw, current);
        row := row + [Trim(current)];
        raw := raw + [current];
        current := "";
      } else {
        current := current + [c];
      }
      i := i + 1;
    }
    TrimAllSnoc(raw, current);
    row := row + [Trim(current)];
  }

  lemma {:induction false} TrimAllSnoc(fields: seq<string>, f: string)
    ensures TrimAll(fields + [f]) == TrimAll(fields) + [Trim(f)]
  {
  }

  /** `parseCSV`: split into lines, skip blank lines, tokenize the rest. */
  method ParseCsv(text: string) returns (rows: Matrix)
    ensures rows == CsvRows(text)
  {
    var lines := SplitLines(text);
    rows := [];
    for j := 0 to |lines|
      invariant rows == RowsOf(lines[..j])
    {
      var line := lines[j];
      assert lines[..j + 1][..j] == lines[..j];
      if Trim(line) != "" {
        var row := TokenizeLine(line);
        rows := rows + [row];
      }
    }
    assert lines[..|lines|] == lines;
  }

  /** A line has one field more than it has commas outside quotes. */
  lemma {:induction false} TokensCount(s: string, inQuotes: bool, current: string)
    ensures |Tokens(s, inQuotes, current)| == 1 + OutsideCommas(s, inQuotes)
    decreases |s|
  {
    if s == [] {
    } else if s[0] == '"' {
      if inQuotes && |s| > 1 && s[1] == '"' {
        TokensCount(s[2..], inQuotes, current + "\"");
      } else {
        TokensCount(s[1..], !inQuotes, current);
      }
    } else if s[0] == ',' && !inQuotes {
      TokensCount(s[1..], inQuotes, "");
    } else {
      TokensCount(s[1..], inQuotes, current + [s[0]]);
    }
  }

  /**
   * Every row `parseCSV` returns has 1 + (commas outside quotes) fields, hence
   * at least one, and each field is trimmed.
   */
  lemma LineFieldsShape(line: string)
    ensures |LineFields(line)| == 1 + OutsideCommas(line, false)
    ensures forall k :: 0 <= k < |LineFields(line)| ==> IsTrimmed(LineFields(line)[k])
  {
    var raw := Tokens(line, false, "");
    TokensCount(line, false, "");
    forall k | 0 <= k < |raw| ensures IsTrimmed(TrimAll(raw)[k]) {
      assert TrimAll(raw)[k] == Trim(raw[k]);
      TrimTrimmed(raw[k]);
    }
  }

  /**
   * `parseCSV` yields exactly one row per line whose trim is not empty, in
   * line order, and that row is the line's fields.
   */
  lemma {:induction false} RowsPerLine(lines: seq<string>)
    ensures |RowsOf(lines)| == |NonBlank(lines)|
    ensures forall k :: 0 <= k < |RowsOf(lines)| ==> RowsOf(lines)[k] == LineFields(NonBlank(lines)[k])
    decreases |lines|
  {
    if lines != [] {
      RowsPerLine(lines[..|lines| - 1]);
    }
  }

  lemma CsvRowsPerLine(text: string)
    ensures |CsvRows(text)| == |NonBlank(SplitLines(text))|
    ensures forall k :: 0 <= k < |CsvRows(text)| ==>
      CsvRows(text)[k] == LineFields(NonBlank(SplitLines(text))[k])
    ensures forall k :: 0 <= k < |CsvRows(text)| ==>
      |CsvRows(text)[k]| >= 1 && forall j :: 0 <= j < |CsvRows(text)[k]| ==> IsTrimmed(CsvRows(text)[k][j])
  {
    var lines := SplitLines(text);
    RowsPerLine(lines);
    forall k | 0 <= k < |CsvRows(text)|
      ensures |CsvRows(text)[k]| >= 1 && forall j :: 0 <= j < |CsvRows(text)[k]| ==> IsTrimmed(CsvRows(text)[k][j])
    {
      LineFieldsShape(NonBlank(lines)[k]);
    }
  }
}
