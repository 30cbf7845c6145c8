/**
 * convert-transposed-csv.js: reads a sheet whose columns are providers and
 * whose rows are attributes, and writes it back with one provider per row.
 * The file read and write become the `content` parameter and the result of
 * `Convert`.
 */
module ConvertScript {
  import opened Wrappers
  import opened Text
  import opened Grid

  // ---------------------------------------------------------------------------
  // The multi-line CSV reader

  /** `currentRow.some(cell => cell)`. */
  predicate HasNonEmpty(row: seq<string>) {
    exists k :: 0 <= k < |row| && row[k] != ""
  }

  /** The end of a row: push the trimmed field, keep the row when one of its cells is non-empty. */
  function Flush(field: string, row: seq<string>): seq<seq<string>> {
    if field != "" || |row| > 0 then
      var r := row + [Trim(field)];
      if HasNonEmpty(r) then [r] else []
    else []
  }

  /**
   * The rows the character loop emits from the remaining text `s` on, given
   * the quote state, the field and the row read so far. Outside quotes a
   * `\n` or `\r` ends the row, and `\r\n` counts once; inside quotes `""` is
   * one quote and any other character, line breaks included, is data.
   */
  function Scan(s: string, inQuotes: bool, field: string, row: seq<string>): seq<seq<string>>
    decreases |s|
  {
    if s == [] then Flush(field, row)
    else
      var c := s[0];
      if c == '"' then
        if inQuotes && |s| > 1 && s[1] == '"' then Scan(s[2..], inQuotes, field + "\"", row)
        else Scan(s[1..], !inQuotes, field, row)
      else if c == ',' && !inQuotes then Scan(s[1..], inQuotes, "", row + [Trim(field)])
      else if (c == '\n' || c == '\r') && !inQuotes then
        var skip := if c == '\r' && |s| > 1 && s[1] == '\n' then 2 else 1;
        Flush(field, row) + Scan(s[skip..], inQuotes, "", [])
      else Scan(s[1..], inQuotes, field + [c], row)
  }

  /** The rows the reader builds from the whole file. */
  function ScanRows(content: string): seq<seq<string>> {
    Scan(content, false, "", [])
  }

  /** The reader's loop over the characters of the file, with its look-ahead. */
  method ParseContent(content: string) returns (rows: Matrix)
    ensures rows == ScanRows(content)
  {
    rows := [];
    var currentRow: seq<string> := [];
    var currentField := "";
    var inQuotes := false;
    var i := 0;
    while i < |content|
      invariant 0 <= i <= |content|
      invariant rows + Scan(content[i..], inQuotes, currentField, currentRow) == ScanRows(content)
      decreases |content| - i
    {
      var c := content[i];
      ghost var pending := Scan(content[i..], inQuotes, currentField, currentRow);
      ScanAt(content, i, inQuotes, currentField, currentRow);
      if c == '"' {
        if inQuotes && i + 1 < |content| && content[i + 1] == '"' {
          assert pending == Scan(content[i + 2..], inQuotes, currentField + "\"", currentRow);
          currentField := currentField + "\"";
          i := i + 1;
        } else {
          assert pending == Scan(content[i + 1..], !inQuotes, currentField, currentRow);
          inQuotes := !inQuotes;
        }
      } else if c == ',' && !inQuotes {
        assert pending == Scan(content[i + 1..], inQuotes, "", currentRow + [Trim(currentField)]);
        currentRow := currentRow + [Trim(currentField)];
        currentField := "";
      } else if (c == '\n' || c == '\r') && !inQuotes {
        ghost var before := rows;
        ghost var emitted := Flush(currentField, currentRow);
        ghost var skip := if c == '\r' && i + 1 < |content| && content[i + 1] == '\n' then 2 else 1;
        assert pending == emitted + Scan(content[i + skip..], inQuotes, "", []);
        if currentField != "" || |currentRow| > 0 {
          currentRow := currentRow + [Trim(currentField)];
          if HasNonEmpty(currentRow) {
            rows := rows + [currentRow];
          }
          currentRow := [];
          currentField := "";
        }
        if c == '\r' && i + 1 < |content| && content[i + 1] == '\n' {
          i := i + 1;
        }
        assert rows == before + emitted;
        EmitThenScan(before, emitted, Scan(content[i + 1..], inQuotes, "", []));
      } else {
        assert pending == Scan(content[i + 1..], inQuotes, currentField + [c], currentRow);
        currentField := currentField + [c];
      }
      i := i + 1;
    }
    assert content[|content|..] == [];
    if currentField != "" || |currentRow| > 0 {
      currentRow := currentRow + [Trim(currentField)];
      if HasNonEmpty(currentRow) {
        rows := rows + [currentRow];
      }
    }
  }

  /** One step of the reader at index `i` of the file. */
  lemma ScanAt(content: string, i: nat, inQuotes: bool, field: string, row: seq<string>)
    requires i < |content|
    ensures Scan(content[i..], inQuotes, field, row) ==
      var c := content[i];
      if c == '"' then
        if inQuotes && i + 1 < |content| && content[i + 1] == '"' then Scan(content[i + 2..], inQuotes, field + "\"", row)
        else Scan(content[i + 1..], !inQuotes, field, row)
      else if c == ',' && !inQuotes then Scan(content[i + 1..], inQuotes, "", row + [Trim(field)])
      else if (c == '\n' || c == '\r') && !inQuotes then
        var skip := if c == '\r' && i + 1 < |content| && content[i + 1] == '\n' then 2 else 1;
        Flush(field, row) + Scan(content[i + skip..], inQuotes, "", [])
      else Scan(content[i + 1..], inQuotes, field + [c], row)
  {
    var s := content[i..];
    assert s[0] == content[i] && s[1..] == content[i + 1..];
    if i + 1 < |content| {
      assert s[2..] == content[i + 2..];
    }
  }

  lemma EmitThenScan(rows: seq<seq<string>>, emitted: seq<seq<string>>, later: seq<seq<string>>)
    ensures rows + (emitted + later) == (rows + emitted) + later
  {
  }

  /** A row as the reader emits it: at least one cell, one of them non-empty, every cell trimmed. */
  predicate ReadRow(row: seq<string>) {
    |row| > 0 && HasNonEmpty(row) && forall k :: 0 <= k < |row| ==> IsTrimmed(row[k])
  }

  /** Every cell pushed so far is trimmed. */
  predicate TrimmedCells(row: seq<string>) {
    forall k :: 0 <= k < |row| ==> IsTrimmed(row[k])
  }

  lemma FlushRead(field: string, row: seq<string>)
    requires TrimmedCells(row)
    ensures forall r :: r in Flush(field, row) ==> ReadRow(r)
  {
    TrimTrimmed(field);
  }

  /**
   * The reader never emits a row without a non-empty cell, and every cell it
   * emits is trimmed, whatever the text.
   */
  lemma {:induction false} ScanShape(s: string, inQuotes: bool, field: string, row: seq<string>)
    requires TrimmedCells(row)
    ensures forall r :: r in Scan(s, inQuotes, field, row) ==> ReadRow(r)
    decreases |s|
  {
    if s == [] {
      FlushRead(field, row);
    } else {
      var c := s[0];
      if c == '"' {
        if inQuotes && |s| > 1 && s[1] == '"' {
          ScanShape(s[2..], inQuotes, field + "\"", row);
        } else {
          ScanShape(s[1..], !inQuotes, field, row);
        }
      } else if c == ',' && !inQuotes {
        TrimTrimmed(field);
        ScanShape(s[1..], inQuotes, "", row + [Trim(field)]);
      } else if (c == '\n' || c == '\r') && !inQuotes {
        var skip := if c == '\r' && |s| > 1 && s[1] == '\n' then 2 else 1;
        FlushRead(field, row);
        ScanShape(s[skip..], inQuotes, "", []);
      } else {
        ScanShape(s[1..], inQuotes, field + [c], row);
      }
    }
  }

  /** Outside quotes, `\r\n` ends a row exactly as `\n` alone does. */
  lemma CrLfOnce(s: string, field: string, row: seq<string>)
    ensures Scan("\r\n" + s, false, field, row) == Scan("\n" + s, false, field, row)
  {
    assert ("\r\n" + s)[2..] == s;
    assert ("\n" + s)[1..] == s;
  }

  /** Outside quotes, a lone `\r` ends a row as `\n` does. */
  lemma LoneCrBreaks(s: string, field: string, row: seq<string>)
    requires s == [] || s[0] != '\n'
    ensures Scan("\r" + s, false, field, row) == Scan("\n" + s, false, field, row)
  {
    assert ("\r" + s)[1..] == s;
    assert ("\n" + s)[1..] == s;
  }

  /** Inside quotes, a line break is part of the field and the row goes on. */
  lemma QuotedBreak(c: char, s: string, field: string, row: seq<string>)
    requires c == '\n' || c == '\r'
    ensures Scan([c] + s, true, field, row) == Scan(s, true, field + [c], row)
  {
    assert ([c] + s)[1..] == s;
  }

  lemma ScanRowsShape(content: string)
    ensures forall r :: r in ScanRows(content) ==> ReadRow(r)
  {
    ScanShape(content, false, "", []);
  }

  // ---------------------------------------------------------------------------
  // The transposer

  /** `providerNames[i]?.trim() || \`Provider ${i + 1}\``. */
  function ProviderName(names: seq<string>, i: nat): string
    requires i < |names|
  {
    if Trim(names[i]) != "" then Trim(names[i]) else "Provider " + NatToString(i + 1)
  }

  /** `attrRow[i + 1] || ''`, trimmed, for each attribute row in order. */
  function ProviderValues(attrs: Matrix, i: nat): (vs: seq<string>)
    ensures |vs| == |attrs|
  {
    if attrs == [] then []
    else ProviderValues(attrs[..|attrs| - 1], i) + [Trim(Cell(attrs[|attrs| - 1], i + 1))]
  }

  lemma {:induction false} ProviderValuesAt(attrs: Matrix, i: nat, j: nat)
    requires j < |attrs|
    ensures ProviderValues(attrs, i)[j] == Trim(Cell(attrs[j], i + 1))
  {
    if j < |attrs| - 1 {
      ProviderValuesAt(attrs[..|attrs| - 1], i, j);
    }
  }

  lemma ProviderValuesSnoc(attrs: Matrix, i: nat, j: nat)
    requires j < |attrs|
    ensures ProviderValues(attrs[..j + 1], i) == ProviderValues(attrs[..j], i) + [Trim(Cell(attrs[j], i + 1))]
  {
    assert attrs[..j + 1][..j] == attrs[..j];
  }

  /** The output rows of provider columns `i..`; a column named `TERM>` is skipped. */
  function ProviderRows(names: seq<string>, attrs: Matrix, i: nat): Matrix
    requires i <= |names|
    decreases |names| - i
  {
    if i == |names| then []
    else
      var name := ProviderName(names, i);
      (if name == "TERM>" then [] else [[name] + ProviderValues(attrs, i)]) + ProviderRows(names, attrs, i + 1)
  }

  /** `['Name', ...attributeRows.map(row => row[0].trim())]`. */
  function HeaderRow(attrs: Matrix): seq<string> {
    ["Name"] + Labels(attrs)
  }

  /** `standardRows`: the header row, then one row per provider column. */
  function StandardRows(rows: Matrix): Matrix
    requires |rows| > 0
  {
    var attrs := AttributeRows(rows);
    [HeaderRow(attrs)] + ProviderRows(Rest(rows[0]), attrs, 0)
  }

  /** The transposing loops: provider columns outside, attribute rows inside. */
  method Transpose(rows: Matrix) returns (standardRows: Matrix)
    requires |rows| > 0
    ensures standardRows == StandardRows(rows)
  {
    var providerNames := Rest(rows[0]);
    var attributeRows := AttributeRows(rows);
    var headers := HeaderRow(attributeRows);
    standardRows := [headers];
    for providerIndex := 0 to |providerNames|
      invariant standardRows + ProviderRows(providerNames, attributeRows, providerIndex) == StandardRows(rows)
    {
      var providerName := ProviderName(providerNames, providerIndex);
      ghost var later := ProviderRows(providerNames, attributeRows, providerIndex + 1);
      if providerName == "TERM>" {
        assert ProviderRows(providerNames, attributeRows, providerIndex) == [] + later;
        assert [] + later == later;
        continue;
      }
      var providerRow := ProviderRow(attributeRows, providerName, providerIndex);
      assert ProviderRows(providerNames, attributeRows, providerIndex) == [providerRow] + later;
      assert standardRows + ([providerRow] + later) == (standardRows + [providerRow]) + later;
      standardRows := standardRows + [providerRow];
    }
  }

  /** The inner loop of the transposer: the row of one provider column. */
  method ProviderRow(attributeRows: Matrix, providerName: string, providerIndex: nat) returns (providerRow: seq<string>)
    ensures providerRow == [providerName] + ProviderValues(attributeRows, providerIndex)
  {
    providerRow := [providerName];
    for j := 0 to |attributeRows|
      invariant providerRow == [providerName] + ProviderValues(attributeRows[..j], providerIndex)
    {
      var attrRow := attributeRows[j];
      var value := Cell(attrRow, providerIndex + 1);
      ProviderValuesSnoc(attributeRows, providerIndex, j);
      providerRow := providerRow + [Trim(value)];
    }
    assert attributeRows[..|attributeRows|] == attributeRows;
  }

  /** The provider columns `i..` that get a row: those whose name is not `TERM>`. */
  function ConvertedColumns(names: seq<string>, i: nat): (idx: seq<nat>)
    requires i <= |names|
    ensures forall k :: 0 <= k < |idx| ==> i <= idx[k] < |names| && ProviderName(names, idx[k]) != "TERM>"
    decreases |names| - i
  {
    if i == |names| then []
    else (if ProviderName(names, i) == "TERM>" then [] else [i]) + ConvertedColumns(names, i + 1)
  }

  lemma {:induction false} ConvertedColumnsComplete(names: seq<string>, i: nat, p: nat)
    requires i <= p < |names| && ProviderName(names, p) != "TERM>"
    ensures p in ConvertedColumns(names, i)
    decreases |names| - i
  {
    if p > i {
      ConvertedColumnsComplete(names, i + 1, p);
    }
  }

  lemma {:induction false} ConvertedColumnsIncreasing(names: seq<string>, i: nat)
    requires i <= |names|
    ensures forall k, l :: 0 <= k < l < |ConvertedColumns(names, i)| ==>
      ConvertedColumns(names, i)[k] < ConvertedColumns(names, i)[l]
    decreases |names| - i
  {
    if i < |names| {
      ConvertedColumnsIncreasing(names, i + 1);
    }
  }

  lemma {:induction false} ProviderRowsAt(names: seq<string>, attrs: Matrix, i: nat)
    requires i <= |names|
    ensures var out := ProviderRows(names, attrs, i);
      var idx := ConvertedColumns(names, i);
      |out| == |idx| &&
      forall k :: 0 <= k < |idx| ==> out[k] == [ProviderName(names, idx[k])] + ProviderValues(attrs, idx[k])
    decreases |names| - i
  {
    if i < |names| {
      ProviderRowsAt(names, attrs, i + 1);
    }
  }

  /** A provider name is trimmed and non-empty: either the trimmed header cell or `Provider n`. */
  lemma ProviderNameTrimmed(names: seq<string>, i: nat)
    requires i < |names|
    ensures ProviderName(names, i) != "" && IsTrimmed(ProviderName(names, i))
  {
    TrimTrimmed(names[i]);
  }

  /**
   * The output of the transposer: the header `Name` and the attribute labels;
   * then, for each provider column not named `TERM>`, in column order, its
   * name and its values.
   */
  lemma TransposeRows(rows: Matrix)
    requires |rows| > 0
    ensures var out := StandardRows(rows);
      var attrs := AttributeRows(rows);
      var names := Rest(rows[0]);
      var idx := ConvertedColumns(names, 0);
      && out[0] == ["Name"] + Labels(attrs)
      && |out| == 1 + |idx|
      && forall k :: 0 <= k < |idx| ==> out[k + 1] == [ProviderName(names, idx[k])] + ProviderValues(attrs, idx[k])
  {
    ProviderRowsAt(Rest(rows[0]), AttributeRows(rows), 0);
  }

  /** Cell `j + 1` of a provider's row is its trimmed value on attribute row `j`. */
  lemma TransposeCell(rows: Matrix, k: nat, j: nat)
    requires |rows| > 0 && k < |ConvertedColumns(Rest(rows[0]), 0)| && j < |AttributeRows(rows)|
    ensures var p := ConvertedColumns(Rest(rows[0]), 0)[k];
      && |StandardRows(rows)| > k + 1
      && |StandardRows(rows)[k + 1]| == 1 + |AttributeRows(rows)|
      && StandardRows(rows)[k + 1][0] == ProviderName(Rest(rows[0]), p)
      && StandardRows(rows)[k + 1][j + 1] == Trim(Cell(AttributeRows(rows)[j], p + 1))
  {
    var attrs := AttributeRows(rows);
    var names := Rest(rows[0]);
    var p := ConvertedColumns(names, 0)[k];
    TransposeRowAt(rows, k);
    RowCell(StandardRows(rows)[k + 1], ProviderName(names, p), attrs, p, j);
  }

  /** Row `k + 1` of the output is the row of the `k`-th converted column. */
  lemma TransposeRowAt(rows: Matrix, k: nat)
    requires |rows| > 0 && k < |ConvertedColumns(Rest(rows[0]), 0)|
    ensures var p := ConvertedColumns(Rest(rows[0]), 0)[k];
      && |StandardRows(rows)| > k + 1
      && StandardRows(rows)[k + 1] == [ProviderName(Rest(rows[0]), p)] + ProviderValues(AttributeRows(rows), p)
  {
    TransposeRows(rows);
  }

  lemma RowCell(row: seq<string>, name: string, attrs: Matrix, p: nat, j: nat)
    requires row == [name] + ProviderValues(attrs, p) && j < |attrs|
    ensures |row| == 1 + |attrs| && row[0] == name && row[j + 1] == Trim(Cell(attrs[j], p + 1))
  {
    ProviderValuesAt(attrs, p, j);
  }

  /** A provider row is as wide as the header and reads back as a row: trimmed cells, a non-empty name. */
  lemma ProviderRowRead(names: seq<string>, attrs: Matrix, p: nat)
    requires p < |names|
    ensures var r := [ProviderName(names, p)] + ProviderValues(attrs, p);
      |r| == 1 + |attrs| && ReadRow(r)
  {
    var r := [ProviderName(names, p)] + ProviderValues(attrs, p);
    ProviderNameTrimmed(names, p);
    forall j | 0 <= j < |r| ensures IsTrimmed(r[j]) {
      if j > 0 {
        ProviderValuesAt(attrs, p, j - 1);
        TrimTrimmed(Cell(attrs[j - 1], p + 1));
      }
    }
    assert r[0] != "";
  }

  lemma HeaderRowRead(attrs: Matrix)
    ensures |HeaderRow(attrs)| == 1 + |attrs| && ReadRow(HeaderRow(attrs))
  {
    var r := HeaderRow(attrs);
    forall j | 0 <= j < |r| ensures IsTrimmed(r[j]) {
      if j > 0 {
        TrimTrimmed(Cell(attrs[j - 1], 0));
      }
    }
    assert r[0] != "";
  }

  /** The output is rectangular, every row has a non-empty first cell, and every cell is trimmed. */
  lemma TransposeRead(rows: Matrix)
    requires |rows| > 0
    ensures forall r :: r in StandardRows(rows) ==> |r| == 1 + |AttributeRows(rows)| && ReadRow(r)
  {
    var out := StandardRows(rows);
    var names := Rest(rows[0]);
    var attrs := AttributeRows(rows);
    var idx := ConvertedColumns(names, 0);
    TransposeRows(rows);
    forall r | r in out ensures |r| == 1 + |attrs| && ReadRow(r) {
      var n :| 0 <= n < |out| && out[n] == r;
      if n == 0 {
        HeaderRowRead(attrs);
      } else {
        ProviderRowRead(names, attrs, idx[n - 1]);
      }
    }
  }

  /** Every provider column whose name is not `TERM>` gets a row. */
  lemma TransposeComplete(rows: Matrix, p: nat)
    requires |rows| > 0 && p < |Rest(rows[0])| && ProviderName(Rest(rows[0]), p) != "TERM>"
    ensures [ProviderName(Rest(rows[0]), p)] + ProviderValues(AttributeRows(rows), p) in StandardRows(rows)
  {
    var names := Rest(rows[0]);
    var attrs := AttributeRows(rows);
    ConvertedColumnsComplete(names, 0, p);
    ProviderRowsAt(names, attrs, 0);
    var idx := ConvertedColumns(names, 0);
    var k :| 0 <= k < |idx| && idx[k] == p;
    assert StandardRows(rows)[k + 1] == ProviderRows(names, attrs, 0)[k];
  }

  // ---------------------------------------------------------------------------
  // The writer

  /** `cell.includes(',') || cell.includes('"') || cell.includes('\n')`. */
  predicate NeedsQuotes(cell: string) {
    ',' in cell || '"' in cell || '\n' in cell
  }

  /** `cell.replace(/"/g, '""')`. */
  function Escape(cell: string): string {
    if cell == [] then []
    else (if cell[0] == '"' then "\"\"" else [cell[0]]) + Escape(cell[1..])
  }

  function EncodeCell(cell: string): string {
    if NeedsQuotes(cell) then "\"" + Escape(cell) + "\"" else cell
  }

  function EncodeCells(row: seq<string>): (out: seq<string>)
    ensures |out| == |row|
  {
    if row == [] then [] else [EncodeCell(row[0])] + EncodeCells(row[1..])
  }

  /** `parts.join(sep)`. */
  function Join(parts: seq<string>, sep: char): string {
    if |parts| == 0 then ""
    else if |parts| == 1 then parts[0]
    else parts[0] + [sep] + Join(parts[1..], sep)
  }

  function EncodeRow(row: seq<string>): string {
    Join(EncodeCells(row), ',')
  }

  function EncodeRows(rows: Matrix): (out: seq<string>)
    ensures |out| == |rows|
  {
    if rows == [] then [] else [EncodeRow(rows[0])] + EncodeRows(rows[1..])
  }

  /** The text the script writes: cells joined by commas, rows by line feeds. */
  function Serialize(rows: Matrix): string {
    Join(EncodeRows(rows), '\n')
  }

  /** A row the writer can hand back to the reader unchanged. */
  predicate Writable(row: seq<string>) {
    ReadRow(row) && forall k :: 0 <= k < |row| ==> '\r' !in row[k]
  }

  /** Unquoted cell text is read character by character into the field. */
  lemma {:induction false} PlainScan(c: string, rest: string, field: string, row: seq<string>)
    requires !NeedsQuotes(c) && '\r' !in c
    ensures Scan(c + rest, false, field, row) == Scan(rest, false, field + c, row)
  {
    if c == [] {
      assert c + rest == rest;
      assert field + c == field;
    } else {
      assert (c + rest)[0] == c[0];
      assert (c + rest)[1..] == c[1..] + rest;
      PlainScan(c[1..], rest, field + [c[0]], row);
      assert field + [c[0]] + c[1..] == field + c;
    }
  }

  /** Inside quotes, the escaped text and the closing quote yield the cell and leave the quotes. */
  lemma {:induction false} QuotedScan(c: string, rest: string, field: string, row: seq<string>)
    requires rest == [] || rest[0] != '"'
    ensures Scan(Escape(c) + "\"" + rest, true, field, row) == Scan(rest, false, field + c, row)
  {
    var s := Escape(c) + "\"" + rest;
    if c == [] {
      assert s == "\"" + rest;
      assert s[1..] == rest;
      assert field + c == field;
    } else if c[0] == '"' {
      var s' := Escape(c[1..]) + "\"" + rest;
      assert Escape(c) == "\"\"" + Escape(c[1..]);
      ConcatRegroup("\"\"", Escape(c[1..]), "\"", rest);
      assert s[2..] == s';
      QuotedScan(c[1..], rest, field + "\"", row);
      assert field + "\"" + c[1..] == field + c;
    } else {
      var s' := Escape(c[1..]) + "\"" + rest;
      assert Escape(c) == [c[0]] + Escape(c[1..]);
      ConcatRegroup([c[0]], Escape(c[1..]), "\"", rest);
      assert s[1..] == s';
      QuotedScan(c[1..], rest, field + [c[0]], row);
      assert field + [c[0]] + c[1..] == field + c;
    }
  }

  /** An encoded cell followed by a separator, a line feed or the end reads back as the field. */
  lemma CellScan(c: string, rest: string, row: seq<string>)
    requires '\r' !in c
    requires rest == [] || rest[0] == ',' || rest[0] == '\n'
    ensures Scan(EncodeCell(c) + rest, false, "", row) == Scan(rest, false, c, row)
  {
    if NeedsQuotes(c) {
      var inner := Escape(c) + "\"" + rest;
      assert EncodeCell(c) == "\"" + Escape(c) + "\"";
      ConcatRegroup("\"", Escape(c), "\"", rest);
      OpenQuoteScan(inner, row);
      QuotedScan(c, rest, "", row);
      assert "" + c == c;
    } else {
      assert EncodeCell(c) == c;
      PlainScan(c, rest, "", row);
      assert "" + c == c;
    }
  }

  /** Outside quotes, an opening quote only enters the quoted state. */
  lemma OpenQuoteScan(inner: string, row: seq<string>)
    ensures Scan("\"" + inner, false, "", row) == Scan(inner, true, "", row)
  {
    assert ("\"" + inner)[1..] == inner;
  }

  /** An encoded row reads back as its cells, the last one still in the field. */
  lemma {:induction false} RowScan(r: seq<string>, rest: string, row: seq<string>)
    requires |r| > 0 && forall k :: 0 <= k < |r| ==> IsTrimmed(r[k]) && '\r' !in r[k]
    requires rest == [] || rest[0] == '\n'
    ensures Scan(EncodeRow(r) + rest, false, "", row) == Scan(rest, false, r[|r| - 1], row + r[..|r| - 1])
  {
    if |r| == 1 {
      assert EncodeRow(r) == EncodeCell(r[0]);
      CellScan(r[0], rest, row);
      assert row + r[..0] == row;
    } else {
      var tail := EncodeRow(r[1..]) + rest;
      assert EncodeCells(r)[1..] == EncodeCells(r[1..]);
      assert EncodeRow(r) == EncodeCell(r[0]) + "," + EncodeRow(r[1..]);
      ConcatRegroup(EncodeCell(r[0]), ",", EncodeRow(r[1..]), rest);
      assert "," + EncodeRow(r[1..]) + rest == "," + tail;
      CellScan(r[0], "," + tail, row);
      CommaScan(tail, r[0], row);
      TrimOfTrimmed(r[0]);
      RowScan(r[1..], rest, row + [r[0]]);
      assert r[1..][|r[1..]| - 1] == r[|r| - 1];
      assert row + [r[0]] + r[1..][..|r[1..]| - 1] == row + r[..|r| - 1];
    }
  }

  /** Outside quotes, a comma closes the field. */
  lemma CommaScan(tail: string, field: string, row: seq<string>)
    ensures Scan("," + tail, false, field, row) == Scan(tail, false, "", row + [Trim(field)])
  {
    assert ("," + tail)[1..] == tail;
  }

  lemma FlushWhole(r: seq<string>)
    requires Writable(r)
    ensures Flush(r[|r| - 1], r[..|r| - 1]) == [r]
  {
    TrimOfTrimmed(r[|r| - 1]);
    assert r[..|r| - 1] + [r[|r| - 1]] == r;
    if |r| == 1 {
      assert r[0] != "";
    }
  }

  /** Writing rows and reading the text back gives the same rows. */
  lemma {:induction false} SerializeRoundTrip(rows: Matrix)
    requires forall k :: 0 <= k < |rows| ==> Writable(rows[k])
    ensures ScanRows(Serialize(rows)) == rows
  {
    if |rows| == 1 {
      assert Serialize(rows) == EncodeRow(rows[0]);
      LastRowScan(rows[0]);
    } else if |rows| > 1 {
      SerializeSplit(rows);
      RowThenMoreScan(rows[0], Serialize(rows[1..]));
      SerializeRoundTrip(rows[1..]);
      assert [rows[0]] + rows[1..] == rows;
    }
  }

  /** The text of two or more rows: the first row, a line feed, the rest. */
  lemma SerializeSplit(rows: Matrix)
    requires |rows| > 1
    ensures Serialize(rows) == EncodeRow(rows[0]) + ("\n" + Serialize(rows[1..]))
  {
    assert EncodeRows(rows)[1..] == EncodeRows(rows[1..]);
  }

  /** The last row of a file reads back as itself. */
  lemma LastRowScan(r: seq<string>)
    requires Writable(r)
    ensures Scan(EncodeRow(r), false, "", []) == [r]
  {
    assert EncodeRow(r) + "" == EncodeRow(r);
    RowScan(r, "", []);
    assert [] + r[..|r| - 1] == r[..|r| - 1];
    FlushWhole(r);
  }

  /** A row followed by a line feed reads back as itself, and reading goes on after it. */
  lemma RowThenMoreScan(r: seq<string>, more: string)
    requires Writable(r)
    ensures Scan(EncodeRow(r) + ("\n" + more), false, "", []) == [r] + Scan(more, false, "", [])
  {
    var s := "\n" + more;
    RowScan(r, s, []);
    assert [] + r[..|r| - 1] == r[..|r| - 1];
    assert s[0] == '\n' && s[1..] == more;
    assert Scan(s, false, r[|r| - 1], r[..|r| - 1])
      == Flush(r[|r| - 1], r[..|r| - 1]) + Scan(more, false, "", []);
    FlushWhole(r);
  }

  // ---------------------------------------------------------------------------
  // The script

  /** The script stops with "Error: File is empty" when the reader finds no row. */
  datatype ConvertError = EmptyFile

  /** From the text of the input file to the text of the output file. */
  method Convert(content: string) returns (result: Result<string, ConvertError>)
    ensures ScanRows(content) == [] <==> result.Err?
    ensures result.Ok? ==> result.value == Serialize(StandardRows(ScanRows(content)))
  {
    var rows := ParseContent(content);
    if |rows| == 0 {
      return Err(EmptyFile);
    }
    var standardRows := Transpose(rows);
    result := Ok(Serialize(standardRows));
  }

  /**
   * When no cell of the input holds a carriage return, the script's own
   * reader reads its output back as exactly the rows it wrote.
   */
  lemma ConvertReadsBack(rows: Matrix)
    requires |rows| > 0
    requires forall r, c :: r in rows && c in r ==> '\r' !in c
    ensures ScanRows(Serialize(StandardRows(rows))) == StandardRows(rows)
  {
    var out := StandardRows(rows);
    TransposeRead(rows);
    forall k | 0 <= k < |out| ensures Writable(out[k]) {
      NoLineBreak(rows, k, '\r');
    }
    SerializeRoundTrip(out);
  }

  /** A line break absent from the input cells is absent from the output: a cell is a trimmed input cell, `Name` or `Provider n`. */
  lemma NoLineBreak(rows: Matrix, k: nat, ch: char)
    requires |rows| > 0 && k < |StandardRows(rows)|
    requires ch == '\n' || ch == '\r'
    requires forall r, c :: r in rows && c in r ==> ch !in c
    ensures forall j :: 0 <= j < |StandardRows(rows)[k]| ==> ch !in StandardRows(rows)[k][j]
  {
    TransposeRows(rows);
    if k == 0 {
      HeaderNoLineBreak(rows, ch);
    } else {
      var p := ConvertedColumns(Rest(rows[0]), 0)[k - 1];
      var r := [ProviderName(Rest(rows[0]), p)] + ProviderValues(AttributeRows(rows), p);
      assert StandardRows(rows)[k] == r;
      ProviderNoLineBreak(rows, p, ch);
      forall j | 0 < j < |r| ensures ch !in r[j] {
        assert r[j] == ProviderValues(AttributeRows(rows), p)[j - 1];
      }
    }
  }

  lemma HeaderNoLineBreak(rows: Matrix, ch: char)
    requires |rows| > 0
    requires ch == '\n' || ch == '\r'
    requires forall r, c :: r in rows && c in r ==> ch !in c
    ensures forall j :: 0 <= j < |HeaderRow(AttributeRows(rows))| ==> ch !in HeaderRow(AttributeRows(rows))[j]
  {
    var attrs := AttributeRows(rows);
    forall j | 0 < j < |HeaderRow(attrs)| ensures ch !in HeaderRow(attrs)[j] {
      CellNoLineBreak(rows, attrs[j - 1], 0, ch);
    }
  }

  lemma ProviderNoLineBreak(rows: Matrix, p: nat, ch: char)
    requires |rows| > 0 && p < |Rest(rows[0])|
    requires ch == '\n' || ch == '\r'
    requires forall r, c :: r in rows && c in r ==> ch !in c
    ensures ch !in ProviderName(Rest(rows[0]), p)
    ensures forall j :: 0 <= j < |ProviderValues(AttributeRows(rows), p)| ==>
      ch !in ProviderValues(AttributeRows(rows), p)[j]
  {
    var names := Rest(rows[0]);
    var attrs := AttributeRows(rows);
    if Trim(names[p]) != "" {
      assert names[p] in rows[0];
      TrimNoChar(names[p], ch);
    } else {
      assert ch !in NatToString(p + 1);
      assert ch !in "Provider ";
    }
    forall j | 0 <= j < |attrs| ensures ch !in ProviderValues(attrs, p)[j] {
      ProviderValuesAt(attrs, p, j);
      CellNoLineBreak(rows, attrs[j], p + 1, ch);
    }
  }

  lemma CellNoLineBreak(rows: Matrix, a: seq<string>, i: nat, ch: char)
    requires a in AttributeRows(rows) && |rows| > 0
    requires forall r, c :: r in rows && c in r ==> ch !in c
    ensures ch !in Trim(Cell(a, i))
  {
    AttributeRowsFrom(rows, a);
    if i < |a| {
      TrimNoChar(a[i], ch);
    }
  }
}
