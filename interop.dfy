/**
 * What the app's loaders make of a file the conversion script wrote: the
 * line-based `parseCSV` reads it back unchanged as long as no cell holds a
 * line break, and the detector then takes the standard output for a
 * transposed sheet once it has three attributes and one provider.
 */
module Interop {
  import opened Wrappers
  import opened Text
  import opened Grid
  import opened SpreadsheetCsv
  import opened ConvertScript
  import Normalize

  /** A row the loader reads back unchanged: a read row without line breaks. */
  predicate Loadable(row: seq<string>) {
    ReadRow(row) && forall k :: 0 <= k < |row| ==> '\n' !in row[k] && '\r' !in row[k]
  }

  lemma {:induction false} PlainTokens(c: string, rest: string, current: string)
    requires !NeedsQuotes(c)
    ensures Tokens(c + rest, false, current) == Tokens(rest, false, current + c)
  {
    if c == [] {
      assert c + rest == rest;
      assert current + c == current;
    } else {
      assert (c + rest)[0] == c[0];
      assert (c + rest)[1..] == c[1..] + rest;
      PlainTokens(c[1..], rest, current + [c[0]]);
      assert current + [c[0]] + c[1..] == current + c;
    }
  }

  lemma {:induction false} QuotedTokens(c: string, rest: string, current: string)
    requires rest == [] || rest[0] != '"'
    ensures Tokens(Escape(c) + "\"" + rest, true, current) == Tokens(rest, false, current + c)
  {
    var s := Escape(c) + "\"" + rest;
    if c == [] {
      assert s == "\"" + rest;
      assert s[1..] == rest;
      assert current + c == current;
    } else if c[0] == '"' {
      var s' := Escape(c[1..]) + "\"" + rest;
      assert Escape(c) == "\"\"" + Escape(c[1..]);
      ConcatRegroup("\"\"", Escape(c[1..]), "\"", rest);
      assert s[2..] == s';
      QuotedTokens(c[1..], rest, current + "\"");
      assert current + "\"" + c[1..] == current + c;
    } else {
      var s' := Escape(c[1..]) + "\"" + rest;
      assert Escape(c) == [c[0]] + Escape(c[1..]);
      ConcatRegroup([c[0]], Escape(c[1..]), "\"", rest);
      assert s[1..] == s';
      QuotedTokens(c[1..], rest, current + [c[0]]);
      assert current + [c[0]] + c[1..] == current + c;
    }
  }

  lemma CellTokens(c: string, rest: string)
    requires rest == [] || rest[0] == ','
    ensures Tokens(EncodeCell(c) + rest, false, "") == Tokens(rest, false, c)
  {
    if NeedsQuotes(c) {
      var inner := Escape(c) + "\"" + rest;
      assert EncodeCell(c) == "\"" + Escape(c) + "\"";
      ConcatRegroup("\"", Escape(c), "\"", rest);
      OpenQuoteTokens(inner);
      QuotedTokens(c, rest, "");
      assert "" + c == c;
    } else {
      assert EncodeCell(c) == c;
      PlainTokens(c, rest, "");
      assert "" + c == c;
    }
  }

  /** Outside quotes, an opening quote only enters the quoted state. */
  lemma OpenQuoteTokens(inner: string)
    ensures Tokens("\"" + inner, false, "") == Tokens(inner, true, "")
  {
    assert ("\"" + inner)[1..] == inner;
  }

  /** The loader's tokenizer splits an encoded row back into its cells. */
  lemma {:induction false} RowTokens(r: seq<string>)
    requires |r| > 0
    ensures Tokens(EncodeRow(r), false, "") == r
  {
    if |r| == 1 {
      assert EncodeRow(r) == EncodeCell(r[0]) + "";
      CellTokens(r[0], "");
    } else {
      var tail := EncodeRow(r[1..]);
      assert EncodeCells(r)[1..] == EncodeCells(r[1..]);
      assert EncodeRow(r) == EncodeCell(r[0]) + ("," + tail);
      CellTokens(r[0], "," + tail);
      assert ("," + tail)[1..] == tail;
      RowTokens(r[1..]);
      assert [r[0]] + r[1..] == r;
    }
  }

  lemma {:induction false} TrimAllTrimmed(r: seq<string>)
    requires forall k :: 0 <= k < |r| ==> IsTrimmed(r[k])
    ensures TrimAll(r) == r
  {
    forall k | 0 <= k < |r| ensures TrimAll(r)[k] == r[k] {
      TrimOfTrimmed(r[k]);
    }
  }

  /** A line of whitespace is a single field. */
  lemma {:induction false} SpaceTokens(s: string, current: string)
    requires AllSpace(s)
    ensures Tokens(s, false, current) == [current + s]
  {
    if s == [] {
      assert current + s == current;
    } else {
      assert IsSpace(s[0]);
      SpaceTokens(s[1..], current + [s[0]]);
      assert current + [s[0]] + s[1..] == current + s;
    }
  }

  /** The loader reads a row it can load from its encoded line, and the line is not blank. */
  lemma LineOfRow(r: seq<string>)
    requires Loadable(r)
    ensures LineFields(EncodeRow(r)) == r
    ensures Trim(EncodeRow(r)) != ""
  {
    RowTokens(r);
    TrimAllTrimmed(r);
    var line := EncodeRow(r);
    TrimEmpty(line);
    if AllSpace(line) {
      SpaceTokens(line, "");
      assert false;
    }
  }

  /** An encoded cell of a loadable row holds no line feed and no carriage return. */
  lemma {:induction false} EscapeNoBreak(c: string, ch: char)
    requires ch != '"' && ch !in c
    ensures ch !in Escape(c)
  {
    if c != [] {
      EscapeNoBreak(c[1..], ch);
    }
  }

  lemma {:induction false} EncodeCellsNoBreak(r: seq<string>, ch: char)
    requires ch == '\n' || ch == '\r'
    requires forall k :: 0 <= k < |r| ==> ch !in r[k]
    ensures forall k :: 0 <= k < |EncodeCells(r)| ==> ch !in EncodeCells(r)[k]
  {
    if r != [] {
      EscapeNoBreak(r[0], ch);
      EncodeCellsNoBreak(r[1..], ch);
    }
  }

  lemma {:induction false} JoinNoChar(parts: seq<string>, sep: char, ch: char)
    requires ch != sep && forall k :: 0 <= k < |parts| ==> ch !in parts[k]
    ensures ch !in Join(parts, sep)
  {
    if |parts| > 1 {
      JoinNoChar(parts[1..], sep, ch);
    }
  }

  lemma RowNoBreak(r: seq<string>)
    requires Loadable(r)
    ensures '\n' !in EncodeRow(r) && '\r' !in EncodeRow(r)
  {
    EncodeCellsNoBreak(r, '\n');
    EncodeCellsNoBreak(r, '\r');
    JoinNoChar(EncodeCells(r), ',', '\n');
    JoinNoChar(EncodeCells(r), ',', '\r');
  }

  lemma {:induction false} SplitChunk(p: string, rest: string, line: string)
    requires '\n' !in p
    ensures SplitFrom(p + rest, line) == SplitFrom(rest, line + p)
  {
    if p == [] {
      assert p + rest == rest;
      assert line + p == line;
    } else {
      assert (p + rest)[0] == p[0];
      assert (p + rest)[1..] == p[1..] + rest;
      SplitChunk(p[1..], rest, line + [p[0]]);
      assert line + [p[0]] + p[1..] == line + p;
    }
  }

  /** `split(/\r?\n/)` undoes `join('\n')` when no part holds a line break. */
  lemma {:induction false} SplitJoin(parts: seq<string>)
    requires |parts| > 0
    requires forall k :: 0 <= k < |parts| ==> '\n' !in parts[k] && '\r' !in parts[k]
    ensures SplitLines(Join(parts, '\n')) == parts
  {
    var p := parts[0];
    if |parts| == 1 {
      assert Join(parts, '\n') == p + "";
      SplitChunk(p, "", "");
      assert "" + p == p;
    } else {
      var more := Join(parts[1..], '\n');
      assert Join(parts, '\n') == p + ("\n" + more);
      SplitChunk(p, "\n" + more, "");
      assert "" + p == p;
      assert ("\n" + more)[1..] == more;
      if p != [] {
        assert p[|p| - 1] in p;
      }
      assert DropCR(p) == p;
      SplitJoin(parts[1..]);
      assert [p] + parts[1..] == parts;
    }
  }

  /** The rows of lines each of which is non-blank and reads as the row at its index. */
  lemma {:induction false} RowsOfLines(lines: seq<string>, rows: Matrix)
    requires |lines| == |rows|
    requires forall k :: 0 <= k < |lines| ==> Trim(lines[k]) != "" && LineFields(lines[k]) == rows[k]
    ensures RowsOf(lines) == rows
  {
    if lines != [] {
      var n := |lines| - 1;
      RowsOfLines(lines[..n], rows[..n]);
      assert rows[..n] + [rows[n]] == rows;
    }
  }

  lemma {:induction false} EncodeRowsAt(rows: Matrix, k: nat)
    requires k < |rows|
    ensures EncodeRows(rows)[k] == EncodeRow(rows[k])
  {
    if k > 0 {
      EncodeRowsAt(rows[1..], k - 1);
    }
  }

  /** The app's CSV loader reads what the script writes back as the same rows. */
  lemma LoaderReadsBack(rows: Matrix)
    requires forall k :: 0 <= k < |rows| ==> Loadable(rows[k])
    ensures CsvRows(Serialize(rows)) == rows
  {
    var lines := EncodeRows(rows);
    if rows == [] {
      assert Serialize(rows) == "";
      assert SplitLines("") == [""];
      TrimEmpty("");
    } else {
      forall k | 0 <= k < |lines|
        ensures '\n' !in lines[k] && '\r' !in lines[k]
        ensures Trim(lines[k]) != "" && LineFields(lines[k]) == rows[k]
      {
        EncodeRowsAt(rows, k);
        RowNoBreak(rows[k]);
        LineOfRow(rows[k]);
      }
      SplitJoin(lines);
      RowsOfLines(lines, rows);
    }
  }

  /**
   * A sheet without line breaks in its cells, once converted and written,
   * loads into the app as the rows the script built.
   */
  lemma ConvertedLoads(rows: Matrix)
    requires |rows| > 0
    requires forall r, c :: r in rows && c in r ==> '\n' !in c && '\r' !in c
    ensures CsvRows(Serialize(StandardRows(rows))) == StandardRows(rows)
  {
    var out := StandardRows(rows);
    TransposeRead(rows);
    forall k | 0 <= k < |out| ensures Loadable(out[k]) {
      NoLineBreak(rows, k, '\n');
      NoLineBreak(rows, k, '\r');
    }
    LoaderReadsBack(out);
  }

  /**
   * The detector takes the script's standard output for a transposed sheet as
   * soon as it has three attribute rows and one provider: its first cell is
   * `Name`, its second row starts with a provider name, and it has more than
   * three columns. The loader then transposes it a second time.
   */
  lemma ConvertedDetectedTransposed(rows: Matrix)
    requires |rows| > 0
    requires |AttributeRows(rows)| >= 3
    requires |ConvertedColumns(Rest(rows[0]), 0)| >= 1
    ensures Normalize.DetectTransposed(StandardRows(rows))
    ensures Normalize.Normalized(StandardRows(rows))
      == Ok(Normalize.ActivePeople(Normalize.TransposedPeople(StandardRows(rows))))
  {
    var out := StandardRows(rows);
    var name := ProviderName(Rest(rows[0]), ConvertedColumns(Rest(rows[0]), 0)[0]);
    ConvertedHead(rows);
    ProviderNameTrimmed(Rest(rows[0]), ConvertedColumns(Rest(rows[0]), 0)[0]);
    TrimOfTrimmed(name);
    NameHeaderLower();
    assert Trim(Lower(Cell(out[0], 0))) == "name";
    assert Trim(Cell(out[1], 0)) != "";
  }

  /** The first two rows of the script's output: the header row and the first provider's row. */
  lemma ConvertedHead(rows: Matrix)
    requires |rows| > 0
    requires |ConvertedColumns(Rest(rows[0]), 0)| >= 1
    ensures var out := StandardRows(rows);
      && |out| >= 2
      && |out[0]| == 1 + |AttributeRows(rows)|
      && out[0][0] == "Name"
      && |out[1]| > 0
      && out[1][0] == ProviderName(Rest(rows[0]), ConvertedColumns(Rest(rows[0]), 0)[0])
  {
    TransposeRows(rows);
    var names := Rest(rows[0]);
    var p := ConvertedColumns(names, 0)[0];
    assert StandardRows(rows)[0 + 1] == [ProviderName(names, p)] + ProviderValues(AttributeRows(rows), p);
  }

  lemma NameHeaderLower()
    ensures Trim(Lower("Name")) == "name"
  {
    assert Lower("Name") == "name";
    TrimOfTrimmed("name");
  }
}
