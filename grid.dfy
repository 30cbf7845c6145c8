/**
 * The raw matrix a parser produces (rows of cells, not necessarily of equal
 * length) and the selection of attribute rows that both transposers share.
 */
module Grid {
  import opened Text

  type Matrix = seq<seq<string>>

  /** `row[j] || ''`: a missing cell reads as the empty string. */
  function Cell(row: seq<string>, j: nat): string {
    if j < |row| then row[j] else ""
  }

  /** `row.slice(1)`: every cell but the first. */
  function Rest(row: seq<string>): seq<string> {
    if row == [] then [] else row[1..]
  }

  /** The row has a label: `row[0] && row[0].trim()`. */
  predicate HasLabel(row: seq<string>) {
    Trim(Cell(row, 0)) != ""
  }

  /** `rows.slice(1).filter(row => row[0] && row[0].trim())`. */
  function AttributeRows(rows: Matrix): Matrix {
    if |rows| <= 1 then [] else LabelledRows(rows[1..])
  }

  /** The attribute rows are exactly the rows after the first that have a label. */
  lemma AttributeRowsExact(rows: Matrix)
    ensures forall a :: a in AttributeRows(rows) <==> |rows| > 0 && a in rows[1..] && HasLabel(a)
  {
    if |rows| > 1 {
      LabelledRowsExact(rows[1..]);
    }
  }

  /** An attribute row is a row of the sheet. */
  lemma AttributeRowsFrom(rows: Matrix, a: seq<string>)
    requires a in AttributeRows(rows)
    ensures a in rows
  {
    AttributeRowsExact(rows);
    assert a in rows[1..];
  }

  function LabelledRows(rows: Matrix): (attrs: Matrix)
    ensures |attrs| <= |rows|
  {
    if rows == [] then []
    else (if HasLabel(rows[0]) then [rows[0]] else []) + LabelledRows(rows[1..])
  }

  lemma {:induction false} LabelledRowsExact(rows: Matrix)
    ensures forall a :: a in LabelledRows(rows) <==> a in rows && HasLabel(a)
  {
    if rows != [] {
      LabelledRowsExact(rows[1..]);
      assert rows == [rows[0]] + rows[1..];
    }
  }

  /**
   * The filter keeps order and multiplicity: it keeps a single row iff the
   * row has a label, and it distributes over concatenation.
   */
  lemma {:induction false} LabelledRowsFilter(a: Matrix, b: Matrix, row: seq<string>)
    ensures LabelledRows([row]) == if HasLabel(row) then [row] else []
    ensures LabelledRows(a + b) == LabelledRows(a) + LabelledRows(b)
  {
    assert [row][1..] == [];
    if a == [] {
      assert a + b == b;
    } else {
      LabelledRowsFilter(a[1..], b, row);
      assert (a + b)[0] == a[0];
      assert (a + b)[1..] == a[1..] + b;
    }
  }

  /** The trimmed labels of the attribute rows, top to bottom. */
  function Labels(attrs: Matrix): (ls: seq<string>)
    ensures |ls| == |attrs|
    ensures forall j :: 0 <= j < |attrs| ==> ls[j] == Trim(Cell(attrs[j], 0))
  {
    if attrs == [] then [] else [Trim(Cell(attrs[0], 0))] + Labels(attrs[1..])
  }
}
