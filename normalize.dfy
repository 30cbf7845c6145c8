/**
 * What the POST handler of app/api/parse-spreadsheet/route.ts and the GET
 * handler of app/api/load-default-csv/route.ts do with the parsed rows: detect
 * the transposed layout, build one record per provider (from columns or from
 * rows), and drop the "termed" providers. Both files hold the same code.
 */
module Normalize {
  import opened Wrappers
  import opened Text
  import opened Records
  import opened Grid
  import SpreadsheetCsv

  /** The 400 answer "No headers found in spreadsheet". */
  datatype LoadError = NoHeaders

  // ---------------------------------------------------------------------------
  // Format detection

  /**
   * `detectTransposedFormat`: at least two rows, a first cell that reads
   * `column 1`, `name` or nothing, a label in the second row, and more than
   * three columns.
   */
  function DetectTransposed(rows: Matrix): (transposed: bool)
    ensures |rows| < 2 ==> !transposed
    ensures |rows| >= 2 ==> (transposed <==>
      && Trim(Lower(Cell(rows[0], 0))) in ["column 1", "", "name"]
      && Trim(Cell(rows[1], 0)) != ""
      && |rows[0]| > 3)
  {
    if |rows| < 2 then false
    else
      var firstCol := Trim(Lower(Cell(rows[0], 0)));
      var secondRowFirstCol := Trim(Lower(Cell(rows[1], 0)));
      LowerTrimEmpty(Cell(rows[1], 0));
      (firstCol == "column 1" || firstCol == "" || firstCol == "name")
      && |secondRowFirstCol| > 0
      && |rows[0]| > 3
  }

  // ---------------------------------------------------------------------------
  // Transposed layout: one column per provider

  /** A provider column is converted unless its trimmed name is empty or mentions "termed". */
  predicate KeepsProvider(name: string) {
    name != "" && !Contains(Lower(name), "termed")
  }

  /** The assignments `person[label] = value` that provider column `i` receives, top to bottom. */
  function AttributePairs(attrs: Matrix, i: nat): (kvs: seq<(string, string)>)
    ensures |kvs| == |attrs|
    ensures forall j :: 0 <= j < |attrs| ==> kvs[j] == (Trim(Cell(attrs[j], 0)), Trim(Cell(attrs[j], i + 1)))
  {
    if attrs == [] then []
    else [(Trim(Cell(attrs[0], 0)), Trim(Cell(attrs[0], i + 1)))] + AttributePairs(attrs[1..], i)
  }

  /** The record of provider column `i`: `Name` first, then the attribute rows. */
  function TransposedPerson(name: string, attrs: Matrix, i: nat): Record {
    PutAll([("Name", name)], AttributePairs(attrs, i))
  }

  /** The records of provider columns `i..` (column `i` of `names` is column `i + 1` of the sheet). */
  function PeopleFrom(names: seq<string>, attrs: Matrix, i: nat): seq<Record>
    requires i <= |names|
    decreases |names| - i
  {
    if i == |names| then []
    else
      var name := Trim(names[i]);
      (if KeepsProvider(name) then [TransposedPerson(name, attrs, i)] else []) + PeopleFrom(names, attrs, i + 1)
  }

  /** What `convertTransposedToStandard(rows)` returns. */
  function TransposedPeople(rows: Matrix): seq<Record>
    requires |rows| > 0
  {
    PeopleFrom(Rest(rows[0]), AttributeRows(rows), 0)
  }

  /** The indices `i..` of the provider columns that are converted, in order. */
  function KeptIndices(names: seq<string>, i: nat): (idx: seq<nat>)
    requires i <= |names|
    ensures forall k :: 0 <= k < |idx| ==> i <= idx[k] < |names| && KeepsProvider(Trim(names[idx[k]]))
    decreases |names| - i
  {
    if i == |names| then []
    else (if KeepsProvider(Trim(names[i])) then [i] else []) + KeptIndices(names, i + 1)
  }

  /** The kept columns are listed in column order. */
  lemma {:induction false} KeptIndicesIncreasing(names: seq<string>, i: nat)
    requires i <= |names|
    ensures forall k, l :: 0 <= k < l < |KeptIndices(names, i)| ==> KeptIndices(names, i)[k] < KeptIndices(names, i)[l]
    decreases |names| - i
  {
    if i < |names| {
      KeptIndicesIncreasing(names, i + 1);
    }
  }

  /** Every kept provider column from `i` on is listed. */
  lemma {:induction false} KeptIndicesComplete(names: seq<string>, i: nat, p: nat)
    requires i <= p < |names| && KeepsProvider(Trim(names[p]))
    ensures p in KeptIndices(names, i)
    decreases |names| - i
  {
    var head := if KeepsProvider(Trim(names[i])) then [i] else [];
    assert KeptIndices(names, i) == head + KeptIndices(names, i + 1);
    if p > i {
      KeptIndicesComplete(names, i + 1, p);
    } else {
      assert KeptIndices(names, i)[0] == p;
    }
  }

  /** `convertTransposedToStandard`: nested loops over provider columns and attribute rows. */
  method ConvertTransposed(rows: Matrix) returns (people: seq<Record>)
    requires |rows| > 0
    ensures people == TransposedPeople(rows)
  {
    var firstRow := rows[0];
    var providerNames := Rest(firstRow);
    var attributeRows := AttributeRows(rows);
    people := [];
    for providerIndex := 0 to |providerNames|
      invariant people + PeopleFrom(providerNames, attributeRows, providerIndex) == TransposedPeople(rows)
    {
      var providerName := Trim(providerNames[providerIndex]);
      if providerName == "" || Contains(Lower(providerName), "termed") {
        continue;
      }
      var person: Record := [("Name", providerName)];
      // Every attribute row has a label, so the source's `if (!attributeName) continue` never fires.
      for j := 0 to |attributeRows|
        invariant PutAll(person, AttributePairs(attributeRows[j..], providerIndex))
                  == TransposedPerson(providerName, attributeRows, providerIndex)
      {
        var attrRow := attributeRows[j];
        var attributeName := Trim(Cell(attrRow, 0));
        var value := Cell(attrRow, providerIndex + 1);
        assert attributeRows[j..][1..] == attributeRows[j + 1..];
        person := Put(person, attributeName, Trim(value));
      }
      assert attributeRows[|attributeRows|..] == [];
      people := people + [person];
    }
  }

  /** The k-th converted record belongs to the k-th kept provider column. */
  lemma {:induction false} PeopleFromIndices(names: seq<string>, attrs: Matrix, i: nat)
    requires i <= |names|
    ensures var people := PeopleFrom(names, attrs, i);
      var idx := KeptIndices(names, i);
      |people| == |idx| &&
      forall k :: 0 <= k < |idx| ==> people[k] == TransposedPerson(Trim(names[idx[k]]), attrs, idx[k])
    decreases |names| - i
  {
    if i < |names| {
      PeopleFromIndices(names, attrs, i + 1);
      if KeepsProvider(Trim(names[i])) {
        PeopleCons(names, attrs, i, PeopleFrom(names, attrs, i + 1), KeptIndices(names, i + 1));
      }
    }
  }

  /** Record `k` belongs to column `idx[k]`, kept when one more kept column goes in front. */
  lemma PeopleCons(names: seq<string>, attrs: Matrix, i: nat, people: seq<Record>, idx: seq<nat>)
    requires i < |names| && |people| == |idx|
    requires forall k :: 0 <= k < |idx| ==>
      idx[k] < |names| && people[k] == TransposedPerson(Trim(names[idx[k]]), attrs, idx[k])
    ensures var people', idx' := [TransposedPerson(Trim(names[i]), attrs, i)] + people, [i] + idx;
      |people'| == |idx'| &&
      forall k :: 0 <= k < |idx'| ==> people'[k] == TransposedPerson(Trim(names[idx'[k]]), attrs, idx'[k])
  {
    var people', idx' := [TransposedPerson(Trim(names[i]), attrs, i)] + people, [i] + idx;
    forall k | 0 <= k < |idx'| ensures people'[k] == TransposedPerson(Trim(names[idx'[k]]), attrs, idx'[k]) {
      if k > 0 {
        assert people'[k] == people[k - 1] && idx'[k] == idx[k - 1];
      }
    }
  }

  /**
   * `convertTransposedToStandard` yields one record per header cell after the
   * first whose trimmed name is non-empty and free of "termed", in column order.
   */
  lemma TransposedOrder(rows: Matrix)
    requires |rows| > 0
    ensures var names := Rest(rows[0]);
      var idx := KeptIndices(names, 0);
      && |TransposedPeople(rows)| == |idx| <= |Rest(rows[0])|
      && forall k :: 0 <= k < |idx| ==>
           TransposedPeople(rows)[k] == TransposedPerson(Trim(names[idx[k]]), AttributeRows(rows), idx[k])
  {
    var names := Rest(rows[0]);
    PeopleFromIndices(names, AttributeRows(rows), 0);
    KeptIndicesIncreasing(names, 0);
    IndicesBound(KeptIndices(names, 0), |names|);
  }

  /** A strictly increasing sequence of indices below `n` has at most `n` elements. */
  lemma {:induction false} IndicesBound(idx: seq<nat>, n: nat)
    requires forall k :: 0 <= k < |idx| ==> idx[k] < n
    requires forall k, l :: 0 <= k < l < |idx| ==> idx[k] < idx[l]
    ensures |idx| <= n
    decreases n
  {
    if idx != [] {
      var last := idx[|idx| - 1];
      var front := idx[..|idx| - 1];
      assert forall k :: 0 <= k < |front| ==> front[k] < last;
      IndicesBound(front, last);
    }
  }

  lemma {:induction false} KeysOfAttributePairs(attrs: Matrix, i: nat)
    ensures Keys(AttributePairs(attrs, i)) == Labels(attrs)
  {
    assert forall j :: 0 <= j < |attrs| ==> Keys(AttributePairs(attrs, i))[j] == Labels(attrs)[j];
  }

  /**
   * Every transposed record has the same keys in the same order: `Name`
   * first, then the attribute labels top to bottom, each once.
   */
  lemma TransposedPersonKeys(name: string, attrs: Matrix, i: nat)
    ensures Keys(TransposedPerson(name, attrs, i)) == Extend(["Name"], Labels(attrs))
    ensures |Keys(TransposedPerson(name, attrs, i))| > 0 && Keys(TransposedPerson(name, attrs, i))[0] == "Name"
    ensures Distinct(Keys(TransposedPerson(name, attrs, i)))
  {
    assert Keys([("Name", name)]) == ["Name"];
    KeysPutAll([("Name", name)], AttributePairs(attrs, i));
    KeysOfAttributePairs(attrs, i);
    ExtendDistinct(["Name"], Labels(attrs));
  }

  lemma TransposedKeys(rows: Matrix)
    requires |rows| > 0
    ensures forall p :: p in TransposedPeople(rows) ==>
      Keys(p) == Extend(["Name"], Labels(AttributeRows(rows))) && |Keys(p)| > 0 && Keys(p)[0] == "Name"
  {
    var names := Rest(rows[0]);
    var attrs := AttributeRows(rows);
    TransposedOrder(rows);
    forall p | p in TransposedPeople(rows)
      ensures Keys(p) == Extend(["Name"], Labels(attrs)) && |Keys(p)| > 0 && Keys(p)[0] == "Name"
    {
      var k :| 0 <= k < |TransposedPeople(rows)| && TransposedPeople(rows)[k] == p;
      var idx := KeptIndices(names, 0);
      TransposedPersonKeys(Trim(names[idx[k]]), attrs, idx[k]);
    }
  }

  /**
   * The value of a key in a transposed record: the trimmed cell of the LAST
   * attribute row with that label (a repeated label, or the label `Name`,
   * overwrites in place); otherwise the provider name for `Name`; otherwise absent.
   */
  lemma TransposedPersonGet(name: string, attrs: Matrix, i: nat, key: string)
    ensures var last := LastValue(AttributePairs(attrs, i), key);
      Get(TransposedPerson(name, attrs, i), key) ==
        if last.Some? then last else if key == "Name" then Some(name) else None
  {
    GetPutAll([("Name", name)], AttributePairs(attrs, i), key);
  }

  /** The label `Name` on attribute row `j`, with no later `Name` row, replaces the provider name. */
  lemma NameRowOverwrites(name: string, attrs: Matrix, i: nat, j: nat)
    requires j < |attrs| && Trim(Cell(attrs[j], 0)) == "Name"
    requires forall j' :: j < j' < |attrs| ==> Trim(Cell(attrs[j'], 0)) != "Name"
    ensures Get(TransposedPerson(name, attrs, i), "Name") == Some(Trim(Cell(attrs[j], i + 1)))
  {
    TransposedPersonGet(name, attrs, i, "Name");
    LastValueAt(AttributePairs(attrs, i), "Name", j);
  }

  // ---------------------------------------------------------------------------
  // Standard layout: the first row is the header

  /** `rows[0].map(h => String(h).trim()).filter(h => h)`. */
  function Headers(headerRow: seq<string>): (hs: seq<string>)
    ensures |hs| <= |headerRow|
    ensures forall h :: h in hs ==> h != "" && IsTrimmed(h)
    ensures forall j :: 0 <= j < |headerRow| && Trim(headerRow[j]) != "" ==> Trim(headerRow[j]) in hs
    ensures forall h :: h in hs ==> exists j :: 0 <= j < |headerRow| && Trim(headerRow[j]) == h
  {
    if headerRow == [] then []
    else
      var rest := Headers(headerRow[1..]);
      assert forall j :: 1 <= j < |headerRow| ==> headerRow[j] == headerRow[1..][j - 1];
      var h := Trim(headerRow[0]);
      TrimTrimmed(headerRow[0]);
      (if h != "" then [h] else []) + rest
  }

  /** The columns from `i` on whose header cell is not blank, in column order. */
  function HeaderColumns(headerRow: seq<string>, i: nat): (cs: seq<nat>)
    requires i <= |headerRow|
    ensures forall k :: 0 <= k < |cs| ==> i <= cs[k] < |headerRow| && Trim(headerRow[cs[k]]) != ""
    decreases |headerRow| - i
  {
    if i == |headerRow| then []
    else (if Trim(headerRow[i]) != "" then [i] else []) + HeaderColumns(headerRow, i + 1)
  }

  lemma {:induction false} HeadersFrom(headerRow: seq<string>, i: nat)
    requires i <= |headerRow|
    ensures var hs, cs := Headers(headerRow[i..]), HeaderColumns(headerRow, i);
      |hs| == |cs| && forall k :: 0 <= k < |cs| ==> hs[k] == Trim(headerRow[cs[k]])
    decreases |headerRow| - i
  {
    if i < |headerRow| {
      HeadersFrom(headerRow, i + 1);
      HeadersStep(headerRow, i);
      if Trim(headerRow[i]) != "" {
        AlignedCons(headerRow, i, Headers(headerRow[i + 1..]), HeaderColumns(headerRow, i + 1));
      }
    }
  }

  /** One step of `Headers` at column `i`. */
  lemma HeadersStep(headerRow: seq<string>, i: nat)
    requires i < |headerRow|
    ensures var h, rest := Trim(headerRow[i]), Headers(headerRow[i + 1..]);
      Headers(headerRow[i..]) == (if h != "" then [h] else []) + rest
  {
    assert headerRow[i..][1..] == headerRow[i + 1..];
    assert headerRow[i..][0] == headerRow[i];
  }

  /** Header `k` is the cell of column `cs[k]`, kept when one more aligned column goes in front. */
  lemma AlignedCons(headerRow: seq<string>, i: nat, hs: seq<string>, cs: seq<nat>)
    requires i < |headerRow| && |hs| == |cs|
    requires forall k :: 0 <= k < |cs| ==> cs[k] < |headerRow| && hs[k] == Trim(headerRow[cs[k]])
    ensures var hs', cs' := [Trim(headerRow[i])] + hs, [i] + cs;
      |hs'| == |cs'| && forall k :: 0 <= k < |cs'| ==> hs'[k] == Trim(headerRow[cs'[k]])
  {
    var hs', cs' := [Trim(headerRow[i])] + hs, [i] + cs;
    forall k | 0 <= k < |cs'| ensures hs'[k] == Trim(headerRow[cs'[k]]) {
      if k > 0 {
        assert hs'[k] == hs[k - 1] && cs'[k] == cs[k - 1];
      }
    }
  }

  /** The non-blank header columns are listed in column order. */
  lemma {:induction false} HeaderColumnsIncreasing(headerRow: seq<string>, i: nat)
    requires i <= |headerRow|
    ensures forall k, l :: 0 <= k < l < |HeaderColumns(headerRow, i)| ==>
      HeaderColumns(headerRow, i)[k] < HeaderColumns(headerRow, i)[l]
    decreases |headerRow| - i
  {
    if i < |headerRow| {
      HeaderColumnsIncreasing(headerRow, i + 1);
    }
  }

  lemma {:induction false} HeaderColumnsComplete(headerRow: seq<string>, i: nat, p: nat)
    requires i <= p < |headerRow| && Trim(headerRow[p]) != ""
    ensures p in HeaderColumns(headerRow, i)
    decreases |headerRow| - i
  {
    if p > i {
      HeaderColumnsComplete(headerRow, i + 1, p);
    }
  }

  /**
   * The headers are the trimmed non-blank header cells in column order: the
   * k-th header is the cell of the k-th non-blank column, and no non-blank
   * column is skipped.
   */
  lemma HeadersInOrder(headerRow: seq<string>)
    ensures var hs, cs := Headers(headerRow), HeaderColumns(headerRow, 0);
      && |hs| == |cs|
      && (forall k :: 0 <= k < |cs| ==> hs[k] == Trim(headerRow[cs[k]]))
      && (forall k, l :: 0 <= k < l < |cs| ==> cs[k] < cs[l])
      && (forall j :: 0 <= j < |headerRow| && Trim(headerRow[j]) != "" ==> j in cs)
  {
    HeadersFrom(headerRow, 0);
    HeaderColumnsIncreasing(headerRow, 0);
    assert headerRow[0..] == headerRow;
    forall j | 0 <= j < |headerRow| && Trim(headerRow[j]) != "" ensures j in HeaderColumns(headerRow, 0) {
      HeaderColumnsComplete(headerRow, 0, j);
    }
  }

  /** No header survives exactly when every header cell is blank. */
  lemma {:induction false} HeadersEmpty(headerRow: seq<string>)
    ensures Headers(headerRow) == [] <==> forall j :: 0 <= j < |headerRow| ==> Trim(headerRow[j]) == ""
  {
    if headerRow != [] {
      HeadersEmpty(headerRow[1..]);
      if Trim(headerRow[0]) == "" {
        forall j | 1 <= j < |headerRow| ensures Trim(headerRow[j]) == Trim(headerRow[1..][j - 1]) {
        }
      }
    }
  }

  /** `row.some(cell => cell && String(cell).trim())`. */
  predicate HasContent(row: seq<string>) {
    exists j :: 0 <= j < |row| && Trim(row[j]) != ""
  }

  function ContentRows(rows: Matrix): (kept: Matrix)
    ensures |kept| <= |rows|
  {
    if rows == [] then []
    else (if HasContent(rows[0]) then [rows[0]] else []) + ContentRows(rows[1..])
  }

  /** The data rows kept are exactly the rows with a non-blank cell. */
  lemma {:induction false} ContentRowsExact(rows: Matrix)
    ensures forall r :: r in ContentRows(rows) <==> r in rows && HasContent(r)
  {
    if rows != [] {
      ContentRowsExact(rows[1..]);
      assert rows == [rows[0]] + rows[1..];
    }
  }

  /**
   * The row filter keeps order and multiplicity: it keeps a single row iff
   * the row has a non-blank cell, and it distributes over concatenation.
   */
  lemma {:induction false} ContentRowsFilter(a: Matrix, b: Matrix, row: seq<string>)
    ensures ContentRows([row]) == if HasContent(row) then [row] else []
    ensures ContentRows(a + b) == ContentRows(a) + ContentRows(b)
  {
    ContentRowsCons(row, []);
    if a == [] {
      assert a + b == b;
    } else {
      var head := if HasContent(a[0]) then [a[0]] else [];
      ContentRowsFilter(a[1..], b, row);
      ContentRowsCons(a[0], a[1..]);
      ContentRowsCons(a[0], a[1..] + b);
      ConcatAssoc([a[0]], a[1..], b);
      assert a == [a[0]] + a[1..];
      ConcatAssoc(head, ContentRows(a[1..]), ContentRows(b));
    }
  }

  lemma ContentRowsCons(row: seq<string>, rest: Matrix)
    ensures ContentRows([row] + rest) == (if HasContent(row) then [row] else []) + ContentRows(rest)
  {
    assert ([row] + rest)[1..] == rest;
  }

  /** `headers.forEach((header, index) => person[header] = row[index] ? row[index].trim() : '')`. */
  function HeaderPairs(headers: seq<string>, row: seq<string>): (kvs: seq<(string, string)>)
    ensures |kvs| == |headers|
    ensures forall k :: 0 <= k < |headers| ==> kvs[k] == (headers[k], Trim(Cell(row, k)))
  {
    seq(|headers|, k requires 0 <= k < |headers| => (headers[k], Trim(Cell(row, k))))
  }

  function StandardPerson(headers: seq<string>, row: seq<string>): Record {
    PutAll([], HeaderPairs(headers, row))
  }

  /** The standard path of the handler: the header check, the blank-row filter and the record builder. */
  function StandardPeople(rows: Matrix): Result<seq<Record>, LoadError>
    requires |rows| > 0
  {
    var headers := Headers(rows[0]);
    if headers == [] then Err(NoHeaders)
    else
      var data := ContentRows(rows[1..]);
      Ok(seq(|data|, k requires 0 <= k < |data| => StandardPerson(headers, data[k])))
  }

  lemma KeysOfHeaderPairs(headers: seq<string>, row: seq<string>)
    ensures Keys(HeaderPairs(headers, row)) == headers
  {
  }

  /**
   * The standard path fails exactly when no header cell is left after
   * trimming; otherwise it keeps the data rows that have a non-blank cell, in
   * order, and every record has the surviving headers as keys.
   */
  lemma StandardShape(rows: Matrix)
    requires |rows| > 0
    ensures StandardPeople(rows).Err? <==> forall j :: 0 <= j < |rows[0]| ==> Trim(rows[0][j]) == ""
    ensures StandardPeople(rows).Ok? ==>
      var people := StandardPeople(rows).value;
      var data := ContentRows(rows[1..]);
      && |people| == |data|
      && forall k :: 0 <= k < |people| ==>
           people[k] == StandardPerson(Headers(rows[0]), data[k])
           && Keys(people[k]) == Extend([], Headers(rows[0]))
  {
    var headers := Headers(rows[0]);
    HeadersEmpty(rows[0]);
    forall row: seq<string> ensures Keys(StandardPerson(headers, row)) == Extend([], headers) {
      KeysPutAll([], HeaderPairs(headers, row));
      KeysOfHeaderPairs(headers, row);
    }
  }

  /**
   * Headers are renumbered after the blank ones are dropped: with distinct
   * headers, the k-th surviving header binds to the trimmed k-th cell of the
   * row (or `''`), not to the cell under it in the sheet.
   */
  lemma StandardPersonBinding(headers: seq<string>, row: seq<string>)
    requires Distinct(headers)
    ensures StandardPerson(headers, row) == HeaderPairs(headers, row)
    ensures forall k :: 0 <= k < |headers| ==> StandardPerson(headers, row)[k] == (headers[k], Trim(Cell(row, k)))
  {
    KeysOfHeaderPairs(headers, row);
    PutAllFresh([], HeaderPairs(headers, row));
  }

  /** With a repeated header, the later column's value wins, at the first position. */
  lemma StandardPersonGet(headers: seq<string>, row: seq<string>, key: string)
    ensures Get(StandardPerson(headers, row), key) == LastValue(HeaderPairs(headers, row), key)
  {
    GetPutAll([], HeaderPairs(headers, row), key);
  }

  // ---------------------------------------------------------------------------
  // The "termed" filter, common to both paths

  predicate Truthy(v: Option<string>) {
    v.Some? && v.value != ""
  }

  /** `person.Name || person.name || person['Provider Name'] || person['Full Name'] || ''`. */
  function NameColumn(p: Record): string {
    if Truthy(Get(p, "Name")) then Get(p, "Name").value
    else if Truthy(Get(p, "name")) then Get(p, "name").value
    else if Truthy(Get(p, "Provider Name")) then Get(p, "Provider Name").value
    else if Truthy(Get(p, "Full Name")) then Get(p, "Full Name").value
    else ""
  }

  predicate IsActive(p: Record) {
    !Contains(Lower(NameColumn(p)), "termed")
  }

  /** `people.filter(...)` with the termed test. */
  function ActivePeople(people: seq<Record>): (active: seq<Record>)
    ensures |active| <= |people|
  {
    if people == [] then []
    else (if IsActive(people[0]) then [people[0]] else []) + ActivePeople(people[1..])
  }

  /** The records kept are exactly the active ones. */
  lemma {:induction false} ActivePeopleExact(people: seq<Record>)
    ensures forall p :: p in ActivePeople(people) <==> p in people && IsActive(p)
  {
    if people != [] {
      ActivePeopleExact(people[1..]);
      assert people == [people[0]] + people[1..];
    }
  }

  /**
   * The termed filter keeps order and multiplicity: it keeps a single record
   * iff the record is active, and it distributes over concatenation.
   */
  lemma {:induction false} ActivePeopleFilter(a: seq<Record>, b: seq<Record>, p: Record)
    ensures ActivePeople([p]) == if IsActive(p) then [p] else []
    ensures ActivePeople(a + b) == ActivePeople(a) + ActivePeople(b)
  {
    ActivePeopleCons(p, []);
    if a == [] {
      assert a + b == b;
    } else {
      var head := if IsActive(a[0]) then [a[0]] else [];
      ActivePeopleFilter(a[1..], b, p);
      ActivePeopleCons(a[0], a[1..]);
      ActivePeopleCons(a[0], a[1..] + b);
      ConcatAssoc([a[0]], a[1..], b);
      assert a == [a[0]] + a[1..];
      ConcatAssoc(head, ActivePeople(a[1..]), ActivePeople(b));
    }
  }

  lemma ActivePeopleCons(p: Record, rest: seq<Record>)
    ensures ActivePeople([p] + rest) == (if IsActive(p) then [p] else []) + ActivePeople(rest)
  {
    assert ([p] + rest)[1..] == rest;
  }

  /** A record none of whose four name keys holds a non-empty value is kept. */
  lemma NamelessKept(p: Record)
    requires !Truthy(Get(p, "Name")) && !Truthy(Get(p, "name"))
    requires !Truthy(Get(p, "Provider Name")) && !Truthy(Get(p, "Full Name"))
    ensures IsActive(p)
  {
  }

  // ---------------------------------------------------------------------------
  // The handler

  /** The people the handler answers with, or the header error. */
  function Normalized(rows: Matrix): Result<seq<Record>, LoadError> {
    if |rows| == 0 then Ok([])
    else if DetectTransposed(rows) then Ok(ActivePeople(TransposedPeople(rows)))
    else
      match StandardPeople(rows)
      case Err(e) => Err(e)
      case Ok(people) => Ok(ActivePeople(people))
  }

  /** No record the handler returns has a name value that mentions "termed", in any case. */
  lemma NormalizedActive(rows: Matrix)
    ensures Normalized(rows).Ok? ==> forall p :: p in Normalized(rows).value ==> IsActive(p)
    ensures Normalized(rows).Err? <==>
      |rows| > 0 && !DetectTransposed(rows) && forall j :: 0 <= j < |rows[0]| ==> Trim(rows[0][j]) == ""
  {
    if |rows| > 0 && !DetectTransposed(rows) {
      StandardShape(rows);
      if StandardPeople(rows).Ok? {
        ActivePeopleExact(StandardPeople(rows).value);
      }
    } else if |rows| > 0 {
      ActivePeopleExact(TransposedPeople(rows));
    }
  }

  /** Lines 43-83 of the POST handler (and 35-75 of the GET handler) on parsed rows. */
  method PeopleOf(rows: Matrix) returns (result: Result<seq<Record>, LoadError>)
    ensures result == Normalized(rows)
  {
    if |rows| == 0 {
      return Ok([]);
    }
    var people: seq<Record>;
    if DetectTransposed(rows) {
      people := ConvertTransposed(rows);
    } else {
      var standard := StandardPeople(rows);
      if standard.Err? {
        return Err(NoHeaders);
      }
      people := standard.value;
    }
    result := Ok(ActivePeople(people));
  }

  /** The CSV branch of both handlers: `parseCSV`, then the normalisation. */
  method LoadCsv(text: string) returns (result: Result<seq<Record>, LoadError>)
    ensures result == Normalized(SpreadsheetCsv.CsvRows(text))
  {
    var rows := SpreadsheetCsv.ParseCsv(text);
    result := PeopleOf(rows);
  }
}
