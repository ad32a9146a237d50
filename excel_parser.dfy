/** The row normalisation of the spreadsheet reader (utils/excelParser.ts):
    each row that `sheet_to_json` produced becomes a `RowData`, or the whole
    parse fails. Reading the file and the workbook is not part of this model;
    a row is given as its header/value pairs in key order. */
module ExcelParser {
  import opened Wrappers
  import opened Types
  import opened Strings

  /** One row object: its keys (the column headers) with their cell values, in key order. */
  type SheetRow = seq<(string, string)>

  /** The message thrown for a row without both columns. */
  const MissingColumns: string := "File must contain \"Original\" and \"Duplicates\" columns."

  /** `Object.keys(row).find(key => key.toLowerCase() === name)`, as the position of that key. */
  function FindKey(row: SheetRow, name: string): (r: Option<nat>)
    ensures r.Some? ==> r.value < |row| && Lower(row[r.value].0) == name
    ensures r.Some? ==> forall j :: 0 <= j < r.value ==> Lower(row[j].0) != name
    ensures r.None? ==> forall j :: 0 <= j < |row| ==> Lower(row[j].0) != name
  {
    Find(row, (kv: (string, string)) => Lower(kv.0) == name)
  }

  /** One step of `jsonData.map`: both values, or the error it throws. */
  function NormalizeRow(row: SheetRow): Result<RowData, string> {
    match (FindKey(row, "original"), FindKey(row, "duplicates"))
    case (Some(i), Some(j)) => Success(RowData(row[i].1, row[j].1))
    case _ => Failure(MissingColumns)
  }

  /** `jsonData.map(...)`: every row normalised, in order, or the error of the
      first row that lacks a column (no partial result). */
  function NormalizeRows(rows: seq<SheetRow>): (r: Result<seq<RowData>, string>)
    ensures r.Success? ==> |r.value| == |rows|
    ensures r.Success? ==> forall k :: 0 <= k < |rows| ==> NormalizeRow(rows[k]) == Success(r.value[k])
    ensures r.Failure? ==> r.error == MissingColumns
    ensures r.Failure? ==> exists k :: 0 <= k < |rows| && NormalizeRow(rows[k]).Failure?
  {
    if rows == [] then Success([])
    else
      match NormalizeRow(rows[0])
      case Failure(e) => Failure(e)
      case Success(d) =>
        match NormalizeRows(rows[1..])
        case Failure(e) =>
          assert exists k :: 0 <= k < |rows| - 1 && NormalizeRow(rows[1..][k]).Failure?;
          Failure(e)
        case Success(ds) => Success([d] + ds)
  }

  /** The parse as the caller sees it: the rows, or the error prefixed with
      "Error parsing file: ". */
  function ParseRows(rows: seq<SheetRow>): Result<seq<RowData>, string> {
    match NormalizeRows(rows)
    case Success(ds) => Success(ds)
    case Failure(m) => Failure("Error parsing file: " + m)
  }

  // ---------------------------------------------------------------- the reference reading

  /** `v` is the value under the first key whose lower-case form is `name`. */
  ghost predicate FirstValue(row: SheetRow, name: string, v: string) {
    exists i :: 0 <= i < |row| && Lower(row[i].0) == name && row[i].1 == v &&
      forall j :: 0 <= j < i ==> Lower(row[j].0) != name
  }

  /** A row lacks a column when no key lower-cases to its name. */
  predicate LacksColumn(row: SheetRow, name: string) {
    forall j :: 0 <= j < |row| ==> Lower(row[j].0) != name
  }

  /** The key found is the first match, so its value is the reference value. */
  lemma FindKeyValue(row: SheetRow, name: string, v: string)
    ensures (FindKey(row, name).Some? && row[FindKey(row, name).value].1 == v) <==> FirstValue(row, name, v)
  {
    if FirstValue(row, name, v) {
      var i :| 0 <= i < |row| && Lower(row[i].0) == name && row[i].1 == v &&
        forall j :: 0 <= j < i ==> Lower(row[j].0) != name;
      assert FindKey(row, name) == Some(i);
    }
  }

  /** A row is read exactly when both columns are there, and then its values
      are the ones under the first matching keys. */
  lemma NormalizeRowMeaning(row: SheetRow, o: string, d: string)
    ensures NormalizeRow(row) == Success(RowData(o, d)) <==>
      FirstValue(row, "original", o) && FirstValue(row, "duplicates", d)
  {
    FindKeyValue(row, "original", o);
    FindKeyValue(row, "duplicates", d);
  }

  /** A row fails exactly when it lacks one of the two columns. */
  lemma NormalizeRowFails(row: SheetRow)
    ensures NormalizeRow(row).Failure? <==> LacksColumn(row, "original") || LacksColumn(row, "duplicates")
  {
  }

  /** The parse fails exactly when some row lacks a column, and then with the
      one message; no partial result is returned. */
  lemma ParseRowsFails(rows: seq<SheetRow>)
    ensures ParseRows(rows).Failure? <==>
      exists k :: 0 <= k < |rows| && (LacksColumn(rows[k], "original") || LacksColumn(rows[k], "duplicates"))
    ensures ParseRows(rows).Failure? ==> ParseRows(rows).error == "Error parsing file: " + MissingColumns
  {
    if exists k :: 0 <= k < |rows| && (LacksColumn(rows[k], "original") || LacksColumn(rows[k], "duplicates")) {
      var k :| 0 <= k < |rows| && (LacksColumn(rows[k], "original") || LacksColumn(rows[k], "duplicates"));
      NormalizeRowFails(rows[k]);
    }
    if ParseRows(rows).Failure? {
      var k :| 0 <= k < |rows| && NormalizeRow(rows[k]).Failure?;
      NormalizeRowFails(rows[k]);
    }
  }

  /** On success there is one row per sheet row, in order, each read from its
      own sheet row. */
  lemma ParseRowsSucceeds(rows: seq<SheetRow>, k: nat)
    requires ParseRows(rows).Success? && k < |rows|
    ensures |ParseRows(rows).value| == |rows|
    ensures FirstValue(rows[k], "original", ParseRows(rows).value[k].original)
    ensures FirstValue(rows[k], "duplicates", ParseRows(rows).value[k].duplicates)
  {
    var r := ParseRows(rows).value[k];
    NormalizeRowMeaning(rows[k], r.original, r.duplicates);
  }

  // ---------------------------------------------------------------- other columns

  /** A column whose header is neither name is invisible to the lookup,
      wherever it stands. */
  lemma OtherColumnIgnored(row: SheetRow, i: nat, kv: (string, string), name: string, v: string)
    requires i <= |row| && Lower(kv.0) != name
    ensures FirstValue(row[..i] + [kv] + row[i..], name, v) <==> FirstValue(row, name, v)
  {
    if FirstValue(row, name, v) {
      InsertKeepsFirstValue(row, i, kv, name, v);
    }
    if FirstValue(row[..i] + [kv] + row[i..], name, v) {
      RemoveKeepsFirstValue(row, i, kv, name, v);
    }
  }

  lemma InsertKeepsFirstValue(row: SheetRow, i: nat, kv: (string, string), name: string, v: string)
    requires i <= |row| && Lower(kv.0) != name && FirstValue(row, name, v)
    ensures FirstValue(row[..i] + [kv] + row[i..], name, v)
  {
    var row' := row[..i] + [kv] + row[i..];
    var m :| 0 <= m < |row| && Lower(row[m].0) == name && row[m].1 == v &&
      forall j :: 0 <= j < m ==> Lower(row[j].0) != name;
    var m' := if m < i then m else m + 1;
    assert row'[m'] == row[m];
    forall j | 0 <= j < m'
      ensures Lower(row'[j].0) != name
    {
      if j < i { assert row'[j] == row[j]; }
      else if j > i { assert row'[j] == row[j - 1]; }
    }
  }

  lemma RemoveKeepsFirstValue(row: SheetRow, i: nat, kv: (string, string), name: string, v: string)
    requires i <= |row| && Lower(kv.0) != name && FirstValue(row[..i] + [kv] + row[i..], name, v)
    ensures FirstValue(row, name, v)
  {
    var row' := row[..i] + [kv] + row[i..];
    var m' :| 0 <= m' < |row'| && Lower(row'[m'].0) == name && row'[m'].1 == v &&
      forall j :: 0 <= j < m' ==> Lower(row'[j].0) != name;
    assert m' != i;
    var m := if m' < i then m' else m' - 1;
    assert row[m] == row'[m'];
    forall j | 0 <= j < m
      ensures Lower(row[j].0) != name
    {
      if j < i { assert row'[j] == row[j]; }
      else { assert row'[j + 1] == row[j]; }
    }
  }

  /** Hence a column other than the two leaves the row's reading unchanged. */
  lemma OtherColumnKeepsRow(row: SheetRow, i: nat, kv: (string, string))
    requires i <= |row| && Lower(kv.0) != "original" && Lower(kv.0) != "duplicates"
    ensures NormalizeRow(row[..i] + [kv] + row[i..]) == NormalizeRow(row)
  {
    var row' := row[..i] + [kv] + row[i..];
    if NormalizeRow(row).Success? {
      var r := NormalizeRow(row).value;
      NormalizeRowMeaning(row, r.original, r.duplicates);
      OtherColumnIgnored(row, i, kv, "original", r.original);
      OtherColumnIgnored(row, i, kv, "duplicates", r.duplicates);
      NormalizeRowMeaning(row', r.original, r.duplicates);
    } else if NormalizeRow(row').Success? {
      var r := NormalizeRow(row').value;
      NormalizeRowMeaning(row', r.original, r.duplicates);
      OtherColumnIgnored(row, i, kv, "original", r.original);
      OtherColumnIgnored(row, i, kv, "duplicates", r.duplicates);
      NormalizeRowMeaning(row, r.original, r.duplicates);
    }
  }

  // ---------------------------------------------------------------- which headers match

  /** The match ignores letter case only: "ORIGINAL" and "Duplicates" match,
      while "Duplicate" and " Original " do not. */
  lemma HeaderMatching()
    ensures Lower("ORIGINAL") == "original" && Lower("Duplicates") == "duplicates"
    ensures Lower("Duplicate") != "duplicates" && Lower(" Original ") != "original"
  {
    assert |Lower("Duplicate")| == 9;
    assert |Lower(" Original ")| == 10;
  }
}
