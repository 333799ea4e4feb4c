/** Preparing the flat file for import: `clean_csv` drops the rows whose every
    field is missing, the `Unnamed: 0` index column is dropped, the frame is
    turned into records (`to_dict('records')`), and each record is cleaned of
    missing values with its keys stripped of surrounding whitespace. */
module Cleaning {
  import opened Text
  import opened Values

  /** The column pandas names after an unnamed leading index column. */
  const INDEX_COLUMN: string := "Unnamed: 0"

  type Row = seq<Value>

  /** A data frame: column labels and rows of cells in column order. */
  datatype Frame = Frame(columns: seq<string>, rows: seq<Row>)

  /** A data frame is rectangular. */
  predicate WellFormed(f: Frame) {
    forall r :: r in f.rows ==> |r| == |f.columns|
  }

  /** Every field of the row is missing (vacuously so for a row with no fields). */
  predicate AllMissing(row: Row) {
    forall i :: 0 <= i < |row| ==> row[i].Missing?
  }

  /** `dropna(how="all")` on the rows of a frame. */
  function DropEmptyRows(rows: seq<Row>): (kept: seq<Row>)
    ensures |kept| <= |rows|
  {
    if |rows| == 0 then []
    else (if AllMissing(rows[0]) then [] else [rows[0]]) + DropEmptyRows(rows[1..])
  }

  /** A row is kept exactly when it is in the table and not wholly missing. */
  lemma {:induction false} DropEmptyRowsMembers(rows: seq<Row>)
    ensures forall r :: r in DropEmptyRows(rows) <==> r in rows && !AllMissing(r)
    decreases |rows|
  {
    if |rows| > 0 {
      DropEmptyRowsMembers(rows[1..]);
      assert rows == [rows[0]] + rows[1..];
    }
  }

  /** Dropping rows keeps order: it works on each part of a table separately. */
  lemma {:induction false} DropEmptyRowsAppend(a: seq<Row>, b: seq<Row>)
    ensures DropEmptyRows(a + b) == DropEmptyRows(a) + DropEmptyRows(b)
    decreases |a|
  {
    if |a| > 0 {
      assert (a + b)[0] == a[0];
      assert (a + b)[1..] == a[1..] + b;
      DropEmptyRowsAppend(a[1..], b);
      var head := if AllMissing(a[0]) then [] else [a[0]];
      assert DropEmptyRows(a + b) == head + DropEmptyRows(a[1..] + b);
      assert DropEmptyRows(a) == head + DropEmptyRows(a[1..]);
    } else {
      assert DropEmptyRows(a) == [];
      assert a + b == b;
    }
  }

  /** A table without empty rows is left exactly as it is. */
  lemma {:induction false} DropEmptyRowsKeepsFullRows(rows: seq<Row>)
    requires forall i :: 0 <= i < |rows| ==> !AllMissing(rows[i])
    ensures DropEmptyRows(rows) == rows
    decreases |rows|
  {
    if |rows| > 0 {
      DropEmptyRowsKeepsFullRows(rows[1..]);
    }
  }

  /** `clean_csv`: the frame without its completely empty rows. */
  function CleanCsv(f: Frame): (g: Frame)
    ensures g.columns == f.columns
    ensures forall r :: r in g.rows <==> r in f.rows && !AllMissing(r)
    ensures WellFormed(f) ==> WellFormed(g)
  {
    DropEmptyRowsMembers(f.rows);
    Frame(f.columns, DropEmptyRows(f.rows))
  }

  /** Cleaning a cleaned frame changes nothing. */
  lemma CleanCsvIdempotent(f: Frame)
    ensures CleanCsv(CleanCsv(f)) == CleanCsv(f)
  {
    var kept := DropEmptyRows(f.rows);
    DropEmptyRowsMembers(f.rows);
    forall i | 0 <= i < |kept|
      ensures !AllMissing(kept[i])
    {
      assert kept[i] in kept;
    }
    DropEmptyRowsKeepsFullRows(kept);
  }

  /** Number of columns other than `name`. */
  function KeptCount(columns: seq<string>, name: string): nat {
    if |columns| == 0 then 0
    else (if columns[0] == name then 0 else 1) + KeptCount(columns[1..], name)
  }

  /** The entries of `xs` that lie in a column other than `name`. */
  function Keep<T>(columns: seq<string>, xs: seq<T>, name: string): (kept: seq<T>)
    requires |xs| == |columns|
    ensures |kept| == KeptCount(columns, name)
    ensures forall x :: x in kept ==> x in xs
  {
    if |columns| == 0 then []
    else (if columns[0] == name then [] else [xs[0]]) + Keep(columns[1..], xs[1..], name)
  }

  /** `df.drop(columns=[name])`: every column labelled `name` is removed. */
  function DropColumn(f: Frame, name: string): (g: Frame)
    requires WellFormed(f)
    ensures WellFormed(g)
    ensures |g.rows| == |f.rows|
    ensures name !in g.columns
  {
    var columns := Keep(f.columns, f.columns, name);
    KeepRemovesName(f.columns, name);
    Frame(columns, seq(|f.rows|, i requires 0 <= i < |f.rows| => Keep(f.columns, f.rows[i], name)))
  }

  lemma {:induction false} KeepRemovesName(columns: seq<string>, name: string)
    ensures name !in Keep(columns, columns, name)
    decreases |columns|
  {
    if |columns| > 0 {
      KeepRemovesName(columns[1..], name);
    }
  }

  /** Drops the index column when the frame has one. */
  function DropIndexColumn(f: Frame): (g: Frame)
    requires WellFormed(f)
    ensures WellFormed(g)
    ensures |g.rows| == |f.rows|
    ensures INDEX_COLUMN !in g.columns
  {
    if INDEX_COLUMN in f.columns then DropColumn(f, INDEX_COLUMN) else f
  }

  type Field = (string, Value)

  /** One row as `to_dict('records')` presents it: (column, cell) pairs in column order. */
  function Zip(columns: seq<string>, row: Row): (fields: seq<Field>)
    requires |row| == |columns|
    ensures |fields| == |row|
    ensures forall i :: 0 <= i < |row| ==> fields[i] == (columns[i], row[i])
  {
    if |row| == 0 then [] else [(columns[0], row[0])] + Zip(columns[1..], row[1..])
  }

  /** The fields whose key is not `name`, in order. */
  function WithoutKey(fields: seq<Field>, name: string): (rest: seq<Field>)
    ensures forall p :: p in rest <==> p in fields && p.0 != name
  {
    if |fields| == 0 then []
    else (if fields[0].0 == name then [] else [fields[0]]) + WithoutKey(fields[1..], name)
  }

  /** Dropping a column and then reading a row equals reading the row and
      leaving out that column's field. */
  lemma {:induction false} ZipKeep(columns: seq<string>, row: Row, name: string)
    requires |row| == |columns|
    ensures Zip(Keep(columns, columns, name), Keep(columns, row, name))
            == WithoutKey(Zip(columns, row), name)
    decreases |columns|
  {
    if |columns| > 0 {
      ZipKeep(columns[1..], row[1..], name);
      var zipped := Zip(columns, row);
      assert zipped[0] == (columns[0], row[0]);
      assert zipped[1..] == Zip(columns[1..], row[1..]);
      var restKeys := Keep(columns[1..], columns[1..], name);
      var restRow := Keep(columns[1..], row[1..], name);
      if columns[0] == name {
        assert Keep(columns, columns, name) == restKeys;
        assert Keep(columns, row, name) == restRow;
      } else {
        var keys := [columns[0]] + restKeys;
        var cells := [row[0]] + restRow;
        assert Keep(columns, columns, name) == keys;
        assert Keep(columns, row, name) == cells;
        assert keys[1..] == restKeys && cells[1..] == restRow;
        assert Zip(keys, cells) == [(columns[0], row[0])] + Zip(restKeys, restRow);
      }
    }
  }

  /** `df.to_dict('records')`. */
  function ToRecords(f: Frame): (records: seq<seq<Field>>)
    requires WellFormed(f)
    ensures |records| == |f.rows|
    ensures forall i :: 0 <= i < |f.rows| ==> records[i] == Zip(f.columns, f.rows[i])
  {
    seq(|f.rows|, i requires 0 <= i < |f.rows| => Zip(f.columns, f.rows[i]))
  }

  /** The records handed to the migration loop: the rows that survive
      `clean_csv`, in order, each without its index-column field. */
  function PrepareRecords(f: Frame): (records: seq<seq<Field>>)
    requires WellFormed(f)
    ensures |records| == |CleanCsv(f).rows|
    ensures forall i :: 0 <= i < |records| ==>
              records[i] == WithoutKey(Zip(f.columns, CleanCsv(f).rows[i]), INDEX_COLUMN)
  {
    var cleaned := CleanCsv(f);
    var records := ToRecords(DropIndexColumn(cleaned));
    forall i | 0 <= i < |records|
      ensures records[i] == WithoutKey(Zip(f.columns, cleaned.rows[i]), INDEX_COLUMN)
    {
      var row := cleaned.rows[i];
      if INDEX_COLUMN in f.columns {
        ZipKeep(f.columns, row, INDEX_COLUMN);
      } else {
        WithoutAbsentKey(Zip(f.columns, row), INDEX_COLUMN);
      }
    }
    records
  }

  lemma {:induction false} WithoutAbsentKey(fields: seq<Field>, name: string)
    requires forall i :: 0 <= i < |fields| ==> fields[i].0 != name
    ensures WithoutKey(fields, name) == fields
    decreases |fields|
  {
    if |fields| > 0 {
      WithoutAbsentKey(fields[1..], name);
    }
  }

  /** `{str(k).strip(): v for k, v in record.items() if pd.notna(v)}`: later
      fields overwrite earlier ones whose stripped key is the same. */
  function CleanRecord(fields: seq<Field>): (record: map<string, Value>)
    ensures forall k :: k in record ==> Present(record[k]) && Stripped(k)
  {
    if |fields| == 0 then map[]
    else
      var earlier := CleanRecord(fields[..|fields| - 1]);
      var (key, v) := fields[|fields| - 1];
      if Present(v) then earlier[Strip(key) := v] else earlier
  }

  /** Field `i` has a present value and its key strips to `k`. */
  predicate Supplies(fields: seq<Field>, i: int, k: string) {
    0 <= i < |fields| && Present(fields[i].1) && Strip(fields[i].0) == k
  }

  /** Every present field's stripped key is in the cleaned record. */
  lemma {:induction false} CleanRecordHasKey(fields: seq<Field>, i: nat)
    requires i < |fields| && Present(fields[i].1)
    ensures Strip(fields[i].0) in CleanRecord(fields)
    decreases |fields|
  {
    if i < |fields| - 1 {
      CleanRecordHasKey(fields[..|fields| - 1], i);
    }
  }

  /** Every key of the cleaned record comes from a present field. */
  lemma {:induction false} CleanRecordKeySource(fields: seq<Field>, k: string) returns (i: nat)
    requires k in CleanRecord(fields)
    ensures Supplies(fields, i, k)
    decreases |fields|
  {
    var n := |fields| - 1;
    var last := fields[n];
    if Present(last.1) && Strip(last.0) == k {
      i := n;
    } else {
      i := CleanRecordKeySource(fields[..n], k);
    }
  }

  /** A key is in the cleaned record exactly when some field with a present
      value strips to it. */
  lemma CleanRecordKeys(fields: seq<Field>, k: string)
    ensures k in CleanRecord(fields) <==> exists i :: Supplies(fields, i, k)
  {
    if k in CleanRecord(fields) {
      var i := CleanRecordKeySource(fields, k);
    }
    if exists i :: Supplies(fields, i, k) {
      var i :| Supplies(fields, i, k);
      CleanRecordHasKey(fields, i);
    }
  }

  /** Over the same fields, the index column still included, a row survives
      `dropna(how="all")` exactly when cleaning its record stores at least one
      field: both steps test the same `pd.notna`. Dropping the index column in
      between can empty a kept record (`IndexOnlyRowBecomesEmptyRecord`). */
  lemma KeptIffSomeFieldStored(columns: seq<string>, row: Row)
    requires |row| == |columns|
    ensures !AllMissing(row) <==> CleanRecord(Zip(columns, row)) != map[]
  {
    var fields := Zip(columns, row);
    if !AllMissing(row) {
      var i :| 0 <= i < |row| && !row[i].Missing?;
      CleanRecordHasKey(fields, i);
    }
    if CleanRecord(fields) != map[] {
      var k :| k in CleanRecord(fields);
      var i := CleanRecordKeySource(fields, k);
    }
  }

  /** Each kept value is stored unchanged under its stripped key, unless a later
      present field has the same stripped key. */
  lemma {:induction false} CleanRecordValue(fields: seq<Field>, i: nat)
    requires i < |fields| && Present(fields[i].1)
    requires forall j :: i < j < |fields| && Present(fields[j].1) ==>
               Strip(fields[j].0) != Strip(fields[i].0)
    ensures Strip(fields[i].0) in CleanRecord(fields)
    ensures CleanRecord(fields)[Strip(fields[i].0)] == fields[i].1
    decreases |fields|
  {
    if i < |fields| - 1 {
      CleanRecordValue(fields[..|fields| - 1], i);
    }
  }

  /** The index column never reaches a stored record, as long as no other
      column's label strips to the same name. */
  lemma IndexColumnNeverStored(f: Frame, i: nat)
    requires WellFormed(f)
    requires forall c :: c in f.columns && Strip(c) == INDEX_COLUMN ==> c == INDEX_COLUMN
    requires i < |PrepareRecords(f)|
    ensures INDEX_COLUMN !in CleanRecord(PrepareRecords(f)[i])
  {
    var row := CleanCsv(f).rows[i];
    var fields := PrepareRecords(f)[i];
    assert fields == WithoutKey(Zip(f.columns, row), INDEX_COLUMN);
    forall j | 0 <= j < |fields|
      ensures !Supplies(fields, j, INDEX_COLUMN)
    {
      assert fields[j] in Zip(f.columns, row);
    }
    CleanRecordKeys(fields, INDEX_COLUMN);
  }

  /** A column labelled " Unnamed: 0" is a different column, yet its stripped
      key is `Unnamed: 0`, which then reaches the record. */
  lemma PaddedIndexLabelReachesRecord()
    ensures |PrepareRecords(Frame([" Unnamed: 0"], [[Int(1)]]))| == 1
    ensures CleanRecord(PrepareRecords(Frame([" Unnamed: 0"], [[Int(1)]]))[0])
            == map[INDEX_COLUMN := Int(1)]
  {
    var f := Frame([" Unnamed: 0"], [[Int(1)]]);
    assert [Int(1)][0] == Int(1);
    assert DropEmptyRows(f.rows) == f.rows;
    assert Zip(f.columns, f.rows[0]) == [(" Unnamed: 0", Int(1))];
    var fields := [(" Unnamed: 0", Int(1))];
    assert WithoutKey(fields, INDEX_COLUMN) == fields;
    assert LeadingSpaces(INDEX_COLUMN) == 0;
    assert LeadingSpaces(" Unnamed: 0") == 1;
    assert " Unnamed: 0"[1..] == INDEX_COLUMN;
    assert TrailingSpaces(INDEX_COLUMN) == 0;
    assert Strip(" Unnamed: 0") == INDEX_COLUMN;
    assert fields[..0] == [];
    assert CleanRecord(fields) == map[][INDEX_COLUMN := Int(1)];
  }

  /** `clean_csv` runs before the index column is dropped, so a row whose only
      value is its index survives cleaning and becomes an empty record. */
  lemma IndexOnlyRowBecomesEmptyRecord()
    ensures |PrepareRecords(Frame([INDEX_COLUMN, "Name"], [[Int(0), Missing]]))| == 1
    ensures CleanRecord(PrepareRecords(Frame([INDEX_COLUMN, "Name"], [[Int(0), Missing]]))[0])
            == map[]
  {
    var f := Frame([INDEX_COLUMN, "Name"], [[Int(0), Missing]]);
    assert [Int(0), Missing][0] == Int(0);
    assert DropEmptyRows(f.rows) == f.rows;
    var fields := Zip(f.columns, f.rows[0]);
    assert fields == [(INDEX_COLUMN, Int(0)), ("Name", Missing)];
    assert fields[1..] == [("Name", Missing)];
    assert "Name" != INDEX_COLUMN;
    assert WithoutKey([("Name", Missing)], INDEX_COLUMN) == [("Name", Missing)];
    assert WithoutKey(fields, INDEX_COLUMN) == [("Name", Missing)];
  }

  /** A three-row file with one completely empty row yields two records. */
  lemma EmptyRowIsNotImported()
    ensures |PrepareRecords(Frame(["Name", "Attended"],
               [[Str("A"), Str("Yes")], [Missing, Missing], [Str("B"), Missing]]))| == 2
  {
    var rows := [[Str("A"), Str("Yes")], [Missing, Missing], [Str("B"), Missing]];
    assert rows[0][0] == Str("A") && rows[2][0] == Str("B");
    assert AllMissing(rows[1]);
    assert rows == [rows[0]] + [rows[1]] + [rows[2]];
    DropEmptyRowsAppend([rows[0]] + [rows[1]], [rows[2]]);
    DropEmptyRowsAppend([rows[0]], [rows[1]]);
  }
}
