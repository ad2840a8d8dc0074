/**
 * InsertDataAsync: one parameterised INSERT per non-empty row, its
 * parameters bound by re-sanitizing each column name and looking it up in
 * the row, stopping at the first row that fails.
 */
module Persist {
  import opened Wrappers
  import opened Text
  import opened Sanitizer
  import opened Sheet
  import opened Store

  /** The insert-time emptiness test on one value: null, DBNull, or white-space text. */
  predicate IsEmptyValue(v: Cell)
  {
    v.Null? || v.DbNull? || (v.Str? && IsNullOrWhiteSpace(v.s))
  }

  /** `row.Values.All(...)`: every value of the row is empty. */
  predicate IsEmptyRecord(row: Record)
  {
    forall k :: k in row ==> IsEmptyValue(row[k])
  }

  /** `columnNames.Select(SanitizeColumnName)`: the column list of the INSERT statement. */
  function SanitizeAll(names: seq<string>): (r: seq<string>)
    ensures |r| == |names|
    ensures forall i :: 0 <= i < |names| ==> r[i] == SanitizeColumnName(names[i])
  {
    seq(|names|, i requires 0 <= i < |names| => SanitizeColumnName(names[i]))
  }

  /**
   * The parameters of one INSERT, given the sanitized names in order: the
   * row's value under each name, DBNull read as NULL; a name the row does
   * not hold is a KeyNotFoundException.
   */
  function BindKeys(keys: seq<string>, row: Record): (r: Result<Record, Error>)
    ensures r.Success? <==> forall k :: k in keys ==> k in row
    ensures r.Success? ==> r.value.Keys == (set k | k in keys) && forall k :: k in keys ==> r.value[k] == Stored(row[k])
    ensures r.Failure? ==> exists k :: k in keys && k !in row && r.error == KeyNotFound(k)
  {
    if keys == [] then Success(map[])
    else
      var n := |keys| - 1;
      assert keys == keys[..n] + [keys[n]];
      match BindKeys(keys[..n], row)
      case Failure(e) => Failure(e)
      case Success(bound) =>
        if keys[n] in row then Success(bound[keys[n] := Stored(row[keys[n]])]) else Failure(KeyNotFound(keys[n]))
  }

  /** The loop over `columnNames`: each name is sanitized again and looked up in the row. */
  function BindRecord(columnNames: seq<string>, row: Record): Result<Record, Error>
  {
    BindKeys(SanitizeAll(columnNames), row)
  }

  /** The rows InsertDataAsync does not skip, in order. */
  function NonEmptyRecords(rows: seq<Record>): (r: seq<Record>)
    ensures |r| <= |rows|
    ensures forall m :: m in r ==> m in rows && !IsEmptyRecord(m)
  {
    if rows == [] then []
    else (if IsEmptyRecord(rows[0]) then [] else [rows[0]]) + NonEmptyRecords(rows[1..])
  }

  /** The positions of the rows that are not empty, in order. */
  function NonEmptyPositions(rows: seq<Record>): (ps: seq<nat>)
    ensures forall k :: 0 <= k < |ps| ==> ps[k] < |rows| && !IsEmptyRecord(rows[ps[k]])
    ensures forall k, l :: 0 <= k < l < |ps| ==> ps[k] < ps[l]
    ensures forall p :: 0 <= p < |rows| && !IsEmptyRecord(rows[p]) ==> p in ps
  {
    if rows == [] then []
    else
      var n := |rows| - 1;
      var ps := NonEmptyPositions(rows[..n]);
      if IsEmptyRecord(rows[n]) then ps else ps + [n]
  }

  /** The insert keeps exactly the rows that are not empty, in order: the k-th kept row is the k-th such row. */
  lemma {:induction false} NonEmptyRecordsPositions(rows: seq<Record>)
    ensures |NonEmptyRecords(rows)| == |NonEmptyPositions(rows)|
    ensures forall k :: 0 <= k < |NonEmptyPositions(rows)| ==> NonEmptyRecords(rows)[k] == rows[NonEmptyPositions(rows)[k]]
  {
    if rows != [] {
      var n := |rows| - 1;
      var prefix := rows[..n];
      NonEmptyRecordsPositions(prefix);
      NonEmptyRecordsSnoc(rows);
      var kept0, ps0 := NonEmptyRecords(prefix), NonEmptyPositions(prefix);
      forall k | 0 <= k < |ps0|
        ensures kept0[k] == rows[ps0[k]]
      {
        assert prefix[ps0[k]] == rows[ps0[k]];
      }
      if !IsEmptyRecord(rows[n]) {
        var kept, ps := kept0 + [rows[n]], ps0 + [n];
        assert kept[|ps0|] == rows[ps[|ps0|]];
      }
    }
  }

  /** The last row is kept after the others exactly when it is not empty. */
  lemma NonEmptyRecordsSnoc(rows: seq<Record>)
    requires rows != []
    ensures var n := |rows| - 1;
            NonEmptyRecords(rows) == NonEmptyRecords(rows[..n]) + (if IsEmptyRecord(rows[n]) then [] else [rows[n]])
  {
    var n := |rows| - 1;
    assert rows == rows[..n] + [rows[n]];
    NonEmptyRecordsAppend(rows[..n], [rows[n]]);
    assert [rows[n]][1..] == [];
  }

  /**
   * The loop of InsertDataAsync over the rows, given the sanitized column
   * list: empty rows are skipped, each other row is bound and inserted in
   * order, and the first failure stops it with the rows before it already
   * inserted.
   */
  function InsertRows(tables: map<string, Table>, name: string, keys: seq<string>, rows: seq<Record>)
    : (map<string, Table>, Outcome<Error>)
    decreases |rows|
  {
    if rows == [] then (tables, Pass)
    else if IsEmptyRecord(rows[0]) then InsertRows(tables, name, keys, rows[1..])
    else match BindKeys(keys, rows[0])
      case Failure(e) => (tables, Fail(e))
      case Success(record) =>
        match InsertInto(tables, name, keys, record)
        case Failure(e) => (tables, Fail(e))
        case Success(next) => InsertRows(next, name, keys, rows[1..])
  }

  /**
   * The insert loop touches only the named table: it keeps every table and
   * its columns, only ever appends rows (at most one per non-empty row), and
   * fails only on a missing key, table or column.
   */
  lemma {:induction false} InsertRowsFrame(tables: map<string, Table>, name: string, keys: seq<string>, rows: seq<Record>)
    ensures var r := InsertRows(tables, name, keys, rows);
            && r.0.Keys == tables.Keys
            && (forall n :: n in tables && n != name ==> r.0[n] == tables[n])
            && (name !in tables ==> r.0 == tables)
            && (name in tables ==>
                  && r.0[name].columns == tables[name].columns
                  && tables[name].rows <= r.0[name].rows
                  && |r.0[name].rows| <= |tables[name].rows| + |NonEmptyRecords(rows)|)
            && (r.1.Fail? ==> r.1.error.KeyNotFound? || r.1.error.NoSuchTable? || r.1.error.NoSuchColumn?)
    decreases |rows|
  {
    if rows != [] {
      if IsEmptyRecord(rows[0]) {
        InsertRowsFrame(tables, name, keys, rows[1..]);
      } else if BindKeys(keys, rows[0]).Success? {
        var inserted := InsertInto(tables, name, keys, BindKeys(keys, rows[0]).value);
        if inserted.Success? {
          var next := inserted.value;
          InsertRowsFrame(next, name, keys, rows[1..]);
          var r := InsertRows(next, name, keys, rows[1..]);
          assert r == InsertRows(tables, name, keys, rows);
          PrefixTransitive(tables[name].rows, next[name].rows, r.0[name].rows);
        }
      }
    }
  }

  lemma PrefixTransitive(a: seq<Record>, b: seq<Record>, c: seq<Record>)
    requires a <= b && b <= c
    ensures a <= c
  {
    assert c[..|a|] == b[..|a|];
  }

  /** InsertRows from position k on: the row at k is skipped, fails, or is inserted before the rest. */
  lemma InsertRowsAt(tables: map<string, Table>, name: string, keys: seq<string>, rows: seq<Record>, k: nat)
    requires k < |rows|
    ensures InsertRows(tables, name, keys, rows[k..]) ==
              if IsEmptyRecord(rows[k]) then InsertRows(tables, name, keys, rows[k + 1..])
              else if BindKeys(keys, rows[k]).Failure? then (tables, Fail(BindKeys(keys, rows[k]).error))
              else if InsertInto(tables, name, keys, BindKeys(keys, rows[k]).value).Failure? then
                (tables, Fail(InsertInto(tables, name, keys, BindKeys(keys, rows[k]).value).error))
              else InsertRows(InsertInto(tables, name, keys, BindKeys(keys, rows[k]).value).value, name, keys, rows[k + 1..])
  {
    assert rows[k..][0] == rows[k] && rows[k..][1..] == rows[k + 1..];
  }

  /** What InsertDataAsync does to the tables. */
  function InsertEffect(tables: map<string, Table>, name: string, columnNames: seq<string>, rows: seq<Record>)
    : (map<string, Table>, Outcome<Error>)
  {
    InsertRows(tables, name, SanitizeAll(columnNames), rows)
  }

  /** Skipping empty rows distributes over concatenation. */
  lemma {:induction false} NonEmptyRecordsAppend(a: seq<Record>, b: seq<Record>)
    ensures NonEmptyRecords(a + b) == NonEmptyRecords(a) + NonEmptyRecords(b)
  {
    if a == [] {
      assert a + b == b;
    } else {
      assert (a + b)[0] == a[0];
      assert (a + b)[1..] == a[1..] + b;
      NonEmptyRecordsAppend(a[1..], b);
    }
  }

  /** The table after appending rows to it. */
  function Appended(tables: map<string, Table>, name: string, rows: seq<Record>): map<string, Table>
    requires name in tables
  {
    tables[name := Table(tables[name].columns, tables[name].rows + rows)]
  }

  /** Appending to a table just created empty leaves it holding exactly the appended rows. */
  lemma AppendedToFresh(tables: map<string, Table>, name: string, columns: seq<string>, rows: seq<Record>)
    ensures Appended(tables[name := Table(columns, [])], name, rows) == tables[name := Table(columns, rows)]
  {
    assert [] + rows == rows;
  }

  /** Appending twice is appending the concatenation. */
  lemma AppendedTwice(tables: map<string, Table>, name: string, first: seq<Record>, rest: seq<Record>)
    requires name in tables
    ensures Appended(Appended(tables, name, first), name, rest) == Appended(tables, name, first + rest)
  {
    assert tables[name].rows + first + rest == tables[name].rows + (first + rest);
  }

  /**
   * A non-empty row that binds to itself, into a table that has its columns
   * and no two columns SQLite confuses, is appended as it is, and the insert
   * goes on with the rest.
   */
  lemma {:induction false} InsertFirstRow(tables: map<string, Table>, name: string, keys: seq<string>, rows: seq<Record>)
    requires name in tables && FoldDistinct(tables[name].columns)
    requires forall c :: c in keys ==> c in tables[name].columns
    requires rows != [] && !IsEmptyRecord(rows[0]) && BindKeys(keys, rows[0]) == Success(rows[0])
    ensures InsertRows(tables, name, keys, rows) == InsertRows(Appended(tables, name, [rows[0]]), name, keys, rows[1..])
    ensures NonEmptyRecords(rows) == [rows[0]] + NonEmptyRecords(rows[1..])
  {
    InsertOwnColumns(tables, name, keys, rows[0]);
  }

  /** A record keyed by columns of a table without repeats is appended to it as it is. */
  lemma {:induction false} InsertOwnColumns(tables: map<string, Table>, name: string, keys: seq<string>, record: Record)
    requires name in tables && FoldDistinct(tables[name].columns)
    requires forall c :: c in keys ==> c in tables[name].columns
    requires record.Keys == set k | k in keys
    ensures InsertInto(tables, name, keys, record) == Success(Appended(tables, name, [record]))
  {
    var columns := tables[name].columns;
    RowForSelf(columns, keys, record);
    forall c | c in keys
      ensures Find(columns, c).Some?
    {
      var p :| 0 <= p < |columns| && columns[p] == c;
      FindMember(columns, p);
    }
    var inserted := InsertInto(tables, name, keys, record).value;
    assert inserted[name] == Table(columns, tables[name].rows + [record]);
  }

  /**
   * When the table has every column, no two columns SQLite confuses, and
   * every row binds to itself, all non-empty rows are appended, in order,
   * and nothing fails.
   */
  lemma {:induction false} InsertRowsAppendsAll(tables: map<string, Table>, name: string, keys: seq<string>, rows: seq<Record>)
    requires name in tables && FoldDistinct(tables[name].columns)
    requires forall c :: c in keys ==> c in tables[name].columns
    requires forall i :: 0 <= i < |rows| ==> BindKeys(keys, rows[i]) == Success(rows[i])
    ensures InsertRows(tables, name, keys, rows) == (Appended(tables, name, NonEmptyRecords(rows)), Pass)
  {
    if rows == [] {
      var t := tables[name];
      assert t.rows + [] == t.rows && Table(t.columns, t.rows) == t;
      assert tables[name := t] == tables;
    } else {
      assert forall i :: 1 <= i < |rows| ==> rows[1..][i - 1] == rows[i];
      if IsEmptyRecord(rows[0]) {
        InsertRowsAppendsAll(tables, name, keys, rows[1..]);
        assert NonEmptyRecords(rows) == NonEmptyRecords(rows[1..]);
      } else {
        InsertRowsAppendsAll(Appended(tables, name, [rows[0]]), name, keys, rows[1..]);
        InsertFirstRow(tables, name, keys, rows);
        AppendedTwice(tables, name, [rows[0]], NonEmptyRecords(rows[1..]));
      }
    }
  }

  /** A row map binds to itself: every column is a key, and the values hold no DBNull. */
  lemma RowMapBindsToItself(columns: seq<string>, row: seq<Cell>)
    ensures BindKeys(columns, RowMap(columns, row)) == Success(RowMap(columns, row))
  {
    var m := RowMap(columns, row);
    RowMapShape(columns, row);
    var r := BindKeys(columns, m);
    assert r.Success?;
    assert r.value.Keys == m.Keys;
    assert forall c :: c in m ==> r.value[c] == m[c];
    assert r.value == m;
  }

  /** Every ingested row binds to itself. */
  lemma {:induction false} IngestedRowsBind(columns: seq<string>, rows: seq<seq<Cell>>)
    ensures forall i :: 0 <= i < |IngestRows(columns, rows)| ==>
              BindKeys(columns, IngestRows(columns, rows)[i]) == Success(IngestRows(columns, rows)[i])
  {
    IngestRowsSpec(columns, rows);
    forall i | 0 <= i < |IngestRows(columns, rows)|
      ensures BindKeys(columns, IngestRows(columns, rows)[i]) == Success(IngestRows(columns, rows)[i])
    {
      RowMapBindsToItself(columns, rows[KeptPositions(rows, |columns|)[i]]);
    }
  }

  /** Names that are already sanitized are the INSERT's own column list. */
  lemma SanitizedNamesAreKeys(columns: seq<string>)
    requires forall k :: 0 <= k < |columns| ==> SanitizeColumnName(columns[k]) == columns[k]
    ensures SanitizeAll(columns) == columns
  {
  }

  /** Column names that are pairwise different. */
  predicate Distinct(columns: seq<string>)
  {
    forall i, j :: 0 <= i < j < |columns| ==> columns[i] != columns[j]
  }

  /** Names SQLite tells apart are different names. */
  lemma FoldDistinctIsDistinct(columns: seq<string>)
    requires FoldDistinct(columns)
    ensures Distinct(columns)
  {
  }

  /** With distinct columns, a row kept by the ingest is never skipped by the insert. */
  lemma KeptRowIsInserted(columns: seq<string>, row: seq<Cell>)
    requires Distinct(columns)
    requires !BlankUpTo(row, |columns|)
    ensures !IsEmptyRecord(RowMap(columns, row))
  {
    var i :| 0 <= i < |columns| && !IsBlank(CellAt(row, i));
    RowMapAt(columns, row, i);
    var v := RowMap(columns, row)[columns[i]];
    assert v == CellAt(row, i);
    assert !IsEmptyValue(v);
  }

  /** With distinct columns, every ingested row is inserted. */
  lemma {:induction false} DistinctColumnsInsertEveryRow(columns: seq<string>, rows: seq<seq<Cell>>)
    requires Distinct(columns)
    ensures NonEmptyRecords(IngestRows(columns, rows)) == IngestRows(columns, rows)
  {
    if rows != [] {
      var n := |rows| - 1;
      DistinctColumnsInsertEveryRow(columns, rows[..n]);
      var tail := if BlankUpTo(rows[n], |columns|) then [] else [RowMap(columns, rows[n])];
      NonEmptyRecordsAppend(IngestRows(columns, rows[..n]), tail);
      if tail != [] {
        KeptRowIsInserted(columns, rows[n]);
        assert NonEmptyRecords(tail) == tail;
      }
    }
  }

  /**
   * A repeated column name loses a row: in columns ["A", "A"] the row
   * ["x", " "] is kept by the ingest, since its first cell is not blank,
   * but the second cell overwrites the first under "A" and the insert skips
   * it. (A new table with these columns is refused by CREATE TABLE; the loss
   * shows when the table already exists.)
   */
  lemma DuplicateColumnsDropRow()
    ensures var columns, rows := ["A", "A"], [[Str("x"), Str(" ")]];
            && |IngestRows(columns, rows)| == 1
            && NonEmptyRecords(IngestRows(columns, rows)) == []
  {
    var columns, rows := ["A", "A"], [[Str("x"), Str(" ")]];
    var x, blank := Str("x"), Str(" ");
    assert "x"[0] == 'x' && !IsWhiteSpace('x');
    assert !IsBlank(CellAt(rows[0], 0));
    assert rows[..0] == [];
    var m := RowMap(columns, rows[0]);
    assert columns[..1] == ["A"] && columns[..1][..0] == [];
    assert RowMap(columns[..1], rows[0]) == map["A" := x];
    assert m == map["A" := blank];
    assert " "[0] == ' ' && IsWhiteSpace(' ');
    assert IsEmptyRecord(m);
    assert IngestRows(columns, rows) == [m];
  }
}
