/**
 * The SQLite database the service writes to, as an in-memory store: each
 * table is a column list with its rows appended in order, and the
 * compare_results audit log is a list of comparison records.
 */
module Store {
  import opened Wrappers
  import opened Sheet

  /** One stored row: the value bound to each column of the INSERT. */
  type Record = map<string, Cell>

  datatype Table = Table(columns: seq<string>, rows: seq<Record>)

  /** One row of compare_results (its Id and Timestamp are left out). */
  datatype ComparisonResult = ComparisonResult(
    expectedColumnCount: int,
    actualColumnCount: int,
    expectedRowCount: int,
    actualRowCount: int,
    validationStatus: string,
    description: string)

  /** The whole store: the tables by name, and compare_results once it exists. */
  datatype DbState = DbState(tables: map<string, Table>, compareResults: Option<seq<ComparisonResult>>)

  /** The key column CreateTableAsync declares before the sheet's columns. */
  const IdColumn: string := "Id"

  /** An ASCII upper-case letter as lower case; every other character as it is. */
  function FoldChar(c: char): char
  {
    if 'A' <= c <= 'Z' then (c as int + 32) as char else c
  }

  function Fold(s: string): string
  {
    seq(|s|, i requires 0 <= i < |s| => FoldChar(s[i]))
  }

  /** SQLite takes two column names for the same column when they differ only in the case of ASCII letters. */
  predicate SameName(a: string, b: string)
  {
    Fold(a) == Fold(b)
  }

  /** No two names of the list are the same column to SQLite. */
  predicate FoldDistinct(names: seq<string>)
  {
    forall i, j :: 0 <= i < j < |names| ==> !SameName(names[i], names[j])
  }

  /** The position of the first of `names` that SQLite takes for `column`. */
  function Find(names: seq<string>, column: string): (r: Option<nat>)
    ensures r.Some? ==> r.value < |names| && SameName(names[r.value], column)
                        && forall j :: 0 <= j < r.value ==> !SameName(names[j], column)
    ensures r.None? <==> forall j :: 0 <= j < |names| ==> !SameName(names[j], column)
  {
    if names == [] then None
    else if SameName(names[0], column) then Some(0)
    else match Find(names[1..], column)
      case None => None
      case Some(j) => Some(j + 1)
  }

  /**
   * `CREATE TABLE IF NOT EXISTS` once the statement is accepted: a new table
   * with the columns and no rows, unless the name is already taken, in which
   * case nothing changes.
   */
  function CreateIfAbsent(tables: map<string, Table>, name: string, columns: seq<string>): (r: map<string, Table>)
    ensures r.Keys == tables.Keys + {name}
    ensures forall n :: n in tables ==> r[n] == tables[n]
    ensures name !in tables ==> r[name] == Table(columns, [])
  {
    if name in tables then tables else tables[name := Table(columns, [])]
  }

  /**
   * The CREATE TABLE of CreateTableAsync: an empty column list leaves a
   * trailing comma after `Id`, which SQLite refuses to parse even when the
   * table exists; a new table whose columns (with `Id`) repeat a name,
   * ignoring ASCII case, is refused; an existing table is kept as it is.
   */
  function CreateTable(tables: map<string, Table>, name: string, columns: seq<string>)
    : (r: Result<map<string, Table>, Error>)
    ensures r.Success? <==> columns != [] && (name in tables || FoldDistinct([IdColumn] + columns))
    ensures r.Success? ==> r.value == CreateIfAbsent(tables, name, columns)
    ensures r.Failure? ==> r.error == if columns == [] then EmptyColumnList(name) else DuplicateColumn(name)
  {
    if columns == [] then Failure(EmptyColumnList(name))
    else if name in tables then Success(tables)
    else if !FoldDistinct([IdColumn] + columns) then Failure(DuplicateColumn(name))
    else Success(tables[name := Table(columns, [])])
  }

  /** The columns after `Id` of an accepted list are distinct too, and none of them is `Id`. */
  lemma FoldDistinctAfterId(columns: seq<string>)
    requires FoldDistinct([IdColumn] + columns)
    ensures FoldDistinct(columns)
    ensures forall i :: 0 <= i < |columns| ==> !SameName(IdColumn, columns[i])
  {
    var all := [IdColumn] + columns;
    forall i | 0 <= i < |columns|
      ensures !SameName(IdColumn, columns[i])
    {
      assert all[0] == IdColumn && all[i + 1] == columns[i];
    }
    forall i, j | 0 <= i < j < |columns|
      ensures !SameName(columns[i], columns[j])
    {
      assert all[i + 1] == columns[i] && all[j + 1] == columns[j];
    }
  }

  /** Creating a table a second time, with any columns, changes nothing, unless the column list is empty. */
  lemma CreateTableIdempotent(tables: map<string, Table>, name: string, columns: seq<string>, again: seq<string>)
    requires CreateTable(tables, name, columns).Success?
    ensures var created := CreateTable(tables, name, columns).value;
            CreateTable(created, name, again) == if again == [] then Failure(EmptyColumnList(name)) else Success(created)
  {
  }

  /** Two names that are the same column to SQLite find the same column. */
  lemma {:induction false} FindIgnoresCase(names: seq<string>, a: string, b: string)
    requires SameName(a, b)
    ensures Find(names, a) == Find(names, b)
  {
    if names != [] {
      FindIgnoresCase(names[1..], a, b);
    }
  }

  /** In a list without repeats, two names of the list that are the same column are the same name. */
  lemma SameInDistinct(names: seq<string>, a: string, b: string)
    requires FoldDistinct(names) && a in names && b in names && SameName(a, b)
    ensures a == b
  {
    var p :| 0 <= p < |names| && names[p] == a;
    var q :| 0 <= q < |names| && names[q] == b;
    assert p == q;
  }

  /** A name of the list is found, at its own position when the list has no repeats. */
  lemma FindMember(names: seq<string>, p: nat)
    requires p < |names|
    ensures Find(names, names[p]).Some?
    ensures FoldDistinct(names) ==> Find(names, names[p]) == Some(p)
  {
  }

  /** The first of `columns` that the table does not have, ignoring ASCII case. */
  function MissingColumn(tableColumns: seq<string>, columns: seq<string>): (r: Option<string>)
    ensures r.None? <==> forall c :: c in columns ==> Find(tableColumns, c).Some?
    ensures r.Some? ==> r.value in columns && Find(tableColumns, r.value).None?
  {
    if columns == [] then None
    else if Find(tableColumns, columns[0]).None? then assert columns[0] in columns; Some(columns[0])
    else
      assert forall c :: c in columns <==> c == columns[0] || c in columns[1..];
      MissingColumn(tableColumns, columns[1..])
  }

  /** The value a record binds to a name; a name it does not bind holds NULL. */
  function ValueIn(record: Record, column: string): Cell
  {
    if column in record then record[column] else Null
  }

  /**
   * The row an INSERT naming `columns` stores in a table with `tableColumns`:
   * each table column named in the statement, ignoring ASCII case, gets the
   * value of the first name for it.
   */
  function RowFor(tableColumns: seq<string>, columns: seq<string>, record: Record): Record
  {
    map tc | tc in tableColumns && Find(columns, tc).Some? :: ValueIn(record, columns[Find(columns, tc).value])
  }

  /**
   * A record whose keys are the INSERT's columns, all of them columns of a
   * table without repeats, is stored as it is.
   */
  lemma {:induction false} RowForSelf(tableColumns: seq<string>, keys: seq<string>, record: Record)
    requires FoldDistinct(tableColumns)
    requires forall k :: k in keys ==> k in tableColumns
    requires record.Keys == set k | k in keys
    ensures RowFor(tableColumns, keys, record) == record
  {
    var r := RowFor(tableColumns, keys, record);
    forall tc | tc in record
      ensures tc in r && r[tc] == record[tc]
    {
      RowForKeeps(tableColumns, keys, record, tc);
    }
    forall tc | tc in r
      ensures tc in record
    {
      RowForAddsNothing(tableColumns, keys, record, tc);
    }
    SameMaps(r, record);
  }

  lemma SameMaps(a: Record, b: Record)
    requires forall k :: k in a ==> k in b
    requires forall k :: k in b ==> k in a && a[k] == b[k]
    ensures a == b
  {
  }

  lemma {:induction false} RowForKeeps(tableColumns: seq<string>, keys: seq<string>, record: Record, tc: string)
    requires FoldDistinct(tableColumns)
    requires forall k :: k in keys ==> k in tableColumns
    requires tc in keys
    ensures tc in RowFor(tableColumns, keys, record) && RowFor(tableColumns, keys, record)[tc] == ValueIn(record, tc)
  {
    var p :| 0 <= p < |keys| && keys[p] == tc;
    FindMember(keys, p);
    var i := Find(keys, tc).value;
    SameInDistinct(tableColumns, keys[i], tc);
  }

  lemma {:induction false} RowForAddsNothing(tableColumns: seq<string>, keys: seq<string>, record: Record, tc: string)
    requires FoldDistinct(tableColumns)
    requires forall k :: k in keys ==> k in tableColumns
    requires tc in RowFor(tableColumns, keys, record)
    ensures tc in keys
  {
    var i := Find(keys, tc).value;
    SameInDistinct(tableColumns, keys[i], tc);
  }

  /**
   * `INSERT INTO name (columns) VALUES (...)`: appends the row the record
   * makes in the table; fails when the table or one of the columns, ignoring
   * ASCII case, does not exist.
   */
  function InsertInto(tables: map<string, Table>, name: string, columns: seq<string>, record: Record)
    : (r: Result<map<string, Table>, Error>)
    ensures r.Success? <==> name in tables && forall c :: c in columns ==> Find(tables[name].columns, c).Some?
    ensures r.Success? ==> r.value.Keys == tables.Keys
                           && r.value[name].columns == tables[name].columns
                           && r.value[name].rows == tables[name].rows + [RowFor(tables[name].columns, columns, record)]
                           && forall n :: n in tables && n != name ==> r.value[n] == tables[n]
    ensures r.Failure? ==> r.error == NoSuchTable(name) || r.error.NoSuchColumn?
  {
    if name !in tables then Failure(NoSuchTable(name))
    else match MissingColumn(tables[name].columns, columns)
      case Some(c) => Failure(NoSuchColumn(name, c))
      case None =>
        var row := RowFor(tables[name].columns, columns, record);
        Success(tables[name := tables[name].(rows := tables[name].rows + [row])])
  }

  /** The value a stored row holds in the table column SQLite takes for `column`. */
  function ColumnValue(tableColumns: seq<string>, row: Record, column: string): Cell
  {
    match Find(tableColumns, column)
    case None => Null
    case Some(i) => ValueIn(row, tableColumns[i])
  }

  /**
   * `SELECT columns FROM name`: one list of values per row, in insertion
   * order; fails when the table or one of the columns, ignoring ASCII case,
   * does not exist.
   */
  function SelectColumns(tables: map<string, Table>, name: string, columns: seq<string>)
    : (r: Result<seq<seq<Cell>>, Error>)
    ensures r.Success? <==> name in tables && forall c :: c in columns ==> Find(tables[name].columns, c).Some?
    ensures r.Success? ==>
              && |r.value| == |tables[name].rows|
              && forall i :: 0 <= i < |r.value| ==>
                   |r.value[i]| == |columns|
                   && forall j :: 0 <= j < |columns| ==>
                        r.value[i][j] == ColumnValue(tables[name].columns, tables[name].rows[i], columns[j])
  {
    if name !in tables then Failure(NoSuchTable(name))
    else match MissingColumn(tables[name].columns, columns)
      case Some(c) => Failure(NoSuchColumn(name, c))
      case None =>
        var table := tables[name];
        Success(seq(|table.rows|, i requires 0 <= i < |table.rows| =>
          seq(|columns|, j requires 0 <= j < |columns| => ColumnValue(table.columns, table.rows[i], columns[j]))))
  }

  /** A column is read the same under any ASCII case spelling of its name. */
  lemma SelectIgnoresCase(tables: map<string, Table>, name: string, a: string, b: string)
    requires SameName(a, b)
    ensures var ra, rb := SelectColumns(tables, name, [a]), SelectColumns(tables, name, [b]);
            ra.Success? == rb.Success? && (ra.Success? ==> ra.value == rb.value)
  {
    if name in tables {
      var table := tables[name];
      FindIgnoresCase(table.columns, a, b);
      var ra, rb := SelectColumns(tables, name, [a]), SelectColumns(tables, name, [b]);
      if ra.Success? {
        forall i | 0 <= i < |ra.value|
          ensures ra.value[i] == rb.value[i]
        {
          assert ColumnValue(table.columns, table.rows[i], a) == ColumnValue(table.columns, table.rows[i], b);
        }
      }
    }
  }

  /**
   * Reading back a row inserted under the table's own column names gives,
   * for every one of them, the value the record bound to it.
   */
  lemma {:induction false} InsertThenSelect(tables: map<string, Table>, name: string, record: Record, column: string)
    requires name in tables && FoldDistinct(tables[name].columns)
    requires InsertInto(tables, name, tables[name].columns, record).Success?
    requires column in tables[name].columns
    ensures var before := tables[name];
            var select := SelectColumns(InsertInto(tables, name, before.columns, record).value, name, [column]);
            && select.Success?
            && |select.value| == |before.rows| + 1
            && (forall i :: 0 <= i < |before.rows| ==> select.value[i] == [ColumnValue(before.columns, before.rows[i], column)])
            && select.value[|before.rows|] == [ValueIn(record, column)]
  {
    var before := tables[name];
    var columns := before.columns;
    var after := InsertInto(tables, name, columns, record).value;
    var p :| 0 <= p < |columns| && columns[p] == column;
    FindMember(columns, p);
    var select := SelectColumns(after, name, [column]);
    var row := RowFor(columns, columns, record);
    assert after[name].rows == before.rows + [row];
    assert ColumnValue(columns, row, column) == ValueIn(record, column);
    assert select.value[|before.rows|] == [ColumnValue(columns, row, column)];
    forall i | 0 <= i < |before.rows|
      ensures select.value[i] == [ColumnValue(columns, before.rows[i], column)]
    {
      assert after[name].rows[i] == before.rows[i];
    }
  }


  /** The compare_results log, empty until the table is created. */
  function LogOf(compareResults: Option<seq<ComparisonResult>>): seq<ComparisonResult>
  {
    if compareResults.Some? then compareResults.value else []
  }

  /**
   * The database behind IDbConnectionFactory: every connection opened on it
   * sees and changes the same tables and the same compare_results log.
   */
  class Database {
    var tables: map<string, Table>
    var compareResults: Option<seq<ComparisonResult>>

    constructor ()
      ensures tables == map[] && compareResults == None
    {
      tables := map[];
      compareResults := None;
    }

    function State(): DbState
      reads this
    {
      DbState(tables, compareResults)
    }
  }
}
