/**
 * The three-file pipeline as effects on the store: loading the record
 * layout and the control figures, validating the dataset against them,
 * and loading the dataset only when it passes.
 */
module Pipeline {
  import opened Wrappers
  import opened Sanitizer
  import opened Sheet
  import opened Store
  import opened Validation
  import opened Persist

  const RecordLayoutTable: string := "record_layout"
  const ControlFigureTable: string := "control_figure"
  const DatasetTable: string := "dataset"
  const ColumnNameColumn: string := "Column_Name"
  const TotalColumn: string := "Total"
  const ValidationFailedMessage: string := "Dataset validation failed: Column count or row count does not match control_figure."

  /** The last comparison record of a log that has one. */
  function LastResult(log: seq<ComparisonResult>): ComparisonResult
    requires log != []
  {
    log[|log| - 1]
  }

  /**
   * ProcessExcelFileAsync on a sheet given as its rows (the header first):
   * an empty sheet changes nothing; otherwise the table is created from the
   * header before any row is read, and the non-blank rows are inserted.
   */
  function FileEffect(state: DbState, sheet: seq<seq<Cell>>, name: string): (r: (DbState, Outcome<Error>))
    ensures r.0.compareResults == state.compareResults
    ensures r.0.tables.Keys <= state.tables.Keys + {name}
    ensures forall n :: n in state.tables && n != name ==> n in r.0.tables && r.0.tables[n] == state.tables[n]
    ensures sheet != [] && ResolveHeader(sheet[0]).Success? && CreateTable(state.tables, name, ResolveHeader(sheet[0]).value).Success?
            ==> name in r.0.tables
    ensures r.1.Fail? ==> !r.1.error.ValidationFailed?
  {
    if sheet == [] then (state, Pass)
    else match ResolveHeader(sheet[0])
      case Failure(e) =>
        HeaderFails(sheet[0]);
        (state, Fail(e))
      case Success(columns) =>
        match CreateTable(state.tables, name, columns)
        case Failure(e) => (state, Fail(e))
        case Success(created) =>
          var rows := IngestRows(columns, sheet[1..]);
          if rows == [] then (state.(tables := created), Pass)
          else
            InsertRowsFrame(created, name, SanitizeAll(columns), rows);
            var (tables, outcome) := InsertEffect(created, name, columns, rows);
            (state.(tables := tables), outcome)
  }

  /**
   * ValidateDataset: reads the layout names and the control figures back,
   * appends one comparison record to compare_results (creating it first),
   * and returns the verdict; a read that fails leaves the store unchanged.
   */
  function ValidateEffect(state: DbState, datasetColumns: seq<string>, actualRowCount: nat)
    : (r: (DbState, Result<bool, Error>))
    ensures r.0.tables == state.tables
    ensures r.1.Failure? ==> r.0 == state && !r.1.error.ValidationFailed?
    ensures r.1.Success? ==>
              && r.0.compareResults.Some?
              && |LogOf(r.0.compareResults)| == |LogOf(state.compareResults)| + 1
              && LogOf(r.0.compareResults)[..|LogOf(state.compareResults)|] == LogOf(state.compareResults)
              && var c := LastResult(LogOf(r.0.compareResults));
                 && (c.validationStatus == SuccessStatus <==> r.1.value)
                 && c.actualColumnCount == |datasetColumns| && c.actualRowCount == actualRowCount
                 && (r.1.value ==> c.expectedColumnCount == |datasetColumns| && c.expectedRowCount == actualRowCount)
  {
    match SelectColumns(state.tables, RecordLayoutTable, [ColumnNameColumn])
    case Failure(e) => (state, Failure(e))
    case Success(layoutRows) =>
      match LayoutColumns(layoutRows)
      case Failure(e) => (state, Failure(e))
      case Success(expected) =>
        match SelectColumns(state.tables, ControlFigureTable, [ColumnNameColumn, TotalColumn])
        case Failure(e) => (state, Failure(e))
        case Success(figureRows) =>
          match ReadFigures(figureRows)
          case Failure(e) => (state, Failure(e))
          case Success(figures) =>
            var result := Compare(expected, figures, datasetColumns, actualRowCount);
            (state.(compareResults := Some(LogOf(state.compareResults) + [result])),
             Success(Passes(expected, figures, datasetColumns, actualRowCount)))
  }

  /**
   * ProcessDatasetAsync: the header, the first pass's row count, the
   * validation, and only on a passing verdict the second pass and the
   * dataset table, created only when some row survives.
   */
  function DatasetEffect(state: DbState, sheet: seq<seq<Cell>>): (r: (DbState, Outcome<Error>))
    ensures forall n :: n in state.tables && n != DatasetTable ==> n in r.0.tables && r.0.tables[n] == state.tables[n]
    ensures r.0.tables.Keys <= state.tables.Keys + {DatasetTable}
    ensures r.1.Fail? && r.1.error.ValidationFailed? ==> r.1.error.message == ValidationFailedMessage && r.0.tables == state.tables
    ensures r.0.tables != state.tables ==>
              |LogOf(r.0.compareResults)| == |LogOf(state.compareResults)| + 1
              && LastResult(LogOf(r.0.compareResults)).validationStatus == SuccessStatus
  {
    if sheet == [] then (state, Pass)
    else match ResolveHeader(sheet[0])
      case Failure(e) =>
        HeaderFails(sheet[0]);
        (state, Fail(e))
      case Success(columns) =>
        var count := CountNonBlank(sheet[1..]);
        var (validated, verdict) := ValidateEffect(state, columns, count);
        match verdict
        case Failure(e) => (validated, Fail(e))
        case Success(passed) =>
          if !passed then (validated, Fail(ValidationFailed(ValidationFailedMessage)))
          else
            var rows := IngestRows(columns, sheet[1..]);
            if rows == [] then (validated, Pass)
            else match CreateTable(validated.tables, DatasetTable, columns)
              case Failure(e) => (validated, Fail(e))
              case Success(created) =>
                InsertRowsFrame(created, DatasetTable, SanitizeAll(columns), rows);
                var (tables, outcome) := InsertEffect(created, DatasetTable, columns, rows);
                (validated.(tables := tables), outcome)
  }

  /**
   * ProcessExcelFilesAsync: the record layout, then the control figures,
   * then the dataset; the first failure stops the rest.
   */
  function PipelineEffect(state: DbState, layout: seq<seq<Cell>>, control: seq<seq<Cell>>, dataset: seq<seq<Cell>>)
    : (r: (DbState, Outcome<Error>))
    ensures r.0.tables.Keys <= state.tables.Keys + {RecordLayoutTable, ControlFigureTable, DatasetTable}
    ensures forall n :: n in state.tables && n != RecordLayoutTable && n != ControlFigureTable && n != DatasetTable ==>
              n in r.0.tables && r.0.tables[n] == state.tables[n]
  {
    var (afterLayout, layoutOutcome) := FileEffect(state, layout, RecordLayoutTable);
    if layoutOutcome.Fail? then (afterLayout, layoutOutcome)
    else
      var (afterControl, controlOutcome) := FileEffect(afterLayout, control, ControlFigureTable);
      if controlOutcome.Fail? then (afterControl, controlOutcome)
      else DatasetEffect(afterControl, dataset)
  }

  /** A sheet without a header row returns at once: no table, no comparison record. */
  lemma EmptySheetChangesNothing(state: DbState, name: string)
    ensures FileEffect(state, [], name) == (state, Pass)
    ensures DatasetEffect(state, []) == (state, Pass)
  {
  }

  /**
   * A validation failure leaves the dataset table as it was (absent if it
   * was absent), whatever the layout and control files did.
   */
  lemma ValidationFailureKeepsDataset(state: DbState, layout: seq<seq<Cell>>, control: seq<seq<Cell>>, dataset: seq<seq<Cell>>)
    requires PipelineEffect(state, layout, control, dataset).1.Fail?
    requires PipelineEffect(state, layout, control, dataset).1.error.ValidationFailed?
    ensures var tables := PipelineEffect(state, layout, control, dataset).0.tables;
            && (DatasetTable in tables <==> DatasetTable in state.tables)
            && (DatasetTable in state.tables ==> tables[DatasetTable] == state.tables[DatasetTable])
  {
  }

  /**
   * A comparison record is written only after both the record layout and
   * the control figures were loaded without failure.
   */
  lemma ComparisonFollowsLoads(state: DbState, layout: seq<seq<Cell>>, control: seq<seq<Cell>>, dataset: seq<seq<Cell>>)
    requires LogOf(PipelineEffect(state, layout, control, dataset).0.compareResults) != LogOf(state.compareResults)
    ensures FileEffect(state, layout, RecordLayoutTable).1 == Pass
    ensures FileEffect(FileEffect(state, layout, RecordLayoutTable).0, control, ControlFigureTable).1 == Pass
  {
  }

  /** Names resolved from a header are their own sanitized forms. */
  lemma ResolvedColumnsAreKeys(header: seq<Cell>)
    requires ResolveHeader(header).Success?
    ensures SanitizeAll(ResolveHeader(header).value) == ResolveHeader(header).value
  {
    ResolvedNamesAreSanitized(header);
    SanitizedNamesAreKeys(ResolveHeader(header).value);
  }

  /**
   * Inserting records that bind to themselves into a fresh table whose
   * columns SQLite tells apart: the table gets the columns and the records
   * that are not empty, in order.
   */
  lemma FreshTableInsert(tables: map<string, Table>, name: string, columns: seq<string>, records: seq<Record>)
    requires name !in tables && FoldDistinct(columns)
    requires forall i :: 0 <= i < |records| ==> BindKeys(columns, records[i]) == Success(records[i])
    ensures InsertRows(CreateIfAbsent(tables, name, columns), name, columns, records)
            == (tables[name := Table(columns, NonEmptyRecords(records))], Pass)
  {
    var created := tables[name := Table(columns, [])];
    assert CreateIfAbsent(tables, name, columns) == created;
    InsertRowsAppendsAll(created, name, columns, records);
    AppendedToFresh(tables, name, columns, NonEmptyRecords(records));
  }

  /**
   * Loading ingested rows into a fresh table under names that are already
   * sanitized and that SQLite tells apart: the table gets the columns and
   * every ingested row, in order, and the load succeeds.
   */
  lemma FreshTableLoad(tables: map<string, Table>, name: string, columns: seq<string>, rows: seq<seq<Cell>>)
    requires name !in tables && FoldDistinct(columns)
    requires SanitizeAll(columns) == columns
    ensures InsertEffect(CreateIfAbsent(tables, name, columns), name, columns, IngestRows(columns, rows))
            == (tables[name := Table(columns, IngestRows(columns, rows))], Pass)
  {
    IngestedRowsBind(columns, rows);
    FreshTableInsert(tables, name, columns, IngestRows(columns, rows));
    FoldDistinctIsDistinct(columns);
    DistinctColumnsInsertEveryRow(columns, rows);
  }

  /**
   * A layout or control-figure file loaded into a fresh table: a header
   * without a named cell fails to create it, and so does one that repeats a
   * name (or `Id`) up to ASCII case, both leaving the store as it was;
   * otherwise the table holds the header's columns and every ingested row,
   * in order, and the load succeeds.
   */
  lemma FileLoadsFreshTable(state: DbState, sheet: seq<seq<Cell>>, name: string)
    requires sheet != [] && ResolveHeader(sheet[0]).Success?
    requires name !in state.tables
    ensures var columns, (after, outcome) := ResolveHeader(sheet[0]).value, FileEffect(state, sheet, name);
            && (columns == [] ==> after == state && outcome == Fail(EmptyColumnList(name)))
            && (columns != [] && !FoldDistinct([IdColumn] + columns) ==> after == state && outcome == Fail(DuplicateColumn(name)))
            && (columns != [] && FoldDistinct([IdColumn] + columns) ==>
                  outcome == Pass && after.tables == state.tables[name := Table(columns, IngestRows(columns, sheet[1..]))])
  {
    var columns := ResolveHeader(sheet[0]).value;
    var create := CreateTable(state.tables, name, columns);
    if create.Failure? {
      assert FileEffect(state, sheet, name) == (state, Fail(create.error));
    } else if columns != [] && FoldDistinct([IdColumn] + columns) {
      var rows := IngestRows(columns, sheet[1..]);
      assert create.value == state.tables[name := Table(columns, [])];
      FoldDistinctAfterId(columns);
      ResolvedColumnsAreKeys(sheet[0]);
      FreshTableLoad(state.tables, name, columns, sheet[1..]);
      if rows != [] {
        assert FileEffect(state, sheet, name) == (state.(tables := InsertEffect(create.value, name, columns, rows).0), Pass);
      }
    }
  }

  /** A header row without a named cell leaves CREATE TABLE with no column, so the file fails and nothing changes. */
  lemma HeaderWithoutNamesFails(state: DbState, rest: seq<seq<Cell>>, name: string)
    ensures FileEffect(state, [[Null]] + rest, name) == (state, Fail(EmptyColumnList(name)))
  {
    var header: seq<Cell> := [Null];
    assert header[..0] == [];
    assert HeaderTexts(header) == Success([]);
    assert ([[Null]] + rest)[0] == header;
  }

  /**
   * The verdict is computed from what the two SELECTs read back: it is a
   * success exactly when the layout and the figures both read, and then it
   * is Passes of the layout columns and figures read, and the record logged
   * is Compare of the same.
   */
  lemma ValidateVerdict(state: DbState, datasetColumns: seq<string>, actualRowCount: nat)
    ensures var layout := SelectColumns(state.tables, RecordLayoutTable, [ColumnNameColumn]);
            var control := SelectColumns(state.tables, ControlFigureTable, [ColumnNameColumn, TotalColumn]);
            var (after, verdict) := ValidateEffect(state, datasetColumns, actualRowCount);
            && (verdict.Success? <==>
                  layout.Success? && LayoutColumns(layout.value).Success? && control.Success? && ReadFigures(control.value).Success?)
            && (verdict.Success? ==>
                  var expected, figures := LayoutColumns(layout.value).value, ReadFigures(control.value).value;
                  && verdict.value == Passes(expected, figures, datasetColumns, actualRowCount)
                  && LastResult(LogOf(after.compareResults)) == Compare(expected, figures, datasetColumns, actualRowCount))
  {
  }

  /**
   * SQLite finds a column under any ASCII case spelling: a record layout
   * whose header is "column name" stores its names in `column_name`, and
   * `SELECT Column_Name` still reads them.
   */
  lemma LowerCaseLayoutColumnIsRead(tables: map<string, Table>, rows: seq<Record>)
    ensures SelectColumns(tables[RecordLayoutTable := Table(["column_name"], rows)], RecordLayoutTable, [ColumnNameColumn]).Success?
  {
    var lower, upper := "column_name", ColumnNameColumn;
    assert Fold(lower) == Fold(upper);
    assert Find([lower], upper) == Some(0);
  }

  /**
   * After a passing validation, a dataset with rows gets a fresh dataset
   * table holding every ingested row when CREATE TABLE accepts its columns,
   * and fails with DuplicateColumn, leaving the tables as they were, when
   * it does not; without rows nothing is created; either way the last
   * record says "Success".
   */
  lemma DatasetLoadsAfterPass(state: DbState, sheet: seq<seq<Cell>>)
    requires sheet != [] && ResolveHeader(sheet[0]).Success?
    requires DatasetTable !in state.tables
    requires ValidateEffect(state, ResolveHeader(sheet[0]).value, CountNonBlank(sheet[1..])).1 == Success(true)
    ensures var columns, (after, outcome) := ResolveHeader(sheet[0]).value, DatasetEffect(state, sheet);
            var rows := IngestRows(columns, sheet[1..]);
            && LogOf(after.compareResults) != []
            && LastResult(LogOf(after.compareResults)).validationStatus == SuccessStatus
            && LastResult(LogOf(after.compareResults)).expectedRowCount == CountNonBlank(sheet[1..])
            && (rows == [] ==> outcome == Pass && after.tables == state.tables)
            && (rows != [] && !FoldDistinct([IdColumn] + columns) ==>
                  outcome == Fail(DuplicateColumn(DatasetTable)) && after.tables == state.tables)
            && (rows != [] && FoldDistinct([IdColumn] + columns) ==>
                  outcome == Pass && after.tables == state.tables[DatasetTable := Table(columns, rows)])
  {
    var columns := ResolveHeader(sheet[0]).value;
    if IngestRows(columns, sheet[1..]) != [] {
      if columns == [] {
        NoColumnsKeepNoRows(sheet[1..]);
      }
      if FoldDistinct([IdColumn] + columns) {
        FoldDistinctAfterId(columns);
        ResolvedColumnsAreKeys(sheet[0]);
        var validated := ValidateEffect(state, columns, CountNonBlank(sheet[1..])).0;
        FreshTableLoad(validated.tables, DatasetTable, columns, sheet[1..]);
      }
    }
  }

  /**
   * When the dataset passes, CREATE TABLE accepts its columns and no row
   * has a non-blank cell beyond its header, the dataset table holds exactly
   * as many rows as the control figures' "Row Count".
   */
  lemma LoadedRowsMatchRowCount(state: DbState, sheet: seq<seq<Cell>>)
    requires sheet != [] && ResolveHeader(sheet[0]).Success?
    requires DatasetTable !in state.tables
    requires ValidateEffect(state, ResolveHeader(sheet[0]).value, CountNonBlank(sheet[1..])).1 == Success(true)
    requires FoldDistinct([IdColumn] + ResolveHeader(sheet[0]).value)
    requires forall r, i :: r in sheet[1..] && |ResolveHeader(sheet[0]).value| <= i < |r| ==> IsBlank(r[i])
    requires CountNonBlank(sheet[1..]) > 0
    ensures var after := DatasetEffect(state, sheet).0;
            && DatasetTable in after.tables && LogOf(after.compareResults) != []
            && |after.tables[DatasetTable].rows| == LastResult(LogOf(after.compareResults)).expectedRowCount
  {
    var columns := ResolveHeader(sheet[0]).value;
    var ingested := IngestRows(columns, sheet[1..]);
    PassesAgree(columns, sheet[1..]);
    assert ingested != [];
    DatasetLoadsAfterPass(state, sheet);
    var after := DatasetEffect(state, sheet).0;
    assert after.tables[DatasetTable].rows == ingested;
    assert |ingested| == CountNonBlank(sheet[1..]) == LastResult(LogOf(after.compareResults)).expectedRowCount;
  }
}
