/**
 * ExcelProcessingService: the reader loops and the database calls, step by
 * step, each proved to have the effect its specification function states.
 */
module Service {
  import opened Wrappers
  import opened Text
  import opened Sanitizer
  import opened Sheet
  import opened Store
  import opened Validation
  import opened Persist
  import opened Pipeline

  /** One header cell read by the loop: a text that is not blank after trimming adds its column name. */
  lemma HeaderCellStep(header: seq<Cell>, i: nat, texts: seq<string>)
    requires i < |header| && HeaderTexts(header[..i]) == Success(texts) && IsTextOrNull(header[i])
    ensures header[i].Str? && !IsNullOrWhiteSpace(Trim(header[i].s)) ==>
              && HeaderTexts(header[..i + 1]) == Success(texts + [header[i].s])
              && ColumnNames(texts + [header[i].s]) == ColumnNames(texts) + [SanitizeColumnName(Trim(header[i].s))]
    ensures !(header[i].Str? && !IsNullOrWhiteSpace(Trim(header[i].s))) ==> HeaderTexts(header[..i + 1]) == Success(texts)
  {
    HeaderTextsStep(header, i);
    if header[i].Str? {
      TrimEmpty(header[i].s);
      ColumnNamesAppend(texts, header[i].s);
    }
  }

  /**
   * The header loop: each cell read with GetString and trimmed, blank ones
   * skipped, the rest sanitized; a cell that is not text throws.
   */
  method ReadHeader(header: seq<Cell>) returns (r: Result<seq<string>, Error>)
    ensures r == ResolveHeader(header)
  {
    var columns: seq<string> := [];
    ghost var texts: seq<string> := [];
    var i := 0;
    while i < |header|
      invariant 0 <= i <= |header|
      invariant HeaderTexts(header[..i]) == Success(texts)
      invariant columns == ColumnNames(texts)
    {
      var cell := header[i];
      if !(cell.Null? || cell.Str?) {
        HeaderFailsAt(header, i);
        return Failure(HeaderNotText(i));
      }
      HeaderCellStep(header, i, texts);
      if cell.Str? {
        var columnName := Trim(cell.s);
        if !IsNullOrWhiteSpace(columnName) {
          columns := columns + [SanitizeColumnName(columnName)];
          texts := texts + [cell.s];
        }
      }
      i := i + 1;
    }
    assert header[..i] == header;
    r := Success(columns);
  }

  /** The inner loop of the first pass: does the row have a non-blank cell, stopping at the first. */
  method IsEmptyRow(row: seq<Cell>) returns (isEmptyRow: bool)
    ensures isEmptyRow == BlankRow(row)
  {
    isEmptyRow := true;
    var i := 0;
    while i < |row|
      invariant 0 <= i <= |row|
      invariant BlankUpTo(row, i)
    {
      var cellValue := row[i];
      if !cellValue.Null? && !cellValue.DbNull? && !IsNullOrWhiteSpace(CellText(cellValue).value) {
        assert !IsBlank(CellAt(row, i));
        isEmptyRow := false;
        break;
      }
      i := i + 1;
    }
  }

  /** The first pass over the data rows: how many have a non-blank cell. */
  method CountNonEmptyRows(rows: seq<seq<Cell>>) returns (count: nat)
    ensures count == CountNonBlank(rows)
  {
    count := 0;
    var k := 0;
    while k < |rows|
      invariant 0 <= k <= |rows|
      invariant count == CountNonBlank(rows[..k])
    {
      assert rows[..k + 1][..k] == rows[..k];
      var isEmptyRow := IsEmptyRow(rows[k]);
      if !isEmptyRow {
        count := count + 1;
      }
      k := k + 1;
    }
    assert rows[..k] == rows;
  }

  /**
   * The inner loop of the second pass: the row's values under the column
   * names by position, DBNull stored as null, and whether all of them are blank.
   */
  method ReadRow(columns: seq<string>, row: seq<Cell>) returns (values: map<string, Cell>, isEmptyRow: bool)
    ensures values == RowMap(columns, row)
    ensures isEmptyRow == BlankUpTo(row, |columns|)
  {
    values := map[];
    isEmptyRow := true;
    var i := 0;
    while i < |columns|
      invariant 0 <= i <= |columns|
      invariant values == RowMap(columns[..i], row)
      invariant isEmptyRow == BlankUpTo(row, i)
    {
      assert columns[..i + 1][..i] == columns[..i];
      var cellValue := CellAt(row, i);
      if !cellValue.Null? && !cellValue.DbNull? && !IsNullOrWhiteSpace(CellText(cellValue).value) {
        isEmptyRow := false;
      }
      assert RowMap(columns[..i + 1], row) == RowMap(columns[..i], row)[columns[i] := Stored(cellValue)];
      values := values[columns[i] := if cellValue.DbNull? then Null else cellValue];
      i := i + 1;
    }
    assert columns[..i] == columns;
  }

  /** The second pass over the data rows: the non-blank ones, as maps, in order. */
  method CollectRows(columns: seq<string>, rows: seq<seq<Cell>>) returns (dataRows: seq<map<string, Cell>>)
    ensures dataRows == IngestRows(columns, rows)
  {
    dataRows := [];
    var k := 0;
    while k < |rows|
      invariant 0 <= k <= |rows|
      invariant dataRows == IngestRows(columns, rows[..k])
    {
      assert rows[..k + 1][..k] == rows[..k];
      var values, isEmptyRow := ReadRow(columns, rows[k]);
      if !isEmptyRow {
        dataRows := dataRows + [values];
      }
      k := k + 1;
    }
    assert rows[..k] == rows;
  }

  /** The parameters of one INSERT: each column name sanitized again and looked up in the row. */
  method BindParameters(columnNames: seq<string>, row: Record) returns (r: Result<Record, Error>)
    ensures r == BindRecord(columnNames, row)
  {
    ghost var keys := SanitizeAll(columnNames);
    var sanitizedRow: Record := map[];
    var j := 0;
    while j < |columnNames|
      invariant 0 <= j <= |columnNames|
      invariant BindKeys(keys[..j], row) == Success(sanitizedRow)
    {
      var sanitizedCol := SanitizeColumnName(columnNames[j]);
      assert keys[j] == sanitizedCol;
      if sanitizedCol !in row {
        BindMissingKey(keys, j, row);
        return Failure(KeyNotFound(sanitizedCol));
      }
      BindNextKey(keys, j, row);
      sanitizedRow := sanitizedRow[sanitizedCol := if row[sanitizedCol].DbNull? then Null else row[sanitizedCol]];
      j := j + 1;
    }
    assert keys[..j] == keys;
    r := Success(sanitizedRow);
  }

  /** A name the row holds extends the binding by its stored value. */
  lemma BindNextKey(keys: seq<string>, j: nat, row: Record)
    requires j < |keys| && keys[j] in row && BindKeys(keys[..j], row).Success?
    ensures BindKeys(keys[..j + 1], row) == Success(BindKeys(keys[..j], row).value[keys[j] := Stored(row[keys[j]])])
  {
    assert keys[..j + 1][..j] == keys[..j];
  }

  /** The first name the row lacks is the error of the whole binding. */
  lemma BindMissingKey(keys: seq<string>, j: nat, row: Record)
    requires j < |keys| && keys[j] !in row && BindKeys(keys[..j], row).Success?
    ensures BindKeys(keys, row) == Failure(KeyNotFound(keys[j]))
  {
    assert keys[..j + 1][..j] == keys[..j];
    BindPrefixFails(keys, j + 1, row);
  }

  /** Once a prefix of the names fails to bind, the whole list fails with the same error. */
  lemma {:induction false} BindPrefixFails(keys: seq<string>, j: nat, row: Record)
    requires j <= |keys|
    requires BindKeys(keys[..j], row).Failure?
    ensures BindKeys(keys, row) == BindKeys(keys[..j], row)
    decreases |keys| - j
  {
    if j < |keys| {
      assert keys[..j + 1][..j] == keys[..j];
      BindPrefixFails(keys, j + 1, row);
    } else {
      assert keys[..j] == keys;
    }
  }

  class ExcelProcessingService {
    /** The store every connection from the connection factory opens on. */
    const db: Database

    constructor (db: Database)
      ensures this.db == db
    {
      this.db := db;
    }

    /**
     * CreateTableAsync: `CREATE TABLE IF NOT EXISTS` with `Id` and the given
     * columns, refused without a column or, for a new table, with a repeated
     * name up to ASCII case.
     */
    method CreateTable(tableName: string, columnNames: seq<string>) returns (outcome: Outcome<Error>)
      modifies db
      ensures var created := Store.CreateTable(old(db.tables), tableName, columnNames);
              && (created.Success? ==> outcome == Pass && db.tables == created.value)
              && (created.Failure? ==> outcome == Fail(created.error) && db.tables == old(db.tables))
      ensures db.compareResults == old(db.compareResults)
    {
      if |columnNames| == 0 {
        return Fail(EmptyColumnList(tableName));
      }
      if tableName !in db.tables {
        if !FoldDistinct([IdColumn] + columnNames) {
          return Fail(DuplicateColumn(tableName));
        }
        db.tables := db.tables[tableName := Table(columnNames, [])];
      }
      outcome := Pass;
    }

    /**
     * InsertDataAsync: one INSERT per row that is not empty, in order; the
     * first failure ends it, with the earlier rows kept.
     */
    method InsertData(tableName: string, columnNames: seq<string>, dataRows: seq<Record>) returns (outcome: Outcome<Error>)
      modifies db
      ensures (db.tables, outcome) == InsertEffect(old(db.tables), tableName, columnNames, dataRows)
      ensures db.compareResults == old(db.compareResults)
    {
      var sanitizedColumnNames := SanitizeAll(columnNames);
      var k := 0;
      while k < |dataRows|
        invariant 0 <= k <= |dataRows|
        invariant InsertRows(db.tables, tableName, sanitizedColumnNames, dataRows[k..])
                  == InsertRows(old(db.tables), tableName, sanitizedColumnNames, dataRows)
        invariant db.compareResults == old(db.compareResults)
      {
        var row := dataRows[k];
        InsertRowsAt(db.tables, tableName, sanitizedColumnNames, dataRows, k);
        if IsEmptyRecord(row) {
          k := k + 1;
          continue;
        }
        var bound := BindParameters(columnNames, row);
        if bound.Failure? {
          return Fail(bound.error);
        }
        var inserted := InsertInto(db.tables, tableName, sanitizedColumnNames, bound.value);
        if inserted.Failure? {
          return Fail(inserted.error);
        }
        db.tables := inserted.value;
        k := k + 1;
      }
      outcome := Pass;
    }

    /** CreateCompareResultsTableAsync: `CREATE TABLE IF NOT EXISTS compare_results`. */
    method CreateCompareResultsTable()
      modifies db
      ensures db.tables == old(db.tables)
      ensures db.compareResults == Some(LogOf(old(db.compareResults)))
    {
      if db.compareResults.None? {
        db.compareResults := Some([]);
      }
    }

    /** InsertCompareResultsAsync: appends one record, failing when compare_results does not exist. */
    method InsertCompareResults(result: ComparisonResult) returns (outcome: Outcome<Error>)
      modifies db
      ensures db.tables == old(db.tables)
      ensures old(db.compareResults).None? ==> db.compareResults == None && outcome == Fail(NoSuchTable("compare_results"))
      ensures old(db.compareResults).Some? ==>
                db.compareResults == Some(old(db.compareResults).value + [result]) && outcome == Pass
    {
      if db.compareResults.None? {
        return Fail(NoSuchTable("compare_results"));
      }
      db.compareResults := Some(db.compareResults.value + [result]);
      outcome := Pass;
    }

    /**
     * ValidateDataset: reads the layout names and the control figures,
     * logs one comparison record and returns the verdict.
     */
    method ValidateDataset(datasetColumns: seq<string>, actualDatasetRowCount: nat) returns (r: Result<bool, Error>)
      modifies db
      ensures (db.State(), r) == ValidateEffect(old(db.State()), datasetColumns, actualDatasetRowCount)
    {
      var layoutRows := SelectColumns(db.tables, RecordLayoutTable, [ColumnNameColumn]);
      if layoutRows.Failure? {
        return Failure(layoutRows.error);
      }
      var recordLayoutColumns := LayoutColumns(layoutRows.value);
      if recordLayoutColumns.Failure? {
        return Failure(recordLayoutColumns.error);
      }
      var figureRows := SelectColumns(db.tables, ControlFigureTable, [ColumnNameColumn, TotalColumn]);
      if figureRows.Failure? {
        return Failure(figureRows.error);
      }
      var controlFigureData := ReadFigures(figureRows.value);
      if controlFigureData.Failure? {
        return Failure(controlFigureData.error);
      }
      var expected, figures := recordLayoutColumns.value, controlFigureData.value;
      var result := Compare(expected, figures, datasetColumns, actualDatasetRowCount);
      CreateCompareResultsTable();
      var logged := InsertCompareResults(result);
      r := Success(Passes(expected, figures, datasetColumns, actualDatasetRowCount));
    }

    /** ProcessExcelFileAsync: creates the table from the header, then inserts the non-blank rows. */
    method ProcessExcelFile(sheet: seq<seq<Cell>>, tableName: string) returns (outcome: Outcome<Error>)
      modifies db
      ensures (db.State(), outcome) == FileEffect(old(db.State()), sheet, tableName)
    {
      if |sheet| == 0 {
        return Pass;
      }
      var header := ReadHeader(sheet[0]);
      if header.Failure? {
        return Fail(header.error);
      }
      var sanitizedColumnNames := header.value;
      outcome := CreateTable(tableName, sanitizedColumnNames);
      if outcome.Fail? {
        return;
      }
      var dataRows := CollectRows(sanitizedColumnNames, sheet[1..]);
      if |dataRows| > 0 {
        outcome := InsertData(tableName, sanitizedColumnNames, dataRows);
      } else {
        outcome := Pass;
      }
    }

    method ProcessRecordLayout(sheet: seq<seq<Cell>>) returns (outcome: Outcome<Error>)
      modifies db
      ensures (db.State(), outcome) == FileEffect(old(db.State()), sheet, RecordLayoutTable)
    {
      outcome := ProcessExcelFile(sheet, RecordLayoutTable);
    }

    method ProcessControlFigure(sheet: seq<seq<Cell>>) returns (outcome: Outcome<Error>)
      modifies db
      ensures (db.State(), outcome) == FileEffect(old(db.State()), sheet, ControlFigureTable)
    {
      outcome := ProcessExcelFile(sheet, ControlFigureTable);
    }

    /**
     * ProcessDatasetAsync: counts the non-blank rows, validates, and only on
     * a passing verdict collects the rows and loads the dataset table.
     */
    method ProcessDataset(sheet: seq<seq<Cell>>) returns (outcome: Outcome<Error>)
      modifies db
      ensures (db.State(), outcome) == DatasetEffect(old(db.State()), sheet)
    {
      if |sheet| == 0 {
        return Pass;
      }
      var header := ReadHeader(sheet[0]);
      if header.Failure? {
        return Fail(header.error);
      }
      var datasetColumns := header.value;
      var actualDatasetRowCount := CountNonEmptyRows(sheet[1..]);
      var verdict := ValidateDataset(datasetColumns, actualDatasetRowCount);
      if verdict.Failure? {
        return Fail(verdict.error);
      }
      if !verdict.value {
        return Fail(ValidationFailed(ValidationFailedMessage));
      }
      var dataRows := CollectRows(datasetColumns, sheet[1..]);
      if |dataRows| > 0 {
        outcome := CreateTable(DatasetTable, datasetColumns);
        if outcome.Fail? {
          return;
        }
        outcome := InsertData(DatasetTable, datasetColumns, dataRows);
      } else {
        outcome := Pass;
      }
    }

    /** ProcessExcelFilesAsync: the record layout, the control figures, then the dataset. */
    method ProcessExcelFiles(layout: seq<seq<Cell>>, control: seq<seq<Cell>>, dataset: seq<seq<Cell>>)
      returns (outcome: Outcome<Error>)
      modifies db
      ensures (db.State(), outcome) == PipelineEffect(old(db.State()), layout, control, dataset)
    {
      outcome := ProcessRecordLayout(layout);
      if outcome.Fail? {
        return;
      }
      outcome := ProcessControlFigure(control);
      if outcome.Fail? {
        return;
      }
      outcome := ProcessDataset(dataset);
    }
  }
}
