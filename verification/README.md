# ExcelTask ingest, validate and persist — a Dafny model

This project models the core of `ExcelProcessingService` in the ExcelTask API.
The service reads three spreadsheets: a record layout, a set of control figures and a dataset.
It loads the first two into the tables `record_layout` and `control_figure`.
It then checks the dataset's header and row count against them and writes one comparison record to `compare_results`.
Only when that check passes does it load the dataset into the table `dataset`.

A spreadsheet is given as its decoded rows, `seq<seq<Cell>>`, with the header first.
A `Cell` is null, DBNull, a string, a number, or any other value together with its `ToString()` text.
The SQLite database is an in-memory store (`Store.DbState`).
It maps each table name to a column list and the rows appended to it, in order.
`compare_results` is an append-only log that exists only once it has been created.

Modules, one per concern of the service:

- `Wrappers`: `Option`, `Result`, `Outcome` and the `Error` kinds the service can fail with. An exception thrown by the service becomes a `Fail`.
- `Text`: `char.IsWhiteSpace`, `string.IsNullOrWhiteSpace` and `string.Trim`.
- `Sanitizer`: `SanitizeColumnName` as the chain of nine `Replace` calls. It is proved equal to a per-character map, clean of the nine characters, and idempotent.
- `Sheet`: cells, header resolution (`HeaderTexts`, `ResolveHeader`), row maps (`RowMap`), the emptiness test, and the two dataset passes (`CountNonBlank`, `IngestRows`).
- `Store`: the tables, `CREATE TABLE IF NOT EXISTS`, `INSERT` and `SELECT` on them, and the `Database` object that every connection shares. Column names are compared as SQLite compares identifiers, ignoring the case of ASCII letters. A new `Database` is the empty starting store: no tables and no compare_results.
- `Validation`: reading the layout names and control figures back, the `FirstOrDefault` lookup of a total, the verdict, and the comparison record.
- `Persist`: `InsertDataAsync` as a function over the tables. It covers the re-sanitized key list, the skipping of empty rows, binding by dictionary lookup, and appending in order.
- `Pipeline`: the effect of each service operation on the whole store (`FileEffect`, `ValidateEffect`, `DatasetEffect`, `PipelineEffect`), plus the end-to-end properties.
- `Service`: the imperative service itself. Its reader loops are module-level methods. The class `ExcelProcessingService` holds the shared `Database`, and each of its methods updates the database in place and is proved equal to the matching effect function.

## Model

| member | source | states |
|---|---|---|
| Text.Trim | ExcelTask.Api/Services/ExcelProcessingService.cs:42 | The result is the infix of the input after its leading white space; everything after it is white space; its first and last characters are not white space |
| Text.TrimEmpty | ExcelTask.Api/Services/ExcelProcessingService.cs:153-154 | A trimmed text is empty exactly when the text is null-or-white-space, and blank after trimming exactly when blank before |
| Sanitizer.Replace | ExcelTask.Api/Services/ExcelProcessingService.cs:246 | A pattern not in its replacement is absent from the result; a replacement of at most one character never lengthens the text |
| Sanitizer.SanitizeChar | ExcelTask.Api/Services/ExcelProcessingService.cs:245-254 | One character's fate: at most one character out, never a forbidden one, and the character itself exactly when it is not one of the nine |
| Sanitizer.ReplaceChainAppend | ExcelTask.Api/Services/ExcelProcessingService.cs:245-254 | Every chain of one-character replacements distributes over concatenation |
| Sanitizer.RulesDecide | ExcelTask.Api/Services/ExcelProcessingService.cs:246-254 | The first rule in the chain that matches a character decides its output, and that output is the per-character map's |
| Sanitizer.SanitizePerChar | ExcelTask.Api/Services/ExcelProcessingService.cs:243-255 | The nine chained Replace calls (the body of SanitizeColumnName) equal sanitizing each character on its own, in order |
| Sanitizer.SanitizeColumnName | ExcelTask.Api/Services/ExcelProcessingService.cs:243-255 | The sanitized name is the per-character map of the name: each character kept, dropped or turned into `_` on its own, in order |
| Sanitizer.SanitizeEachFixes | ExcelTask.Api/Services/ExcelProcessingService.cs:243-255 | The per-character map leaves a text unchanged exactly when the text holds none of the nine characters |
| Sanitizer.SanitizeRemovesForbidden | ExcelTask.Api/Services/ExcelProcessingService.cs:243-255 | No sanitized name holds a space, `-`, `.`, `/`, `\`, parenthesis or bracket, and none is longer than its input |
| Sanitizer.SanitizeFixedPoint | ExcelTask.Api/Services/ExcelProcessingService.cs:243-255 | A name is left unchanged exactly when it holds none of the nine characters (both directions) |
| Sanitizer.SanitizeIdempotent | ExcelTask.Api/Services/ExcelProcessingService.cs:235 | Sanitizing an already sanitized name changes nothing, which the re-sanitizing insert relies on |
| Sanitizer.SanitizeJoinsWithUnderscore | ExcelTask.Api/Services/ExcelProcessingService.cs:246-250 | Two clean names joined by a space, `-`, `/` or `\` come out joined by `_`, case and order kept |
| Sanitizer.SanitizeDropsPunctuation | ExcelTask.Api/Services/ExcelProcessingService.cs:248-254 | A `.`, parenthesis or bracket between two clean names disappears |
| Sheet.NamedPositions | ExcelTask.Api/Services/ExcelProcessingService.cs:151-154 | The positions of the header cells that become columns: each is a named cell, they increase, and every named cell is among them |
| Sheet.HeaderFails | ExcelTask.Api/Services/ExcelProcessingService.cs:151-153 | ResolveHeader fails exactly when some header cell is neither null nor text, and the error is always HeaderNotText |
| Sheet.HeaderFirstError | ExcelTask.Api/Services/ExcelProcessingService.cs:151-153 | The error names the first cell that is neither null nor text |
| Sheet.HeaderTextsPositions | ExcelTask.Api/Services/ExcelProcessingService.cs:151-159 | HeaderTexts gives the texts of the named cells, one per named cell, in order |
| Sheet.ResolveHeaderColumns | ExcelTask.Api/Services/ExcelProcessingService.cs:146-159 | ResolveHeader's k-th column is the trimmed, sanitized text of the k-th named header cell; blank cells are skipped |
| Sheet.ResolvedNamesAreSanitized | ExcelTask.Api/Services/ExcelProcessingService.cs:156 | Every resolved column name is clean, and sanitizing it again changes nothing |
| Sheet.DenseHeaderPositions | ExcelTask.Api/Services/ExcelProcessingService.cs:170-178 | When every header cell is named, the k-th column comes from position k |
| Sheet.RowMapShape | ExcelTask.Api/Services/ExcelProcessingService.cs:178 | A RowMap has exactly one key per distinct column name and never holds DBNull |
| Sheet.RowMapAt | ExcelTask.Api/Services/ExcelProcessingService.cs:94 | Under the k-th column name the RowMap holds the stored cell at position k, unless a later column has the same name |
| Sheet.Stored | ExcelTask.Api/Services/ExcelProcessingService.cs:94 | The stored value is never DBNull: DBNull becomes NULL and every other cell is stored as it is |
| Sheet.BlankCells | ExcelTask.Api/Services/ExcelProcessingService.cs:57 | IsBlank: null and DBNull are blank, a string is blank exactly when it is null-or-white-space, and a number never is (its text ends in a digit) |
| Sheet.PlainNameKept | ExcelTask.Api/Services/ExcelProcessingService.cs:153-156 | A plain name (no surrounding white space, none of the nine characters) is a named cell and is its own column name |
| Sheet.ResolveWithGap | ExcelTask.Api/Services/ExcelProcessingService.cs:40-47 | Plain names a and b around a blank header cell resolve to the two columns [a, b] |
| Sheet.BlankHeaderShiftsValues | ExcelTask.Api/Services/ExcelProcessingService.cs:86-94 | With header (a, blank, b), the value stored under b is the cell below the blank header, not the cell below b |
| Sheet.SecondColumnValue | ExcelTask.Api/Services/ExcelProcessingService.cs:86-94 | With two different column names, the value under the second is the stored second cell of the row |
| Sheet.IngestRowsSpec | ExcelTask.Api/Services/ExcelProcessingService.cs:79-101 | IngestRows keeps exactly the rows with a non-blank examined cell, in order, none dropped or reordered: its k-th map is the RowMap of the k-th such row, and it has one map per such row |
| Sheet.KeptPositions | ExcelTask.Api/Services/ExcelProcessingService.cs:97-100 | The positions of the rows the second pass keeps: each has a non-blank examined cell, they increase, and every such row is among them |
| Sheet.NoColumnsKeepNoRows | ExcelTask.Api/Services/ExcelProcessingService.cs:86-100 | With no columns no cell is examined, every row stays empty and the second pass keeps nothing |
| Sheet.CountNonBlankBounds | ExcelTask.Api/Services/ExcelProcessingService.cs:49-68 | CountNonBlank never exceeds the number of rows, and is 0 exactly when every row is blank |
| Sheet.KeptRowIsCounted | ExcelTask.Api/Services/ExcelProcessingService.cs:54-61 | A row non-blank among its examined cells is non-blank as a whole |
| Sheet.SecondPassWithinCount | ExcelTask.Api/Services/ExcelProcessingService.cs:49-101 | The second pass never keeps more rows than the first pass counted |
| Sheet.PassesAgree | ExcelTask.Api/Services/ExcelProcessingService.cs:49-101 | When no row has a non-blank cell beyond the header's columns, the two passes find the same number of rows |
| Sheet.OneRowCount | ExcelTask.Api/Services/ExcelProcessingService.cs:64-67 | A single row counts 1 when some cell is non-blank and 0 otherwise |
| Sheet.PassesDisagree | ExcelTask.Api/Services/ExcelProcessingService.cs:49-101 | A non-blank value under a blank header cell is counted by the first pass but dropped by the second |
| Store.CreateIfAbsent | ExcelTask.Api/Services/ExcelProcessingService.cs:199-205 | The table exists afterwards; an existing table is left as it is whatever columns are given (IF NOT EXISTS); a new one has the given columns and no rows; other tables unchanged |
| Store.CreateTable | ExcelTask.Api/Services/ExcelProcessingService.cs:197-205 | Succeeds exactly when the column list is non-empty and, for a new table, no two of Id and the columns have names equal ignoring ASCII case; then it is CreateIfAbsent; otherwise EmptyColumnList or DuplicateColumn |
| Store.FoldDistinctAfterId | ExcelTask.Api/Services/ExcelProcessingService.cs:199-202 | A column list accepted after Id has no two names equal ignoring case, and no column named Id in any case |
| Store.CreateTableIdempotent | ExcelTask.Api/Services/ExcelProcessingService.cs:200 | Creating an existing table again, with any non-empty columns, changes nothing; with none it fails with EmptyColumnList |
| Store.Find | ExcelTask.Api/Services/ExcelProcessingService.cs:214-218 | The position of the first table column whose name equals the given one ignoring ASCII case; None exactly when there is none |
| Store.FindIgnoresCase | ExcelTask.Api/Services/ExcelProcessingService.cs:214-218 | Two names equal ignoring ASCII case find the same column |
| Store.FindMember | ExcelTask.Api/Services/ExcelProcessingService.cs:214-218 | A column's own name always finds a column, and finds its own position when the names are distinct ignoring case |
| Store.MissingColumn | ExcelTask.Api/Services/ExcelProcessingService.cs:217-219 | None exactly when every insert column names a table column ignoring ASCII case; otherwise an insert column that matches none |
| Store.InsertInto | ExcelTask.Api/Services/ExcelProcessingService.cs:217-239 | Succeeds exactly when the table exists and every column matches a table column ignoring case; then it appends to that table alone the row holding, under each table column, the value of the first insert column matching it; otherwise NoSuchTable or NoSuchColumn |
| Store.RowForSelf | ExcelTask.Api/Services/ExcelProcessingService.cs:217-239 | With table columns distinct ignoring case, inserting a record under table column names stores exactly that record |
| Store.SelectColumns | ExcelTask.Api/Services/ExcelProcessingService.cs:115 | Succeeds exactly when the table exists and every column matches one ignoring case; one value list per stored row, in order, each value that of the matching column, NULL when the row has none |
| Store.SelectIgnoresCase | ExcelTask.Api/Services/ExcelProcessingService.cs:115 | Selecting a column by two names equal ignoring ASCII case gives the same outcome and the same values, so `Column_Name` reads a `column_name` column |
| Store.InsertThenSelect | ExcelTask.Api/Services/ExcelProcessingService.cs:115 | After inserting a record under all table columns, a SELECT of a column returns the old rows' values then the record's value |
| Validation.TotalFor | ExcelTask.Api/Services/ExcelProcessingService.cs:121-122 | The total of the first figure with the label, or 0 when no figure has it |
| Validation.Compare | ExcelTask.Api/Services/ExcelProcessingService.cs:124-131 | Compare (and the verdict Passes it carries): status "Success" exactly when the verdict holds, "Fail" exactly when it does not, the matching description, and the expected and actual counts |
| Validation.LayoutNames | ExcelTask.Api/Services/ExcelProcessingService.cs:115 | The Column_Name values in row order, failing with NullColumnName on a NULL name |
| Validation.LayoutColumns | ExcelTask.Api/Services/ExcelProcessingService.cs:115-116 | The layout names read back, each sanitized, in order |
| Validation.ReadFigures | ExcelTask.Api/Services/ExcelProcessingService.cs:118-119 | Succeeds exactly when every Total reads as a number; then one (name, total) pair per row in order; otherwise TotalNotNumeric |
| Validation.NatTextParses | ExcelTask.Api/Services/ExcelProcessingService.cs:118-119 | A natural number's decimal text is a digit string that reads back as that number |
| Validation.DecimalTextParses | ExcelTask.Api/Services/ExcelProcessingService.cs:118-119 | Any integer's decimal text reads back as that integer, negatives included |
| Validation.TotalReadsBack | ExcelTask.Api/Services/ExcelProcessingService.cs:118-119 | TotalValue reads a number cell as its value and the decimal text of any integer as that integer |
| Validation.PassingLayoutMatchesColumnCount | ExcelTask.Api/Services/ExcelProcessingService.cs:124-125 | A passing verdict (Passes) means the layout has as many columns as the "Column Count" total |
| Validation.MissingFiguresCountAsZero | ExcelTask.Api/Services/ExcelProcessingService.cs:121-126 | Without a "Column Count" figure only empty columns pass; without a "Row Count" figure only zero rows pass |
| Validation.ColumnOrderMatters | ExcelTask.Api/Services/ExcelProcessingService.cs:124 | The same columns in another order fail |
| Validation.CompareExamples | ExcelTask.Api/Services/ExcelProcessingService.cs:128-131 | Matching columns and counts give "Success"; one row short gives the full "Fail" record |
| Persist.SanitizeAll | ExcelTask.Api/Services/ExcelProcessingService.cs:212 | The insert's key list has one entry per column name, in order, each sanitized |
| Persist.BindKeys | ExcelTask.Api/Services/ExcelProcessingService.cs:233-236 | Succeeds exactly when every key is in the row; then it binds exactly the keys, DBNull stored as NULL; otherwise KeyNotFound for a missing key |
| Persist.NonEmptyRecords | ExcelTask.Api/Services/ExcelProcessingService.cs:223-229 | Keeps only rows that are not all empty, never more rows than given |
| Persist.NonEmptyPositions | ExcelTask.Api/Services/ExcelProcessingService.cs:223-229 | The positions of the rows the insert loop does not skip: each is non-empty, they increase, and every non-empty row is among them |
| Persist.NonEmptyRecordsPositions | ExcelTask.Api/Services/ExcelProcessingService.cs:223-229 | NonEmptyRecords drops no non-empty row and reorders nothing: its k-th record is the row at the k-th non-empty position |
| Persist.InsertRowsFrame | ExcelTask.Api/Services/ExcelProcessingService.cs:221-240 | The insert loop (InsertRows, InsertEffect) keeps every table and its columns, changes only the named table, only appends, at most one row per non-empty row, and fails only with KeyNotFound, NoSuchTable or NoSuchColumn |
| Persist.InsertRowsAppendsAll | ExcelTask.Api/Services/ExcelProcessingService.cs:221-240 | When the table's columns are distinct ignoring case, every key is a column and every row binds to itself, InsertRows appends the non-empty rows in input order and passes |
| Persist.InsertOwnColumns | ExcelTask.Api/Services/ExcelProcessingService.cs:231-239 | Inserting a record whose keys are table columns, into a table with columns distinct ignoring case, appends that very record |
| Persist.IngestedRowsBind | ExcelTask.Api/Services/ExcelProcessingService.cs:233-236 | Every ingested row map binds to itself under its own column names |
| Persist.SanitizedNamesAreKeys | ExcelTask.Api/Services/ExcelProcessingService.cs:212 | Names that are already sanitized are their own insert key list |
| Persist.KeptRowIsInserted | ExcelTask.Api/Services/ExcelProcessingService.cs:223-229 | With distinct columns, a row the ingest keeps is never skipped as empty by the insert |
| Persist.DistinctColumnsInsertEveryRow | ExcelTask.Api/Services/ExcelProcessingService.cs:223-229 | With distinct column names, every ingested row is inserted |
| Persist.DuplicateColumnsDropRow | ExcelTask.Api/Services/ExcelProcessingService.cs:178 | With columns ["A", "A"], the row ["x", " "] is kept by the ingest but skipped by the insert, because the blank overwrites "x"; CREATE TABLE refuses such columns for a new table, so this shows only in an existing one |
| Pipeline.FileEffect | ExcelTask.Api/Services/ExcelProcessingService.cs:139-191 | Loading a file touches only its own table, never the log; when the header resolves and CREATE TABLE accepts its columns the table exists afterwards; it never fails with a validation error |
| Pipeline.ValidateEffect | ExcelTask.Api/Services/ExcelProcessingService.cs:111-136 | Tables unchanged; a failed read changes nothing; otherwise exactly one record is appended, "Success" exactly when the verdict is true, with the actual counts, and on a pass the expected counts equal the actual ones |
| Pipeline.ValidateVerdict | ExcelTask.Api/Services/ExcelProcessingService.cs:111-136 | The verdict exists exactly when both SELECTs and both read-backs succeed; it is then Passes of the layout columns, the figures and the dataset's columns and count, and the record appended is Compare of the same |
| Pipeline.LowerCaseLayoutColumnIsRead | ExcelTask.Api/Services/ExcelProcessingService.cs:115 | A record_layout table whose column is named `column_name` is still read by `SELECT Column_Name` |
| Pipeline.DatasetEffect | ExcelTask.Api/Services/ExcelProcessingService.cs:29-108 | Touches only the dataset table; a failed validation fails with the fixed message and leaves every table unchanged; any table change follows a "Success" record |
| Pipeline.PipelineEffect | ExcelTask.Api/Services/ExcelProcessingService.cs:12-17 | The run creates or changes no table other than record_layout, control_figure and dataset; every other table is as it was |
| Pipeline.EmptySheetChangesNothing | ExcelTask.Api/Services/ExcelProcessingService.cs:146 | A file without a header row changes nothing and passes |
| Pipeline.ValidationFailureKeepsDataset | ExcelTask.Api/Services/ExcelProcessingService.cs:70-73 | When the whole run fails validation, the dataset table is as it was, and absent if it was absent |
| Pipeline.ComparisonFollowsLoads | ExcelTask.Api/Services/ExcelProcessingService.cs:12-17 | A comparison record is written only after the layout and the control figures both loaded without failure |
| Pipeline.ResolvedColumnsAreKeys | ExcelTask.Api/Services/ExcelProcessingService.cs:212 | Re-sanitizing the resolved column names gives the same list |
| Pipeline.FreshTableInsert | ExcelTask.Api/Services/ExcelProcessingService.cs:187-190 | Inserting self-binding rows into a freshly created table with columns distinct ignoring case leaves it holding the columns and exactly the non-empty rows, in order |
| Pipeline.FreshTableLoad | ExcelTask.Api/Services/ExcelProcessingService.cs:161-190 | Loading ingested rows into a fresh table with columns distinct ignoring case stores every ingested row, in order, and passes |
| Pipeline.FileLoadsFreshTable | ExcelTask.Api/Services/ExcelProcessingService.cs:146-205 | Into a fresh table: a header with no named cell fails with EmptyColumnList, names repeated ignoring case (Id included) fail with DuplicateColumn, both leaving the store as it was; otherwise the file passes and the table holds the header's columns and every ingested row |
| Pipeline.HeaderWithoutNamesFails | ExcelTask.Api/Services/ExcelProcessingService.cs:151-161 | A header whose only cell is null gives no columns, and CREATE TABLE then fails with EmptyColumnList, leaving the store unchanged |
| Pipeline.DatasetLoadsAfterPass | ExcelTask.Api/Services/ExcelProcessingService.cs:103-107 | After a passing validation whose last record says "Success": no surviving row leaves the tables unchanged; otherwise names repeated ignoring case fail with DuplicateColumn and leave the tables unchanged, and distinct names create the dataset table holding the ingested rows |
| Pipeline.LoadedRowsMatchRowCount | ExcelTask.Api/Services/ExcelProcessingService.cs:64-107 | With names distinct ignoring case (Id included) and nothing beyond the header, a passing dataset table holds exactly "Row Count" rows |
| Service.ReadHeader | ExcelTask.Api/Services/ExcelProcessingService.cs:151-159 | The header loop's result is ResolveHeader of the header row, including its error |
| Service.IsEmptyRow | ExcelTask.Api/Services/ExcelProcessingService.cs:52-62 | The first pass's flag, with its early break, is true exactly when every cell of the row is blank |
| Service.CountNonEmptyRows | ExcelTask.Api/Services/ExcelProcessingService.cs:49-68 | The first pass's counter equals the number of rows with a non-blank cell |
| Service.ReadRow | ExcelTask.Api/Services/ExcelProcessingService.cs:83-95 | The row's dictionary is RowMap of the examined positions, and the flag is true exactly when all of them are blank |
| Service.CollectRows | ExcelTask.Api/Services/ExcelProcessingService.cs:79-101 | The second pass's list is IngestRows of the data rows |
| Service.BindParameters | ExcelTask.Api/Services/ExcelProcessingService.cs:231-237 | Binding one row's parameters is BindKeys over the re-sanitized names, failing on the first missing key |
| Service.ExcelProcessingService.constructor | ExcelTask.Api/Services/ExcelProcessingService.cs:10 | The service keeps the database it is given, shared by all its operations |
| Service.ExcelProcessingService.CreateTable | ExcelTask.Api/Services/ExcelProcessingService.cs:193-206 | The outcome and tables are Store.CreateTable of the old tables: on success the new tables, on failure its error and the tables unchanged; the log is untouched |
| Service.ExcelProcessingService.InsertData | ExcelTask.Api/Services/ExcelProcessingService.cs:208-241 | The in-place insert loop leaves the tables and outcome that InsertEffect gives for the old tables; the log is untouched |
| Service.ExcelProcessingService.CreateCompareResultsTable | ExcelTask.Api/Services/ExcelProcessingService.cs:257-274 | compare_results exists afterwards with its old records; the tables are untouched |
| Service.ExcelProcessingService.InsertCompareResults | ExcelTask.Api/Services/ExcelProcessingService.cs:276-294 | Appends the record when compare_results exists, fails with NoSuchTable otherwise; the tables are untouched |
| Service.ExcelProcessingService.ValidateDataset | ExcelTask.Api/Services/ExcelProcessingService.cs:111-136 | The new store and the verdict are ValidateEffect of the old store |
| Service.ExcelProcessingService.ProcessExcelFile | ExcelTask.Api/Services/ExcelProcessingService.cs:139-191 | The new store and outcome are FileEffect of the old store |
| Service.ExcelProcessingService.ProcessRecordLayout | ExcelTask.Api/Services/ExcelProcessingService.cs:19-22 | FileEffect into record_layout |
| Service.ExcelProcessingService.ProcessControlFigure | ExcelTask.Api/Services/ExcelProcessingService.cs:24-27 | FileEffect into control_figure |
| Service.ExcelProcessingService.ProcessDataset | ExcelTask.Api/Services/ExcelProcessingService.cs:29-108 | The new store and outcome are DatasetEffect of the old store |
| Service.ExcelProcessingService.ProcessExcelFiles | ExcelTask.Api/Services/ExcelProcessingService.cs:12-17 | The new store and outcome are PipelineEffect: layout, then control figures, then dataset, stopping at the first failure |

## Left out

- Decoding the workbook (ExcelDataReader, `Encoding.RegisterProvider`, `File.Open`, rewinding the stream) is not modelled. A sheet is given as its decoded rows, and both passes read the same rows. A short row reads as nulls beyond its end, as the reader pads it.
- The reader's `FieldCount` is not modelled separately. The first pass examines every cell of each row as given.
- `cellValue.ToString()` for values other than strings and numbers is not modelled as formatting. An `Other` cell carries its text.
- SQL text, Dapper parameter binding and async/await are not modelled. Tables and the log are state, and a thrown exception becomes a `Fail` outcome.
- The `Id` column is modelled only as a name that CREATE TABLE refuses to repeat. Its values, and the `Timestamp` column of compare_results, are left out.
- Store.CreateTable: of SQLite's checks on a column list, only the empty list and names repeated ignoring ASCII case are modelled. Any other name is accepted as given.
- Store.InsertInto: the `@name` parameter placeholders are not modelled. A sanitized name with a character SQLite does not allow in a parameter name (such as `%`, `,` or `#`) makes the real INSERT fail, where the model inserts the row.
- SQLite's TEXT column affinity is not modelled. Cells are stored as given.
- `SELECT` without `ORDER BY` is modelled as returning rows in insertion order.
- Validation.TotalValue: `Total` is read as an integer, not a `double`. A number cell is read as it is, NULL as 0, and text only when it is a decimal integer numeral. Decimal fractions, exponents and Dapper's other conversions are not modelled.
- Validation.Compare: the expected counts are integers, so the int-to-double comparisons at lines 125-126 cannot show rounding.
- Each operation opening its own connection, and any concurrent use of the database, are not modelled. All operations see one shared `Database`.
- ExcelTask.Api/Controllers/ExcelProcessingController.cs is not part of this model: it handles HTTP upload, temporary files and status codes.
- ExcelTask.Api/Program.cs is not part of this model: it is host wiring.
- ExcelTask.Api/Data/DbConnectionFactory.cs and ExcelTask.Api/Data/IDbConnectionFactory.cs are not part of this model: they open the connection, and the store replaces them.
- ExcelTask.Api/Services/Interfaces/IExcelProcessingService.cs is not part of this model: it declares the interface only.
- The unused list `originalColumnNames` (lines 148-157) is modelled only through its length, which equals the number of sanitized names.
