/** Failure-carrying return types, and the faults the service can raise. */
module Wrappers {

  datatype Option<+T> = None | Some(value: T)

  datatype Result<+T, +E> = Success(value: T) | Failure(error: E)

  /** The outcome of an operation that returns nothing, or throws. */
  datatype Outcome<+E> = Pass | Fail(error: E)

  /**
   * The exceptions ExcelProcessingService can surface. Each constructor names
   * the place where the C# code throws.
   */
  datatype Error =
    /** `reader.GetString(i)` casts the header cell to string; any other cell kind throws. */
    | HeaderNotText(position: nat)
    /** CreateTableAsync with no column: the CREATE TABLE text ends its column list with a comma, a syntax error. */
    | EmptyColumnList(table: string)
    /** CREATE TABLE declares two columns whose names differ only in the case of ASCII letters, `Id` included. */
    | DuplicateColumn(table: string)
    /** A statement names a table the store does not have. */
    | NoSuchTable(table: string)
    /** A statement names a column the table does not have. */
    | NoSuchColumn(table: string, column: string)
    /** The dictionary indexer `row[sanitizedCol]` of InsertDataAsync misses. */
    | KeyNotFound(key: string)
    /** SanitizeColumnName is applied to a NULL record-layout name. */
    | NullColumnName
    /** A control-figure Total that cannot be read back as a number. */
    | TotalNotNumeric
    /** The exception ProcessDatasetAsync throws when validation fails. */
    | ValidationFailed(message: string)
}
