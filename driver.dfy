// The database driver as seen by the row mapper. Preparing a statement and
// stepping through its rows are not modelled; a statement is given as the
// outcome of preparation together with the row results the driver yields.

module Driver {
  import opened Decimal
  import opened Cells

  /** The driver's dynamically typed value (`rusqlite::types::Value`). */
  datatype Value =
    | Null
    | Integer(i: i64)
    | Real(f: F64)
    | Text(t: string)
    | Blob(bytes: seq<byte>)

  /**
   * One item of the row iterator: either an error, or the values the row
   * closure read, column 0 first.
   */
  datatype RowResult = RowOk(values: seq<Value>) | RowErr

  /**
   * A prepared statement: either preparation failed, or the result column
   * names in result order and the row results in the order the driver
   * yields them.
   */
  datatype Statement =
    | PrepareFailed
    | Prepared(columnNames: seq<string>, rows: seq<RowResult>)

  /** Every row that decoded has exactly one value per result column. */
  predicate RowsMatchColumns(stmt: Statement)
    requires stmt.Prepared?
  {
    forall i :: 0 <= i < |stmt.rows| && stmt.rows[i].RowOk? ==> |stmt.rows[i].values| == |stmt.columnNames|
  }
}
