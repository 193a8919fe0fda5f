// The row mapper `query`: runs a prepared statement and buffers its column
// names and decoded rows into a `RecordSet`. A statement that fails to
// prepare gives the default record set; a row that fails to decode is
// skipped; every other row becomes one record, in the order rows arrive.

module RowMapper {
  import opened Cells
  import Driver

  /** The cell a driver value becomes: same tag and payload, except that a blob loses its bytes. */
  function FromValue(v: Driver.Value): (d: SqlData)
    ensures v.Blob? ==> d == Blob([])
    ensures !v.Blob? ==> ToValue(d) == v
  {
    match v
    case Null => Null
    case Integer(z) => Integer(z)
    case Real(f) => Real(f)
    case Text(t) => Text(t)
    case Blob(_) => Blob([])
  }

  /** The driver value a cell stands for; the reference against which `FromValue` is lossless. */
  function ToValue(d: SqlData): Driver.Value {
    match d
    case Null => Driver.Value.Null
    case Integer(z) => Driver.Value.Integer(z)
    case Real(f) => Driver.Value.Real(f)
    case Text(t) => Driver.Value.Text(t)
    case Blob(b) => Driver.Value.Blob(b)
  }

  /** The record a decoded row becomes: one cell per driver value, position by position. */
  ghost function RecordOf(values: seq<Driver.Value>): Record {
    Record(seq(|values|, i requires 0 <= i < |values| => FromValue(values[i])))
  }

  /**
   * The positions of the rows that decoded, in increasing order: exactly the
   * rows that become records, in the order they become records.
   */
  ghost function OkPositions(rows: seq<Driver.RowResult>): (ps: seq<nat>)
    ensures forall k :: 0 <= k < |ps| ==> ps[k] < |rows| && rows[ps[k]].RowOk?
    ensures forall k, l :: 0 <= k < l < |ps| ==> ps[k] < ps[l]
    ensures forall i :: 0 <= i < |rows| && rows[i].RowOk? ==> i in ps
  {
    if rows == [] then []
    else
      var n := |rows| - 1;
      OkPositions(rows[..n]) + if rows[n].RowOk? then [n] else []
  }

  /** When no row fails, every row is kept, each at its own position. */
  lemma {:induction false} AllRowsKept(rows: seq<Driver.RowResult>)
    requires forall i :: 0 <= i < |rows| ==> rows[i].RowOk?
    ensures |OkPositions(rows)| == |rows|
    ensures forall k :: 0 <= k < |rows| ==> OkPositions(rows)[k] == k
  {
    if rows != [] {
      AllRowsKept(rows[..|rows| - 1]);
    }
  }

  /** Decodes one row, column 0 first (the inner loop of `query`). */
  method DecodeRow(values: seq<Driver.Value>) returns (row: Record)
    ensures |row.fields| == |values|
    ensures forall i :: 0 <= i < |values| ==> row.fields[i] == FromValue(values[i])
  {
    var fields: seq<SqlData> := [];
    for ind := 0 to |values|
      invariant |fields| == ind
      invariant forall i :: 0 <= i < ind ==> fields[i] == FromValue(values[i])
    {
      match values[ind]
      case Null => fields := fields + [Null];
      case Integer(z) => fields := fields + [Integer(z)];
      case Real(f) => fields := fields + [Real(f)];
      case Text(t) => fields := fields + [Text(t)];
      case Blob(_) => fields := fields + [Blob([])];
    }
    row := Record(fields);
  }

  /**
   * `query`. The headers come from the statement alone, before any row is
   * read; the records are the decoded rows in the order the driver yields
   * them, failed rows left out.
   */
  method Query(stmt: Driver.Statement) returns (rs: RecordSet)
    ensures stmt.PrepareFailed? ==> rs == DefaultRecordSet
    ensures stmt.Prepared? ==> rs.headers.columnNames == stmt.columnNames
    ensures stmt.Prepared? ==> rs.headers.columnCount == |stmt.columnNames|
    ensures stmt.Prepared? ==> |rs.records| == |OkPositions(stmt.rows)|
    ensures stmt.Prepared? ==> forall k :: 0 <= k < |rs.records| ==>
              rs.records[k] == RecordOf(stmt.rows[OkPositions(stmt.rows)[k]].values)
    ensures stmt.Prepared? && Driver.RowsMatchColumns(stmt) ==>
              forall k :: 0 <= k < |rs.records| ==> |rs.records[k].fields| == rs.headers.columnCount
  {
    rs := DefaultRecordSet;
    match stmt
    case PrepareFailed =>
    case Prepared(colNames, rows) =>
      var names: seq<string> := [];
      for x := 0 to |colNames|
        invariant names == colNames[..x]
      {
        names := names + [colNames[x]];
      }
      rs := rs.(headers := Headers(names, |colNames|));

      var records: seq<Record> := [];
      var i := 0;
      while i < |rows|
        invariant 0 <= i <= |rows|
        invariant |records| == |OkPositions(rows[..i])|
        invariant forall k :: 0 <= k < |records| ==>
                    records[k] == RecordOf(rows[OkPositions(rows[..i])[k]].values)
      {
        assert rows[..i + 1][..i] == rows[..i];
        match rows[i] {
          case RowOk(e) =>
            var newRow := DecodeRow(e);
            assert newRow == RecordOf(e);
            records := records + [newRow];
          case RowErr =>
        }
        i := i + 1;
      }
      assert rows[..i] == rows;
      rs := rs.(records := records);
  }
}
