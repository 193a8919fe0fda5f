// `fill_scroll_gui`: takes the last record off a record set and writes its
// stringified fields into the input boxes named after the columns. The
// input boxes are modelled as a map from widget id to the text each holds;
// the record set, which the source changes through a unique `&mut`
// reference, is passed in and handed back.

module ScrollForm {
  import opened Cells

  /** How many of the column indices the loop visits also name a column. */
  function VisitedColumns(h: Headers): (n: nat)
    ensures n <= h.columnCount && n <= |h.columnNames|
    ensures n == h.columnCount || n == |h.columnNames|
  {
    if h.columnCount <= |h.columnNames| then h.columnCount else |h.columnNames|
  }

  /**
   * The record `fill_scroll_gui` pops has a field for every visited column
   * whose input box exists (`fields.get(index).unwrap()`).
   */
  predicate FieldsCoverInputs(rs: RecordSet, inputs: map<string, string>) {
    rs.records != [] ==>
      forall i :: 0 <= i < VisitedColumns(rs.headers) && rs.headers.columnNames[i] in inputs ==>
        i < |rs.records[|rs.records| - 1].fields|
  }

  /**
   * An empty record set changes nothing. Otherwise exactly the last record
   * is removed, and every input box named by a visited column holds the
   * text of the field at the last column index with that name; every other
   * input box keeps its text.
   */
  method FillScrollGui(rs: RecordSet, inputs: map<string, string>, formatReal: RealFormat)
    returns (remaining: RecordSet, filled: map<string, string>)
    requires FieldsCoverInputs(rs, inputs)
    ensures rs.records == [] ==> remaining == rs && filled == inputs
    ensures rs.records != [] ==> remaining.headers == rs.headers
    ensures rs.records != [] ==> remaining.records == rs.records[..|rs.records| - 1]
    ensures filled.Keys == inputs.Keys
    ensures rs.records != [] ==>
      var names, n, texts := rs.headers.columnNames, VisitedColumns(rs.headers), FieldTexts(rs.records[|rs.records| - 1], formatReal);
      forall i :: 0 <= i < n && names[i] in inputs && (forall j :: i < j < n ==> names[j] != names[i]) ==>
        filled[names[i]] == texts[i]
    ensures forall id :: id in inputs && id !in rs.headers.columnNames[..VisitedColumns(rs.headers)] ==>
              filled[id] == inputs[id]
  {
    if rs.records == [] {
      return rs, inputs;
    }
    var last := rs.records[|rs.records| - 1];
    remaining := rs.(records := rs.records[..|rs.records| - 1]);
    var fields := FieldTexts(last, formatReal);

    var names := rs.headers.columnNames;
    var n := VisitedColumns(rs.headers);
    filled := inputs;
    for index := 0 to rs.headers.columnCount
      invariant filled.Keys == inputs.Keys
      invariant forall i ::
                  (0 <= i < index && i < n && names[i] in inputs &&
                   forall j :: i < j < index && j < n ==> names[j] != names[i]) ==>
                  filled[names[i]] == fields[i]
      invariant forall id :: id in inputs && (forall j :: 0 <= j < index && j < n ==> names[j] != id) ==>
                  filled[id] == inputs[id]
    {
      if index < |names| {
        var header := names[index];
        if header in filled {
          filled := filled[header := fields[index]];
        }
      }
    }
    forall id | id in inputs && id !in names[..n] ensures filled[id] == inputs[id] {
      forall j | 0 <= j < n ensures names[j] != id {
        assert names[j] == names[..n][j];
      }
    }
  }
}
