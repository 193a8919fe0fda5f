// The in-memory result of a query (`RecordSet`, `Record`, `Headers`) and the
// tagged cell value `SqlData` with its text rendering (`SqlData::to_string`).

module Cells {
  import opened Decimal

  newtype byte = x: int | 0 <= x < 256

  /** The bit pattern of an `f64`; the model never interprets it. */
  type F64 = bv64

  /**
   * Rust's `f64::to_string`. Floating-point text is not modelled: every
   * operation that renders a cell takes this rendering as a parameter.
   */
  type RealFormat = F64 -> string

  datatype SqlData =
    | Null
    | Integer(i: i64)
    | Real(f: F64)
    | Text(t: string)
    | Blob(bytes: seq<byte>)

  datatype Record = Record(fields: seq<SqlData>)

  datatype Headers = Headers(columnNames: seq<string>, columnCount: nat)

  datatype RecordSet = RecordSet(records: seq<Record>, headers: Headers)

  /** `RecordSet::default()`: no records, no column names, a column count of zero. */
  const DefaultRecordSet := RecordSet([], Headers([], 0))

  /**
   * `SqlData::to_string`. Null and Blob render as nothing, Text as its own
   * contents, Integer as a decimal that reads back to the same integer.
   */
  function ToText(d: SqlData, formatReal: RealFormat): (s: string)
    ensures d.Null? || d.Blob? ==> s == []
    ensures d.Text? ==> s == d.t
    ensures d.Real? ==> s == formatReal(d.f)
    ensures d.Integer? ==> IsSignedDigits(s) && ':' !in s && '/' !in s && ParseInt(s) == d.i as int
    ensures d.Integer? ==> (s[0] == '-' <==> d.i < 0)
    ensures d.Integer? ==> var digits := if d.i < 0 then s[1..] else s;
              |digits| >= 1 && (digits[0] == '0' ==> digits == "0" && d.i == 0)
  {
    match d
    case Null => []
    case Integer(z) => DecimalRoundTrip(z as int); IntToDecimal(z as int)
    case Real(f) => formatReal(f)
    case Text(t) => t
    case Blob(_) => []
  }

  /** The stringified fields of a record, as `fields.iter().map(|x| x.to_string()).collect()`. */
  function FieldTexts(r: Record, formatReal: RealFormat): (texts: seq<string>)
    ensures |texts| == |r.fields|
    ensures forall i :: 0 <= i < |texts| ==> texts[i] == ToText(r.fields[i], formatReal)
  {
    seq(|r.fields|, i requires 0 <= i < |r.fields| => ToText(r.fields[i], formatReal))
  }
}
