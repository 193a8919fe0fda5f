// `regen_enums` itself, step by step as the source builds its text: the
// capitalization loop, the per-row lines, one block per table, and the
// whole package. Each method is proved equal to the text EnumGen defines.

module EnumRegen {
  import opened Cells
  import opened Slicing
  import opened EnumGen

  /** The capitalization loop of `regen_enums`: split on '_', capitalize each piece, join. */
  method EnumTypeName(name: string) returns (pascal: string)
    requires Capitalizable(name)
    ensures pascal == PascalChars(name, true)
    ensures '_' !in pascal
  {
    var enumLowercase := Split(name, "_");
    var enumCapitalized: seq<string> := [];
    for x := 0 to |enumLowercase|
      invariant enumCapitalized == CapitalizeAll(enumLowercase[..x])
    {
      var segment := enumLowercase[x];
      var first := [ToUpperAscii(segment[0])];
      var rest := segment[1..];
      enumCapitalized := enumCapitalized + [first + rest];
      assert enumLowercase[..x + 1] == enumLowercase[..x] + [segment];
    }
    assert enumLowercase[..|enumLowercase|] == enumLowercase;
    pascal := Concat(enumCapitalized);
    PascalCaseCharwise(name);
    PascalCharsHasNoUnderscore(name, true);
  }

  /** One pass of the inner loop of `regen_enums`: pushes the line of one row. */
  method PushEnumLine(enumPackage: string, row: Record, formatReal: RealFormat) returns (text: string)
    requires |row.fields| >= 2
    ensures text == enumPackage + EnumLine(row, formatReal)
  {
    var fields := row.fields;
    var typeName := ToText(fields[|fields| - 1], formatReal);
    var typeValue := ToText(fields[|fields| - 2], formatReal);
    text := enumPackage + "\t" + typeName + " = " + typeValue + ",\n";
    PushPieces(enumPackage, "\t", typeName, " = ", typeValue, ",\n");
  }

  /** The inner loop of `regen_enums`: pushes one line per row of an enum table. */
  method PushEnumLines(enumPackage: string, rows: seq<Record>, formatReal: RealFormat) returns (text: string)
    requires RowsHaveNameAndValue(rows)
    ensures text == enumPackage + Concat(EnumLines(rows, formatReal))
  {
    text := enumPackage;
    ghost var lines := EnumLines(rows, formatReal);
    for r := 0 to |rows|
      invariant text == enumPackage + Concat(lines[..r])
    {
      ghost var before := text;
      text := PushEnumLine(text, rows[r], formatReal);
      EnumLineStep(rows, formatReal, r, enumPackage, before);
    }
    assert lines[..|rows|] == lines;
  }

  /**
   * The body of the outer loop of `regen_enums` for one row of the `enums`
   * table: a row with fields pushes its table's block, an empty one nothing.
   */
  method PushTableBlock(enumPackage: string, enumRows: Record, fetch: string -> RecordSet, formatReal: RealFormat)
    returns (text: string)
    requires TableOk(enumRows, fetch, formatReal)
    ensures text == enumPackage + TableBlock(enumRows, fetch, formatReal)
  {
    text := enumPackage;
    if enumRows.fields != [] {
      var f := enumRows.fields[|enumRows.fields| - 1];
      var name := ToText(f, formatReal);
      var typeName := EnumTypeName(name);
      var rsEnumData := fetch(name);
      text := text + "\nenum " + typeName + "{\n";
      text := PushEnumLines(text, rsEnumData.records, formatReal);
      text := text + "}\n";
      EnumBlockPieces(enumPackage, name, rsEnumData.records, formatReal);
    } else {
      assert enumPackage + [] == enumPackage;
    }
  }

  /** `regen_enums`, without the database and the file: the text it would write. */
  method RegenEnums(tables: RecordSet, fetch: string -> RecordSet, formatReal: RealFormat)
    returns (enumPackage: string)
    requires Regenerable(tables.records, fetch, formatReal)
    ensures enumPackage == EnumPackage(tables.records, fetch, formatReal)
  {
    enumPackage := [];
    ghost var blocks := TableBlocks(tables.records, fetch, formatReal);
    for t := 0 to |tables.records|
      invariant enumPackage == Concat(blocks[..t])
    {
      ghost var before := enumPackage;
      enumPackage := PushTableBlock(enumPackage, tables.records[t], fetch, formatReal);
      EnumPackageStep(tables.records, fetch, formatReal, t, before);
    }
    assert blocks[..|tables.records|] == blocks;
  }
}
