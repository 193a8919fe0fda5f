// The text side of `regen_enums`: every enum table named in the `enums`
// table becomes an `enum Name{ ... }` block whose name is the table name in
// PascalCase and whose lines pair each row's name with its row id. The two
// queries are given as a record set of table names and a function from a
// table name to the record set of its rows; writing the file is not part
// of this model.

module EnumGen {
  import opened Cells
  import opened Slicing

  predicate IsAscii(c: char) {
    c as int < 128
  }

  predicate IsLower(c: char) {
    'a' <= c <= 'z'
  }

  predicate IsUpper(c: char) {
    'A' <= c <= 'Z'
  }

  /** `str::to_uppercase` on a one-character ASCII string. */
  function ToUpperAscii(c: char): char {
    if IsLower(c) then (c as int - 32) as char else c
  }

  function ToLowerAscii(c: char): char {
    if IsUpper(c) then (c as int + 32) as char else c
  }

  /** `x[0..1].to_uppercase()` followed by `&x[1..]`. */
  function Capitalize(segment: string): string
    requires |segment| > 0 && IsAscii(segment[0])
  {
    [ToUpperAscii(segment[0])] + segment[1..]
  }

  /**
   * Table names whose '_'-pieces can all be capitalized: each piece is
   * non-empty and starts with an ASCII character (`x[0..1]` panics otherwise).
   */
  predicate Capitalizable(name: string) {
    Segmentable(Split(name, "_"))
  }

  predicate Segmentable(segments: seq<string>) {
    forall i :: 0 <= i < |segments| ==> |segments[i]| > 0 && IsAscii(segments[i][0])
  }

  /** `join("")`. */
  function Concat(parts: seq<string>): string {
    if parts == [] then [] else parts[0] + Concat(parts[1..])
  }

  lemma {:induction false} ConcatAppend(xs: seq<string>, ys: seq<string>)
    ensures Concat(xs + ys) == Concat(xs) + Concat(ys)
  {
    if xs != [] {
      assert (xs + ys)[1..] == xs[1..] + ys;
      ConcatAppend(xs[1..], ys);
    } else {
      assert xs + ys == ys;
    }
  }

  lemma ConcatSnoc(xs: seq<string>, i: nat)
    requires i < |xs|
    ensures Concat(xs[..i + 1]) == Concat(xs[..i]) + xs[i]
  {
    assert xs[..i + 1] == xs[..i] + [xs[i]];
    ConcatAppend(xs[..i], [xs[i]]);
    assert [xs[i]][1..] == [];
  }

  function CapitalizeAll(segments: seq<string>): (caps: seq<string>)
    requires Segmentable(segments)
    ensures |caps| == |segments|
    ensures forall i :: 0 <= i < |segments| ==> caps[i] == Capitalize(segments[i])
  {
    seq(|segments|, i requires 0 <= i < |segments| => Capitalize(segments[i]))
  }

  /** The enum type name of a table: its '_'-pieces, each capitalized, joined with nothing between. */
  function PascalCase(name: string): string
    requires Capitalizable(name)
  {
    Concat(CapitalizeAll(Split(name, "_")))
  }

  /**
   * An independent, character-by-character reading of the same conversion:
   * drop each '_' and upper-case the character that follows it, and the
   * first character.
   */
  function PascalChars(s: string, capitalizeNext: bool): string {
    if s == [] then []
    else if s[0] == '_' then PascalChars(s[1..], true)
    else [if capitalizeNext then ToUpperAscii(s[0]) else s[0]] + PascalChars(s[1..], false)
  }

  lemma {:induction false} PascalCharsPlain(s: string, capitalizeNext: bool)
    requires |s| > 0 && '_' !in s
    ensures PascalChars(s, capitalizeNext) == [if capitalizeNext then ToUpperAscii(s[0]) else s[0]] + s[1..]
    decreases |s|
  {
    if |s| > 1 {
      PascalCharsPlain(s[1..], false);
    }
  }

  lemma {:induction false} PascalCharsAppend(a: string, b: string, capitalizeNext: bool)
    requires |a| > 0 && '_' !in a
    ensures PascalChars(a + b, capitalizeNext) == PascalChars(a, capitalizeNext) + PascalChars(b, false)
    decreases |a|
  {
    assert (a + b)[1..] == a[1..] + b;
    if |a| > 1 {
      PascalCharsAppend(a[1..], b, false);
    }
  }

  /** With a one-character delimiter, an occurrence is just that character. */
  lemma UnderscoreAt(s: string, j: nat)
    requires j < |s|
    ensures OccursAt(s, "_", j) <==> s[j] == '_'
  {
    assert j + 1 <= |s| ==> s[j..j + 1] == [s[j]];
  }

  /** A stretch of `s` with no '_' occurrence in it holds no '_'. */
  lemma NoUnderscoreBetween(s: string, i: nat, b: nat)
    requires i <= b <= |s|
    requires forall j: nat :: i <= j < b ==> !OccursAt(s, "_", j)
    ensures '_' !in s[i..b]
  {
    forall j | 0 <= j < b - i ensures s[i..b][j] != '_' {
      UnderscoreAt(s, i + j);
    }
  }

  /** A capitalizable piece followed by '_' converts to the capitalized piece and then the rest. */
  lemma PieceThenRest(head: string, rest: string)
    requires |head| > 0 && IsAscii(head[0]) && '_' !in head
    ensures PascalChars(head + ("_" + rest), true) == Capitalize(head) + PascalChars(rest, true)
  {
    PascalCharsAppend(head, "_" + rest, true);
    PascalCharsPlain(head, true);
    assert ("_" + rest)[1..] == rest;
  }

  /** The pieces after the first of a segmentable split are segmentable. */
  lemma SegmentableTail(parts: seq<string>)
    requires |parts| > 0 && Segmentable(parts)
    ensures Segmentable(parts[1..])
  {
    forall m | 0 <= m < |parts| - 1 ensures |parts[1..][m]| > 0 && IsAscii(parts[1..][m][0]) {
      assert parts[1..][m] == parts[m + 1];
    }
  }

  /** Capitalizing and joining pieces is capitalizing the first and joining the others after it. */
  lemma ConcatCapitalizeAll(parts: seq<string>)
    requires |parts| > 0 && Segmentable(parts)
    ensures Segmentable(parts[1..])
    ensures Concat(CapitalizeAll(parts)) == Capitalize(parts[0]) + Concat(CapitalizeAll(parts[1..]))
  {
    SegmentableTail(parts);
    var caps := CapitalizeAll(parts);
    assert caps[1..] == CapitalizeAll(parts[1..]);
  }

  /** The case of `PascalFromCharwise` where no '_' follows `i`. */
  lemma LastPiecePascal(s: string, i: nat)
    requires i <= |s| && FindFrom(s, "_", i).None? && Segmentable(SplitFrom(s, "_", i))
    ensures Concat(CapitalizeAll(SplitFrom(s, "_", i))) == PascalChars(s[i..], true)
  {
    var parts := SplitFrom(s, "_", i);
    var segment := s[i..];
    assert parts == [segment];
    assert parts[0] == segment == s[i..|s|];
    NoUnderscoreBetween(s, i, |s|);
    PascalCharsPlain(segment, true);
    ConcatCapitalizeAll(parts);
    assert parts[1..] == [];
  }

  /** The case of `PascalFromCharwise` where the next '_' is at `k`, given the result from `k + 1` on. */
  lemma PiecePascalStep(s: string, i: nat, k: nat)
    requires i <= |s| && FindFrom(s, "_", i) == Some(k) && Segmentable(SplitFrom(s, "_", i))
    requires Segmentable(SplitFrom(s, "_", k + 1))
    requires Concat(CapitalizeAll(SplitFrom(s, "_", k + 1))) == PascalChars(s[k + 1..], true)
    ensures Concat(CapitalizeAll(SplitFrom(s, "_", i))) == PascalChars(s[i..], true)
  {
    var parts := SplitFrom(s, "_", i);
    var head, rest := s[i..k], s[k + 1..];
    var tail := SplitFrom(s, "_", k + 1);
    assert parts == [head] + tail;
    assert parts[0] == head && parts[1..] == tail;
    ConcatCapitalizeAll(parts);
    NoUnderscoreBetween(s, i, k);
    UnderscoreAt(s, k);
    assert s[i..] == head + ("_" + rest);
    PieceThenRest(head, rest);
  }

  /** From index `i` on, the split-and-join conversion agrees with the character-by-character one. */
  lemma {:induction false} PascalFromCharwise(s: string, i: nat)
    requires i <= |s| && Segmentable(SplitFrom(s, "_", i))
    ensures Concat(CapitalizeAll(SplitFrom(s, "_", i))) == PascalChars(s[i..], true)
    decreases |s| - i
  {
    var r := FindFrom(s, "_", i);
    if r.None? {
      LastPiecePascal(s, i);
    } else {
      var k := r.value;
      var parts := SplitFrom(s, "_", i);
      assert parts == [s[i..k]] + SplitFrom(s, "_", k + 1);
      assert parts[1..] == SplitFrom(s, "_", k + 1);
      SegmentableTail(parts);
      PascalFromCharwise(s, k + 1);
      PiecePascalStep(s, i, k);
    }
  }

  /** The split-and-join conversion agrees with the character-by-character one. */
  lemma PascalCaseCharwise(s: string)
    requires Capitalizable(s)
    ensures PascalCase(s) == PascalChars(s, true)
  {
    PascalFromCharwise(s, 0);
    assert s[0..] == s;
  }

  /** The converted name holds no '_'. */
  lemma {:induction false} PascalCharsHasNoUnderscore(s: string, capitalizeNext: bool)
    ensures '_' !in PascalChars(s, capitalizeNext)
    decreases |s|
  {
    if s != [] {
      if s[0] != '_' {
        PascalCharsHasNoUnderscore(s[1..], false);
      } else {
        PascalCharsHasNoUnderscore(s[1..], true);
      }
    }
  }

  /**
   * A name in canonical snake_case: lower-case ASCII letters first and after
   * every '_', and no upper-case ASCII letter anywhere.
   */
  predicate SnakeTail(s: string) {
    (forall i :: 0 <= i < |s| ==> !IsUpper(s[i])) &&
    (forall i :: 0 <= i < |s| && s[i] == '_' ==> i + 1 < |s| && IsLower(s[i + 1]))
  }

  predicate SnakeName(s: string) {
    |s| > 0 && IsLower(s[0]) && SnakeTail(s)
  }

  /** Reads a PascalCase name back: every upper-case letter but the first becomes '_' and its lower case. */
  function SnakeCase(p: string): string {
    if p == [] then [] else [ToLowerAscii(p[0])] + Unpascal(p[1..])
  }

  function Unpascal(p: string): string {
    if p == [] then []
    else if IsUpper(p[0]) then ['_', ToLowerAscii(p[0])] + Unpascal(p[1..])
    else [p[0]] + Unpascal(p[1..])
  }

  lemma SnakeTailDrop(s: string, n: nat)
    requires SnakeTail(s) && n <= |s|
    ensures SnakeTail(s[n..])
  {
    forall i | 0 <= i < |s| - n ensures s[n..][i] == s[n + i] {
    }
  }

  lemma {:induction false} UnpascalTail(s: string)
    requires SnakeTail(s)
    ensures Unpascal(PascalChars(s, false)) == s
    decreases |s|
  {
    if s == [] {
    } else if s[0] == '_' {
      var c := s[1];
      SnakeTailDrop(s, 2);
      assert s[1..][1..] == s[2..];
      assert PascalChars(s, false) == [ToUpperAscii(c)] + PascalChars(s[2..], false);
      UnpascalTail(s[2..]);
      assert s == ['_', c] + s[2..];
    } else {
      SnakeTailDrop(s, 1);
      UnpascalTail(s[1..]);
      assert s == [s[0]] + s[1..];
    }
  }

  /** A canonical snake_case table name is recovered from its enum type name. */
  lemma SnakeRoundTrip(name: string)
    requires SnakeName(name)
    ensures Capitalizable(name)
    ensures SnakeCase(PascalCase(name)) == name
  {
    SnakeNameCapitalizable(name);
    PascalCaseCharwise(name);
    SnakeTailDrop(name, 1);
    UnpascalTail(name[1..]);
    assert name == [name[0]] + name[1..];
  }

  lemma SegmentableCons(head: string, tail: seq<string>)
    requires |head| > 0 && IsAscii(head[0]) && Segmentable(tail)
    ensures Segmentable([head] + tail)
  {
    var parts := [head] + tail;
    forall m | 1 <= m < |parts| ensures |parts[m]| > 0 && IsAscii(parts[m][0]) {
      assert parts[m] == tail[m - 1];
    }
  }

  /**
   * In a canonical snake_case name, every '_'-piece from a piece start `i`
   * on starts with a lower-case letter.
   */
  lemma {:induction false} SnakeSegments(s: string, i: nat)
    requires SnakeName(s) && i <= |s| && (i == 0 || s[i - 1] == '_')
    ensures Segmentable(SplitFrom(s, "_", i))
    decreases |s| - i
  {
    assert i < |s| && IsLower(s[i]);
    UnderscoreAt(s, i);
    var parts := SplitFrom(s, "_", i);
    var r := FindFrom(s, "_", i);
    if r.None? {
      assert parts == [s[i..]];
      assert s[i..][0] == s[i];
    } else {
      var k := r.value;
      UnderscoreAt(s, k);
      SnakeSegments(s, k + 1);
      var tail := SplitFrom(s, "_", k + 1);
      assert parts == [s[i..k]] + tail;
      assert s[i..k][0] == s[i];
      SegmentableCons(s[i..k], tail);
    }
  }

  /** Every '_'-piece of a canonical snake_case name starts with a lower-case letter. */
  lemma SnakeNameCapitalizable(name: string)
    requires SnakeName(name)
    ensures Capitalizable(name)
  {
    SnakeSegments(name, 0);
  }

  /** The name of the table a row of the `enums` table stands for: its last field's text. */
  function TableName(r: Record, formatReal: RealFormat): string
    requires r.fields != []
  {
    ToText(r.fields[|r.fields| - 1], formatReal)
  }

  /** Each row of an enum table: its last field (the name), " = ", its second-to-last field (the row id). */
  function EnumLine(row: Record, formatReal: RealFormat): string
    requires |row.fields| >= 2
  {
    var n := |row.fields|;
    "\t" + ToText(row.fields[n - 1], formatReal) + " = " + ToText(row.fields[n - 2], formatReal) + ",\n"
  }

  predicate RowsHaveNameAndValue(rows: seq<Record>) {
    forall k :: 0 <= k < |rows| ==> |rows[k].fields| >= 2
  }

  /** The lines of an enum table, one per row, in row order. */
  function EnumLines(rows: seq<Record>, formatReal: RealFormat): (lines: seq<string>)
    requires RowsHaveNameAndValue(rows)
    ensures |lines| == |rows|
  {
    seq(|rows|, k requires 0 <= k < |rows| && RowsHaveNameAndValue(rows) => EnumLine(rows[k], formatReal))
  }

  /** The block one enum table contributes. */
  function EnumBlock(name: string, rows: seq<Record>, formatReal: RealFormat): string
    requires RowsHaveNameAndValue(rows)
  {
    "\nenum " + PascalChars(name, true) + "{\n" + Concat(EnumLines(rows, formatReal)) + "}\n"
  }

  /**
   * What `regen_enums` needs of one row of the `enums` table: if it names a
   * table, the name can be capitalized and each row of that table has a
   * name and a value (`fields.pop().unwrap()` twice).
   */
  predicate TableOk(t: Record, fetch: string -> RecordSet, formatReal: RealFormat) {
    t.fields != [] ==>
      Capitalizable(TableName(t, formatReal)) &&
      RowsHaveNameAndValue(fetch(TableName(t, formatReal)).records)
  }

  predicate Regenerable(tables: seq<Record>, fetch: string -> RecordSet, formatReal: RealFormat) {
    forall i :: 0 <= i < |tables| ==> TableOk(tables[i], fetch, formatReal)
  }

  /** What one row of the `enums` table contributes: nothing if it has no fields, else its table's block. */
  function TableBlock(t: Record, fetch: string -> RecordSet, formatReal: RealFormat): string
    requires TableOk(t, fetch, formatReal)
  {
    if t.fields == [] then []
    else
      var name := TableName(t, formatReal);
      EnumBlock(name, fetch(name).records, formatReal)
  }

  /** `f` applied to each element of `xs`, in order. */
  function Map<T, U>(xs: seq<T>, f: T -> U): (ys: seq<U>)
    ensures |ys| == |xs|
  {
    seq(|xs|, i requires 0 <= i < |xs| => f(xs[i]))
  }

  lemma MapAppend<T, U>(a: seq<T>, b: seq<T>, f: T -> U)
    ensures Map(a + b, f) == Map(a, f) + Map(b, f)
  {
    forall i | 0 <= i < |a| + |b| ensures Map(a + b, f)[i] == (Map(a, f) + Map(b, f))[i] {
      if i < |a| {
        assert (a + b)[i] == a[i];
      } else {
        assert (a + b)[i] == b[i - |a|];
      }
    }
  }

  /** `TableBlock` as a function value; a row `regen_enums` would panic on gives nothing here. */
  function BlockOf(fetch: string -> RecordSet, formatReal: RealFormat): Record -> string {
    t => if TableOk(t, fetch, formatReal) then TableBlock(t, fetch, formatReal) else []
  }

  function TableBlocks(tables: seq<Record>, fetch: string -> RecordSet, formatReal: RealFormat): (blocks: seq<string>)
    requires Regenerable(tables, fetch, formatReal)
    ensures |blocks| == |tables|
    ensures forall i :: 0 <= i < |tables| ==> blocks[i] == TableBlock(tables[i], fetch, formatReal)
  {
    Map(tables, BlockOf(fetch, formatReal))
  }

  /** The generated text: the blocks of the rows of the `enums` table, in row order. */
  function EnumPackage(tables: seq<Record>, fetch: string -> RecordSet, formatReal: RealFormat): string
    requires Regenerable(tables, fetch, formatReal)
  {
    Concat(TableBlocks(tables, fetch, formatReal))
  }

  /** Every table of two lists that can each be regenerated can be regenerated. */
  lemma RegenerableAppend(a: seq<Record>, b: seq<Record>, fetch: string -> RecordSet, formatReal: RealFormat)
    requires Regenerable(a, fetch, formatReal) && Regenerable(b, fetch, formatReal)
    ensures Regenerable(a + b, fetch, formatReal)
  {
    var ab := a + b;
    forall i | 0 <= i < |ab| ensures TableOk(ab[i], fetch, formatReal) {
      if i < |a| {
        assert ab[i] == a[i];
      } else {
        assert ab[i] == b[i - |a|];
      }
    }
  }

  /** The blocks of two lists of tables are the blocks of the first followed by those of the second. */
  lemma TableBlocksAppend(a: seq<Record>, b: seq<Record>, fetch: string -> RecordSet, formatReal: RealFormat)
    requires Regenerable(a, fetch, formatReal) && Regenerable(b, fetch, formatReal) && Regenerable(a + b, fetch, formatReal)
    ensures TableBlocks(a + b, fetch, formatReal) == TableBlocks(a, fetch, formatReal) + TableBlocks(b, fetch, formatReal)
  {
    MapAppend(a, b, BlockOf(fetch, formatReal));
  }

  /**
   * The text of a list of tables is the text of its first part followed by
   * that of the rest: each table's block depends on that table alone.
   */
  lemma EnumPackageAppend(a: seq<Record>, b: seq<Record>, fetch: string -> RecordSet, formatReal: RealFormat)
    requires Regenerable(a, fetch, formatReal) && Regenerable(b, fetch, formatReal)
    ensures Regenerable(a + b, fetch, formatReal)
    ensures EnumPackage(a + b, fetch, formatReal) == EnumPackage(a, fetch, formatReal) + EnumPackage(b, fetch, formatReal)
  {
    RegenerableAppend(a, b, fetch, formatReal);
    TableBlocksAppend(a, b, fetch, formatReal);
    ConcatAppend(TableBlocks(a, fetch, formatReal), TableBlocks(b, fetch, formatReal));
  }

  /** A table row without fields contributes nothing; one with fields contributes exactly its block. */
  lemma EnumPackageSingle(t: Record, fetch: string -> RecordSet, formatReal: RealFormat)
    requires TableOk(t, fetch, formatReal)
    ensures Regenerable([t], fetch, formatReal)
    ensures t.fields == [] ==> EnumPackage([t], fetch, formatReal) == []
    ensures t.fields != [] ==>
      EnumPackage([t], fetch, formatReal) ==
        EnumBlock(TableName(t, formatReal), fetch(TableName(t, formatReal)).records, formatReal)
  {
    var blocks := TableBlocks([t], fetch, formatReal);
    assert blocks == [TableBlock(t, fetch, formatReal)];
    assert blocks[1..] == [];
    assert Concat(blocks) == blocks[0] + Concat(blocks[1..]);
  }

  lemma AppendAssoc(a: string, b: string, c: string)
    ensures a + b + c == a + (b + c)
  {
  }

  /** Pushing pieces one by one onto a string appends their concatenation. */
  lemma PushPieces(t: string, a: string, b: string, c: string, d: string, e: string)
    ensures t + a + b + c + d + e == t + (a + b + c + d + e)
  {
  }

  /** Appending line `r` after the lines before it gives the lines up to `r`. */
  lemma EnumLineStep(rows: seq<Record>, formatReal: RealFormat, r: nat, acc: string, before: string)
    requires RowsHaveNameAndValue(rows) && r < |rows|
    requires before == acc + Concat(EnumLines(rows, formatReal)[..r])
    ensures before + EnumLines(rows, formatReal)[r] == acc + Concat(EnumLines(rows, formatReal)[..r + 1])
  {
    var lines := EnumLines(rows, formatReal);
    ConcatSnoc(lines, r);
    AppendAssoc(acc, Concat(lines[..r]), lines[r]);
  }

  /** Pushing the header, the lines and the closing brace of a table appends its block. */
  lemma EnumBlockPieces(acc: string, name: string, rows: seq<Record>, formatReal: RealFormat)
    requires RowsHaveNameAndValue(rows)
    ensures acc + "\nenum " + PascalChars(name, true) + "{\n" + Concat(EnumLines(rows, formatReal)) + "}\n"
              == acc + EnumBlock(name, rows, formatReal)
  {
    PushPieces(acc, "\nenum ", PascalChars(name, true), "{\n", Concat(EnumLines(rows, formatReal)), "}\n");
  }

  /** Appending table `t`'s block after the blocks before it gives the blocks up to `t`. */
  lemma EnumPackageStep(tables: seq<Record>, fetch: string -> RecordSet, formatReal: RealFormat, t: nat, before: string)
    requires Regenerable(tables, fetch, formatReal) && t < |tables|
    requires before == Concat(TableBlocks(tables, fetch, formatReal)[..t])
    ensures before + TableBlock(tables[t], fetch, formatReal) == Concat(TableBlocks(tables, fetch, formatReal)[..t + 1])
  {
    ConcatSnoc(TableBlocks(tables, fetch, formatReal), t);
  }
}
