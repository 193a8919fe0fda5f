# EntityCreator data layer in Dafny

EntityCreator is a desktop editor for a game's entity database, an SQLite
file. Most of `src/main.rs` is FLTK glue code. Underneath it sits a small
layer that handles data and text, and that layer is what this project
models and verifies:

- **`query`, the row mapper.** It turns a prepared statement into a
  `RecordSet`: column names plus one `Record` of `SqlData` cells per row.
- **`SqlData::to_string`.** It renders a single cell as text.
- **Slicing helpers.** `slice_beginning_of_string` and
  `slice_end_of_string` return the first or last piece of `str::split`.
- **Entity tree text.** Each entity item in the tree gets the label
  `id:name` and the path `parent/label`. When the item is clicked, the label
  is cut back to the id with `slice_beginning_of_string(label, ":")`.
  The category names shown at the root come from
  `fetch_entity_categories`.
- **`fill_scroll_gui`.** It pops the last record of a record set and writes
  its fields into the input boxes named after the columns.
- **`regen_enums`.** It turns every enum table into an
  `enum PascalName{ ... }` block, with one `name = rowid,` line per row.

Modules, one per file:

| module | file | contents |
|---|---|---|
| `Decimal` | decimal.dfy | `i64`, the decimal text of an integer (`i64::to_string`) and a reader for that text |
| `Cells` | cells.dfy | `SqlData`, `Record`, `Headers`, `RecordSet`, `ToText` (`SqlData::to_string`) |
| `Driver` | driver.dfy | the database as input: a failed preparation, or column names and row results |
| `RowMapper` | row_mapper.dfy | `query`, with the row and field loops as methods |
| `Slicing` | slicing.dfy | `str::split` on a string pattern, `Join`, and the two slicing helpers |
| `EntityTree` | entity_tree.dfy | the category list, item labels and paths, and the label round trip |
| `ScrollForm` | scroll_form.dfy | `fill_scroll_gui` over a map from input-box id to its text |
| `EnumGen` | enum_gen.dfy | the text `regen_enums` writes, as functions, and the lemmas about it |
| `EnumRegen` | enum_regen.dfy | `regen_enums`'s loops as methods, each proved equal to the `EnumGen` text |

The loop-based source code is modelled with methods: `query`, the
capitalization loop, the line and block pushes, and `regen_enums` itself.
Each method's postcondition ties its result to a specification function.
The code that is pure expressions is modelled with functions and lemmas:
`to_string`, the slicing helpers and the category map.

## Model

| member | source | states |
|---|---|---|
| Cells.ToText | src/main.rs:239-249 | Null and Blob give the empty text. Text gives exactly its contents. Real gives the supplied `f64` rendering. Integer gives a '-' exactly when the value is negative, then at least one digit with no leading zero ("0" only for zero), never ':' or '/', and that text reads back to the integer |
| Cells.FieldTexts | src/main.rs:376-377 | the stringified fields of a record, one per field, in field order |
| Decimal.IntToDecimal | src/main.rs:243 | `i64::to_string` gives a '-' exactly when the value is negative, then at least one digit with no leading zero ("0" only for zero), and holds no ':' or '/' |
| Decimal.DecimalRoundTrip | src/main.rs:243 | reading back the decimal text of any integer gives that integer |
| Decimal.DecimalInjective | src/main.rs:243 | two different integers never render to the same text |
| RowMapper.FromValue | src/main.rs:316-331 | a driver value becomes the cell with the same tag and payload, except that a Blob always becomes an empty Blob |
| RowMapper.DecodeRow | src/main.rs:312-333 | a decoded row has one field per driver value, and field i is the mapping of value i |
| RowMapper.OkPositions | src/main.rs:309-338 | the positions of the rows that decoded, strictly increasing, covering every `Ok` row and nothing else |
| RowMapper.AllRowsKept | src/main.rs:309-338 | when no row fails, row k becomes record k |
| RowMapper.Query | src/main.rs:276-344 | if preparation fails, the result is the default record set. Otherwise: the column names in result order; a column count equal to their number; one record per `Ok` row, in iteration order, `Err` rows skipped; each record is the mapping of its row; and each record has one field per column when the driver gives full rows |
| ScrollForm.VisitedColumns | src/main.rs:381-382 | the number of loop indices that name a column: at most the column count and at most the number of names, and equal to one of them |
| ScrollForm.FillScrollGui | src/main.rs:375-392 | an empty record set changes nothing. Otherwise exactly the last record is removed and the headers stay the same. Each existing input box named by a visited column holds that record's field at the last index with that name. Every other input box keeps its text, and no input box is added or removed |
| Slicing.FindFrom | src/main.rs:396 | the leftmost occurrence of the delimiter at or after an index, or none when there is no occurrence |
| Slicing.JoinSplitFrom | src/main.rs:396 | joining the pieces of a split from any index with the same delimiter gives back the text from that index on, so a split from the start gives back the whole text |
| Slicing.SplitPiecesAvoidDelimiter | src/main.rs:396 | no piece of a split contains the delimiter |
| Slicing.LastPieceOfSplit | src/main.rs:396-399 | the last piece of a split is the suffix that starts where the scan places the last piece |
| Slicing.LastStartAfterDelimiter | src/main.rs:396-399 | when the delimiter occurs, the last piece starts right after an occurrence of it |
| Slicing.SplitEmpty | src/main.rs:396 | splitting on the empty pattern gives an empty piece, then each character as a piece of its own in order, then an empty piece |
| Slicing.SliceBeginningOfString | src/main.rs:404-411 | with a non-empty delimiter: a prefix of the text with no occurrence of the delimiter before its end, that is either the whole text or followed by the delimiter. With an empty delimiter: the empty text |
| Slicing.SliceEndOfString | src/main.rs:395-402 | with a non-empty delimiter: a suffix of the text without the delimiter, equal to the whole text exactly when the delimiter is absent, and otherwise preceded by the delimiter; it is the suffix from where the left-to-right scan starts the last piece, so overlapping occurrences are resolved as `str::split` does. With an empty delimiter: the empty text |
| Slicing.SlicesOfUndelimited | src/main.rs:395-411 | text without the delimiter comes back whole from both helpers |
| EntityTree.EntityCategories | src/main.rs:658-670 | one name per category row, in row order: the first field's text, or the empty text for a row without fields |
| EntityTree.CategoriesOfTextColumn | src/main.rs:661-668 | when every row's first field is Text, the categories are exactly those texts |
| EntityTree.LabelRoundTrip | src/main.rs:719-723 | cutting the label `id:name` at its first ':' (as line 171 does) gives back the id whenever the id holds no ':' |
| EntityTree.IntegerIdRoundTrip | src/main.rs:712-723 | for a record whose id is an Integer, the text cut from its label reads back to that integer |
| EntityTree.PathRoundTrip | src/main.rs:714-723 | the last '/'-piece of an item's path is its label whenever the label holds no '/' |
| EntityTree.EntityTreeEntries | src/main.rs:711-725 | one entry per record, in record order. Its label is the first field's text, ':', the second field's text. Its path is the parent path, '/', the label. Cutting the label at ':' gives back the id whenever the id holds no ':' |
| EnumGen.CapitalizeAll | src/main.rs:852-856 | one capitalized piece per piece, each being the piece with its first character upper-cased |
| EnumGen.ConcatAppend | src/main.rs:860 | joining two lists of pieces with nothing between them is joining each list and concatenating the results |
| EnumGen.PascalCaseCharwise | src/main.rs:844-860 | splitting on '_', capitalizing each piece and joining gives the character-by-character conversion: drop each '_' and upper-case the first character and every character after a '_' |
| EnumGen.PascalCharsHasNoUnderscore | src/main.rs:844-860 | the converted type name holds no '_' |
| EnumGen.SnakeNameCapitalizable | src/main.rs:853 | a canonical snake_case table name never makes the capitalization panic |
| EnumGen.SnakeRoundTrip | src/main.rs:844-860 | a canonical snake_case table name is recovered from its enum type name, with an upper-case letter marking each '_' |
| EnumGen.EnumPackageAppend | src/main.rs:840-877 | the text for a list of tables is the text for its first part followed by the text for the rest, so each table's block depends on that table alone |
| EnumGen.EnumPackageSingle | src/main.rs:840-876 | a table row without fields contributes nothing. One with fields contributes "\nenum ", the type name, "{\n", one line per row of that table, then "}\n" |
| EnumRegen.EnumTypeName | src/main.rs:843-856 | the capitalization loop produces the character-by-character PascalCase of the table name, which holds no '_' |
| EnumRegen.PushEnumLine | src/main.rs:864-871 | one row appends "\t", its last field's text, " = ", its second-to-last field's text, ",\n" |
| EnumRegen.PushEnumLines | src/main.rs:863-872 | the inner loop appends the lines of all rows, in row order |
| EnumRegen.PushTableBlock | src/main.rs:841-876 | one row of the `enums` table appends its table's block, or nothing when it has no fields |
| EnumRegen.RegenEnums | src/main.rs:822-879 | the generated text is the blocks of all rows of the `enums` table, in row order |

## Left out

- The FLTK interface is not modelled: windows, the tree, the scroll and its input widgets, drawing, callbacks, menus and the event loop. The input boxes `fill_scroll_gui` writes are modelled as a map from widget id to text.
- The rusqlite binding is not modelled: opening the connection, preparing, `query_map` and named parameters. A statement is an input, either a failed preparation or column names with row results. SQL text and its meaning are not modelled.
- The file dialog (`locate_cold_storage`), the write of `enums.gd` (`write_enums_to_file`) and setting the backtrace variable in `main` are I/O and are not modelled. `RegenEnums` returns the text that would be written, and returns it even when the dialog or the connection would have failed.
- Cells.ToText: `f64::to_string` is floating-point text rendering. It is a parameter `formatReal` of every operation that renders a cell, so a Real payload is an uninterpreted 64-bit pattern.
- RowMapper.Query: the column count is the number of column names. rusqlite reports both from the same statement, and the model does not carry them separately.
- ScrollForm.FillScrollGui: the source changes the record set in place through `&mut`. The model takes the record set and hands back the new one. A `&mut` reference is unique, so there is no aliasing to capture.
- Panicking `unwrap`s and indexing are preconditions, not modelled error paths:
  - `fields.get(index).unwrap()` in `fill_scroll_gui` gives `FieldsCoverInputs`;
  - `row.fields[0]` and `[1]` in `fill_tree_with_entity_data` require two fields per record;
  - `x[0..1]` on an empty piece or one whose first character is not ASCII gives `Capitalizable`;
  - the two `fields.pop().unwrap()` calls give `RowsHaveNameAndValue`;
  - `row.get(ind).unwrap()` and `query_map(...).unwrap()` in `query` are assumed to succeed.
- EnumRegen.EnumTypeName: `x[0..1]` slices bytes and `to_uppercase` handles all of Unicode. The model covers pieces that start with an ASCII character and upper-cases only ASCII letters. That is every name that does not panic in the source, and `str::to_uppercase` agrees on ASCII.
- Slicing.SliceEndOfString: nothing in `src/main.rs` calls `slice_end_of_string`. It is modelled and its properties are proved, but no caller depends on them. The path of a tree item is cut with `slice_beginning_of_string(label, "/")` at line 646, on the category item's label.
- The debug printers (`print_tree_items`, `print_all_tree_items`, `print_recordset_debug`) and the unused search stub are not modelled.
