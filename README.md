# ifc2csv in Dafny

A model of the conversion pipeline of `ifc2csv/ifc2csv.py`. The tool reads a
directory of IFC building models and turns every `IfcElement` into one row
holding:

- its `GlobalId`, `Name` (`"Unknown"` when the name is unset or empty) and entity `Type`;
- the nominal values of the single-value properties of its property sets, optionally
  restricted to a list of selected property names.

It writes one CSV for each IFC file it can read. As written, a file fails and
leaves no CSV when the reader rejects it, or when one of its properties passes
the filter with an unset nominal value (see "## Findings"). Two IFC files of one
folder whose names differ only in the extension's case share a CSV name, and the
later one overwrites the earlier. The columns of a CSV are ordered as follows:

- the three fixed columns;
- the seven CCI (composite identifier) columns that occur, in their declared order;
- every other column name in ascending code-point order.

It then combines all the tables into one sheet under one header built by the same
rule, and checks two composite identifiers in every row of that sheet:

- the multi-level type identifier must read `"§" + level-2 type + "." + level-1 type`;
- the multi-level location identifier must read
  `"+" + level-2 location + "." + level-1 location + "." + location`.

A cell that differs is filled red.

Modules, one per stage of the pipeline:

- `Wrappers`: `Option` and `Result`.
- `Values`: the cell values (string, integer, boolean, None) and Python's `str()` of them.
- `StringOrder`: code-point order on strings and `sorted()` of a set of strings.
- `Schema`: rows, tables, the CCI constants and the column-ordering rule.
- `Extraction`: IFC elements as values, the row of an element, and the per-file table.
  - `Apply`, `RowOf` and `FileTable` give the row and the table of a file that
    converts; `ApplyAsWritten`, `RowOfAsWritten` and `ExtractAsWritten` add the
    exception the code raises on an unset value.
  - The methods `AddProperties`, `ElementRow` and `ExtractFile` follow the source's
    loops and are proved equal to the as-written functions.
- `Consolidation`: the combined sheet, specified by `Combined` and built by the loop of
  `CombineTables`.
- `Validation`: the header lookups, the expected identifiers and the set of red cells.
  - The specification is `Validate`.
  - The loops are `Highlight` and `ValidateSheet`.
- `Batch`: the IFC-name filter, the CSV name, the per-file outcome (a file that fails
  does not stop the batch), the CSV files left in the output tree (`Written`: a later
  write to a path replaces the earlier one) and the whole run started from the window.

Column order follows the code as written:

- Line 69 (and 132) removes only the CCI names before sorting.
- So `GlobalId`, `Name` and `Type` are listed a second time in the sorted tail of every
  non-empty table and of the combined sheet. `Schema.FixedColumnsRepeat` states this.

## Model

| member | source | states |
|---|---|---|
| Values.Decimal | ifc2csv/ifc2csv.py:181 | `str()` of a natural number is a non-empty string of digits with no leading zero |
| Values.DecimalRoundTrip | ifc2csv/ifc2csv.py:181-191 | reading back the decimal text of a number gives the number |
| Values.RenderInt | ifc2csv/ifc2csv.py:181-191 | `str()` of an integer cell starts with a minus sign exactly when the integer is negative; every other character is a digit |
| Values.RenderIntInjective | ifc2csv/ifc2csv.py:181-191 | two integer cells with the same text are equal, so comparing texts compares integers |
| StringOrder.SortedSet | ifc2csv/ifc2csv.py:69 | `sorted(set)` lists exactly the set's elements, each once |
| StringOrder.SortedSetIsSorted | ifc2csv/ifc2csv.py:69 | `sorted(set)` is in strictly ascending code-point order |
| StringOrder.SortedUnique | ifc2csv/ifc2csv.py:69 | two strictly ascending lists with the same elements are equal, so the result does not depend on set iteration order |
| Schema.Present | ifc2csv/ifc2csv.py:70 | the comprehension keeps exactly the CCI names that are among the keys |
| Schema.PresentKeepsOrder | ifc2csv/ifc2csv.py:70 | the comprehension keeps the CCI_COLUMNS order |
| Schema.KeysOf | ifc2csv/ifc2csv.py:68 | a name is a column exactly when some row has it |
| Schema.FinalColumns | ifc2csv/ifc2csv.py:67-70 | the column list starts with the fixed three and holds exactly the fixed names and the keys; its length is 3 + the CCI names present + the non-CCI keys |
| Schema.ColumnLayout | ifc2csv/ifc2csv.py:67-70 | the list has three parts: the fixed three; exactly the CCI names present, in CCI_COLUMNS order; every non-CCI key, the fixed ones included, strictly ascending |
| Schema.FixedColumnsRepeat | ifc2csv/ifc2csv.py:69-70 | a fixed name occurs twice when a row has it (every row does) and once otherwise |
| Schema.ColumnsIgnoreRowOrder | ifc2csv/ifc2csv.py:68-70 | permuting the rows leaves the column list unchanged |
| Schema.SortedTailIsUnique | ifc2csv/ifc2csv.py:69 | any strictly ascending listing of the non-CCI keys is the tail of the column list |
| Extraction.DisplayName | ifc2csv/ifc2csv.py:51 | the name is never empty: a set, non-empty name is kept, and an unset or empty one becomes "Unknown" |
| Extraction.Base | ifc2csv/ifc2csv.py:50-53 | a row starts with exactly the keys GlobalId, Name and Type |
| Extraction.Apply | ifc2csv/ifc2csv.py:61-63 | adding properties never removes a key of the row |
| Extraction.ApplyKeys | ifc2csv/ifc2csv.py:61-63 | a key is in the result exactly when it was in the row or an entering property has that name |
| Extraction.ApplyLastWins | ifc2csv/ifc2csv.py:61-63 | the value under a name is that of the last entering property with that name |
| Extraction.ApplyUntouched | ifc2csv/ifc2csv.py:61-63 | a name no entering property carries keeps its old value |
| Extraction.Walked | ifc2csv/ifc2csv.py:55-60 | the walk visits exactly the properties of the property sets of the IfcRelDefinesByProperties relations |
| Extraction.RowOf | ifc2csv/ifc2csv.py:50-63 | every row has the keys GlobalId, Name and Type |
| Extraction.RowKeys | ifc2csv/ifc2csv.py:50-63 | an element's row has exactly the fixed keys and the names of its entering properties |
| Extraction.RowLastWins | ifc2csv/ifc2csv.py:55-63 | the last entering property of a name decides its value, over a fixed key too |
| Extraction.RowFixedColumns | ifc2csv/ifc2csv.py:50-53 | unless overwritten, GlobalId and Type hold the id and entity, and Name holds the name or "Unknown" when it is unset or empty |
| Extraction.RowsOf | ifc2csv/ifc2csv.py:48-65 | one row per element, in element order |
| Extraction.FileTable | ifc2csv/ifc2csv.py:48-70 | the table holds the rows of the elements, every row key is a column, and the columns start with the fixed three |
| Extraction.AsWrittenFailsOnlyOnUnset | ifc2csv/ifc2csv.py:61-63 | as written, the walk raises exactly when an unset single value passes the filter, and otherwise builds the row of `Apply` |
| Extraction.UnsetValueAbortsAsWritten | ifc2csv/ifc2csv.py:61-63 | a wall with an unset FireRating raises as written and keeps its CCILocationID when the property is skipped |
| Extraction.RowOfAsWrittenIff | ifc2csv/ifc2csv.py:50-63 | as written, an element's row raises exactly when its walk reaches an unset value that passes the filter, and is otherwise the row of `RowOf` |
| Extraction.RowsAsWritten | ifc2csv/ifc2csv.py:48-65 | as written, the rows raise exactly when some element raises, and are otherwise one row per element in order |
| Extraction.ExtractAsWritten | ifc2csv/ifc2csv.py:48-70 | as written, a file's extraction raises exactly when some element raises; otherwise it gives the table of `FileTable` |
| Extraction.AddProperties | ifc2csv/ifc2csv.py:60-63 | the loop over one property set computes the as-written walk, raising at the first unset value that passes the filter |
| Extraction.ElementRow | ifc2csv/ifc2csv.py:50-63 | the loops over one element compute its as-written row |
| Extraction.ExtractFile | ifc2csv/ifc2csv.py:48-70 | the per-file loop and column ordering compute the as-written extraction |
| Consolidation.AllColumns | ifc2csv/ifc2csv.py:122-128 | a name is in `all_columns` exactly when some table has that column |
| Consolidation.Reindex | ifc2csv/ifc2csv.py:135 | one line per row of the table, one cell per header column |
| Consolidation.Stack | ifc2csv/ifc2csv.py:134-135 | the stacked body has as many lines as all tables have rows, each as wide as the header |
| Consolidation.Combined | ifc2csv/ifc2csv.py:130-138 | the row count is the sum of the tables' row counts and every line is as wide as the header; with tables, the header names exactly the fixed columns and every table's columns; with none, it is empty |
| Consolidation.StackAt | ifc2csv/ifc2csv.py:134 | rows appear table by table, each table's rows in their own order |
| Consolidation.ValueKept | ifc2csv/ifc2csv.py:134-135 | every value of every table reaches its column in the sheet |
| Consolidation.ForeignColumnEmpty | ifc2csv/ifc2csv.py:135 | a cell whose column the row's table lacks is empty |
| Consolidation.HeaderIgnoresSourceOrder | ifc2csv/ifc2csv.py:122-133 | the header depends only on which tables were read, not on their order |
| Consolidation.RowCountIgnoresSourceOrder | ifc2csv/ifc2csv.py:122-134 | the number of rows depends only on which tables were read |
| Consolidation.CombineTables | ifc2csv/ifc2csv.py:118-138 | the loop over the tables computes `Combined` |
| Validation.FirstIndex | ifc2csv/ifc2csv.py:169-175 | `list.index`: absent exactly when the name is missing, otherwise its first occurrence |
| Validation.FirstIndexAt | ifc2csv/ifc2csv.py:169-175 | a position holding the name with no earlier occurrence is the one `index` returns |
| Validation.Locate | ifc2csv/ifc2csv.py:168-178 | a failure names a CCI column missing from the header; on success all seven are present and the two identifier positions hold their columns |
| Validation.LocateIff | ifc2csv/ifc2csv.py:166-178 | the lookup fails exactly when a CCI column is missing, and names the first missing one in CCI_COLUMNS order; on success each position holds its column's first occurrence |
| Validation.LocateAfterFixed | ifc2csv/ifc2csv.py:169-175 | a header that starts with the fixed and the CCI columns gives positions 3 to 9 |
| Validation.ExpectedTypeId | ifc2csv/ifc2csv.py:181-183 | the expected type identifier starts with "§" |
| Validation.ExpectedLocationId | ifc2csv/ifc2csv.py:187-190 | the expected location identifier starts with "+" |
| Validation.Flags | ifc2csv/ifc2csv.py:180-192 | only body rows and only the two identifier columns are ever flagged |
| Validation.Validate | ifc2csv/ifc2csv.py:160-194 | validation stops exactly when some CCI column is missing, naming a missing one; otherwise it flags only body rows, and only in the two identifier columns |
| Validation.FlagsIff | ifc2csv/ifc2csv.py:180-192 | a row's type (or location) identifier cell is flagged exactly when its text differs from the expected one |
| Validation.MissingIdFlagged | ifc2csv/ifc2csv.py:181-191 | a row whose identifiers are empty ("None") is always flagged in both cells |
| Validation.EmptyPartsRenderNone | ifc2csv/ifc2csv.py:181-190 | empty parts render as "None", so such a row passes only with "§None.None" and "+None.None.None" |
| Validation.LeadingZeroPart | ifc2csv/ifc2csv.py:181-185 | "§B1.02" passes when the level-1 type cell holds the text "02" and fails when it holds the number 2 |
| Validation.ExampleRows | ifc2csv/ifc2csv.py:180-192 | a consistent row passes both checks; a row with a wrong level-1 type and location fails both |
| Validation.ExampleSheet | ifc2csv/ifc2csv.py:160-194 | validating those two rows flags exactly the two identifier cells of the second row |
| Validation.CombinedMissingIff | ifc2csv/ifc2csv.py:166-178 | on the combined sheet, validation stops at a missing column exactly when some CCI column is in no table |
| Validation.CombinedPositions | ifc2csv/ifc2csv.py:169-175 | when every CCI column is in some table, they are found in columns 3 to 9 of the combined sheet |
| Validation.Highlight | ifc2csv/ifc2csv.py:180-192 | the loop over the body rows computes `Flags` |
| Validation.ValidateSheet | ifc2csv/ifc2csv.py:160-194 | the lookups and the loop compute `Validate` |
| Batch.IsIfcFile | ifc2csv/ifc2csv.py:96 | a name is picked up exactly when it ends in a dot and i, f, c in either case |
| Batch.LastIndex | ifc2csv/ifc2csv.py:102 | the position of the last occurrence of a character, or none when it does not occur |
| Batch.Stem | ifc2csv/ifc2csv.py:102 | `splitext(name)[0]` is a prefix of the name; when it is shorter, the name continues with the last dot, and something other than a dot precedes that dot |
| Batch.CsvName | ifc2csv/ifc2csv.py:102 | the CSV name ends in ".csv" after a prefix of the IFC name |
| Batch.ExtensionCaseCollides | ifc2csv/ifc2csv.py:96-102 | "a.ifc" and "a.IFC" are both picked up and both get the CSV name "a.csv" |
| Batch.LastDotOfIfc | ifc2csv/ifc2csv.py:102 | the extension dot of an IFC name is its last dot |
| Batch.CsvNameOfIfc | ifc2csv/ifc2csv.py:102 | the CSV name replaces the four-character extension, unless only dots precede it |
| Batch.IfcFiles | ifc2csv/ifc2csv.py:86 | the filter keeps at most the entries it is given |
| Batch.IfcFilesMembers | ifc2csv/ifc2csv.py:86 | the files processed are exactly the entries with an IFC name |
| Batch.IfcFilesAppend | ifc2csv/ifc2csv.py:94-96 | the filter keeps the order of the walk |
| Batch.OutcomeOfIff | ifc2csv/ifc2csv.py:96-114 | a file is converted exactly when the reader opens it and no element raises, into its elements' table under its CSV name in its own folder; otherwise its error is reported |
| Batch.Outcomes | ifc2csv/ifc2csv.py:93-114 | one outcome per IFC file |
| Batch.IfcFilesEmpty | ifc2csv/ifc2csv.py:86-91 | the filter finds nothing exactly when no entry has an IFC name |
| Batch.Process | ifc2csv/ifc2csv.py:84-114 | the batch stops at once exactly when no entry has an IFC name, and otherwise has one outcome per IFC file |
| Batch.OutcomeAt | ifc2csv/ifc2csv.py:111-114 | a file's outcome depends on that file alone, so a failure does not stop or change the others |
| Batch.OutcomesStep | ifc2csv/ifc2csv.py:94-114 | an entry adds its outcome when it is an IFC file and nothing otherwise |
| Batch.ProcessFile | ifc2csv/ifc2csv.py:96-114 | one file gives its table under its CSV name, or the reader's error or the raised one |
| Batch.ProcessFiles | ifc2csv/ifc2csv.py:93-114 | the second walk computes one outcome per IFC file, in order |
| Batch.ProcessDirectory | ifc2csv/ifc2csv.py:83-114 | no IFC file means an immediate stop; otherwise every IFC file is processed |
| Batch.ConvertedRows | ifc2csv/ifc2csv.py:93-114 | the converted tables hold one row per element of every file that was read without raising |
| Batch.Drop | ifc2csv/ifc2csv.py:102-112 | the files left after a write to a path are exactly the others |
| Batch.DropDistinct | ifc2csv/ifc2csv.py:102-112 | removing the file at a path keeps the paths distinct |
| Batch.DropAbsent | ifc2csv/ifc2csv.py:102-112 | a write to a new path removes nothing |
| Batch.Written | ifc2csv/ifc2csv.py:93-114 | the CSV files left in the output tree have distinct paths, and each was written by a converted file |
| Batch.WrittenLastWins | ifc2csv/ifc2csv.py:93-114 | the last conversion written to a path is the file found there |
| Batch.WrittenAt | ifc2csv/ifc2csv.py:93-114 | the table at a path is that of the last conversion written to it |
| Batch.LaterWriteReplaces | ifc2csv/ifc2csv.py:102-112 | two conversions to one CSV path leave only the second table |
| Batch.Tables | ifc2csv/ifc2csv.py:122-128 | the tables read back are those of the files, in order |
| Batch.WrittenWithoutCollision | ifc2csv/ifc2csv.py:93-114 | when no two IFC files of a folder share a CSV name, every converted table is left on disk, in the order of conversion |
| Batch.StartProcessing | ifc2csv/ifc2csv.py:220-236 | the run stops exactly when a directory is missing; otherwise it runs the batch and validates the sheet combined from the CSV files left, which, without a name collision, has one row per element of every file read without raising |
| Batch.SheetRows | ifc2csv/ifc2csv.py:232-233 | whatever order the CSV files left are read back in, the sheet has the same row count and header |

## Left out

- The Tkinter window, file dialogs, message boxes and the browser calls (lines
  197-279, 149-156) are user interface. `Batch.StartProcessing` takes the two
  directory texts and the directory listing as parameters.
- Progress reporting (lines 106-108) and the console messages are output only.
- The redirection of stdout and stderr to a log file (lines 15-20) is process setup.
- Parsing an IFC file (lines 45-46) is a foreign library. It is the `load` parameter,
  which returns the file's elements or the reader's error.
- Reading the property list file (lines 32-39) is I/O. The selected names are the
  `selected` parameter.
- Directory walks and path mirroring are left out:
  - `os.walk` is an `Entry` sequence, each entry carrying its folder relative to the
    input directory;
  - `os.makedirs` is not modelled;
  - the model assumes that both walks of the input directory list the same files.
- The CSV and workbook files are not modelled. The combination takes the converted
  tables as values, so the model leaves out:
  - pandas dtype coercion (a text "02" read back as the number 2, empty and "None"
    texts read back as NaN, floats);
  - pandas renaming the repeated fixed columns to `GlobalId.1`, `Name.1`, `Type.1`;
  - stale CSV files already in the output directory before the run.
- The order in which the output directory's walk returns the CSV files is arbitrary.
  `Batch.SheetRows` covers every such order.
- The model follows the code where a fuller design would differ:
  - no property is re-filtered when the tables are combined;
  - a missing CCI column ends validation without saving the workbook.
- Exceptions raised while writing the workbook (lines 154-156) are not modelled. This
  includes the workbook writer's own limits on sheet size and cell length.
- `colourizeclashimages.py` is not part of this model: it is image I/O with
  floating-point colour scaling.
- Consolidation.Combined: with no table, the model takes the empty sheet that
  older pandas builds from `pd.DataFrame(columns=all_columns)` (line 138). Recent
  pandas releases refuse a set there with a ValueError; that line is outside the
  try of line 143, so such a run ends in the error box of lines 234-235 and no
  workbook is written.
- Batch.IsIfcFile: lowers ASCII letters only. Python's `str.lower` lowers every
  script, but the IFC-name test compares only with ".ifc", and no character outside
  ASCII lowers to ".", "i", "f" or "c" alone.
- Values.Render: renders strings, integers, booleans and None only. Floating-point
  nominal values are not modelled.

## Findings

| source | as written | input that shows it | evidently intended | confidence | as-written member | corrected member |
|---|---|---|---|---|---|---|
| ifc2csv/ifc2csv.py:61-63 | `hasattr(prop, "NominalValue")` is true for every IfcPropertySingleValue, even when its optional NominalValue is unset. `prop.NominalValue.wrappedValue` then raises on None, so the whole file is reported as failed and no CSV is written for it. | A wall whose property set holds `FireRating` with no nominal value, followed by `CCILocationID = "D4"` (`Extraction.UnsetValueAbortsAsWritten`). | Skip a property whose value is unset and keep the rest of the row. `Extraction.ApplyKeys`, `ApplyLastWins` and `ApplyUntouched` prove this about the corrected walk. | not executed; high, because the IFC reader answers None for an unset optional attribute | Extraction.ApplyAsWritten | Extraction.Apply |

The batch follows the code as written: `Batch.OutcomeOf` uses `ExtractAsWritten`, so
a file with an unset value that passes the filter is reported as failed and leaves
no CSV. The corrected walk `Extraction.Apply` gives the rows of every file that does
convert, and the rows every file would have if unset values were skipped.
