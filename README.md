# LightPocoGenerator, modelled in Dafny

LightPocoGenerator is a console program. It reads the `Columns` and `DataTypes`
schema views of a database connection and writes one C# class file per table:
one auto-property per column, in ordinal order, named `<Table>.cs`. This project
models the computation in `Main` that sits between the database reads and the
file writes:

- the choice of namespace from the arguments;
- the projection of the column rows (the nullability flag as the program
  computes it);
- the grouping by table name and the ordering of the tables;
- the type dictionary built from the catalog rows;
- the rendering of each class text;
- the table loop, which stops at the first failure.

Modules, one file each:

- `Wrappers`: `Option` and `Result`.
- `Ordering`: LINQ's `OrderBy` as a stable insertion sort. It is proved to
  permute its input, to sort it under any total preorder, to keep the input
  order of equal keys, and to keep keys distinct.
- `Schema`: the column rows, their projection, `GroupBy` on the table name,
  and the two orderings (tables by name, columns by ordinal position).
- `TypeCatalog`: the catalog rows, `Where`/`Select`/`ToDictionary` (which fails
  on a repeated type name), and the choice of a column's type name with its
  `?` marker.
- `Rendering`: the class template. The `StringBuilder` becomes the class
  `TextBuilder`. The header, the column loop and the footer are methods that
  append to it, and each is proved against the template functions.
- `Generator`: the namespace, the loop over the tables (the method `Run`),
  and the properties of a whole run.

Quirks of the code, modelled as written:

- `IsNullable` is `IS_NULLABLE == "NO"` (`Program.cs:68`). The flag is true
  for a column the catalog reports as NOT NULL. So a NOT NULL `int` column
  renders as `Int32?` and a nullable one as `Int32`
  (`TypeCatalog.NotNullColumnGetsMarker`).
- `ToDictionary` throws on a repeated type name (`Program.cs:83`). It does not
  keep the last entry. The model returns `Err(DuplicateTypeName(n))`, and no file
  is written, because the dictionary is built before the table loop.
- A type code missing from the dictionary (`Program.cs:100`) is an error; there
  is no fallback type. So is a host type that `Type.GetType` cannot resolve:
  the null it returns fails at `.Name` (`Program.cs:101`). The table being
  rendered is not written. Files written for earlier tables stay written.

## Model

| member | source | states |
|---|---|---|
| Generator.Namespace | LightPocoGenerator/Program.cs:25 | with a third argument the namespace is that argument; with exactly two it is the connection-string name, the second argument |
| Schema.Project | LightPocoGenerator/Program.cs:63-70 | the flag is set exactly when the view's IS_NULLABLE text is "NO"; the other four fields are copied unchanged |
| Schema.ProjectAll | LightPocoGenerator/Program.cs:63-70 | the projection of every column row; each element is characterised by `Project` |
| Schema.GroupBy | LightPocoGenerator/Program.cs:71 | GroupBy on the table name; characterised by `GroupByGroups` |
| Schema.Tables | LightPocoGenerator/Program.cs:71-72 | the groups ordered by key; characterised by `TablesPartitionColumns` and `TablesInNameOrder` |
| Schema.ColumnsInOrder | LightPocoGenerator/Program.cs:98 | a table's columns ordered by ordinal position; characterised by `ColumnsInOrdinalOrder` |
| Schema.TableNames | LightPocoGenerator/Program.cs:71 | the grouping keys are pairwise distinct; every column's table name is one of them; each comes from some column |
| Schema.GroupByGroups | LightPocoGenerator/Program.cs:71 | one group per distinct table name; each group holds exactly the columns with its name, in input order, and is non-empty |
| Schema.TablesPartitionColumns | LightPocoGenerator/Program.cs:71-73 | after ordering, the tables still have distinct names, cover every column, and each holds exactly its own columns in input order |
| Schema.TablesInNameOrder | LightPocoGenerator/Program.cs:72 | under a total-preorder comparer the tables come in ascending order of name |
| Schema.ColumnsInOrdinalOrder | LightPocoGenerator/Program.cs:98 | a table's columns are emitted as a permutation of its members, in non-decreasing ordinal position, with ties kept in input order |
| Ordering.OrderBy | LightPocoGenerator/Program.cs:72 | the stable sort behind both OrderBy calls (lines 72 and 98); characterised by `OrderByPermutes`, `OrderBySorted`, `OrderByStable` and `OrderByDistinct` |
| Ordering.OrderByPermutes | LightPocoGenerator/Program.cs:72 | OrderBy's output is a permutation of its input |
| Ordering.OrderBySorted | LightPocoGenerator/Program.cs:72 | under a total preorder, OrderBy's output keys are non-decreasing |
| Ordering.OrderByStable | LightPocoGenerator/Program.cs:98 | for each key, the elements with that key keep their input order (OrderBy is stable) |
| Ordering.OrderByDistinct | LightPocoGenerator/Program.cs:72 | sorting input with distinct keys yields output with distinct keys |
| TypeCatalog.CatalogEntriesFromRows | LightPocoGenerator/Program.cs:75-82 | the selected entries are exactly what the rows with a non-DBNull DataType give, each with its resolved host type |
| TypeCatalog.ToDictionaryContents | LightPocoGenerator/Program.cs:83 | on success the dictionary's keys are the entries' type names and each name maps to its entry's host type |
| TypeCatalog.ToDictionaryOkIffDistinct | LightPocoGenerator/Program.cs:83 | ToDictionary succeeds if and only if no two entries share a type name |
| TypeCatalog.ToDictionaryDuplicate | LightPocoGenerator/Program.cs:83 | a failure is a duplicate-key error naming a type name that two entries share |
| TypeCatalog.RowEntry | LightPocoGenerator/Program.cs:78-82 | the Select projection of one row: its type name and the resolved host type; characterised by `CatalogEntriesFromRows` |
| TypeCatalog.CatalogEntries | LightPocoGenerator/Program.cs:77-82 | Where/Select over the catalog rows; characterised by `CatalogEntriesFromRows` and `CatalogEntriesInRowOrder` |
| TypeCatalog.CatalogEntriesInRowOrder | LightPocoGenerator/Program.cs:77-82 | two rows with a DataType, in order, give two entries in the same order |
| TypeCatalog.ToDictionary | LightPocoGenerator/Program.cs:83 | ToDictionary keyed by type name, failing on the first repeated key; characterised by `ToDictionaryContents`, `ToDictionaryOkIffDistinct` and `ToDictionaryDuplicate` |
| TypeCatalog.BuildTypeMap | LightPocoGenerator/Program.cs:75-83 | the whole dictionary build from the catalog rows; characterised by `TypeMapFromCatalog`, `DuplicateRows` and `DuplicateRowsFail` |
| TypeCatalog.TypeMapFromCatalog | LightPocoGenerator/Program.cs:75-83 | the build succeeds if and only if no two rows with a DataType share a type name; on success every such row is mapped by its type name to its resolved type, and every key comes from such a row; otherwise the error is a duplicate and two such rows share the name |
| TypeCatalog.DuplicateRowsFail | LightPocoGenerator/Program.cs:77-83 | two rows with a DataType and the same type name make the build fail with a duplicate-key error (no last-write-wins) |
| TypeCatalog.DuplicateRows | LightPocoGenerator/Program.cs:77-83 | every failed build is a duplicate-name error, caused by two distinct rows with a non-DBNull DataType and that type name |
| TypeCatalog.TypeNameOf | LightPocoGenerator/Program.cs:100-103 | a type code missing from the dictionary, or one whose host type did not resolve, is an error; otherwise the result is the host type's name, with "?" added if and only if the column is flagged and the type is a value type |
| TypeCatalog.NoMarkerUnlessNullableValueType | LightPocoGenerator/Program.cs:102-103 | an unflagged column, or a reference type, gets the plain host type name |
| TypeCatalog.NotNullColumnGetsMarker | LightPocoGenerator/Program.cs:68 | for a value type, a row reported "NO" gets the "?" marker and a row reported "YES" does not |
| Rendering.PropertyLine | LightPocoGenerator/Program.cs:105 | the property template `        public <type> <column> { get; set; }`; placed per column by `DocumentShape` and `PropertyLinesShape` |
| Rendering.NamespaceLines | LightPocoGenerator/Program.cs:89-92 | the import, a blank line, the namespace line and its opening brace; appended by `AppendNamespaceLines` |
| Rendering.ClassLines | LightPocoGenerator/Program.cs:93-96 | a blank line, the class line, its opening brace and a blank line; appended by `AppendClassLines` |
| Rendering.HeaderLines | LightPocoGenerator/Program.cs:89-96 | the eight header lines; the first eight lines of every document by `DocumentShape`, appended by `AppendHeader` |
| Rendering.FooterLines | LightPocoGenerator/Program.cs:109-110 | the two closing lines; the last two lines of every document by `DocumentShape`, appended by `AppendFooter` |
| Rendering.PropertyLines | LightPocoGenerator/Program.cs:98-107 | the property lines of the column loop, or the first column's error; characterised by `PropertyLinesShape` and `PropertyLinesFirstFailure` |
| Rendering.DocumentLines | LightPocoGenerator/Program.cs:89-110 | the lines of one class; characterised by `DocumentShape` and `DocumentFailsOnUnrenderableColumn` |
| Rendering.Text | LightPocoGenerator/Program.cs:87-110 | the text of appended lines, each followed by the newline string; it is the invariant `TextBuilder.Valid` that every append keeps |
| Rendering.DocumentText | LightPocoGenerator/Program.cs:87-114 | the text written for one table; implemented by `RenderTable` |
| Rendering.TextBuilder.constructor | LightPocoGenerator/Program.cs:87 | a new builder holds no lines and an empty text |
| Rendering.AppendNamespaceLines | LightPocoGenerator/Program.cs:89-92 | appends exactly the import, the blank line, the namespace line and the opening brace |
| Rendering.AppendClassLines | LightPocoGenerator/Program.cs:93-96 | appends exactly the blank line, the class line, its opening brace and a blank line |
| Rendering.PropertyLinesShape | LightPocoGenerator/Program.cs:98-107 | the column loop succeeds if and only if every column's type renders; it then yields two lines per column: the property line, then a blank line |
| Rendering.PropertyLinesFirstFailure | LightPocoGenerator/Program.cs:98-100 | a failing column loop carries the error of the first column whose type does not render |
| Rendering.DocumentShape | LightPocoGenerator/Program.cs:89-110 | a rendered class is the eight header lines, then one property line and one blank line per column in ordinal order, then the two closing lines |
| Rendering.DocumentFailsOnUnrenderableColumn | LightPocoGenerator/Program.cs:98-103 | rendering a table fails if and only if one of its columns has a type that does not render, and then with the error of the first such column in ordinal order |
| Rendering.TextBuilder.AppendLine | LightPocoGenerator/Program.cs:89 | appending a line adds it and the newline string to the text |
| Rendering.AppendHeader | LightPocoGenerator/Program.cs:89-96 | appends exactly the eight header lines, with the namespace and the table name |
| Rendering.AppendProperty | LightPocoGenerator/Program.cs:100-106 | the loop body computes the column's type name as TypeNameOf does; on success it appends the property line and a blank line, and on failure it appends nothing |
| Rendering.AppendProperties | LightPocoGenerator/Program.cs:98-107 | the column loop appends the property lines of all columns; otherwise it stops with the error of the first failing column, having appended the property lines of the columns before it |
| Rendering.AppendFooter | LightPocoGenerator/Program.cs:109-110 | appends exactly the two closing lines |
| Rendering.RenderTable | LightPocoGenerator/Program.cs:87-110 | the StringBuilder's text is the table's document text, or the error of its first unrenderable column |
| Generator.Run | LightPocoGenerator/Program.cs:61-117 | the whole run (type dictionary, then one file per table in order) produces exactly the outcome of the specification Generation |
| Generator.WrittenFilesArePrefix | LightPocoGenerator/Program.cs:85-114 | the files written belong to a prefix of the tables; each is named `<Table>.cs` and holds that table's document |
| Generator.StopsAtFirstFailure | LightPocoGenerator/Program.cs:85-114 | the run completes if and only if every table was written; otherwise it stops at the first table that does not render, with that table's error |
| Generator.FileNameInjective | LightPocoGenerator/Program.cs:112 | different table names give different file names |
| Generator.OneFilePerTable | LightPocoGenerator/Program.cs:71-114 | a completed run writes one file per table, in table order, each named after its table and holding its document; the names are distinct; every table of the column view has a file |
| Generator.FailedTableNotWritten | LightPocoGenerator/Program.cs:98-114 | a table whose document fails aborts the run, and no file carries its name |
| Generator.UnrenderableColumnAborts | LightPocoGenerator/Program.cs:100-101 | a column whose type code is missing or unresolved aborts the run, and its table's file is not written |
| Generator.DuplicateTypeNameWritesNothing | LightPocoGenerator/Program.cs:83-85 | two catalog rows with a DataType and the same type name abort the run with a duplicate-key error before any file is written |
| Generator.WriteTables | LightPocoGenerator/Program.cs:85-117 | the table loop as a function; characterised by `WrittenFilesArePrefix`, `StopsAtFirstFailure` and `FailedTableNotWritten` |
| Generator.Generation | LightPocoGenerator/Program.cs:61-117 | the whole run as a function; characterised by `OneFilePerTable`, `UnrenderableColumnAborts` and `DuplicateTypeNameWritesNothing`, and implemented by `Run` |
| Generator.FileName | LightPocoGenerator/Program.cs:112 | the file name `<Table>.cs`; characterised by `FileNameInjective` |

## Left out

- Database access: the connection, the provider factory and the configuration
  lookup (`Program.cs:49-59`). The model starts from the rows of the two
  schema views.
- The cast of each cell to `string` or `int` (`Program.cs:65-69`, 80-81), and
  the exception it throws on DBNull or on a wrong type: the row fields are
  typed values.
- A null type name passed to `ToDictionary`, which throws: type names are
  strings, never null.
- Reflection: `Type.GetType`, `Name` and `IsValueType` (`Program.cs:81`,
  101-102) stand for an abstract function `resolve` from the DataType text to
  an optional `HostType(name, isValueType)`. Because `resolve` is total, an
  exception thrown by `Type.GetType` itself (for a malformed or unloadable
  type name) is not modelled.
- The filesystem: creating the output directory, deleting the files already
  in it (`Program.cs:30-47`), `Path.Combine` and `File.WriteAllText` with UTF-8
  (`Program.cs:112-114`). A written file is a `Document(fileName, text)`;
  the directory path and the encoding are not modelled. Name collisions on the
  filesystem are not modelled either: on a case-insensitive filesystem two
  tables whose names differ only in case go to the same file, and the later
  write overwrites the earlier one.
- The console: the usage message and key wait for no arguments
  (`Program.cs:15-21`), the progress messages, and the closing blank line and
  blocking `Console.ReadLine()` after a completed run (`Program.cs:120-122`).
- `args[1]` with a single argument throws before the namespace is chosen
  (`Program.cs:24`). `Generator.Namespace`, `Generator.Generation` and
  `Generator.Run` require at least two arguments instead of modelling the crash.
- The string comparer of `OrderBy(x => x.Key)` (`Program.cs:72`) is the
  culture's default comparer. The model takes an abstract comparer `order`,
  and assumes only that it is a total preorder.
- `Environment.NewLine`, which `AppendLine` uses, is the parameter `nl`.
- Ordering.OrderByStable: stability is stated for elements with equal keys.
  It is not stated for distinct keys that the comparer ties. For column
  ordinals the two notions coincide. For table names they do not: two
  different names that the culture comparer calls equal keep their `GroupBy`
  order in the function `OrderBy`, but no lemma states that order.
