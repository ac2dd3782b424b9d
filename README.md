# DataSetToSQLite: the CREATE TABLE generator

This project models `SQLiteHelper.GetSQLiteCreateTableIfNotExists`, the part
of DataSetToSQLite that turns one in-memory table description (a .NET
`DataTable` with its columns, primary key and parent relations) into a SQLite
`CREATE TABLE IF NOT EXISTS` statement, and proves what that statement
contains.

The model has five modules:

- `Wrappers` holds `Option` and `Result`.
- `Text` models the string operations the generator calls: `string.Join`,
  `string.TrimEnd(char[])` and the decimal formatting of an `int`. Each is
  proved against a partner: trimming against a suffix lemma, and formatting
  against a parser that reads the number back.
- `Schema` holds the table description as plain values. A table has a name,
  ordered columns, the primary key as an ordered list of column names, and
  parent relations. A column has a name, a CLR type (`Other` stands for any
  type outside the mapping), a maximum length (-1 is unbounded) and the
  unique, allow-null and auto-increment flags. A relation has its child
  column names as a set, the parent table name and the parent columns in
  order.
- `Ddl` is the specification. It describes the statement as a list of
  segments: one column definition per column, then foreign-key clauses, then
  the composite primary key. It gives the rendering of each segment and
  `Statement`: the header, the rendered segments joined by `",\n"`, and `")"`.
  The lemmas about the statement are in this module.
- `Generator` is the imperative code. It builds the dictionary with
  successive insertions. It grows a string accumulator in the column pass,
  the nested column/relation passes and the composite-key step. It finishes
  with `TrimEnd` on the separator's characters. Its main method is proved to
  return exactly `Ddl.Statement(table)`.

Two behaviours of the code are easy to misread:

- One might expect one `FOREIGN KEY (child columns) REFERENCES ...` clause
  per relation, listing all of its child columns. The code writes one
  clause per pair of column and relation instead. Each clause names that
  single child column and lists every parent column of the relation
  (SQLiteHelper.cs:288-310), so a relation with two child columns gives two
  clauses.
- Auto-increment is written only together with an inline primary key.
  Auto-increment on any other column is not rejected; the code just writes
  nothing for it (SQLiteHelper.cs:254-266).

Column identity is modelled by column name. The source compares
`DataColumn` objects in `PrimaryKey.Contains` and `ChildColumns.Contains`;
within one table, column names are unique, so the two agree.

## Model

| member | source | states |
|---|---|---|
| `Generator.BuildTypeMap` | SQLiteHelper.cs:214-224 | the dictionary's keys are exactly the ten mapped CLR types, and each maps to its SQLite type name (integer family INTEGER, Decimal NUMERIC, Single/Double REAL, String NVARCHAR, DateTime TEXT) |
| `Generator.ColumnSqlType` | SQLiteHelper.cs:236-250 | the type token chosen for a column: a string column is decided by its maximum length without a lookup; any other type is looked up, and a type missing from the dictionary gives None |
| `Generator.AppendColumnDefinition` | SQLiteHelper.cs:234-281 | appending one column's pieces and the separator adds exactly that column's rendered definition and `",\n"` |
| `Generator.AppendColumnDefinitions` | SQLiteHelper.cs:230-282 | the column pass fails with the type of the first unmapped column; otherwise it leaves the header and every column definition in declared order, each followed by the separator |
| `Generator.AppendRelationClauses` | SQLiteHelper.cs:296-309 | for one column, appends one clause per relation of the list it is given, in list order, each followed by the separator (`AppendForeignKeys` passes it the relations whose child columns contain the column) |
| `Generator.AppendForeignKeys` | SQLiteHelper.cs:288-310 | the foreign-key pass appends, column by column, the clauses of every relation whose child columns contain that column |
| `Generator.GetSQLiteCreateTableIfNotExists` | SQLiteHelper.cs:210-331 | the whole generator returns exactly `Ddl.Statement(table)`: after the trim, the accumulated text is the header, the segments joined by `",\n"`, and `")"`, or the unmapped-type error |
| `Ddl.FirstUnmapped` | SQLiteHelper.cs:230-249 | the index of the first column whose type has no mapping: every earlier column is mapped, and the column at that index (if any) is not |
| `Ddl.TypeMapping` | SQLiteHelper.cs:214-249 | String with MaxLength -1 gives TEXT and any other String gives NVARCHAR(n); Int16/Int32/Int64/Byte/Boolean give INTEGER; Decimal gives NUMERIC; Single/Double give REAL; DateTime gives TEXT; an unmapped type gives no type at all (an error, never a default) |
| `Ddl.NVarCharLength` | SQLiteHelper.cs:244 | the length inside NVARCHAR(...) reads back as the column's MaxLength |
| `Ddl.NVarChar50` | SQLiteHelper.cs:244 | a string column of MaxLength 50 is written NVARCHAR(50) |
| `Ddl.StatementShape` | SQLiteHelper.cs:226-328 | the statement succeeds exactly when no column has an unmapped type; a successful statement starts with `CREATE TABLE IF NOT EXISTS <name>(`, ends with `)`, and the character before the `)` is one of `(`, space or `)`, never a separator character |
| `Ddl.JoinedShape` | SQLiteHelper.cs:226-328 | for any segment list, the header, the segments joined by `",\n"` and `")"` form a text whose character before the final `)` is `(`, a space or `)` |
| `Ddl.UnmappedTypeError` | SQLiteHelper.cs:249 | a failure names the type of a column that is unmapped and before which every column is mapped |
| `Ddl.EmptyTable` | SQLiteHelper.cs:226-328 | a table without columns and without a composite key gives exactly the header followed by `)` |
| `Ddl.RenderEnding` | SQLiteHelper.cs:234-322 | every column definition, foreign-key clause and composite key ends with a space or `)` |
| `Ddl.ColumnDefinitionText` | SQLiteHelper.cs:234-276 | column i's text is ` [name] `, then ` type `, then ` PRIMARY KEY ` for the sole key column with ` AUTOINCREMENT ` directly after it when the column auto-increments, then ` UNIQUE ` iff unique, then ` NOT NULL ` iff nulls are not allowed |
| `Ddl.InlinePrimaryKey` | SQLiteHelper.cs:252-276 | inline PRIMARY KEY for column i iff the key has exactly one column and it is column i; AUTOINCREMENT iff inline PRIMARY KEY and the column auto-increments; UNIQUE and NOT NULL follow the column's flags |
| `Ddl.PrimaryKeyForms` | SQLiteHelper.cs:252-323 | the composite PRIMARY KEY clause exists iff the key has more than one column; it is the last segment and lists the key in key order; an inline key implies a one-column key, so the two forms never occur together |
| `Ddl.ClauseOrder` | SQLiteHelper.cs:230-323 | the first segments are the column definitions, one per column in declared order; every later segment is a foreign-key clause or the composite key, and every foreign-key clause comes before the composite key |
| `Ddl.ColumnSegmentsAppend` | SQLiteHelper.cs:230-282 | the definitions of the first i+1 columns are those of the first i columns followed by column i's |
| `Ddl.RelationIndicesSpec` | SQLiteHelper.cs:291-294 | the relations selected for a column are, in relation order, exactly those whose child columns contain it |
| `Ddl.ColumnWithoutRelation` | SQLiteHelper.cs:291-296 | a column gets no foreign-key clause iff no relation lists it as a child column |
| `Ddl.ForeignKeyClauses` | SQLiteHelper.cs:288-310 | the clauses correspond one to one to the pairs (column i, relation k) with column i among relation k's child columns, ordered by column index and then by relation index, and each names column i and relation k's parent table and parent columns |
| `Ddl.StatementForeignKeys` | SQLiteHelper.cs:288-323 | in the statement the segment count is the number of columns, plus the number of such pairs, plus one if the key is composite; the foreign-key clauses sit right after the column definitions, in pair order |
| `Ddl.TerminatedRenderedAppend` | SQLiteHelper.cs:281 | appending a segment and the separator extends the accumulated text by exactly that segment's text and `",\n"` |
| `Ddl.EmittedAppend` | SQLiteHelper.cs:281 | the accumulated text (the header and each finished segment with its separator) grows by exactly the new segment and the separator |
| `Ddl.TrimmedIsJoined` | SQLiteHelper.cs:328 | trimming the separator's characters from the accumulated text removes exactly the last `",\n"`, which leaves the header and the segments joined by `",\n"` |
| `Text.TrimEnd` | SQLiteHelper.cs:328 | the trimmed text is a prefix of the input; its last character is not a trimmed one; every character removed is a trimmed one |
| `Text.TrimEndRemovesSuffix` | SQLiteHelper.cs:328 | trimming a suffix made of trimmed characters from a text whose last character is kept gives back exactly that text |
| `Text.TrimTerminated` | SQLiteHelper.cs:328 | for a prefix and a part list ending in kept characters, trimming the parts terminated by the separator gives the prefix and the parts joined by the separator |
| `Text.TerminatedIsJoined` | SQLiteHelper.cs:281 | writing each part followed by the separator is joining the parts and adding one trailing separator |
| `Text.JoinedLastChar` | SQLiteHelper.cs:306 | a prefix followed by a join ends with the last character of the last part |
| `Text.NatToString` | SQLiteHelper.cs:244 | the decimal text of a natural number is non-empty, all digits, and has no leading zero |
| `Text.ParseNatToString` | SQLiteHelper.cs:244 | reading the decimal text of a natural number gives back the number |
| `Text.IntToStringRoundTrip` | SQLiteHelper.cs:244 | the text of an int starts with `-` iff the int is negative, is otherwise digits, and reads back as the same int |

## Left out

- `CreateSQLiteFromDataSet`, `SaveAllDataToDB` and `FillSQLiteSingleTableFromDataTable` (SQLiteHelper.cs:17-123, 172-208) are not modelled. They manage connections and transactions for System.Data.SQLite. Their full-replace behaviour happens inside `SQLiteDataAdapter.Update` and `SQLiteCommandBuilder`, a foreign library.
- `FillDataSetFromSQLite` (SQLiteHelper.cs:132-170) is not modelled. It checks that the file exists, opens a connection and relies on the ADO.NET `LoadOption.Upsert` fill; all of that is file-system and library behaviour.
- Logging, `Stopwatch` timing and the catch-all exception handlers are not modelled; they do no computation.
- The commented-out INSERT builder (SQLiteHelper.cs:60-77) is dead code.
- The dictionary's `String` entry (`NVARCHAR`) is inserted by `Generator.BuildTypeMap`, as in the code, but never read. String columns are decided before the lookup.
- .NET's automatic column flags are not modelled; for example, `Unique` is set automatically on a one-column primary key. Every flag is an input.
- The dictionary insertion's duplicate-key exception is not modelled. The ten keys the code inserts are distinct, so it cannot happen.
- The three passes are split into helper methods rather than kept in one method body. The order of the appends and their text are unchanged.
- A culture-specific negative sign in `Int32.ToString` is not modelled; the model writes `-`.
- The generator builds its result by appending repeatedly to an immutable string, so there is no aliasing or in-place update to model.
