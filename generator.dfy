/** The generator as the source writes it: a dictionary filled entry by
    entry, a string grown clause by clause in three passes, and a final trim
    of the trailing separator. Proved to produce Ddl.Statement. */
module Generator {
  import opened Wrappers
  import opened Text
  import opened Schema
  import opened Ddl

  /** What the generator needs of the dictionary: exactly the mapped types
      are keys, each with its entry of the mapping table. */
  ghost predicate IsTypeMap(types: map<ColumnType, string>)
  {
    (forall t :: t in types <==> !t.Other?)
    && forall t :: t in types ==> Some(types[t]) == DictionaryEntry(t)
  }

  /** The type-mapping dictionary, filled by successive Add calls. Its keys
      are the ten mapped types; the String entry is never consulted. */
  method BuildTypeMap() returns (types: map<ColumnType, string>)
    ensures IsTypeMap(types)
  {
    types := map[];
    types := types[Int16 := "INTEGER"];
    types := types[Int32 := "INTEGER"];
    types := types[Int64 := "INTEGER"];
    types := types[Byte := "INTEGER"];
    types := types[Boolean := "INTEGER"];
    types := types[Decimal := "NUMERIC"];
    types := types[Single := "REAL"];
    types := types[Double := "REAL"];
    types := types[String := "NVARCHAR"];
    types := types[DateTime := "TEXT"];
  }

  /** Appends the definition of one column whose SQLite type is known,
      piece by piece, and the separator. */
  method AppendColumnDefinition(sql: string, col: Column, primaryKey: seq<string>, sqlType: string)
    returns (out: string)
    requires SqlType(col) == Some(sqlType)
    ensures out == sql + (Render(ColumnSegment(col, primaryKey)) + Separator)
  {
    var sole := |primaryKey| == 1 && col.name in primaryKey;
    ghost var pk := if sole then " PRIMARY KEY " else "";
    ghost var ai := if sole && col.autoIncrement then " AUTOINCREMENT " else "";
    ghost var u := if col.unique then " UNIQUE " else "";
    ghost var nn := if !col.allowDbNull then " NOT NULL " else "";
    ghost var head := (" [" + col.name + "] ") + (" " + sqlType + " ");
    out := sql + (" [" + col.name + "] ");
    out := out + (" " + sqlType + " ");
    assert out == sql + head;
    if sole {
      out := out + " PRIMARY KEY ";
      if col.autoIncrement {
        out := out + " AUTOINCREMENT ";
      }
    }
    assert out == sql + head + pk + ai;
    if col.unique {
      out := out + " UNIQUE ";
    }
    if !col.allowDbNull {
      out := out + " NOT NULL ";
    }
    assert out == sql + head + pk + ai + u + nn;
    assert out == sql + (head + pk + ai + u + nn) by {
      AppendAssoc(sql, head, pk);
      AppendAssoc(sql, head + pk, ai);
      AppendAssoc(sql, head + pk + ai, u);
      AppendAssoc(sql, head + pk + ai + u, nn);
    }
    out := out + Separator;
    AppendAssoc(sql, head + pk + ai + u + nn, Separator);
  }

  /** The SQLite type of a column: strings by their maximum length, every
      other type looked up in the dictionary, None when it has no entry. */
  method ColumnSqlType(col: Column, types: map<ColumnType, string>) returns (r: Option<string>)
    requires IsTypeMap(types)
    ensures r == SqlType(col)
  {
    if col.dataType.String? {
      if col.maxLength == -1 {
        r := Some("TEXT");
      } else {
        r := Some("NVARCHAR(" + IntToString(col.maxLength) + ")");
      }
    } else if col.dataType in types {
      r := Some(types[col.dataType]);
    } else {
      r := None;
    }
  }

  /** The first pass: one definition per column, in column order; fails on
      the first column whose type the dictionary does not map. */
  method AppendColumnDefinitions(tableName: string, cols: seq<Column>, primaryKey: seq<string>,
                                 types: map<ColumnType, string>)
    returns (r: Result<string, DdlError>)
    requires IsTypeMap(types)
    ensures FirstUnmapped(cols) < |cols| ==> r == Err(UnmappedType(cols[FirstUnmapped(cols)].dataType))
    ensures FirstUnmapped(cols) == |cols| ==> r == Ok(Emitted(tableName, ColumnSegments(cols, primaryKey)))
  {
    var sql := Header(tableName);
    ghost var done: seq<Segment> := [];
    assert sql == Emitted(tableName, done);
    var i := 0;
    while i < |cols|
      invariant 0 <= i <= |cols|
      invariant forall j :: 0 <= j < i ==> IsMapped(cols[j])
      invariant done == ColumnSegments(cols[..i], primaryKey)
      invariant sql == Emitted(tableName, done)
    {
      var col := cols[i];
      var sqlType := ColumnSqlType(col, types);
      if sqlType.None? {
        assert FirstUnmapped(cols) == i;
        return Err(UnmappedType(col.dataType));
      }
      assert IsMapped(cols[i]);
      ghost var seg := ColumnSegment(col, primaryKey);
      sql := AppendColumnDefinition(sql, col, primaryKey, sqlType.value);
      EmittedAppend(tableName, done, seg);
      ColumnSegmentsAppend(cols, primaryKey, i);
      done := done + [seg];
      i := i + 1;
    }
    assert cols[..i] == cols;
    return Ok(sql);
  }

  /** Appends, for one column, one clause per relation in the list: each
      names the column and lists all of the relation's parent columns. */
  method AppendRelationClauses(sql0: string, tableName: string, column: string, relations: seq<Relation>,
                               ghost done0: seq<Segment>)
    returns (sql: string)
    requires sql0 == Emitted(tableName, done0)
    ensures sql == Emitted(tableName, done0 + ClausesFor(column, relations))
  {
    sql := sql0;
    ghost var done := done0;
    ghost var own := ClausesFor(column, relations);
    var j := 0;
    while j < |relations|
      invariant 0 <= j <= |relations|
      invariant done == done0 + own[..j]
      invariant sql == Emitted(tableName, done)
    {
      var relation := relations[j];
      sql := sql + (" FOREIGN KEY(" + column + ") REFERENCES " + relation.parentTable
                    + "(" + Join(",", relation.parentColumns) + ")" + Separator);
      ghost var seg := ForeignKeyOf(column, relation);
      EmittedAppend(tableName, done, seg);
      assert own[..j + 1] == own[..j] + [seg];
      done := done + [seg];
      j := j + 1;
    }
    assert own[..j] == own;
  }

  /** The second pass: for each column, in column order, one clause per
      parent relation whose child columns contain it, in relation order. */
  method AppendForeignKeys(sql0: string, tableName: string, cols: seq<Column>, rels: seq<Relation>,
                           ghost done0: seq<Segment>)
    returns (sql: string)
    requires sql0 == Emitted(tableName, done0)
    ensures sql == Emitted(tableName, done0 + ForeignKeySegments(cols, rels))
  {
    sql := sql0;
    ghost var done := done0;
    var i := 0;
    assert done == done0 + ForeignKeySegments(cols[..0], rels);
    while i < |cols|
      invariant 0 <= i <= |cols|
      invariant done == done0 + ForeignKeySegments(cols[..i], rels)
      invariant sql == Emitted(tableName, done)
    {
      var col := cols[i];
      var relations := RelationsOf(col.name, rels);
      assert cols[..i + 1][..i] == cols[..i] && cols[..i + 1][i] == col;
      if |relations| > 0 {
        sql := AppendRelationClauses(sql, tableName, col.name, relations, done);
      } else {
        assert done + ColumnForeignKeys(col.name, rels) == done;
      }
      done := done + ColumnForeignKeys(col.name, rels);
      i := i + 1;
    }
    assert cols[..i] == cols;
  }

  /** Builds the CREATE TABLE IF NOT EXISTS statement for a table, or fails
      on the first column whose type the dictionary does not map. */
  method GetSQLiteCreateTableIfNotExists(table: Table) returns (r: Result<string, DdlError>)
    ensures r == Statement(table)
  {
    var types := BuildTypeMap();
    var columns := AppendColumnDefinitions(table.name, table.columns, table.primaryKey, types);
    if columns.Err? {
      return Err(columns.error);
    }
    ghost var done := ColumnSegments(table.columns, table.primaryKey);
    var sql := AppendForeignKeys(columns.value, table.name, table.columns, table.parentRelations, done);
    done := done + ForeignKeySegments(table.columns, table.parentRelations);

    if |table.primaryKey| > 1 {
      sql := sql + (" PRIMARY KEY (" + Join(",", table.primaryKey) + ")" + Separator);
      ghost var seg := CompositePrimaryKey(table.primaryKey);
      EmittedAppend(table.name, done, seg);
      done := done + [seg];
    }
    assert done == Segments(table).value;

    TrimmedIsJoined(table.name, done);
    sql := TrimEnd(sql, SeparatorChars) + ")";
    return Ok(sql);
  }
}
