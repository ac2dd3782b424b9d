/** What `CREATE TABLE IF NOT EXISTS` statement the generator produces for a
    table, stated as values: the statement is a header, a list of segments
    (column definitions, then foreign-key clauses, then the composite
    primary key) joined by the separator, and a closing parenthesis. */
module Ddl {
  import opened Wrappers
  import opened Text
  import opened Schema

  /** The separator written after every segment (NEW_LINE_IN_TABLE_DEF). */
  const Separator: string := ",\n"

  /** The characters of Separator; the final trim removes any trailing run of them. */
  const SeparatorChars: set<char> := {',', '\n'}

  function Header(tableName: string): string
  {
    "CREATE TABLE IF NOT EXISTS " + tableName + "("
  }

  /** The type-mapping dictionary: the SQLite type name stored for each CLR
      type, None for a type that has no entry. */
  function DictionaryEntry(t: ColumnType): Option<string>
  {
    match t
    case Int16 | Int32 | Int64 | Byte | Boolean => Some("INTEGER")
    case Decimal => Some("NUMERIC")
    case Single | Double => Some("REAL")
    case String => Some("NVARCHAR")
    case DateTime => Some("TEXT")
    case Other(_) => None
  }

  /** The SQLite type written for a column. Strings are decided on their
      maximum length and never looked up; every other type is looked up. */
  function SqlType(c: Column): Option<string>
  {
    if c.dataType.String? then
      if c.maxLength == -1 then Some("TEXT") else Some("NVARCHAR(" + IntToString(c.maxLength) + ")")
    else DictionaryEntry(c.dataType)
  }

  predicate IsMapped(c: Column)
  {
    SqlType(c).Some?
  }

  /** One comma-separated item between the parentheses of the statement. */
  datatype Segment =
    | ColumnDefinition(name: string, sqlType: string, inlinePrimaryKey: bool,
                       autoIncrement: bool, unique: bool, notNull: bool)
    | ForeignKey(column: string, parentTable: string, parentColumns: seq<string>)
    | CompositePrimaryKey(columns: seq<string>)

  /** The text of a segment, without the separator that follows it. */
  function Render(s: Segment): string
  {
    match s
    case ColumnDefinition(name, sqlType, pk, autoInc, unique, notNull) =>
      (" [" + name + "] ") + (" " + sqlType + " ")
      + (if pk then " PRIMARY KEY " else "")
      + (if autoInc then " AUTOINCREMENT " else "")
      + (if unique then " UNIQUE " else "")
      + (if notNull then " NOT NULL " else "")
    case ForeignKey(column, parent, parentColumns) =>
      " FOREIGN KEY(" + column + ") REFERENCES " + parent + "(" + Join(",", parentColumns) + ")"
    case CompositePrimaryKey(columns) =>
      " PRIMARY KEY (" + Join(",", columns) + ")"
  }

  function Rendered(segs: seq<Segment>): seq<string>
  {
    seq(|segs|, i requires 0 <= i < |segs| => Render(segs[i]))
  }

  /** The definition of a mapped column: the inline primary key only for the
      sole key column, and auto-increment only together with it. */
  function ColumnSegment(c: Column, primaryKey: seq<string>): Segment
    requires IsMapped(c)
  {
    var sole := |primaryKey| == 1 && c.name in primaryKey;
    ColumnDefinition(c.name, SqlType(c).value, sole, sole && c.autoIncrement, c.unique, !c.allowDbNull)
  }

  lemma ColumnSegmentsAppend(cols: seq<Column>, primaryKey: seq<string>, i: nat)
    requires i < |cols| && forall j :: 0 <= j <= i ==> IsMapped(cols[j])
    ensures ColumnSegments(cols[..i + 1], primaryKey)
         == ColumnSegments(cols[..i], primaryKey) + [ColumnSegment(cols[i], primaryKey)]
  {
  }

  /** The index of the first column whose type is unmapped, |cols| if none is. */
  function FirstUnmapped(cols: seq<Column>): (k: nat)
    ensures k <= |cols|
    ensures forall j :: 0 <= j < k ==> IsMapped(cols[j])
    ensures k < |cols| ==> !IsMapped(cols[k])
  {
    if |cols| == 0 then 0
    else if !IsMapped(cols[0]) then 0
    else 1 + FirstUnmapped(cols[1..])
  }

  function ColumnSegments(cols: seq<Column>, primaryKey: seq<string>): seq<Segment>
    requires forall j :: 0 <= j < |cols| ==> IsMapped(cols[j])
  {
    seq(|cols|, i requires 0 <= i < |cols| => ColumnSegment(cols[i], primaryKey))
  }

  /** The relations whose child columns contain the column, in relation order. */
  function RelationsOf(column: string, rels: seq<Relation>): seq<Relation>
  {
    if |rels| == 0 then []
    else
      var last := rels[|rels| - 1];
      RelationsOf(column, rels[..|rels| - 1]) + (if column in last.childColumns then [last] else [])
  }

  /** The clause for one column of one relation: it names that single child
      column and every parent column of the relation. */
  function ForeignKeyOf(column: string, r: Relation): Segment
  {
    ForeignKey(column, r.parentTable, r.parentColumns)
  }

  /** One clause for the column per relation, in the order given. */
  function ClausesFor(column: string, relations: seq<Relation>): seq<Segment>
  {
    seq(|relations|, j requires 0 <= j < |relations| => ForeignKeyOf(column, relations[j]))
  }

  function ColumnForeignKeys(column: string, rels: seq<Relation>): seq<Segment>
  {
    ClausesFor(column, RelationsOf(column, rels))
  }

  /** The foreign-key clauses of the columns, column by column. */
  function ForeignKeySegments(cols: seq<Column>, rels: seq<Relation>): seq<Segment>
  {
    if |cols| == 0 then []
    else ForeignKeySegments(cols[..|cols| - 1], rels) + ColumnForeignKeys(cols[|cols| - 1].name, rels)
  }

  function PrimaryKeySegments(primaryKey: seq<string>): seq<Segment>
  {
    if |primaryKey| > 1 then [CompositePrimaryKey(primaryKey)] else []
  }

  function Segments(t: Table): Result<seq<Segment>, DdlError>
  {
    var k := FirstUnmapped(t.columns);
    if k < |t.columns| then Err(UnmappedType(t.columns[k].dataType))
    else Ok(ColumnSegments(t.columns, t.primaryKey)
            + ForeignKeySegments(t.columns, t.parentRelations)
            + PrimaryKeySegments(t.primaryKey))
  }

  /** The statement: header, segments joined by the separator, ")". */
  function Statement(t: Table): Result<string, DdlError>
  {
    match Segments(t)
    case Err(e) => Err(e)
    case Ok(segs) => Ok(Header(t.name) + Join(Separator, Rendered(segs)) + ")")
  }

  /** The positions, in relation order, of the relations whose child
      columns contain the column. */
  function RelationIndices(column: string, rels: seq<Relation>): seq<nat>
  {
    if |rels| == 0 then []
    else
      var n := |rels| - 1;
      RelationIndices(column, rels[..n]) + (if column in rels[n].childColumns then [n] else [])
  }

  /** The (column index, relation index) pairs that get a foreign-key
      clause, column by column and, within a column, relation by relation. */
  function ForeignKeyPairs(cols: seq<Column>, rels: seq<Relation>): seq<(nat, nat)>
  {
    if |cols| == 0 then []
    else
      var n := |cols| - 1;
      var ix := RelationIndices(cols[n].name, rels);
      ForeignKeyPairs(cols[..n], rels) + seq(|ix|, j requires 0 <= j < |ix| => (n, ix[j]))
  }

  /** The position of a kind of segment in the statement. */
  function Rank(s: Segment): nat
  {
    match s
    case ColumnDefinition(_, _, _, _, _, _) => 0
    case ForeignKey(_, _, _) => 1
    case CompositePrimaryKey(_) => 2
  }

  // ---------------------------------------------------------------------
  // Properties of the statement

  /** The type mapping: which SQLite type each column type is written as. */
  lemma TypeMapping(c: Column)
    ensures c.dataType.String? && c.maxLength == -1 ==> SqlType(c) == Some("TEXT")
    ensures c.dataType.String? && c.maxLength != -1 ==>
      SqlType(c) == Some("NVARCHAR(" + IntToString(c.maxLength) + ")")
    ensures c.dataType in {Int16, Int32, Int64, Byte, Boolean} ==> SqlType(c) == Some("INTEGER")
    ensures c.dataType.Decimal? ==> SqlType(c) == Some("NUMERIC")
    ensures c.dataType in {Single, Double} ==> SqlType(c) == Some("REAL")
    ensures c.dataType.DateTime? ==> SqlType(c) == Some("TEXT")
    ensures c.dataType.Other? <==> SqlType(c).None?
  {
  }

  /** A bounded string column's declared length is written in decimal and
      can be read back from the type name. */
  lemma NVarCharLength(c: Column)
    requires c.dataType.String? && c.maxLength != -1
    ensures var ty := SqlType(c).value;
      |ty| > 10 && ty[..9] == "NVARCHAR(" && ty[|ty| - 1] == ')'
      && ParseInt(ty[9..|ty| - 1]) == c.maxLength
  {
    var ty := SqlType(c).value;
    assert ty[9..|ty| - 1] == IntToString(c.maxLength);
    IntToStringRoundTrip(c.maxLength);
  }

  lemma NVarChar50()
    ensures SqlType(Column("name", String, 50, false, true, false)) == Some("NVARCHAR(50)")
  {
    assert DigitChar(5) == '5' && DigitChar(0) == '0';
    assert NatToString(5) == "5";
    assert NatToString(50) == NatToString(5) + [DigitChar(0)] == "50";
    assert IntToString(50) == "50";
    var c := Column("name", String, 50, false, true, false);
    assert SqlType(c) == Some("NVARCHAR(" + "50" + ")");
    assert "NVARCHAR(" + "50" + ")" == "NVARCHAR(50)";
  }

  /** Every segment ends with a blank or a closing parenthesis, so never
      with a separator character. */
  lemma RenderEnding(s: Segment)
    ensures var r := Render(s); |r| > 0 && r[|r| - 1] in {' ', ')'}
  {
  }

  /** Appending a segment and the separator extends the terminated text. */
  lemma TerminatedRenderedAppend(segs: seq<Segment>, s: Segment)
    ensures Terminated(Rendered(segs + [s]), Separator)
         == Terminated(Rendered(segs), Separator) + Render(s) + Separator
  {
    assert Rendered(segs + [s]) == Rendered(segs) + [Render(s)];
    TerminatedAppend(Rendered(segs), Render(s), Separator);
  }

  /** The text written so far: the header, then every segment done so far
      followed by the separator. */
  function Emitted(tableName: string, done: seq<Segment>): string
  {
    Header(tableName) + Terminated(Rendered(done), Separator)
  }

  lemma EmittedAppend(tableName: string, done: seq<Segment>, s: Segment)
    ensures Emitted(tableName, done + [s]) == Emitted(tableName, done) + (Render(s) + Separator)
  {
    TerminatedRenderedAppend(done, s);
  }

  /** Trimming the trailing separator characters from the header followed
      by every segment and its separator leaves the header and the segments
      joined by the separator: exactly the last separator goes. */
  lemma TrimmedIsJoined(name: string, segs: seq<Segment>)
    ensures TrimEnd(Emitted(name, segs), SeparatorChars) == Header(name) + Join(Separator, Rendered(segs))
  {
    if |segs| > 0 {
      RenderEnding(segs[|segs| - 1]);
    }
    TrimTerminated(Header(name), Rendered(segs), Separator, SeparatorChars);
  }

  lemma HeaderEnding(name: string)
    ensures var h := Header(name); |h| > 0 && h[|h| - 1] == '('
  {
  }

  lemma JoinedShape(name: string, segs: seq<Segment>)
    ensures var s := Header(name) + Join(Separator, Rendered(segs)) + ")";
      var h := Header(name);
      |s| > |h| && s[..|h|] == h && s[|s| - 1] == ')' && s[|s| - 2] in {'(', ' ', ')'}
  {
    var parts := Rendered(segs);
    var h := Header(name);
    var j := Join(Separator, parts);
    var body := h + j;
    var s := body + ")";
    PrefixOfAppend(h, j + ")");
    assert s == h + (j + ")");
    assert s[|s| - 2] == body[|body| - 1];
    if |segs| > 0 {
      var n := |segs| - 1;
      RenderEnding(segs[n]);
      assert parts[n] == Render(segs[n]);
      JoinedLastChar(h, Separator, parts);
    } else {
      assert body == h;
      HeaderEnding(name);
    }
  }

  lemma MappedIffKnown(c: Column)
    ensures IsMapped(c) <==> !c.dataType.Other?
  {
  }

  /** Statement frame: it succeeds exactly when no column type is unmapped;
      then it is the header, the segments and ")", with no separator
      character before the closing parenthesis. */
  lemma StatementShape(t: Table)
    ensures Statement(t).Ok? <==> forall j :: 0 <= j < |t.columns| ==> !t.columns[j].dataType.Other?
    ensures Statement(t).Ok? ==>
      var s := Statement(t).value;
      var h := Header(t.name);
      |s| > |h| && s[..|h|] == h && s[|s| - 1] == ')' && s[|s| - 2] in {'(', ' ', ')'}
  {
    var k := FirstUnmapped(t.columns);
    if k < |t.columns| {
      MappedIffKnown(t.columns[k]);
    } else {
      forall j | 0 <= j < |t.columns| ensures !t.columns[j].dataType.Other? {
        MappedIffKnown(t.columns[j]);
      }
      JoinedShape(t.name, Segments(t).value);
    }
  }

  /** An unmapped type is an error, never a default type: the error names
      the type of the first column whose type has no mapping. */
  lemma UnmappedTypeError(t: Table)
    ensures Statement(t).Err? ==>
      exists k :: 0 <= k < |t.columns| && t.columns[k].dataType.Other?
        && Statement(t).error == UnmappedType(t.columns[k].dataType)
        && forall j :: 0 <= j < k ==> !t.columns[j].dataType.Other?
  {
    if Statement(t).Err? {
      var k := FirstUnmapped(t.columns);
      assert k < |t.columns| && t.columns[k].dataType.Other?;
    }
  }

  /** A table without columns and without a composite key gives the header
      and ")". */
  lemma EmptyTable(t: Table)
    requires |t.columns| == 0 && |t.primaryKey| <= 1
    ensures Statement(t) == Ok(Header(t.name) + ")")
  {
    assert ColumnSegments(t.columns, t.primaryKey) == [];
    assert ForeignKeySegments(t.columns, t.parentRelations) == [];
    assert PrimaryKeySegments(t.primaryKey) == [];
    var none: seq<Segment> := [];
    assert FirstUnmapped(t.columns) == 0;
    assert Segments(t).Ok?;
    assert Segments(t).value == none;
    assert Join(Separator, Rendered(none)) == "";
    assert Header(t.name) + "" == Header(t.name);
  }

  lemma {:induction false} ForeignKeySegmentsAreForeignKeys(cols: seq<Column>, rels: seq<Relation>)
    ensures forall j :: 0 <= j < |ForeignKeySegments(cols, rels)| ==> ForeignKeySegments(cols, rels)[j].ForeignKey?
  {
    if |cols| > 0 {
      ForeignKeySegmentsAreForeignKeys(cols[..|cols| - 1], rels);
    }
  }

  /** Column definitions come first, one per column in declared order, then
      every foreign-key clause, then the composite primary key. */
  lemma ClauseOrder(t: Table, segs: seq<Segment>)
    requires Segments(t) == Ok(segs)
    ensures |segs| >= |t.columns|
    ensures forall i :: 0 <= i < |t.columns| ==> segs[i].ColumnDefinition? && segs[i].name == t.columns[i].name
    ensures forall i :: |t.columns| <= i < |segs| ==> !segs[i].ColumnDefinition?
    ensures forall i, j :: 0 <= i < j < |segs| ==> Rank(segs[i]) <= Rank(segs[j])
  {
    var c := ColumnSegments(t.columns, t.primaryKey);
    var f := ForeignKeySegments(t.columns, t.parentRelations);
    var p := PrimaryKeySegments(t.primaryKey);
    assert segs == c + f + p;
    ForeignKeySegmentsAreForeignKeys(t.columns, t.parentRelations);
    assert forall i :: 0 <= i < |segs| ==>
      Rank(segs[i]) == (if i < |c| then 0 else if i < |c| + |f| then 1 else 2) by {
      forall i | 0 <= i < |segs|
        ensures Rank(segs[i]) == (if i < |c| then 0 else if i < |c| + |f| then 1 else 2)
      {
        if i < |c| {
          assert segs[i] == c[i];
        } else if i < |c| + |f| {
          assert segs[i] == f[i - |c|];
        } else {
          assert segs[i] == p[i - |c| - |f|];
        }
      }
    }
  }

  /** The inline PRIMARY KEY is written for a column exactly when the key
      has one column and it is that column; AUTOINCREMENT exactly when that
      holds and the column auto-increments; UNIQUE and NOT NULL follow the
      column's flags. */
  lemma InlinePrimaryKey(t: Table, segs: seq<Segment>)
    requires Segments(t) == Ok(segs)
    ensures |segs| >= |t.columns|
    ensures forall i :: 0 <= i < |t.columns| ==>
      var c, s := t.columns[i], segs[i];
      s.ColumnDefinition?
      && Some(s.sqlType) == SqlType(c)
      && (s.inlinePrimaryKey <==> |t.primaryKey| == 1 && c.name in t.primaryKey)
      && (s.autoIncrement <==> s.inlinePrimaryKey && c.autoIncrement)
      && (s.unique <==> c.unique)
      && (s.notNull <==> !c.allowDbNull)
  {
    var c := ColumnSegments(t.columns, t.primaryKey);
    assert forall i :: 0 <= i < |c| ==> segs[i] == c[i];
  }

  /** The two primary-key forms: the composite clause exists exactly when
      the key has more than one column, it is the last segment and lists the
      key in key order, and it never occurs together with an inline key. */
  lemma PrimaryKeyForms(t: Table, segs: seq<Segment>)
    requires Segments(t) == Ok(segs)
    ensures (exists k :: 0 <= k < |segs| && segs[k].CompositePrimaryKey?) <==> |t.primaryKey| > 1
    ensures forall k :: 0 <= k < |segs| && segs[k].CompositePrimaryKey? ==>
      k == |segs| - 1 && segs[k].columns == t.primaryKey
    ensures (exists i :: 0 <= i < |segs| && segs[i].ColumnDefinition? && segs[i].inlinePrimaryKey)
        ==> |t.primaryKey| == 1
    ensures !((exists i :: 0 <= i < |segs| && segs[i].ColumnDefinition? && segs[i].inlinePrimaryKey)
              && (exists k :: 0 <= k < |segs| && segs[k].CompositePrimaryKey?))
  {
    var c := ColumnSegments(t.columns, t.primaryKey);
    var f := ForeignKeySegments(t.columns, t.parentRelations);
    var p := PrimaryKeySegments(t.primaryKey);
    assert segs == c + f + p;
    ForeignKeySegmentsAreForeignKeys(t.columns, t.parentRelations);
    forall k | 0 <= k < |segs|
      ensures segs[k].CompositePrimaryKey? <==> |c| + |f| <= k
      ensures segs[k].ColumnDefinition? && segs[k].inlinePrimaryKey ==> |t.primaryKey| == 1
    {
      if k < |c| {
        assert segs[k] == c[k];
      } else if k < |c| + |f| {
        assert segs[k] == f[k - |c|];
      } else {
        assert segs[k] == p[k - |c| - |f|];
      }
    }
    if |t.primaryKey| > 1 {
      assert segs[|segs| - 1].CompositePrimaryKey?;
    }
  }

  /** The text of a column definition, in the order the generator writes
      it: name, type, then PRIMARY KEY with AUTOINCREMENT nested inside it,
      then UNIQUE, then NOT NULL. */
  lemma ColumnDefinitionText(t: Table, segs: seq<Segment>, i: nat)
    requires Segments(t) == Ok(segs) && i < |t.columns|
    ensures i < |segs| && IsMapped(t.columns[i])
    ensures var c := t.columns[i];
      Render(segs[i]) ==
        (" [" + c.name + "] ") + (" " + SqlType(c).value + " ")
        + (if |t.primaryKey| == 1 && c.name in t.primaryKey
           then " PRIMARY KEY " + (if c.autoIncrement then " AUTOINCREMENT " else "")
           else "")
        + (if c.unique then " UNIQUE " else "")
        + (if !c.allowDbNull then " NOT NULL " else "")
  {
    InlinePrimaryKey(t, segs);
    var c := t.columns[i];
    var head := (" [" + c.name + "] ") + (" " + SqlType(c).value + " ");
    var u := if c.unique then " UNIQUE " else "";
    var nn := if !c.allowDbNull then " NOT NULL " else "";
    if |t.primaryKey| == 1 && c.name in t.primaryKey {
      var a := if c.autoIncrement then " AUTOINCREMENT " else "";
      assert head + " PRIMARY KEY " + a + u + nn == head + (" PRIMARY KEY " + a) + u + nn;
    } else {
      assert head + "" + "" + u + nn == head + "" + u + nn;
    }
  }

  /** The relations of a column are found in relation order, and only and
      all those whose child columns contain it. */
  lemma {:induction false} RelationIndicesSpec(column: string, rels: seq<Relation>)
    ensures |RelationsOf(column, rels)| == |RelationIndices(column, rels)|
    ensures forall j :: 0 <= j < |RelationIndices(column, rels)| ==>
      var k := RelationIndices(column, rels)[j];
      k < |rels| && column in rels[k].childColumns && RelationsOf(column, rels)[j] == rels[k]
    ensures forall a, b :: 0 <= a < b < |RelationIndices(column, rels)| ==>
      RelationIndices(column, rels)[a] < RelationIndices(column, rels)[b]
    ensures forall k :: 0 <= k < |rels| && column in rels[k].childColumns ==> k in RelationIndices(column, rels)
  {
    if |rels| > 0 {
      var n := |rels| - 1;
      var init := rels[..n];
      RelationIndicesSpec(column, init);
      var ix, ix0 := RelationIndices(column, rels), RelationIndices(column, init);
      var rs, rs0 := RelationsOf(column, rels), RelationsOf(column, init);
      var hit := column in rels[n].childColumns;
      assert ix == ix0 + (if hit then [n] else []);
      assert rs == rs0 + (if hit then [rels[n]] else []);
      forall j | 0 <= j < |ix|
        ensures ix[j] < |rels| && column in rels[ix[j]].childColumns && rs[j] == rels[ix[j]]
        ensures j < |ix0| <==> ix[j] < n
      {
        if j < |ix0| {
          assert ix[j] == ix0[j] && rs[j] == rs0[j] && init[ix0[j]] == rels[ix0[j]];
        }
      }
      forall k | 0 <= k < |rels| && column in rels[k].childColumns
        ensures k in ix
      {
        if k < n {
          assert init[k] == rels[k];
          assert k in ix0;
        } else {
          assert ix[|ix0|] == k;
        }
      }
    }
  }


  /** A column that no relation lists as a child column gets no clause. */
  lemma ColumnWithoutRelation(column: string, rels: seq<Relation>)
    ensures ColumnForeignKeys(column, rels) == [] <==>
      forall k :: 0 <= k < |rels| ==> column !in rels[k].childColumns
  {
    RelationIndicesSpec(column, rels);
    if ColumnForeignKeys(column, rels) == [] {
      assert RelationIndices(column, rels) == [];
    } else {
      var k := RelationIndices(column, rels)[0];
      assert column in rels[k].childColumns;
    }
  }

  lemma {:induction false} ForeignKeyPairsValid(cols: seq<Column>, rels: seq<Relation>)
    ensures forall j :: 0 <= j < |ForeignKeyPairs(cols, rels)| ==>
      var (i, k) := ForeignKeyPairs(cols, rels)[j];
      i < |cols| && k < |rels| && cols[i].name in rels[k].childColumns
  {
    if |cols| > 0 {
      var n := |cols| - 1;
      var init := cols[..n];
      ForeignKeyPairsValid(init, rels);
      RelationIndicesSpec(cols[n].name, rels);
      var p0 := ForeignKeyPairs(init, rels);
      var ix := RelationIndices(cols[n].name, rels);
      var q := seq(|ix|, j requires 0 <= j < |ix| => (n, ix[j]));
      var p := ForeignKeyPairs(cols, rels);
      assert p == p0 + q;
      forall j | 0 <= j < |p|
        ensures p[j].0 < |cols| && p[j].1 < |rels| && cols[p[j].0].name in rels[p[j].1].childColumns
      {
        if j < |p0| {
          assert p[j] == p0[j] && init[p[j].0] == cols[p[j].0];
        } else {
          assert p[j] == q[j - |p0|];
        }
      }
    }
  }

  lemma {:induction false} ForeignKeyPairsOrdered(cols: seq<Column>, rels: seq<Relation>)
    ensures forall a, b :: 0 <= a < b < |ForeignKeyPairs(cols, rels)| ==>
      var (i1, k1) := ForeignKeyPairs(cols, rels)[a];
      var (i2, k2) := ForeignKeyPairs(cols, rels)[b];
      i1 < i2 || (i1 == i2 && k1 < k2)
  {
    if |cols| > 0 {
      var n := |cols| - 1;
      var init := cols[..n];
      ForeignKeyPairsOrdered(init, rels);
      ForeignKeyPairsValid(init, rels);
      RelationIndicesSpec(cols[n].name, rels);
      var p0 := ForeignKeyPairs(init, rels);
      var ix := RelationIndices(cols[n].name, rels);
      var q := seq(|ix|, j requires 0 <= j < |ix| => (n, ix[j]));
      var p := ForeignKeyPairs(cols, rels);
      assert p == p0 + q;
      forall a, b | 0 <= a < b < |p|
        ensures p[a].0 < p[b].0 || (p[a].0 == p[b].0 && p[a].1 < p[b].1)
      {
        if b < |p0| {
          assert p[a] == p0[a] && p[b] == p0[b];
        } else if a < |p0| {
          assert p[a] == p0[a] && p[a].0 < n;
          assert p[b] == q[b - |p0|];
        } else {
          assert p[a] == q[a - |p0|] && p[b] == q[b - |p0|];
        }
      }
    }
  }

  lemma {:induction false} ForeignKeyPairsComplete(cols: seq<Column>, rels: seq<Relation>)
    ensures forall i, k :: 0 <= i < |cols| && 0 <= k < |rels| && cols[i].name in rels[k].childColumns ==>
      (i, k) in ForeignKeyPairs(cols, rels)
  {
    if |cols| > 0 {
      var n := |cols| - 1;
      var init := cols[..n];
      ForeignKeyPairsComplete(init, rels);
      RelationIndicesSpec(cols[n].name, rels);
      var p0 := ForeignKeyPairs(init, rels);
      var ix := RelationIndices(cols[n].name, rels);
      var q := seq(|ix|, j requires 0 <= j < |ix| => (n, ix[j]));
      var p := ForeignKeyPairs(cols, rels);
      assert p == p0 + q;
      forall i, k | 0 <= i < |cols| && 0 <= k < |rels| && cols[i].name in rels[k].childColumns
        ensures (i, k) in p
      {
        if i < n {
          assert init[i].name in rels[k].childColumns;
          assert (i, k) in p0;
        } else {
          var j :| 0 <= j < |ix| && ix[j] == k;
          assert q[j] == (i, k);
        }
      }
    }
  }

  lemma {:induction false} ForeignKeySegmentsFollowPairs(cols: seq<Column>, rels: seq<Relation>)
    ensures |ForeignKeySegments(cols, rels)| == |ForeignKeyPairs(cols, rels)|
    ensures forall j :: 0 <= j < |ForeignKeyPairs(cols, rels)| ==>
      var (i, k) := ForeignKeyPairs(cols, rels)[j];
      i < |cols| && k < |rels|
      && ForeignKeySegments(cols, rels)[j] == ForeignKeyOf(cols[i].name, rels[k])
  {
    if |cols| > 0 {
      var n := |cols| - 1;
      var init := cols[..n];
      ForeignKeySegmentsFollowPairs(init, rels);
      RelationIndicesSpec(cols[n].name, rels);
      var p0 := ForeignKeyPairs(init, rels);
      var ix := RelationIndices(cols[n].name, rels);
      var q := seq(|ix|, j requires 0 <= j < |ix| => (n, ix[j]));
      var p := ForeignKeyPairs(cols, rels);
      assert p == p0 + q;
      var f0 := ForeignKeySegments(init, rels);
      var cf := ColumnForeignKeys(cols[n].name, rels);
      var f := ForeignKeySegments(cols, rels);
      assert f == f0 + cf;
      forall j | 0 <= j < |p|
        ensures p[j].0 < |cols| && p[j].1 < |rels| && f[j] == ForeignKeyOf(cols[p[j].0].name, rels[p[j].1])
      {
        if j < |p0| {
          assert p[j] == p0[j] && f[j] == f0[j] && init[p[j].0] == cols[p[j].0];
        } else {
          assert p[j] == q[j - |p0|] && f[j] == cf[j - |p0|];
        }
      }
    }
  }

  /** The foreign-key clauses are exactly one per pair (column, relation
      whose child columns contain that column), ordered by column and then
      by relation, each naming that single column and all of the relation's
      parent columns. */
  lemma ForeignKeyClauses(cols: seq<Column>, rels: seq<Relation>)
    ensures forall j :: 0 <= j < |ForeignKeyPairs(cols, rels)| ==>
      var (i, k) := ForeignKeyPairs(cols, rels)[j];
      i < |cols| && k < |rels| && cols[i].name in rels[k].childColumns
    ensures forall i, k :: 0 <= i < |cols| && 0 <= k < |rels| && cols[i].name in rels[k].childColumns ==>
      (i, k) in ForeignKeyPairs(cols, rels)
    ensures forall a, b :: 0 <= a < b < |ForeignKeyPairs(cols, rels)| ==>
      var (i1, k1) := ForeignKeyPairs(cols, rels)[a];
      var (i2, k2) := ForeignKeyPairs(cols, rels)[b];
      i1 < i2 || (i1 == i2 && k1 < k2)
    ensures |ForeignKeySegments(cols, rels)| == |ForeignKeyPairs(cols, rels)|
    ensures forall j :: 0 <= j < |ForeignKeyPairs(cols, rels)| ==>
      var (i, k) := ForeignKeyPairs(cols, rels)[j];
      ForeignKeySegments(cols, rels)[j] == ForeignKeyOf(cols[i].name, rels[k])
  {
    ForeignKeyPairsValid(cols, rels);
    ForeignKeyPairsOrdered(cols, rels);
    ForeignKeyPairsComplete(cols, rels);
    ForeignKeySegmentsFollowPairs(cols, rels);
  }

  /** In the statement's segment list, the clauses after the column
      definitions are those foreign-key clauses, then the composite key. */
  lemma StatementForeignKeys(t: Table, segs: seq<Segment>)
    requires Segments(t) == Ok(segs)
    ensures var pairs := ForeignKeyPairs(t.columns, t.parentRelations);
      |segs| == |t.columns| + |pairs| + (if |t.primaryKey| > 1 then 1 else 0)
      && forall j :: 0 <= j < |pairs| ==>
           var (i, k) := pairs[j];
           i < |t.columns| && k < |t.parentRelations|
           && segs[|t.columns| + j] == ForeignKeyOf(t.columns[i].name, t.parentRelations[k])
  {
    ForeignKeyClauses(t.columns, t.parentRelations);
    var c := ColumnSegments(t.columns, t.primaryKey);
    var f := ForeignKeySegments(t.columns, t.parentRelations);
    assert segs == c + f + PrimaryKeySegments(t.primaryKey);
    assert forall j :: 0 <= j < |f| ==> segs[|c| + j] == f[j];
  }

}
