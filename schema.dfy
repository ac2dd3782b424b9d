/** The table description the generator reads: the parts of a DataTable,
    its DataColumns and its parent DataRelations that matter for the DDL. */
module Schema {

  /** The CLR type of a column. `Other` is any type the generator has no
      SQLite type for (Guid, Char, byte[], ...), named by its type name. */
  datatype ColumnType =
    | Int16 | Int32 | Int64 | Byte | Boolean
    | Decimal | Single | Double
    | String | DateTime
    | Other(typeName: string)

  /** A column. `maxLength` is -1 for an unbounded string. The flags are
      taken as given: nothing here derives one from another. */
  datatype Column = Column(
    name: string,
    dataType: ColumnType,
    maxLength: int,
    unique: bool,
    allowDbNull: bool,
    autoIncrement: bool)

  /** A relation in which the table is the child: the names of its child
      columns, the parent table's name and the parent columns in order. */
  datatype Relation = Relation(
    childColumns: set<string>,
    parentTable: string,
    parentColumns: seq<string>)

  /** A table: its name, its columns in declared order, the names of its
      primary-key columns in key order and its parent relations. */
  datatype Table = Table(
    name: string,
    columns: seq<Column>,
    primaryKey: seq<string>,
    parentRelations: seq<Relation>)

  /** The one way generating the statement fails: a column whose type has
      no entry in the type mapping (the dictionary lookup throws). */
  datatype DdlError = UnmappedType(dataType: ColumnType)
}
