/**
  The PostgreSQL schema-evolution statement builders. Each builder returns
  the ordered list of SQL statements that carries out one change, from the
  table and column names, the field or the join table it is given; nothing
  is executed.

  The database connection is an explicit parameter: its quoting, the
  deferrable, tablespace and auto-increment clauses are uninterpreted
  functions and texts, and its capability flags are a record.
 */
module Postgresql {
  import opened Wrappers
  import opened Text
  import Sql
  import TableSql

  /** The capability flags the builders consult. */
  datatype Features = Features(
    supportsTablespaces: bool,
    autoindexesPrimaryKeys: bool,
    allowsUniqueAndPk: bool)

  /** The backend operations the builders call, as uninterpreted functions and texts. */
  datatype Ops = Ops(
    quoteName: string -> string,
    deferrableSql: string,
    tablespaceSql: (string, bool) -> string,   // tablespace name, inline
    autoincSql: (string, string) -> Option<seq<string>>)   // table, column

  datatype Connection = Connection(ops: Ops, features: Features)

  /** The table and primary-key name of the model a foreign key points to. */
  datatype Relation = Relation(relatedTable: string, relatedPkName: string)

  /**
    What the builders read of a model field. `nullable` is the field's `null`
    flag; an unset tablespace is the empty string.
   */
  datatype Field = Field(
    column: string,
    nullable: bool,
    unique: bool,
    primaryKey: bool,
    dbTablespace: string,
    dbType: string,
    rel: Option<Relation>)

  /** The parameters of a many-to-many join table. */
  datatype JoinTable = JoinTable(
    modelTablespace: string,
    fieldTablespace: string,
    m2mDbTable: string,
    autoFieldDbType: string,
    m2mColumnName: string,
    m2mReverseName: string,
    fkDbType: string,
    modelTable: string,
    modelPkColumn: string,
    relFkDbType: string,
    relDbTable: string,
    relPkColumn: string)

  /** The first of two optional texts that is set, as Python's `a or b` on strings. */
  function FirstSet(a: string, b: string): (r: string)
    ensures r != "" <==> a != "" || b != ""
    ensures r == a || r == b
    ensures a != "" ==> r == a
  {
    if a != "" then a else b
  }

  // Renaming and dropping.

  function RenameColumn(conn: Connection, table: string, oldName: string, newName: string): (r: seq<string>)
    ensures var qn := conn.ops.quoteName;
      r == [Sql.Render(Sql.AlterRenameColumn(qn(table), qn(oldName), qn(newName)))]
  {
    var qn := conn.ops.quoteName;
    ["ALTER TABLE " + qn(table) + " RENAME COLUMN " + qn(oldName) + " TO " + qn(newName) + ";"]
  }

  function RenameTable(conn: Connection, oldName: string, newName: string): (r: seq<string>)
    ensures var qn := conn.ops.quoteName;
      r == [Sql.Render(Sql.AlterRenameTable(qn(oldName), qn(newName)))]
  {
    var qn := conn.ops.quoteName;
    ["ALTER TABLE " + qn(oldName) + " RENAME TO " + qn(newName) + ";"]
  }

  function DeleteColumn(conn: Connection, table: string, f: Field): (r: seq<string>)
    ensures var qn := conn.ops.quoteName;
      r == [Sql.Render(Sql.AlterDropColumn(qn(table), qn(f.column)))]
  {
    var qn := conn.ops.quoteName;
    ["ALTER TABLE " + qn(table) + " DROP COLUMN " + qn(f.column) + " CASCADE;"]
  }

  function DeleteTable(conn: Connection, table: string): (r: seq<string>)
    ensures r == [Sql.Render(Sql.DropTable(conn.ops.quoteName(table)))]
  {
    ["DROP TABLE " + conn.ops.quoteName(table) + ";"]
  }

  /** `rename_column` is one statement renaming quoted `oldName` to quoted `newName` in the quoted table. */
  lemma RenameColumnReadsBack(conn: Connection, table: string, oldName: string, newName: string)
    requires var qn := conn.ops.quoteName;
      Sql.IsName(qn(table)) && Sql.IsName(qn(oldName)) && Sql.IsName(qn(newName))
    ensures var r := RenameColumn(conn, table, oldName, newName);
      var qn := conn.ops.quoteName;
      |r| == 1 && Sql.Parse(r[0]) == Some(Sql.AlterRenameColumn(qn(table), qn(oldName), qn(newName)))
  {
    var qn := conn.ops.quoteName;
    Sql.ParseRender(Sql.AlterRenameColumn(qn(table), qn(oldName), qn(newName)));
  }

  /** `rename_table` is one statement renaming the quoted old table to the quoted new one. */
  lemma RenameTableReadsBack(conn: Connection, oldName: string, newName: string)
    requires Sql.IsName(conn.ops.quoteName(oldName)) && Sql.IsName(conn.ops.quoteName(newName))
    ensures var r := RenameTable(conn, oldName, newName);
      var qn := conn.ops.quoteName;
      |r| == 1 && Sql.Parse(r[0]) == Some(Sql.AlterRenameTable(qn(oldName), qn(newName)))
  {
    var qn := conn.ops.quoteName;
    Sql.ParseRender(Sql.AlterRenameTable(qn(oldName), qn(newName)));
  }

  /** `delete_column` is one cascading drop of the field's quoted column. */
  lemma DeleteColumnReadsBack(conn: Connection, table: string, f: Field)
    requires Sql.IsName(conn.ops.quoteName(table)) && Sql.IsName(conn.ops.quoteName(f.column))
    ensures var r := DeleteColumn(conn, table, f);
      var qn := conn.ops.quoteName;
      |r| == 1 && Sql.Parse(r[0]) == Some(Sql.AlterDropColumn(qn(table), qn(f.column)))
      && EndsWith(r[0], " CASCADE;")
  {
    var qn := conn.ops.quoteName;
    var s := DeleteColumn(conn, table, f)[0];
    Sql.ParseRender(Sql.AlterDropColumn(qn(table), qn(f.column)));
    assert s[|s| - 9..] == " CASCADE;";
  }

  /** `delete_table` is one statement dropping the quoted table. */
  lemma DeleteTableReadsBack(conn: Connection, table: string)
    requires Sql.IsName(conn.ops.quoteName(table))
    ensures var r := DeleteTable(conn, table);
      |r| == 1 && Sql.Parse(r[0]) == Some(Sql.DropTable(conn.ops.quoteName(table)))
  {
    Sql.ParseRender(Sql.DropTable(conn.ops.quoteName(table)));
  }

  // Adding a column.

  /** `NOT NULL` for a field that may not be null, `NULL` otherwise. */
  function NullConstraint(f: Field): string
  {
    (if !f.nullable then "NOT " else "") + "NULL"
  }

  /** A unique field is declared `UNIQUE` unless it is a primary key on a backend that forbids both. */
  predicate UniqueConstraint(features: Features, f: Field)
  {
    f.unique && (!f.primaryKey || features.allowsUniqueAndPk)
  }

  function Constraints(features: Features, f: Field): seq<string>
  {
    [NullConstraint(f)] + (if UniqueConstraint(features, f) then ["UNIQUE"] else [])
  }

  /** The constraint list joined by spaces is the nullability text, then ` UNIQUE` when present. */
  lemma ConstraintsText(features: Features, f: Field)
    ensures Join(Constraints(features, f), ' ')
         == Sql.NullText(!f.nullable) + Sql.UniqueText(UniqueConstraint(features, f))
  {
    var nc := NullConstraint(f);
    assert nc == Sql.NullText(!f.nullable);
    if UniqueConstraint(features, f) {
      Sql.Join2(nc, "UNIQUE");
    }
  }

  /** The statement `add_column` emits, as syntax. */
  function AddColumnStatement(conn: Connection, table: string, f: Field): Sql.Statement
  {
    var qn := conn.ops.quoteName;
    var refs := match f.rel
      case None => None
      case Some(rel) => Some(Sql.Reference(qn(rel.relatedTable), qn(rel.relatedPkName), conn.ops.deferrableSql));
    Sql.AlterAddColumn(qn(table), qn(f.column), f.dbType, !f.nullable, UniqueConstraint(conn.features, f), refs)
  }

  function AddColumn(conn: Connection, table: string, f: Field): (r: seq<string>)
    ensures r == [Sql.Render(AddColumnStatement(conn, table, f))]
  {
    var qn := conn.ops.quoteName;
    var constraints := Constraints(conn.features, f);
    ConstraintsText(conn.features, f);
    match f.rel
    case Some(rel) =>
      ReferencesGlue("ALTER TABLE " + qn(table) + " ADD COLUMN " + qn(f.column) + " " + f.dbType + " ",
        Sql.NullText(!f.nullable), Sql.UniqueText(UniqueConstraint(conn.features, f)),
        qn(rel.relatedTable), qn(rel.relatedPkName), conn.ops.deferrableSql);
      ["ALTER TABLE " + qn(table) + " ADD COLUMN " + qn(f.column) + " " + f.dbType + " " + Join(constraints, ' ')
       + " REFERENCES " + qn(rel.relatedTable) + " (" + qn(rel.relatedPkName) + ") " + conn.ops.deferrableSql + ";"]
    case None =>
      NoReferencesGlue("ALTER TABLE " + qn(table) + " ADD COLUMN " + qn(f.column) + " " + f.dbType + " ",
        Sql.NullText(!f.nullable), Sql.UniqueText(UniqueConstraint(conn.features, f)));
      ["ALTER TABLE " + qn(table) + " ADD COLUMN " + qn(f.column) + " " + f.dbType + " " + Join(constraints, ' ') + ";"]
  }

  lemma ReferencesGlue(prefix: string, n: string, u: string, t: string, pk: string, d: string)
    ensures prefix + (n + u) + " REFERENCES " + t + " (" + pk + ") " + d + ";"
         == prefix + n + u + (" " + ("REFERENCES " + t + " (" + pk + ") " + d)) + ";"
  {
  }

  lemma NoReferencesGlue(prefix: string, n: string, u: string)
    ensures prefix + (n + u) + ";" == prefix + n + u + "" + ";"
  {
  }

  /** The quoted names in `add_column`'s statement, and the column type, are single words. */
  predicate AddColumnNames(conn: Connection, table: string, f: Field)
  {
    var qn := conn.ops.quoteName;
    Sql.IsName(qn(table)) && Sql.IsName(qn(f.column)) && Sql.IsName(f.dbType)
    && (f.rel.Some? ==> Sql.IsName(qn(f.rel.value.relatedTable)) && Sql.IsName(qn(f.rel.value.relatedPkName)))
  }

  /**
    `add_column` is one statement adding the quoted column with the field's
    type; it is `NOT NULL` exactly when the field may not be null, `UNIQUE`
    exactly when the unique constraint applies, and references the related
    table's primary key, with the deferrable clause, exactly when the field
    has a relation.
   */
  lemma AddColumnReadsBack(conn: Connection, table: string, f: Field)
    requires AddColumnNames(conn, table, f)
    ensures var r := AddColumn(conn, table, f);
      var qn := conn.ops.quoteName;
      var st := Sql.Parse(r[0]);
      |r| == 1 && st.Some? && st.value.AlterAddColumn?
      && st.value.table == qn(table) && st.value.column == qn(f.column) && st.value.columnType == f.dbType
      && (st.value.notNull <==> !f.nullable)
      && (st.value.unique <==> f.unique && (!f.primaryKey || conn.features.allowsUniqueAndPk))
      && (st.value.references.Some? <==> f.rel.Some?)
      && (f.rel.Some? ==>
            st.value.references.value
            == Sql.Reference(qn(f.rel.value.relatedTable), qn(f.rel.value.relatedPkName), conn.ops.deferrableSql))
  {
    Sql.ParseRender(AddColumnStatement(conn, table, f));
  }

  // Creating an index.

  /** The backend already indexes primary-key and unique columns, so no index is created. */
  predicate IndexedAutomatically(features: Features, f: Field)
  {
    (f.primaryKey || f.unique) && features.autoindexesPrimaryKeys
  }

  /** The ` TABLESPACE ...` clause of an index: the field's tablespace, else the model's, when supported. */
  function IndexTablespace(conn: Connection, modelTablespace: string, f: Field): (r: string)
    ensures r != "" <==> (f.dbTablespace != "" || modelTablespace != "") && conn.features.supportsTablespaces
    ensures r != "" ==> r == " " + conn.ops.tablespaceSql(FirstSet(f.dbTablespace, modelTablespace), false)
  {
    var tablespace := FirstSet(f.dbTablespace, modelTablespace);
    if tablespace != "" && conn.features.supportsTablespaces then
      " " + conn.ops.tablespaceSql(tablespace, false)
    else
      ""
  }

  /** The index `create_index` emits when one is needed, as syntax. */
  function IndexStatement(conn: Connection, table: string, modelTablespace: string, f: Field): Sql.Statement
  {
    var qn := conn.ops.quoteName;
    Sql.CreateIndex(f.unique, qn(table + "_" + f.column), qn(table), qn(f.column), IndexTablespace(conn, modelTablespace, f))
  }

  method CreateIndex(conn: Connection, table: string, modelTablespace: string, f: Field) returns (output: seq<string>)
    ensures IndexedAutomatically(conn.features, f) ==> output == []
    ensures !IndexedAutomatically(conn.features, f)
        ==> output == [Sql.Render(IndexStatement(conn, table, modelTablespace, f))]
  {
    output := [];
    var qn := conn.ops.quoteName;
    if !((f.primaryKey || f.unique) && conn.features.autoindexesPrimaryKeys) {
      var unique := if f.unique then "UNIQUE " else "";
      var tablespace := FirstSet(f.dbTablespace, modelTablespace);
      var tablespaceSql;
      if tablespace != "" && conn.features.supportsTablespaces {
        tablespaceSql := " " + conn.ops.tablespaceSql(tablespace, false);
      } else {
        tablespaceSql := "";
      }
      output := output + [
        "CREATE " + unique + "INDEX " + qn(table + "_" + f.column) + " ON " + qn(table)
        + " (" + qn(f.column) + ")" + tablespaceSql + ";"];
    }
  }

  /**
    When an index is created, its statement reads back as an index named by
    the quoted `table_column`, on the quoted table and column, `UNIQUE`
    exactly when the field is unique, with the tablespace clause.
   */
  lemma IndexReadsBack(conn: Connection, table: string, modelTablespace: string, f: Field)
    requires var qn := conn.ops.quoteName;
      Sql.IsName(qn(table + "_" + f.column)) && Sql.IsName(qn(table)) && Sql.IsName(qn(f.column))
    ensures var st := Sql.Parse(Sql.Render(IndexStatement(conn, table, modelTablespace, f)));
      var qn := conn.ops.quoteName;
      st.Some? && st.value.CreateIndex?
      && (st.value.unique <==> f.unique)
      && st.value.name == qn(table + "_" + f.column)
      && st.value.table == qn(table) && st.value.column == qn(f.column)
      && st.value.tablespace == IndexTablespace(conn, modelTablespace, f)
  {
    Sql.ParseRender(IndexStatement(conn, table, modelTablespace, f));
  }

  // Creating a many-to-many join table.

  /**
    The inline tablespace clause of the join table's `id` column and unique
    constraint: set exactly when the field's or the model's tablespace is set
    and the backend both supports tablespaces and indexes primary keys itself.
   */
  function InlineTablespace(conn: Connection, jt: JoinTable): (r: string)
    ensures r != "" <==> (jt.fieldTablespace != "" || jt.modelTablespace != "")
                         && conn.features.supportsTablespaces && conn.features.autoindexesPrimaryKeys
    ensures r != "" ==> r == " " + conn.ops.tablespaceSql(FirstSet(jt.fieldTablespace, jt.modelTablespace), true)
  {
    var tablespace := FirstSet(jt.fieldTablespace, jt.modelTablespace);
    if tablespace != "" && conn.features.supportsTablespaces && conn.features.autoindexesPrimaryKeys then
      " " + conn.ops.tablespaceSql(tablespace, true)
    else
      ""
  }

  /**
    The join table's `CREATE TABLE` statement: the quoted table, the quoted
    `id` primary key with the inline tablespace, a non-null reference to each
    of the two models with the deferrable clause, and the model's tablespace
    line when tablespaces are supported.
   */
  function JoinTableStatement(conn: Connection, jt: JoinTable): TableSql.CreateTable
  {
    var qn := conn.ops.quoteName;
    TableSql.CreateTable(
      qn(jt.m2mDbTable), qn("id"), jt.autoFieldDbType, InlineTablespace(conn, jt),
      TableSql.ForeignKey(qn(jt.m2mColumnName), jt.fkDbType, qn(jt.modelTable), qn(jt.modelPkColumn), conn.ops.deferrableSql),
      TableSql.ForeignKey(qn(jt.m2mReverseName), jt.relFkDbType, qn(jt.relDbTable), qn(jt.relPkColumn), conn.ops.deferrableSql),
      if jt.modelTablespace != "" && conn.features.supportsTablespaces
      then Some(conn.ops.tablespaceSql(jt.modelTablespace, false)) else None)
  }

  /** The auto-increment statements for the join table's `id`; none when the backend gives none. */
  function AutoincStatements(conn: Connection, table: string): seq<string>
  {
    match conn.ops.autoincSql(table, "id")
    case None => []
    case Some(stmts) => stmts
  }

  method AddTable(conn: Connection, jt: JoinTable) returns (finalOutput: seq<string>)
    ensures |finalOutput| == 1 + |AutoincStatements(conn, jt.m2mDbTable)|
    ensures finalOutput[0] == TableSql.Render(JoinTableStatement(conn, jt))
    ensures finalOutput[1..] == AutoincStatements(conn, jt.m2mDbTable)
  {
    finalOutput := [];
    var qn := conn.ops.quoteName;
    var tablespace := FirstSet(jt.fieldTablespace, jt.modelTablespace);
    var tablespaceSql;
    if tablespace != "" && conn.features.supportsTablespaces && conn.features.autoindexesPrimaryKeys {
      tablespaceSql := " " + conn.ops.tablespaceSql(tablespace, true);
    } else {
      tablespaceSql := "";
    }
    var tableOutput := ["CREATE TABLE " + qn(jt.m2mDbTable) + " ("];
    tableOutput := tableOutput + ["    " + qn("id") + " " + jt.autoFieldDbType + " NOT NULL PRIMARY KEY" + tablespaceSql + ","];
    tableOutput := tableOutput + [
      "    " + qn(jt.m2mColumnName) + " " + jt.fkDbType + " NOT NULL REFERENCES "
      + qn(jt.modelTable) + " (" + qn(jt.modelPkColumn) + ")" + conn.ops.deferrableSql + ","];
    tableOutput := tableOutput + [
      "    " + qn(jt.m2mReverseName) + " " + jt.relFkDbType + " NOT NULL REFERENCES "
      + qn(jt.relDbTable) + " (" + qn(jt.relPkColumn) + ")" + conn.ops.deferrableSql + ","];
    tableOutput := tableOutput + ["    UNIQUE (" + qn(jt.m2mColumnName) + ", " + qn(jt.m2mReverseName) + ")" + tablespaceSql];
    tableOutput := tableOutput + [")"];
    if jt.modelTablespace != "" && conn.features.supportsTablespaces {
      tableOutput := tableOutput + [conn.ops.tablespaceSql(jt.modelTablespace, false)];
    }
    tableOutput := tableOutput + [";"];
    assert tableOutput == TableSql.Lines(JoinTableStatement(conn, jt));
    finalOutput := finalOutput + [Join(tableOutput, '\n')];

    var autoincSql := conn.ops.autoincSql(jt.m2mDbTable, "id");
    if autoincSql.Some? && autoincSql.value != [] {
      var stmts := autoincSql.value;
      for i := 0 to |stmts|
        invariant finalOutput == [Join(tableOutput, '\n')] + stmts[..i]
      {
        finalOutput := finalOutput + [stmts[i]];
      }
    }
  }

  /**
    The join table statement reads back as the table `q(m2m table)` with the
    quoted `id` primary key, a reference from `q(column)` to the model's table
    and primary key and one from `q(reverse)` to the related model's, each
    with the deferrable clause. The inline tablespace is present iff a field
    or model tablespace is set and the backend supports tablespaces and
    auto-indexes primary keys. The tablespace line is present iff the model
    tablespace is set and tablespaces are supported.
   */
  lemma JoinTableReadsBack(conn: Connection, jt: JoinTable)
    requires var qn := conn.ops.quoteName;
      && TableSql.IsWord(qn(jt.m2mDbTable)) && TableSql.IsWord(qn("id")) && TableSql.IsWord(jt.autoFieldDbType)
      && TableSql.IsWord(qn(jt.m2mColumnName)) && TableSql.IsWord(jt.fkDbType)
      && TableSql.IsWord(qn(jt.modelTable)) && TableSql.IsWord(qn(jt.modelPkColumn))
      && TableSql.IsWord(qn(jt.m2mReverseName)) && TableSql.IsWord(jt.relFkDbType)
      && TableSql.IsWord(qn(jt.relDbTable)) && TableSql.IsWord(qn(jt.relPkColumn))
      && TableSql.IsClause(conn.ops.deferrableSql)
      && '\n' !in conn.ops.tablespaceSql(FirstSet(jt.fieldTablespace, jt.modelTablespace), true)
      && '\n' !in conn.ops.tablespaceSql(jt.modelTablespace, false)
    ensures TableSql.Parse(TableSql.Render(JoinTableStatement(conn, jt))).Some?
    ensures var ct := TableSql.Parse(TableSql.Render(JoinTableStatement(conn, jt))).value;
      var qn := conn.ops.quoteName;
      && ct.table == qn(jt.m2mDbTable) && ct.id == qn("id") && ct.idType == jt.autoFieldDbType
      && ct.source == TableSql.ForeignKey(qn(jt.m2mColumnName), jt.fkDbType, qn(jt.modelTable), qn(jt.modelPkColumn), conn.ops.deferrableSql)
      && ct.target == TableSql.ForeignKey(qn(jt.m2mReverseName), jt.relFkDbType, qn(jt.relDbTable), qn(jt.relPkColumn), conn.ops.deferrableSql)
      && (ct.inlineTablespace != "" <==> (jt.fieldTablespace != "" || jt.modelTablespace != "")
                                         && conn.features.supportsTablespaces && conn.features.autoindexesPrimaryKeys)
      && (ct.tablespace.Some? <==> jt.modelTablespace != "" && conn.features.supportsTablespaces)
      && (ct.tablespace.Some? ==> ct.tablespace.value == conn.ops.tablespaceSql(jt.modelTablespace, false))
  {
    TableSql.ParseRender(JoinTableStatement(conn, jt));
  }
}
