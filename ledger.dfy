/**
 * The db_vcs_schema ledger behind the listener's JDBC connection, and the log of the statements
 * executed on that connection. The listener's ledger helpers (createBaseSchema,
 * getLastExecutedVersion, isVersionExecuted, getDbVcsSchema, insertInDbVcsSchema) are methods of
 * Database; SQL itself is not interpreted.
 */
module Ledger {
  import opened Wrappers
  import opened JavaText
  import Model

  const DbVcsSchema: string := "db_vcs_schema"

  /** The DDL that createBaseSchema executes when the ledger table is missing. */
  const CreateTableSql: string :=
    "CREATE TABLE " + DbVcsSchema + " ("
    + "version_no varchar(255) PRIMARY KEY,"
    + "executed_at varchar(100) NOT NULL,"
    + "file_hash varchar(100) NOT NULL,"
    + "sql_file varchar(100) NOT NULL"
    + ")"

  /**
   * Whether the database accepts a statement, given every statement executed on the connection
   * before it. SQL semantics are not modelled; this stands for them.
   */
  type SqlOracle = (seq<string>, string) -> bool

  /** The columns of a ledger row besides its primary key version_no. */
  datatype LedgerRow = LedgerRow(executedAt: string, fileHash: string, sqlFile: string)

  /**
   * What the listener can observe of the database: whether the ledger table exists, its rows by
   * version_no, and the statements executed on the connection (other than the ledger's own
   * queries and inserts), oldest first.
   */
  datatype DbState = DbState(tableExists: bool, rows: map<string, LedgerRow>, log: seq<string>)

  /** A ledger table that does not exist holds no rows. */
  ghost predicate ValidState(st: DbState)
  {
    st.tableExists || st.rows == map[]
  }

  /**
   * createBaseSchema on a database state: afterwards the table exists and holds the same rows;
   * the DDL is executed (logged) only when the table was missing, so a second call changes nothing.
   */
  function CreateTable(st: DbState): (r: DbState)
    ensures r.tableExists && r.rows == st.rows && st.log <= r.log
    ensures st.tableExists ==> r == st
    ensures !st.tableExists ==> r.log == st.log + [CreateTableSql]
  {
    if st.tableExists then st else DbState(true, st.rows, st.log + [CreateTableSql])
  }

  /** k is the version_no that sorts highest, as a string, among keys. */
  predicate IsGreatestKey(k: string, keys: set<string>)
  {
    k in keys && forall j :: j in keys && j != k ==> StrLess(j, k)
  }

  lemma {:induction false} GreatestKeyExists(keys: set<string>)
    requires keys != {}
    ensures exists k :: IsGreatestKey(k, keys)
  {
    var x :| x in keys;
    if keys == {x} {
      assert IsGreatestKey(x, keys);
    } else {
      var rest := keys - {x};
      GreatestKeyExists(rest);
      var m :| IsGreatestKey(m, rest);
      StrLessTotal(m, x);
      if StrLess(m, x) {
        forall j | j in keys && j != x
          ensures StrLess(j, x)
        {
          if j != m { StrLessTransitive(j, m, x); }
        }
        assert IsGreatestKey(x, keys);
      } else {
        assert IsGreatestKey(m, keys);
      }
    }
  }

  lemma GreatestKeyUnique(a: string, b: string, keys: set<string>)
    requires IsGreatestKey(a, keys) && IsGreatestKey(b, keys)
    ensures a == b
  {
    StrLessAsymmetric(a, b);
  }

  /**
   * SELECT version_no FROM db_vcs_schema ORDER BY version_no DESC LIMIT 1: the version key that
   * sorts highest as a string (so "V9" outranks "V10"), or none on an empty ledger.
   */
  ghost function LastVersion(rows: map<string, LedgerRow>): Option<string>
  {
    if rows == map[] then None
    else
      assert rows.Keys != {} by {
        var k :| k in rows;
      }
      GreatestKeyExists(rows.Keys);
      var k :| IsGreatestKey(k, rows.Keys);
      Some(k)
  }

  /** The last version is missing exactly on an empty ledger, and is otherwise the greatest key. */
  lemma LastVersionSpec(rows: map<string, LedgerRow>)
    ensures LastVersion(rows).None? <==> rows == map[]
    ensures LastVersion(rows).Some? ==> IsGreatestKey(LastVersion(rows).value, rows.Keys)
  {
  }

  /** The database reached through the listener's single connection. */
  class Database {
    var tableExists: bool
    var rows: map<string, LedgerRow>
    var log: seq<string>

    function State(): DbState
      reads this
    {
      DbState(tableExists, rows, log)
    }

    ghost predicate Valid()
      reads this
    {
      ValidState(State())
    }

    /** createBaseSchema: looks the table up in the catalog and creates it only when it is missing. */
    method CreateBaseSchema()
      requires Valid()
      modifies this
      ensures Valid() && State() == CreateTable(old(State()))
    {
      if !tableExists {
        log := log + [CreateTableSql];
        tableExists := true;
      }
    }

    /** getLastExecutedVersion: the string-greatest version_no of the ledger, none when it is empty. */
    method GetLastExecutedVersion() returns (lastExecutedVersion: Option<string>)
      ensures lastExecutedVersion.None? <==> rows == map[]
      ensures lastExecutedVersion.Some? ==> IsGreatestKey(lastExecutedVersion.value, rows.Keys)
      ensures lastExecutedVersion == LastVersion(rows)
    {
      if rows == map[] {
        lastExecutedVersion := None;
      } else {
        assert rows.Keys != {} by {
          var k :| k in rows;
        }
        GreatestKeyExists(rows.Keys);
        var k :| k in rows.Keys && IsGreatestKey(k, rows.Keys);
        LastVersionSpec(rows);
        GreatestKeyUnique(k, LastVersion(rows).value, rows.Keys);
        lastExecutedVersion := Some(k);
      }
    }

    /**
     * getDbVcsSchema: a fresh record holding the row stored under versionNo, or null when the
     * ledger has no such row.
     */
    method GetDbVcsSchema(versionNo: string) returns (schema: Model.DBVcsSchema?)
      ensures schema == null <==> versionNo !in rows
      ensures schema != null ==>
        fresh(schema) && schema.GetVersionNo() == versionNo &&
        schema.GetExecutedAt() == rows[versionNo].executedAt &&
        schema.GetFileChecksum() == rows[versionNo].fileHash &&
        schema.GetSqlFile() == rows[versionNo].sqlFile
    {
      if versionNo in rows {
        var row := rows[versionNo];
        schema := new Model.DBVcsSchema(versionNo, row.executedAt, row.fileHash, row.sqlFile);
      } else {
        schema := null;
      }
    }

    /** isVersionExecuted: whether the ledger has a row under versionNo. */
    method IsVersionExecuted(versionNo: string) returns (executed: bool)
      ensures executed <==> versionNo in rows
    {
      var schema := GetDbVcsSchema(versionNo);
      executed := schema != null;
    }

    /**
     * insertInDbVcsSchema: adds one row. The INSERT fails, which the listener turns into a
     * DbVcsException, when the table is missing or the primary key is taken; then nothing changes.
     */
    method InsertInDbVcsSchema(versionNo: string, executedAt: string, fileHash: string, sqlFile: string)
      returns (inserted: bool)
      requires Valid()
      modifies this
      ensures Valid()
      ensures inserted <==> old(tableExists) && versionNo !in old(rows)
      ensures rows == if inserted then old(rows)[versionNo := LedgerRow(executedAt, fileHash, sqlFile)] else old(rows)
      ensures tableExists == old(tableExists) && log == old(log)
    {
      inserted := tableExists && versionNo !in rows;
      if inserted {
        rows := rows[versionNo := LedgerRow(executedAt, fileHash, sqlFile)];
      }
    }

    /**
     * prepareStatement(query).execute() with auto-commit on: when the database accepts the
     * statement it is logged and stays applied; otherwise nothing changes.
     */
    method Execute(query: string, sqlOk: SqlOracle) returns (ok: bool)
      modifies this
      ensures ok == sqlOk(old(log), query)
      ensures log == if ok then old(log) + [query] else old(log)
      ensures tableExists == old(tableExists) && rows == old(rows)
    {
      ok := sqlOk(log, query);
      if ok {
        log := log + [query];
      }
    }
  }
}
