/** The ledger-row record handed out by the listener's ledger lookups (package sdk.db.vcs.model). */
module Model {

  /**
   * One row of the db_vcs_schema table: the version key, when it was applied, the hash of the
   * file's trimmed content and the file name. A plain mutable record: four private fields, set by
   * the constructor, read by the getters and overwritten one at a time by the setters.
   */
  class DBVcsSchema {
    var versionNo: string
    var executedAt: string
    var fileChecksum: string
    var sqlFile: string

    /** The constructor's third argument is stored as the file checksum. */
    constructor (versionNo: string, executedAt: string, fileHash: string, sqlFile: string)
      ensures GetVersionNo() == versionNo && GetExecutedAt() == executedAt
      ensures GetFileChecksum() == fileHash && GetSqlFile() == sqlFile
    {
      this.versionNo := versionNo;
      this.executedAt := executedAt;
      this.fileChecksum := fileHash;
      this.sqlFile := sqlFile;
    }

    function GetVersionNo(): string
      reads this
    {
      versionNo
    }

    function GetExecutedAt(): string
      reads this
    {
      executedAt
    }

    function GetFileChecksum(): string
      reads this
    {
      fileChecksum
    }

    function GetSqlFile(): string
      reads this
    {
      sqlFile
    }

    method SetVersionNo(versionNo: string)
      modifies this
      ensures GetVersionNo() == versionNo
      ensures GetExecutedAt() == old(GetExecutedAt()) && GetFileChecksum() == old(GetFileChecksum())
      ensures GetSqlFile() == old(GetSqlFile())
    {
      this.versionNo := versionNo;
    }

    method SetExecutedAt(executedAt: string)
      modifies this
      ensures GetExecutedAt() == executedAt
      ensures GetVersionNo() == old(GetVersionNo()) && GetFileChecksum() == old(GetFileChecksum())
      ensures GetSqlFile() == old(GetSqlFile())
    {
      this.executedAt := executedAt;
    }

    method SetFileChecksum(fileChecksum: string)
      modifies this
      ensures GetFileChecksum() == fileChecksum
      ensures GetVersionNo() == old(GetVersionNo()) && GetExecutedAt() == old(GetExecutedAt())
      ensures GetSqlFile() == old(GetSqlFile())
    {
      this.fileChecksum := fileChecksum;
    }

    method SetSqlFile(sqlFile: string)
      modifies this
      ensures GetSqlFile() == sqlFile
      ensures GetVersionNo() == old(GetVersionNo()) && GetExecutedAt() == old(GetExecutedAt())
      ensures GetFileChecksum() == old(GetFileChecksum())
    {
      this.sqlFile := sqlFile;
    }
  }
}
