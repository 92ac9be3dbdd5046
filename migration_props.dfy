/**
 * What a migration run guarantees: the ordering guard, hash-drift detection, the ledger row
 * written before a script's statements, an append-only ledger, rows only for kept scripts, and
 * a second run over unchanged scripts that changes nothing.
 */
module MigrationProperties {
  import opened Wrappers
  import opened JavaText
  import opened Ledger
  import opened Resources
  import opened Migration

  // ------------------------------------------------------------------------ one script

  /**
   * For a key not yet in the ledger the guard decides: the script gets its row exactly when the
   * ledger is empty, or the string-greatest key parses to a number below the script's version;
   * otherwise the run fails and nothing changes.
   */
  lemma NewKeyGuard(st: DbState, f: MigrationFile, executedAt: string, md5: Md5, sqlOk: SqlOracle)
    requires st.tableExists && VersionKey(f.name) !in st.rows
    ensures var r := Step(st, f, executedAt, md5, sqlOk);
      var last := LastVersion(st.rows);
      var current := VersionNumber(VersionKey(f.name));
      (VersionKey(f.name) in r.state.rows <==>
        last.None? ||
        (VersionNumber(last.value).Some? && current.Some? && VersionNumber(last.value).value < current.value)) &&
      (VersionKey(f.name) !in r.state.rows ==>
        r.state == st &&
        r.failure == Some(if VersionNumber(last.value).None? then UnparsableLastVersion(last.value)
                          else if current.None? then UnparsableVersion(VersionKey(f.name))
                          else OrderingViolation(VersionKey(f.name), last.value)))
  {
  }

  /**
   * A key already in the ledger skips the guard. An unchanged script is skipped: no statement
   * runs and the ledger is untouched. A changed one (a different hash of its trimmed content)
   * fails the run, again with nothing changed.
   */
  lemma KnownKeySkipsOrFails(st: DbState, f: MigrationFile, executedAt: string, md5: Md5, sqlOk: SqlOracle)
    requires st.tableExists && VersionKey(f.name) in st.rows
    ensures var r := Step(st, f, executedAt, md5, sqlOk);
      r.state == st &&
      (r.failure.None? <==> FileHash(f.content, md5) == st.rows[VersionKey(f.name)].fileHash) &&
      (r.failure.Some? ==> r.failure == Some(InvalidFileHash(f.name)))
  {
  }

  /**
   * A new key that passes the guard adds exactly one row, holding the execution time, the hash
   * and the file name, and no other row changes. The row is written before the statements run,
   * so it stays when one of them fails; the statements accepted before the failing one stay
   * applied, in file order.
   */
  lemma NewKeyRowBeforeStatements(st: DbState, f: MigrationFile, executedAt: string, md5: Md5, sqlOk: SqlOracle)
    requires st.tableExists && VersionKey(f.name) !in st.rows
    requires var last, current := LastVersion(st.rows), VersionNumber(VersionKey(f.name));
      last.None? ||
      (VersionNumber(last.value).Some? && current.Some? && VersionNumber(last.value).value < current.value)
    ensures var r := Step(st, f, executedAt, md5, sqlOk);
      var stmts := FileStatements(f.content);
      var n := |r.state.log| - |st.log|;
      r.state.rows == st.rows[VersionKey(f.name) := LedgerRow(executedAt, FileHash(f.content, md5), f.name)] &&
      0 <= n <= |stmts| && r.state.log == st.log + stmts[..n] &&
      (r.failure.None? <==> n == |stmts| && forall j :: 0 <= j < |stmts| ==> sqlOk(st.log + stmts[..j], stmts[j])) &&
      (r.failure.Some? ==> n < |stmts| && r.failure == Some(StatementFailed(f.name, stmts[n])) && !sqlOk(r.state.log, stmts[n]))
  {
    var stmts := FileStatements(f.content);
    StepOfNewKey(st, f, executedAt, md5, sqlOk);
    ExecuteAllSpec(st.log, stmts, sqlOk);
    ExecuteAllAccepts(st.log, stmts, sqlOk);
    assert stmts == stmts[..|stmts|];
  }

  lemma StepOfNewKey(st: DbState, f: MigrationFile, executedAt: string, md5: Md5, sqlOk: SqlOracle)
    requires st.tableExists && VersionKey(f.name) !in st.rows
    requires var last, current := LastVersion(st.rows), VersionNumber(VersionKey(f.name));
      last.None? ||
      (VersionNumber(last.value).Some? && current.Some? && VersionNumber(last.value).value < current.value)
    ensures var ex := ExecuteAll(st.log, FileStatements(f.content), sqlOk);
      Step(st, f, executedAt, md5, sqlOk) ==
        Progress(DbState(true, st.rows[VersionKey(f.name) := LedgerRow(executedAt, FileHash(f.content, md5), f.name)], ex.log),
          if ex.failed.Some? then Some(StatementFailed(f.name, ex.failed.value)) else None)
  {
  }

  /** A step that does not fail leaves its script recorded under its key with its current hash. */
  lemma StepRecordsScript(st: DbState, f: MigrationFile, executedAt: string, md5: Md5, sqlOk: SqlOracle)
    requires st.tableExists
    requires Step(st, f, executedAt, md5, sqlOk).failure.None?
    ensures var rows := Step(st, f, executedAt, md5, sqlOk).state.rows;
      VersionKey(f.name) in rows && rows[VersionKey(f.name)].fileHash == FileHash(f.content, md5)
  {
  }

  /** A script recorded with its current hash is skipped by a step. */
  lemma StepSkipsRecorded(st: DbState, f: MigrationFile, executedAt: string, md5: Md5, sqlOk: SqlOracle)
    requires st.tableExists
    requires VersionKey(f.name) in st.rows && st.rows[VersionKey(f.name)].fileHash == FileHash(f.content, md5)
    ensures Step(st, f, executedAt, md5, sqlOk) == Progress(st, None)
  {
  }

  /** A run of statements fails exactly when one of them is rejected after all before it were accepted. */
  lemma {:induction false} ExecuteAllAccepts(log: seq<string>, stmts: seq<string>, sqlOk: SqlOracle)
    ensures ExecuteAll(log, stmts, sqlOk).failed.None? <==>
      forall j :: 0 <= j < |stmts| ==> sqlOk(log + stmts[..j], stmts[j])
    decreases |stmts|
  {
    if stmts != [] && sqlOk(log, stmts[0]) {
      var rest := stmts[1..];
      ExecuteAllAccepts(log + [stmts[0]], rest, sqlOk);
      assert forall j :: 0 < j < |stmts| ==> log + stmts[..j] == log + [stmts[0]] + rest[..j - 1] && stmts[j] == rest[j - 1];
      assert log + stmts[..0] == log;
    } else if stmts != [] {
      assert log + stmts[..0] == log;
    }
  }

  // ------------------------------------------------------------------------- a whole run

  /** row is the ledger row script i of fs writes under key k, for some i. */
  ghost predicate AddedBy(fs: seq<MigrationFile>, md5: Md5, clock: Clock, k: string, row: LedgerRow)
  {
    exists i :: 0 <= i < |fs| && k == VersionKey(fs[i].name) &&
      row == LedgerRow(clock(i), FileHash(fs[i].content, md5), fs[i].name)
  }

  lemma AddedByPrefix(fs: seq<MigrationFile>, n: nat, md5: Md5, clock: Clock, k: string, row: LedgerRow)
    requires n <= |fs| && AddedBy(fs[..n], md5, clock, k, row)
    ensures AddedBy(fs, md5, clock, k, row)
  {
    var i :| 0 <= i < n && k == VersionKey(fs[..n][i].name) &&
      row == LedgerRow(clock(i), FileHash(fs[..n][i].content, md5), fs[..n][i].name);
    assert fs[..n][i] == fs[i];
  }

  /** Every row a run adds belongs to one of its scripts: the script's key, hash, name and time stamp. */
  lemma {:induction false} NewRowsComeFromScripts(st: DbState, fs: seq<MigrationFile>, md5: Md5, clock: Clock, sqlOk: SqlOracle)
    ensures var r := RunFiles(st, fs, md5, clock, sqlOk);
      forall k :: k in r.state.rows && k !in st.rows ==> AddedBy(fs, md5, clock, k, r.state.rows[k])
    decreases |fs|
  {
    if fs != [] {
      var n := |fs| - 1;
      var p := RunFiles(st, fs[..n], md5, clock, sqlOk);
      var r := RunFiles(st, fs, md5, clock, sqlOk);
      NewRowsComeFromScripts(st, fs[..n], md5, clock, sqlOk);
      if p.failure.None? {
        StepPreserves(p.state, fs[n], clock(n), md5, sqlOk);
      }
      forall k | k in r.state.rows && k !in st.rows
        ensures AddedBy(fs, md5, clock, k, r.state.rows[k])
      {
        if k in p.state.rows {
          assert r.state.rows[k] == p.state.rows[k];
          AddedByPrefix(fs, n, md5, clock, k, p.state.rows[k]);
        } else {
          assert k == VersionKey(fs[n].name) &&
            r.state.rows[k] == LedgerRow(clock(n), FileHash(fs[n].content, md5), fs[n].name);
        }
      }
    }
  }

  /** A run that completes leaves each of its scripts recorded under its key with its current hash. */
  lemma {:induction false} CompletedRunRecordsScript(st: DbState, fs: seq<MigrationFile>, i: nat, md5: Md5, clock: Clock, sqlOk: SqlOracle)
    requires st.tableExists && i < |fs|
    requires RunFiles(st, fs, md5, clock, sqlOk).failure.None?
    ensures var rows := RunFiles(st, fs, md5, clock, sqlOk).state.rows;
      VersionKey(fs[i].name) in rows && rows[VersionKey(fs[i].name)].fileHash == FileHash(fs[i].content, md5)
    decreases |fs|
  {
    var init := fs[..|fs| - 1];
    var p := RunFiles(st, init, md5, clock, sqlOk);
    var last := fs[|fs| - 1];
    RunFilesPreserves(st, init, md5, clock, sqlOk);
    if i == |fs| - 1 {
      StepRecordsScript(p.state, last, clock(|fs| - 1), md5, sqlOk);
    } else {
      assert init[i] == fs[i];
      CompletedRunRecordsScript(st, init, i, md5, clock, sqlOk);
      StepPreserves(p.state, last, clock(|fs| - 1), md5, sqlOk);
    }
  }

  /** Scripts that are all recorded with their current hashes are all skipped: nothing changes. */
  lemma {:induction false} RecordedScriptsAreSkipped(st: DbState, fs: seq<MigrationFile>, md5: Md5, clock: Clock, sqlOk: SqlOracle)
    requires st.tableExists
    requires forall i :: 0 <= i < |fs| ==>
      VersionKey(fs[i].name) in st.rows && st.rows[VersionKey(fs[i].name)].fileHash == FileHash(fs[i].content, md5)
    ensures RunFiles(st, fs, md5, clock, sqlOk) == Progress(st, None)
    decreases |fs|
  {
    if fs != [] {
      var init := fs[..|fs| - 1];
      assert forall i :: 0 <= i < |init| ==> init[i] == fs[i];
      RecordedScriptsAreSkipped(st, init, md5, clock, sqlOk);
      StepSkipsRecorded(st, fs[|fs| - 1], clock(|fs| - 1), md5, sqlOk);
    }
  }

  /**
   * Re-running over the same scripts with unchanged contents, after a run that completed, adds
   * no ledger row and executes no statement, whatever the clock says this time.
   */
  lemma RerunIsNoOp(st: DbState, files: seq<MigrationFile>, md5: Md5, clock: Clock, later: Clock, sqlOk: SqlOracle)
    requires Run(st, true, files, md5, clock, sqlOk).1 == Completed
    ensures var after := Run(st, true, files, md5, clock, sqlOk).0;
      Run(after, true, files, md5, later, sqlOk) == (after, Completed)
  {
    var fs := ResolveMigrations(files).value;
    if fs != [] {
      var start := CreateTable(st);
      var after := RunFiles(start, fs, md5, clock, sqlOk).state;
      RunFilesPreserves(start, fs, md5, clock, sqlOk);
      forall i | 0 <= i < |fs|
        ensures VersionKey(fs[i].name) in after.rows
        ensures after.rows[VersionKey(fs[i].name)].fileHash == FileHash(fs[i].content, md5)
      {
        CompletedRunRecordsScript(start, fs, i, md5, clock, sqlOk);
      }
      assert CreateTable(after) == after;
      RecordedScriptsAreSkipped(after, fs, md5, later, sqlOk);
    }
  }

  lemma {:induction false} WithVersionHasKeptFiles(fs: seq<MigrationFile>, v: int, g: MigrationFile)
    requires g in WithVersion(fs, v)
    ensures g in fs && IsMigration(g) && Version(g) == v
  {
    if fs != [] {
      var head := if IsMigration(fs[0]) && Version(fs[0]) == v then [fs[0]] else [];
      assert WithVersion(fs, v) == head + WithVersion(fs[1..], v);
      if g !in head {
        WithVersionHasKeptFiles(fs[1..], v, g);
      }
    }
  }

  lemma {:induction false} KeptFileInWithVersion(fs: seq<MigrationFile>, g: MigrationFile)
    requires g in fs && IsMigration(g)
    ensures g in WithVersion(fs, Version(g))
  {
    if fs[0] != g {
      KeptFileInWithVersion(fs[1..], g);
    }
  }

  /**
   * A whole run never removes or rewrites a ledger row, and every row it adds is the row of a
   * discovered script that passes isValidResourceFile, under that script's key.
   */
  lemma RunRecordsOnlyKeptScripts(st: DbState, enabled: bool, files: seq<MigrationFile>, md5: Md5, clock: Clock, sqlOk: SqlOracle)
    ensures var r := Run(st, enabled, files, md5, clock, sqlOk).0;
      (forall k :: k in st.rows ==> k in r.rows && r.rows[k] == st.rows[k]) &&
      forall k :: k in r.rows && k !in st.rows ==>
        exists f :: f in files && IsMigration(f) && k == VersionKey(f.name) && r.rows[k].sqlFile == f.name &&
          r.rows[k].fileHash == FileHash(f.content, md5)
  {
    var r := Run(st, enabled, files, md5, clock, sqlOk).0;
    RunPreserves(st, enabled, files, md5, clock, sqlOk);
    if enabled && ResolveMigrations(files).Some? && ResolveMigrations(files).value != [] {
      var fs := ResolveMigrations(files).value;
      var start := CreateTable(st);
      NewRowsComeFromScripts(start, fs, md5, clock, sqlOk);
      forall k | k in r.rows && k !in st.rows
        ensures exists f :: (f in files && IsMigration(f) && k == VersionKey(f.name) && r.rows[k].sqlFile == f.name &&
          r.rows[k].fileHash == FileHash(f.content, md5))
      {
        assert AddedBy(fs, md5, clock, k, r.rows[k]);
        var i :| 0 <= i < |fs| && k == VersionKey(fs[i].name) &&
          r.rows[k] == LedgerRow(clock(i), FileHash(fs[i].content, md5), fs[i].name);
        var f := fs[i];
        ResolveMigrationsSpec(files, Version(f));
        assert f in fs;
        KeptFileInWithVersion(fs, f);
        WithVersionHasKeptFiles(files, Version(f), f);
      }
    }
  }

  // ------------------------------------------------------------------- the ordering guard

  /** The only key of a one-row ledger is its last version. */
  lemma LastVersionOfOne(k: string, row: LedgerRow)
    ensures LastVersion(map[k := row]) == Some(k)
  {
    var rows := map[k := row];
    assert k in rows;
  }

  /**
   * Rows added earlier in the same run count for the guard. Two scripts of one version under
   * different keys (V01__a.sql, then V1__b.sql) cannot both run on an empty ledger: once the
   * first is recorded, the second is refused as not above it.
   */
  lemma SameVersionTwiceAborts(f1: MigrationFile, f2: MigrationFile, md5: Md5, clock: Clock, sqlOk: SqlOracle)
    requires VersionNumber(VersionKey(f1.name)).Some?
    requires VersionNumber(VersionKey(f2.name)) == VersionNumber(VersionKey(f1.name))
    requires VersionKey(f1.name) != VersionKey(f2.name)
    requires Step(DbState(true, map[], []), f1, clock(0), md5, sqlOk).failure.None?
    ensures RunFiles(DbState(true, map[], []), [f1, f2], md5, clock, sqlOk).failure ==
      Some(OrderingViolation(VersionKey(f2.name), VersionKey(f1.name)))
  {
    var st := DbState(true, map[], []);
    var fs := [f1, f2];
    var p := Step(st, f1, clock(0), md5, sqlOk);
    assert fs[..1] == [f1] && [f1][..0] == [];
    assert RunFiles(st, [f1], md5, clock, sqlOk) == p;
    var row := LedgerRow(clock(0), FileHash(f1.content, md5), f1.name);
    assert p.state.rows == map[VersionKey(f1.name) := row];
    LastVersionOfOne(VersionKey(f1.name), row);
    assert RunFiles(st, fs, md5, clock, sqlOk) == Step(p.state, f2, clock(1), md5, sqlOk);
  }

  /** With V2 and V10 recorded the ledger's last version is "V2": "V10" sorts below it as a string. */
  lemma LastVersionOfV2AndV10(rows: map<string, LedgerRow>)
    requires rows.Keys == {"V2", "V10"}
    ensures LastVersion(rows) == Some("V2")
  {
    assert StrLess("V10", "V2");
    assert IsGreatestKey("V2", rows.Keys);
    LastVersionSpec(rows);
    GreatestKeyUnique("V2", LastVersion(rows).value, rows.Keys);
  }

  /** V5__x.sql is a migration script of version 5 under the key "V5". */
  lemma VersionFiveScript(content: string)
    ensures var f := MigrationFile("V5__x.sql", content);
      IsMigration(f) && Version(f) == 5 && VersionKey(f.name) == "V5" && VersionNumber("V5") == Some(5)
  {
    var f := MigrationFile("V5__x.sql", content);
    ValidNameAccepted(5, 0, false, "x.sql");
    assert "V" + Spelled(5, 0, false) + "__" + "x.sql" == f.name;
    assert "V" + Spelled(5, 0, false) == "V5";
  }

  lemma VersionNumberOfV2()
    ensures VersionNumber("V2") == Some(2)
  {
    ParseIntDecimal(2);
    assert "V2"[1..] == Decimal(2);
  }

  /**
   * The last version is the greatest key as a string, so after V2 and V10 it is "V2", and a new
   * script V5 passes the guard although version 10 has already run.
   */
  lemma StringOrderAdmitsOlderVersion(st: DbState, content: string, executedAt: string, md5: Md5, sqlOk: SqlOracle)
    requires st.tableExists && st.rows.Keys == {"V2", "V10"}
    ensures var f := MigrationFile("V5__x.sql", content);
      IsMigration(f) && Version(f) == 5 && VersionKey(f.name) in Step(st, f, executedAt, md5, sqlOk).state.rows
  {
    var f := MigrationFile("V5__x.sql", content);
    VersionFiveScript(content);
    LastVersionOfV2AndV10(st.rows);
    VersionNumberOfV2();
    StepOfNewKey(st, f, executedAt, md5, sqlOk);
  }

  // ------------------------------------------------------------------------- statements

  lemma {:induction false} StatementsDropTrailingEmpty(ps: seq<string>)
    ensures Statements(DropTrailingEmpty(ps)) == Statements(ps)
    decreases |ps|
  {
    if ps != [] && ps[|ps| - 1] == [] {
      var init := ps[..|ps| - 1];
      StatementsDropTrailingEmpty(init);
      assert Statements(ps) == Statements(init) + [];
    }
  }

  lemma {:induction false} SplitAllWithoutSeparator(s: string, sep: char)
    requires sep !in s
    ensures SplitAll(s, sep) == [s]
  {
    if s != [] {
      var init := s[..|s| - 1];
      assert sep !in init by {
        forall i | 0 <= i < |init| ensures init[i] != sep { assert init[i] == s[i]; }
      }
      SplitAllWithoutSeparator(init, sep);
      assert s[|s| - 1] != sep by { assert s[|s| - 1] in s; }
      assert s == init + [s[|s| - 1]];
    }
  }

  /**
   * split(";") drops trailing empty pieces, and the loop skips empty pieces anyway: the
   * statements of a script are those of every piece between semicolons.
   */
  lemma FileStatementsOfAllPieces(content: string)
    ensures FileStatements(content) == Statements(SplitAll(Trim(content), ';'))
  {
    var s := Trim(content);
    if ';' !in s {
      SplitAllWithoutSeparator(s, ';');
    } else {
      StatementsDropTrailingEmpty(SplitAll(s, ';'));
    }
  }
}
