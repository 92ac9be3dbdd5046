/**
 * onApplicationEvent: the feature gate, then one migration run over the discovered scripts.
 * The run is specified by ghost functions over DbState (Step for one script, RunFiles for the
 * sorted list, Run for the whole event) and carried out by methods on a Database, each proved to
 * leave the database in the state its specification function computes.
 */
module Migration {
  import opened Wrappers
  import opened JavaText
  import opened HexString
  import opened Ledger
  import opened Resources

  /** What the DbVcsException thrown out of onApplicationEvent reports. */
  datatype Failure =
    | EmptyFileName                                    // charAt(0) of an empty name, inside the filter
    | UnparsableLastVersion(last: string)              // parseInt of the ledger's greatest key throws
    | UnparsableVersion(current: string)               // parseInt of the script's own key throws
    | OrderingViolation(current: string, last: string) // a new version not above the last one
    | InvalidFileHash(fileName: string)                // a recorded script whose content changed
    | StatementFailed(fileName: string, statement: string)

  /** How an event ends: the feature is off, every script is done, or the run threw. */
  datatype Outcome = Disabled | Completed | Aborted(failure: Failure)

  /** An MD5 digest: 16 bytes. */
  type Digest = d: seq<JavaByte> | |d| == 16 witness seq(16, i => 0 as JavaByte)

  /** MessageDigest MD5 over the bytes of a text: an opaque, deterministic function. */
  type Md5 = string -> Digest

  /** The executedAt text formatted for the i-th script of the run. */
  type Clock = nat -> string

  /** The database state after a step, and the failure that stopped the run, if any. */
  datatype Progress = Progress(state: DbState, failure: Option<Failure>)

  // ------------------------------------------------------------------------ statements

  /**
   * The statements a list of pieces yields: each piece with its line feeds replaced by spaces,
   * in order, the pieces that are empty left out (a piece of blanks is kept).
   */
  function Statements(pieces: seq<string>): (r: seq<string>)
    ensures |r| <= |pieces|
    ensures forall j :: 0 <= j < |r| ==> r[j] != [] && '\n' !in r[j]
  {
    if pieces == [] then []
    else
      var init := pieces[..|pieces| - 1];
      var q := ReplaceLineFeeds(pieces[|pieces| - 1]);
      assert forall c :: c in q ==> c != '\n';
      Statements(init) + (if q == [] then [] else [q])
  }

  /**
   * Every non-empty piece is executed, whitespace-only ones included, and nothing else is:
   * each statement is some piece with its line feeds replaced.
   */
  lemma {:induction false} StatementsOfPieces(pieces: seq<string>)
    ensures forall i :: 0 <= i < |pieces| && pieces[i] != [] ==> ReplaceLineFeeds(pieces[i]) in Statements(pieces)
    ensures forall s :: s in Statements(pieces) ==> exists i :: 0 <= i < |pieces| && s == ReplaceLineFeeds(pieces[i])
  {
    if pieces != [] {
      var init := pieces[..|pieces| - 1];
      StatementsOfPieces(init);
      assert forall i :: 0 <= i < |init| ==> init[i] == pieces[i];
    }
  }

  lemma {:induction false} StatementsAppend(a: seq<string>, b: seq<string>)
    ensures Statements(a + b) == Statements(a) + Statements(b)
  {
    if b != [] {
      var init := b[..|b| - 1];
      assert (a + b)[..|a + b| - 1] == a + init;
      assert (a + b)[|a + b| - 1] == b[|b| - 1];
      StatementsAppend(a, init);
    } else {
      assert a + b == a;
    }
  }

  lemma StatementsOfOne(p: string)
    ensures Statements([p]) == if ReplaceLineFeeds(p) == [] then [] else [ReplaceLineFeeds(p)]
  {
    assert [p][..0] == [];
  }

  /** The statements of a script: its trimmed content split on ';', as the inner loop executes them. */
  function FileStatements(content: string): seq<string>
  {
    Statements(JavaSplit(Trim(content), ';'))
  }

  /** The outcome of executing statements one after another: the log, and the statement rejected. */
  datatype Exec = Exec(log: seq<string>, failed: Option<string>)

  /**
   * The inner loop with auto-commit on: statements run in order, each one that the database
   * accepts stays applied, and the first one it rejects ends the loop.
   */
  function ExecuteAll(log: seq<string>, stmts: seq<string>, sqlOk: SqlOracle): Exec
    decreases |stmts|
  {
    if stmts == [] then Exec(log, None)
    else if !sqlOk(log, stmts[0]) then Exec(log, Some(stmts[0]))
    else ExecuteAll(log + [stmts[0]], stmts[1..], sqlOk)
  }

  /**
   * The statements executed are a prefix of stmts, appended to the log in order: all of them
   * when none is rejected, and otherwise those before the first rejected one, which is reported.
   */
  lemma {:induction false} ExecuteAllSpec(log: seq<string>, stmts: seq<string>, sqlOk: SqlOracle)
    ensures var r := ExecuteAll(log, stmts, sqlOk);
      log <= r.log && |r.log| <= |log| + |stmts| &&
      (r.failed.None? ==> r.log == log + stmts) &&
      (r.failed.Some? ==>
        |r.log| < |log| + |stmts| &&
        r.log == log + stmts[..|r.log| - |log|] && r.failed.value == stmts[|r.log| - |log|] &&
        !sqlOk(r.log, r.failed.value))
    decreases |stmts|
  {
    if stmts != [] && sqlOk(log, stmts[0]) {
      var r := ExecuteAll(log + [stmts[0]], stmts[1..], sqlOk);
      ExecuteAllSpec(log + [stmts[0]], stmts[1..], sqlOk);
      assert stmts == [stmts[0]] + stmts[1..];
      if r.failed.Some? {
        assert stmts[..|r.log| - |log|] == [stmts[0]] + stmts[1..][..|r.log| - |log| - 1];
      }
    }
  }

  /** Running a + b is running a, then, if nothing failed, b on from where a left the log. */
  lemma {:induction false} ExecuteAllAppend(log: seq<string>, a: seq<string>, b: seq<string>, sqlOk: SqlOracle)
    ensures var ra := ExecuteAll(log, a, sqlOk);
      ExecuteAll(log, a + b, sqlOk) == if ra.failed.Some? then ra else ExecuteAll(ra.log, b, sqlOk)
    decreases |a|
  {
    if a == [] {
      assert a + b == b;
    } else {
      assert (a + b)[0] == a[0] && (a + b)[1..] == a[1..] + b;
      if sqlOk(log, a[0]) {
        ExecuteAllAppend(log + [a[0]], a[1..], b, sqlOk);
      }
    }
  }

  lemma ExecuteOne(log: seq<string>, q: string, sqlOk: SqlOracle)
    ensures ExecuteAll(log, [q], sqlOk) ==
      if sqlOk(log, q) then Exec(log + [q], None) else Exec(log, Some(q))
  {
    if sqlOk(log, q) {
      assert [q][1..] == [];
    }
  }

  /** One more piece: the statements so far, then that piece's statement if it is not empty. */
  lemma ExecutePiece(log0: seq<string>, queries: seq<string>, i: nat, log: seq<string>, sqlOk: SqlOracle)
    requires i < |queries| && ExecuteAll(log0, Statements(queries[..i]), sqlOk) == Exec(log, None)
    ensures var q := ReplaceLineFeeds(queries[i]);
      ExecuteAll(log0, Statements(queries[..i + 1]), sqlOk) ==
        if q == [] then Exec(log, None) else ExecuteAll(log, [q], sqlOk)
  {
    assert queries[..i + 1] == queries[..i] + [queries[i]];
    StatementsAppend(queries[..i], [queries[i]]);
    StatementsOfOne(queries[i]);
    ExecuteAllAppend(log0, Statements(queries[..i]), Statements([queries[i]]), sqlOk);
    if ReplaceLineFeeds(queries[i]) == [] {
      assert Statements(queries[..i]) + [] == Statements(queries[..i]);
    }
  }

  /** Once a statement of the first n pieces has failed, the pieces after them are never run. */
  lemma ExecuteStopsAtFailure(log0: seq<string>, queries: seq<string>, n: nat, sqlOk: SqlOracle)
    requires n <= |queries| && ExecuteAll(log0, Statements(queries[..n]), sqlOk).failed.Some?
    ensures ExecuteAll(log0, Statements(queries), sqlOk) == ExecuteAll(log0, Statements(queries[..n]), sqlOk)
  {
    assert queries == queries[..n] + queries[n..];
    StatementsAppend(queries[..n], queries[n..]);
    ExecuteAllAppend(log0, Statements(queries[..n]), Statements(queries[n..]), sqlOk);
  }

  // ------------------------------------------------------------------- the specification

  /** The hash recorded for a script: the MD5 digest of its trimmed content, as 32 lowercase hex digits. */
  function FileHash(content: string, md5: Md5): (r: string)
    ensures |r| == 32 && IsLowerHexText(r)
  {
    Hex(md5(Trim(content)))
  }

  /**
   * One iteration of the loop over the sorted scripts: the ordering guard for a key not yet
   * recorded, the hash comparison for one that is, and for a new key the ledger row written
   * first and the statements executed after it. The guard on the script's own key reports an
   * unparsable key, which the filter in front of the loop never lets through.
   */
  ghost function Step(st: DbState, f: MigrationFile, executedAt: string, md5: Md5, sqlOk: SqlOracle): Progress
  {
    var key := VersionKey(f.name);
    var last := LastVersion(st.rows);
    var current := VersionNumber(key);
    if last.Some? && key !in st.rows && VersionNumber(last.value).None? then
      Progress(st, Some(UnparsableLastVersion(last.value)))
    else if last.Some? && key !in st.rows && current.None? then
      Progress(st, Some(UnparsableVersion(key)))
    else if last.Some? && key !in st.rows && current.value <= VersionNumber(last.value).value then
      Progress(st, Some(OrderingViolation(key, last.value)))
    else
      var hash := FileHash(f.content, md5);
      if key in st.rows then
        Progress(st, if hash != st.rows[key].fileHash then Some(InvalidFileHash(f.name)) else None)
      else
        var rows := st.rows[key := LedgerRow(executedAt, hash, f.name)];
        var ex := ExecuteAll(st.log, FileStatements(f.content), sqlOk);
        Progress(DbState(true, rows, ex.log),
          if ex.failed.Some? then Some(StatementFailed(f.name, ex.failed.value)) else None)
  }

  /**
   * A step keeps the ledger table, only appends to the statement log, never removes or rewrites
   * a row, adds at most the row of its own script, and never reports an empty file name.
   */
  lemma StepPreserves(st: DbState, f: MigrationFile, executedAt: string, md5: Md5, sqlOk: SqlOracle)
    ensures var r := Step(st, f, executedAt, md5, sqlOk);
      (st.tableExists ==> r.state.tableExists) && st.log <= r.state.log &&
      (forall k :: k in st.rows ==> k in r.state.rows && r.state.rows[k] == st.rows[k]) &&
      (forall k :: k in r.state.rows ==> k in st.rows || k == VersionKey(f.name)) &&
      r.failure != Some(EmptyFileName)
  {
    var key := VersionKey(f.name);
    var last := LastVersion(st.rows);
    if key !in st.rows && (last.None? || (VersionNumber(last.value).Some? && VersionNumber(key).Some? &&
        VersionNumber(key).value > VersionNumber(last.value).value)) {
      var ex := ExecuteAll(st.log, FileStatements(f.content), sqlOk);
      ExecuteAllSpec(st.log, FileStatements(f.content), sqlOk);
      assert Step(st, f, executedAt, md5, sqlOk).state ==
        DbState(true, st.rows[key := LedgerRow(executedAt, FileHash(f.content, md5), f.name)], ex.log);
    } else {
      assert Step(st, f, executedAt, md5, sqlOk).state == st;
    }
  }

  /** The loop over the sorted scripts fs, script i stamped clock(i); the first failure ends it. */
  ghost function RunFiles(st: DbState, fs: seq<MigrationFile>, md5: Md5, clock: Clock, sqlOk: SqlOracle): Progress
    decreases |fs|
  {
    if fs == [] then Progress(st, None)
    else
      var p := RunFiles(st, fs[..|fs| - 1], md5, clock, sqlOk);
      if p.failure.Some? then p else Step(p.state, fs[|fs| - 1], clock(|fs| - 1), md5, sqlOk)
  }

  /**
   * Whatever happens in the loop, the ledger table stays, the log only grows, the ledger keeps
   * every row it had, and no failure is an empty file name.
   */
  lemma {:induction false} RunFilesPreserves(st: DbState, fs: seq<MigrationFile>, md5: Md5, clock: Clock, sqlOk: SqlOracle)
    ensures var r := RunFiles(st, fs, md5, clock, sqlOk);
      (st.tableExists ==> r.state.tableExists) && st.log <= r.state.log &&
      (forall k :: k in st.rows ==> k in r.state.rows && r.state.rows[k] == st.rows[k]) &&
      r.failure != Some(EmptyFileName)
    decreases |fs|
  {
    if fs != [] {
      var p := RunFiles(st, fs[..|fs| - 1], md5, clock, sqlOk);
      RunFilesPreserves(st, fs[..|fs| - 1], md5, clock, sqlOk);
      if p.failure.None? {
        StepPreserves(p.state, fs[|fs| - 1], clock(|fs| - 1), md5, sqlOk);
      }
    }
  }

  /** The gate of onApplicationEvent: some @Configuration bean carries @EnableDbVcs, or db.vcs.enabled is "true". */
  predicate Enabled(configurationBeans: seq<bool>, enabledProperty: Option<string>)
  {
    true in configurationBeans || enabledProperty == Some("true")
  }

  /**
   * One ContextRefreshedEvent: nothing when the feature is off; otherwise the scripts kept and
   * sorted by version, the ledger created if any remain, and the scripts run in that order.
   */
  ghost function Run(st: DbState, enabled: bool, files: seq<MigrationFile>, md5: Md5, clock: Clock, sqlOk: SqlOracle)
    : (DbState, Outcome)
  {
    if !enabled then (st, Disabled)
    else
      match ResolveMigrations(files)
      case None => (st, Aborted(EmptyFileName))
      case Some(fs) =>
        if fs == [] then (st, Completed)
        else
          var p := RunFiles(CreateTable(st), fs, md5, clock, sqlOk);
          (p.state, if p.failure.Some? then Aborted(p.failure.value) else Completed)
  }

  /**
   * A run reports Disabled exactly when the feature is off, and then changes nothing; when a file
   * name is empty it aborts before touching the database; the ledger table is created only when
   * at least one kept script remains, and with none the run completes without any change; and
   * whatever happens, the log only grows and the ledger keeps every row it had.
   */
  lemma RunPreserves(st: DbState, enabled: bool, files: seq<MigrationFile>, md5: Md5, clock: Clock, sqlOk: SqlOracle)
    ensures var r := Run(st, enabled, files, md5, clock, sqlOk);
      (r.1 == Disabled <==> !enabled) &&
      (!enabled ==> r == (st, Disabled)) &&
      (r.1 == Aborted(EmptyFileName) ==> r.0 == st) &&
      (enabled && ResolveMigrations(files) == Some([]) ==> r == (st, Completed)) &&
      (enabled && ResolveMigrations(files).Some? && ResolveMigrations(files).value != [] ==> r.0.tableExists) &&
      st.log <= r.0.log &&
      (forall k :: k in st.rows ==> k in r.0.rows && r.0.rows[k] == st.rows[k])
  {
    if enabled && ResolveMigrations(files).Some? && ResolveMigrations(files).value != [] {
      RunFilesPreserves(CreateTable(st), ResolveMigrations(files).value, md5, clock, sqlOk);
    }
  }

  /** The loop over the first i + 1 scripts is the loop over the first i, then script i unless it already failed. */
  lemma RunFilesNext(st: DbState, fs: seq<MigrationFile>, i: nat, md5: Md5, clock: Clock, sqlOk: SqlOracle)
    requires i < |fs|
    ensures var p := RunFiles(st, fs[..i], md5, clock, sqlOk);
      RunFiles(st, fs[..i + 1], md5, clock, sqlOk) ==
        if p.failure.Some? then p else Step(p.state, fs[i], clock(i), md5, sqlOk)
  {
    assert fs[..i + 1][..i] == fs[..i];
  }

  /** Once the loop has failed on a prefix, the rest of the scripts are never looked at. */
  lemma {:induction false} RunFilesStopsAtFailure(st: DbState, fs: seq<MigrationFile>, n: nat,
                                                  md5: Md5, clock: Clock, sqlOk: SqlOracle)
    requires n <= |fs|
    requires RunFiles(st, fs[..n], md5, clock, sqlOk).failure.Some?
    ensures RunFiles(st, fs, md5, clock, sqlOk) == RunFiles(st, fs[..n], md5, clock, sqlOk)
    decreases |fs| - n
  {
    if n < |fs| {
      var init := fs[..|fs| - 1];
      assert init[..n] == fs[..n];
      RunFilesStopsAtFailure(st, init, n, md5, clock, sqlOk);
    } else {
      assert fs[..n] == fs;
    }
  }

  // --------------------------------------------------------------------------- methods

  /**
   * The gate: the loop over the @Configuration beans stops at the first one annotated with
   * @EnableDbVcs; then the db.vcs.enabled property can still switch the feature on.
   */
  method FeatureEnabled(configurationBeans: seq<bool>, enabledProperty: Option<string>) returns (featureEnabled: bool)
    ensures featureEnabled <==>
      (exists i :: 0 <= i < |configurationBeans| && configurationBeans[i]) || enabledProperty == Some("true")
    ensures featureEnabled == Enabled(configurationBeans, enabledProperty)
  {
    featureEnabled := false;
    var i := 0;
    while i < |configurationBeans|
      invariant 0 <= i <= |configurationBeans|
      invariant !featureEnabled && forall j :: 0 <= j < i ==> !configurationBeans[j]
    {
      if configurationBeans[i] {
        featureEnabled := true;
        break;
      }
      i := i + 1;
    }
    featureEnabled := featureEnabled || (enabledProperty.Some? && enabledProperty.value == "true");
  }

  /**
   * The inner loop over the pieces of split(";"): each piece has its line feeds replaced, and
   * each one that is then not empty is executed; the first rejected statement ends the loop.
   */
  method ExecuteQueries(db: Database, queries: seq<string>, sqlOk: SqlOracle) returns (failed: Option<string>)
    modifies db
    ensures Exec(db.log, failed) == ExecuteAll(old(db.log), Statements(queries), sqlOk)
    ensures db.tableExists == old(db.tableExists) && db.rows == old(db.rows)
  {
    ghost var log0 := db.log;
    failed := None;
    for i := 0 to |queries|
      invariant db.tableExists == old(db.tableExists) && db.rows == old(db.rows)
      invariant ExecuteAll(log0, Statements(queries[..i]), sqlOk) == Exec(db.log, None)
    {
      var query := ReplaceLineFeeds(queries[i]);
      ExecutePiece(log0, queries, i, db.log, sqlOk);
      if query != [] {
        ExecuteOne(db.log, query, sqlOk);
        var ok := db.Execute(query, sqlOk);
        if !ok {
          failed := Some(query);
          ExecuteStopsAtFailure(log0, queries, i + 1, sqlOk);
          return;
        }
      }
    }
    assert queries[..|queries|] == queries;
  }

  /**
   * The body of the loop of onApplicationEvent for one kept script, stamped executedAt. The
   * database ends in the state Step computes, and the failure returned is the one Step reports.
   */
  method ProcessFile(db: Database, file: MigrationFile, executedAt: string, md5: Md5, sqlOk: SqlOracle)
    returns (failure: Option<Failure>)
    requires db.Valid() && db.tableExists
    modifies db
    ensures db.Valid()
    ensures Progress(db.State(), failure) == Step(old(db.State()), file, executedAt, md5, sqlOk)
  {
    var currentVersion := VersionKey(file.name);
    var lastExecutedVersion := db.GetLastExecutedVersion();
    var executed := db.IsVersionExecuted(currentVersion);
    if lastExecutedVersion.Some? && !executed {
      var lastExecutedVersionNo := VersionNumber(lastExecutedVersion.value);
      if lastExecutedVersionNo.None? {
        return Some(UnparsableLastVersion(lastExecutedVersion.value));
      }
      var currentExecutedVersionNo := VersionNumber(currentVersion);
      if currentExecutedVersionNo.None? {
        return Some(UnparsableVersion(currentVersion));
      }
      if currentExecutedVersionNo.value <= lastExecutedVersionNo.value {
        return Some(OrderingViolation(currentVersion, lastExecutedVersion.value));
      }
    }
    var fileContent := Trim(file.content);
    var fileHash := GetHexString(md5(fileContent));
    var dbVcsSchema := db.GetDbVcsSchema(currentVersion);
    var queries := JavaSplit(fileContent, ';');
    if dbVcsSchema == null {
      var inserted := db.InsertInDbVcsSchema(currentVersion, executedAt, fileHash, file.name);
      assert inserted;
    } else {
      if fileHash != dbVcsSchema.GetFileChecksum() {
        return Some(InvalidFileHash(file.name));
      }
      return None;
    }
    var failed := ExecuteQueries(db, queries, sqlOk);
    failure := if failed.Some? then Some(StatementFailed(file.name, failed.value)) else None;
  }

  /**
   * onApplicationEvent over a database, the @EnableDbVcs flag of each @Configuration bean, the
   * db.vcs.enabled property, and the scripts in discovery order. The database ends in the state
   * Run computes, and the outcome is Run's.
   */
  method OnApplicationEvent(db: Database, configurationBeans: seq<bool>, enabledProperty: Option<string>,
                            files: seq<MigrationFile>, md5: Md5, clock: Clock, sqlOk: SqlOracle)
    returns (outcome: Outcome)
    requires db.Valid()
    modifies db
    ensures db.Valid()
    ensures (db.State(), outcome) ==
      Run(old(db.State()), Enabled(configurationBeans, enabledProperty), files, md5, clock, sqlOk)
  {
    var featureEnabled := FeatureEnabled(configurationBeans, enabledProperty);
    if !featureEnabled {
      return Disabled;
    }
    var resolved := ResolveMigrations(files);
    if resolved.None? {
      return Aborted(EmptyFileName);
    }
    var resources := resolved.value;
    if resources == [] {
      return Completed;
    }
    db.CreateBaseSchema();
    var failure := RunResources(db, resources, md5, clock, sqlOk);
    outcome := if failure.Some? then Aborted(failure.value) else Completed;
  }

  /** The loop of onApplicationEvent over the sorted scripts, stopping at the first failure. */
  method RunResources(db: Database, resources: seq<MigrationFile>, md5: Md5, clock: Clock, sqlOk: SqlOracle)
    returns (failure: Option<Failure>)
    requires db.Valid() && db.tableExists
    modifies db
    ensures db.Valid()
    ensures Progress(db.State(), failure) == RunFiles(old(db.State()), resources, md5, clock, sqlOk)
  {
    ghost var start := db.State();
    for i := 0 to |resources|
      invariant db.Valid() && db.tableExists
      invariant RunFiles(start, resources[..i], md5, clock, sqlOk) == Progress(db.State(), None)
    {
      RunFilesNext(start, resources, i, md5, clock, sqlOk);
      ghost var before := db.State();
      failure := ProcessFile(db, resources[i], clock(i), md5, sqlOk);
      StepPreserves(before, resources[i], clock(i), md5, sqlOk);
      if failure.Some? {
        RunFilesStopsAtFailure(start, resources, i + 1, md5, clock, sqlOk);
        return;
      }
    }
    assert resources[..|resources|] == resources;
    failure := None;
  }
}
