# db-vcs migration run, modelled in Dafny

db-vcs applies versioned SQL scripts (`V<n>__<description>.sql`) to a database when a Spring
context is refreshed, and records each applied script in a ledger table, `db_vcs_schema`. This
project models the listener's run and proves what it guarantees. The run has these steps:

- The feature gate is checked: an `@EnableDbVcs` configuration bean, or `db.vcs.enabled=true`.
- Scripts pass through `isValidResourceFile` and are sorted by their parsed version.
- The ledger table is created when at least one script remains.
- Each script goes through the ordering guard against the ledger's last version.
- Each script's trimmed content is hashed (MD5, written as lowercase hex).
- A script already in the ledger is checked for hash drift.
- A new script gets its ledger row, then its `;`-separated statements are executed.

Any failure aborts the whole run.

Files and modules:

- `wrappers.dfy` (`Wrappers`): `Option`.
- `java_text.dfy` (`JavaText`): the Java library behaviour the listener relies on:
  - `String.trim`;
  - `Integer.parseInt`/`valueOf`, with a sign, leading zeros and the int range;
  - `split(";")`, which drops trailing empty pieces;
  - `split("__")[0]`;
  - `replaceAll("\n", " ")`;
  - the string order of `ORDER BY version_no`.
- `hex_string.dfy` (`HexString`): `getHexString` as a method with a loop, proved against the `Hex` function and its inverse.
- `schema.dfy` (`Model`): the `DBVcsSchema` class, with its four fields, its constructor, getters and setters.
- `ledger.dfy` (`Ledger`):
  - the ledger as a `Database` class: table flag, rows by `version_no`, and the log of executed statements;
  - `createBaseSchema`, `getLastExecutedVersion`, `isVersionExecuted`, `getDbVcsSchema` and `insertInDbVcsSchema` as its methods.
- `resources.dfy` (`Resources`): file names, `isValidResourceFile`, the filter, and the sort comparator as a stable sort.
- `migration.dfy` (`Migration`):
  - specification functions: `Step` for one script, `RunFiles` for the sorted loop, and `Run` for the whole event;
  - methods proved to reach exactly the state those functions compute: `FeatureEnabled`, `ExecuteQueries`, `ProcessFile`, `RunResources` and `OnApplicationEvent`.
- `migration_props.dfy` (`MigrationProperties`): the properties of a run:
  - the ordering guard;
  - drift detection;
  - a new script's row is written before its statements run;
  - the ledger is append-only;
  - rows come only from kept scripts;
  - a re-run changes nothing;
  - the string-order consequences of the guard.

Behaviour modelled as the code has it, where a plain reading suggests otherwise:

- **Row written before the statements.** The ledger row is inserted before the script's statements run (`insertInDbVcsSchema` at line 131 comes before the loop at 138-144). A failing statement therefore leaves the row in place. One might expect the row to be written only after the statements succeed; the code writes it first; see `NewKeyRowBeforeStatements`.
- **Ledger keys.** The ledger key is the text before `__`, with the `V` included (`"V1"`), not the bare number.
- **Last version.** The last version is the key that sorts highest as a string. So after `V2` and `V10` it is `"V2"`, and a new `V5` passes the guard (`StringOrderAdmitsOlderVersion`). It is read again for every script, so rows written earlier in the same run count (`SameVersionTwiceAborts`).
- **Lenient parsing.** Version parsing accepts a `+` sign and leading zeros. `V01__a.sql` and `V1__b.sql` are both version 1 but have different keys (`SameVersionDistinctKeys`).
- **Stored hash.** The listener reads the stored hash through `getFileHash()` (line 133). The `DBVcsSchema` class only has `getFileChecksum()`, and the model compares against that field, which the constructor fills from its `fileHash` argument.
- **Empty file name.** An empty file name makes `charAt(0)` throw inside the filter, which aborts the run (`EmptyFileName`). An unparsable string-greatest ledger key aborts it too (`UnparsableLastVersion`), when the script's own key is new (lines 106-107).

## Model

| member | source | states |
|---|---|---|
| JavaText.Trim | src/main/java/sdk/db/vcs/DbVcsApplicationEventListener.java:124 | `String.trim()`: the content without its leading and trailing characters at or below U+0020 (properties in `TrimSpec`) |
| JavaText.JavaSplit | src/main/java/sdk/db/vcs/DbVcsApplicationEventListener.java:129 | `split(";")`: the text itself when it has no `;`, and otherwise the pieces between semicolons without the trailing empty ones (properties in `JavaSplitPieces`, `JavaSplitJoin`) |
| JavaText.FirstSegment | src/main/java/sdk/db/vcs/DbVcsApplicationEventListener.java:104 | `split("__")[0]`: the name up to its first `__` (properties in `FirstSegmentSpec`) |
| JavaText.StrLess | src/main/java/sdk/db/vcs/DbVcsApplicationEventListener.java:170 | the order of `ORDER BY version_no`: by character code, a proper prefix first (a strict total order: `StrLessTotal`, `StrLessTransitive`) |
| Resources.VersionKey | src/main/java/sdk/db/vcs/DbVcsApplicationEventListener.java:104 | `getName().split("__")[0]`: the ledger key, the name up to its first `__` with the leading `V` kept (properties in `KeyStartsWithV`, `ValidNameAccepted`, `SameVersionDistinctKeys`) |
| Resources.VersionNumber | src/main/java/sdk/db/vcs/DbVcsApplicationEventListener.java:107-108 | `Integer.parseInt(key.substring(1))`, none where it throws: a `+` sign and leading zeros are accepted (properties in `ValidNameAccepted`, `SameVersionDistinctKeys`, `OverflowingNameRejected`) |
| Resources.Version | src/main/java/sdk/db/vcs/DbVcsApplicationEventListener.java:92-93 | the comparator's `Integer.valueOf` of the key after `V`; a kept file's version lies in 1..MAX_VALUE (`MigrationVersionPositive`) |
| Resources.IsValidResourceFile | src/main/java/sdk/db/vcs/DbVcsApplicationEventListener.java:153-166 | the name starts with `V` and the text after it in the first `__`-segment parses as an int above zero |
| Resources.FilterValid | src/main/java/sdk/db/vcs/DbVcsApplicationEventListener.java:91 | `filter(this::isValidResourceFile)`, failing when a name is empty (properties in `FilterValidFails`, `FilterValidKeeps`) |
| Resources.SortByVersion | src/main/java/sdk/db/vcs/DbVcsApplicationEventListener.java:91-95 | the stable sort by the comparator's parsed version (properties in `SortByVersionSorted`, `SortByVersionStable`) |
| Resources.ResolveMigrations | src/main/java/sdk/db/vcs/DbVcsApplicationEventListener.java:91-95 | filter, then sort (properties in `ResolveMigrationsSpec`) |
| Ledger.LastVersion | src/main/java/sdk/db/vcs/DbVcsApplicationEventListener.java:168-178 | the string-greatest `version_no`, none on an empty ledger (properties in `LastVersionSpec`) |
| Migration.FileStatements | src/main/java/sdk/db/vcs/DbVcsApplicationEventListener.java:124-143 | the statements of a script: its trimmed content split on `;`, each piece with line feeds replaced, empty pieces left out |
| Migration.ExecuteAll | src/main/java/sdk/db/vcs/DbVcsApplicationEventListener.java:138-144 | statements run in order with auto-commit until the first rejected one (properties in `ExecuteAllSpec`) |
| Migration.FileHash | src/main/java/sdk/db/vcs/DbVcsApplicationEventListener.java:124-127 | the hash of a script is the lowercase hex of the MD5 digest of its trimmed content: 32 lowercase hex digits |
| Migration.Step | src/main/java/sdk/db/vcs/DbVcsApplicationEventListener.java:103-145 | one iteration of the loop: the ordering guard for a new key, the hash check for a known one, and for a new key the row inserted before the statements run (properties in `MigrationProperties`) |
| Migration.RunFiles | src/main/java/sdk/db/vcs/DbVcsApplicationEventListener.java:102-146 | the loop over the sorted scripts, script i stamped with the clock's i-th time, stopping at the first failure |
| Migration.Enabled | src/main/java/sdk/db/vcs/DbVcsApplicationEventListener.java:66-75 | the feature gate: some configuration bean carries `@EnableDbVcs`, or `db.vcs.enabled` is `"true"` (the loop computing it is proved equal in `FeatureEnabled`) |
| Migration.Run | src/main/java/sdk/db/vcs/DbVcsApplicationEventListener.java:63-151 | the whole event: gate, filter and sort, lazy table creation, then the loop |
| Model.DBVcsSchema.GetVersionNo | src/main/java/sdk/db/vcs/model/DBVcsSchema.java:16-18 | returns the `versionNo` field |
| Model.DBVcsSchema.GetExecutedAt | src/main/java/sdk/db/vcs/model/DBVcsSchema.java:24-26 | returns the `executedAt` field |
| Model.DBVcsSchema.GetFileChecksum | src/main/java/sdk/db/vcs/model/DBVcsSchema.java:32-34 | returns the `fileChecksum` field |
| Model.DBVcsSchema.GetSqlFile | src/main/java/sdk/db/vcs/model/DBVcsSchema.java:40-42 | returns the `sqlFile` field |
| JavaText.TrimSpec | src/main/java/sdk/db/vcs/DbVcsApplicationEventListener.java:124 | `trim()` returns a contiguous slice of the content. It cuts exactly the leading and trailing runs of characters at or below U+0020, so neither end of a non-empty result is such a character |
| JavaText.ParseDigitsValue | src/main/java/sdk/db/vcs/DbVcsApplicationEventListener.java:107-108 | the digit loop of `parseInt` accepts exactly the all-digit texts and yields their decimal value |
| JavaText.ParseInt | src/main/java/sdk/db/vcs/DbVcsApplicationEventListener.java:107-108 | every value `parseInt` returns lies in the Java int range |
| JavaText.ParseIntDecimal | src/main/java/sdk/db/vcs/DbVcsApplicationEventListener.java:107-108 | `parseInt` reads back the decimal text of every non-negative int |
| JavaText.ParseIntUnsigned | src/main/java/sdk/db/vcs/DbVcsApplicationEventListener.java:161 | a run of digits, with or without `+`, parses to its value exactly when that value is at most `Integer.MAX_VALUE`, and otherwise does not parse |
| JavaText.ParseIntLenient | src/main/java/sdk/db/vcs/DbVcsApplicationEventListener.java:92-93 | a `+` and any number of leading zeros are accepted and do not change the value |
| JavaText.ParseIntOverflow | src/main/java/sdk/db/vcs/DbVcsApplicationEventListener.java:160-165 | a value above `Integer.MAX_VALUE` does not parse, however it is written |
| JavaText.ParseIntRejectsNonDigit | src/main/java/sdk/db/vcs/DbVcsApplicationEventListener.java:160-165 | any character that is not a digit or a leading sign makes parsing fail |
| JavaText.SplitAllPieces | src/main/java/sdk/db/vcs/DbVcsApplicationEventListener.java:129 | no piece between separators contains the separator |
| JavaText.SplitAllJoin | src/main/java/sdk/db/vcs/DbVcsApplicationEventListener.java:129 | joining the pieces with the separator gives back the text: splitting loses nothing |
| JavaText.DropTrailingEmptySpec | src/main/java/sdk/db/vcs/DbVcsApplicationEventListener.java:129 | `split` with limit 0 drops exactly the trailing run of empty pieces and keeps the rest in order |
| JavaText.JavaSplitPieces | src/main/java/sdk/db/vcs/DbVcsApplicationEventListener.java:129 | no piece of `split(";")` contains `;` |
| JavaText.JavaSplitJoin | src/main/java/sdk/db/vcs/DbVcsApplicationEventListener.java:129 | joining the pieces of `split(";")` with `;` gives the text without its trailing semicolons: only those are lost |
| JavaText.FirstSegmentSpec | src/main/java/sdk/db/vcs/DbVcsApplicationEventListener.java:104 | `split("__")[0]` is a prefix of the name. It ends exactly at the first `__`, or at the end of the name when there is none |
| JavaText.FirstSegmentBeforeSeparator | src/main/java/sdk/db/vcs/DbVcsApplicationEventListener.java:156 | a text without `_` followed by `__` is the first segment of the name |
| JavaText.ReplaceLineFeeds | src/main/java/sdk/db/vcs/DbVcsApplicationEventListener.java:139 | `replaceAll("\n", " ")` keeps the length. Each line feed becomes a space and every other character stays |
| JavaText.StrLessTotal | src/main/java/sdk/db/vcs/DbVcsApplicationEventListener.java:170 | any two different version keys are ordered one way or the other by `ORDER BY` |
| JavaText.StrLessTransitive | src/main/java/sdk/db/vcs/DbVcsApplicationEventListener.java:170 | the string order of version keys is transitive |
| HexString.Unsigned | src/main/java/sdk/db/vcs/DbVcsApplicationEventListener.java:231 | `0xFF & b` is below 256 and is the unsigned reading of the signed byte |
| HexString.ToHexString | src/main/java/sdk/db/vcs/DbVcsApplicationEventListener.java:231 | `Integer.toHexString` is never empty and has no leading zero |
| HexString.PaddedHexString | src/main/java/sdk/db/vcs/DbVcsApplicationEventListener.java:231-235 | after the `'0'` padding, each byte is written as exactly two digits, high nibble first: the padding never leaves one digit, and no byte needs three |
| HexString.Hex | src/main/java/sdk/db/vcs/DbVcsApplicationEventListener.java:227-238 | the hash text is twice as long as the digest and holds only lowercase hex digits |
| HexString.HexAt | src/main/java/sdk/db/vcs/DbVcsApplicationEventListener.java:227-238 | characters 2i and 2i+1 of the text are the high and the low digit of byte i |
| HexString.DecodeHexOfHex | src/main/java/sdk/db/vcs/DbVcsApplicationEventListener.java:227-238 | decoding the hash text gives back the digest, so no two digests share a text |
| HexString.HexOfDecodeHex | src/main/java/sdk/db/vcs/DbVcsApplicationEventListener.java:227-238 | every even-length lowercase hex text is the hash text of the bytes it decodes to |
| HexString.GetHexString | src/main/java/sdk/db/vcs/DbVcsApplicationEventListener.java:227-238 | the append loop builds `Hex` of the digest: two lowercase digits per byte, decoding back to the digest |
| Model.DBVcsSchema.constructor | src/main/java/sdk/db/vcs/model/DBVcsSchema.java:9-14 | the getters return the constructor arguments; `getFileChecksum` returns the `fileHash` argument |
| Model.DBVcsSchema.SetVersionNo | src/main/java/sdk/db/vcs/model/DBVcsSchema.java:20-22 | the getter returns the new value and the other three fields are unchanged |
| Model.DBVcsSchema.SetExecutedAt | src/main/java/sdk/db/vcs/model/DBVcsSchema.java:28-30 | the getter returns the new value and the other three fields are unchanged |
| Model.DBVcsSchema.SetFileChecksum | src/main/java/sdk/db/vcs/model/DBVcsSchema.java:36-38 | the getter returns the new value and the other three fields are unchanged |
| Model.DBVcsSchema.SetSqlFile | src/main/java/sdk/db/vcs/model/DBVcsSchema.java:44-46 | the getter returns the new value and the other three fields are unchanged |
| Ledger.CreateTable | src/main/java/sdk/db/vcs/DbVcsApplicationEventListener.java:240-247 | afterwards the table exists with the same rows. The DDL runs only when the table was missing, so a second call changes nothing |
| Ledger.Database.CreateBaseSchema | src/main/java/sdk/db/vcs/DbVcsApplicationEventListener.java:240-252 | the database ends in `CreateTable` of its old state |
| Ledger.GreatestKeyExists | src/main/java/sdk/db/vcs/DbVcsApplicationEventListener.java:170 | a non-empty ledger has a key that sorts above all others |
| Ledger.GreatestKeyUnique | src/main/java/sdk/db/vcs/DbVcsApplicationEventListener.java:170 | that key is unique |
| Ledger.LastVersionSpec | src/main/java/sdk/db/vcs/DbVcsApplicationEventListener.java:168-178 | the last version is missing exactly when the ledger is empty, and otherwise is the string-greatest key |
| Ledger.Database.GetLastExecutedVersion | src/main/java/sdk/db/vcs/DbVcsApplicationEventListener.java:168-183 | returns null exactly on an empty ledger, and otherwise the string-greatest `version_no` |
| Ledger.Database.GetDbVcsSchema | src/main/java/sdk/db/vcs/DbVcsApplicationEventListener.java:190-209 | returns null exactly when the key has no row, and otherwise a fresh record holding that row |
| Ledger.Database.IsVersionExecuted | src/main/java/sdk/db/vcs/DbVcsApplicationEventListener.java:185-188 | true exactly when the ledger has a row under the key |
| Ledger.Database.InsertInDbVcsSchema | src/main/java/sdk/db/vcs/DbVcsApplicationEventListener.java:211-224 | adds exactly the one row when the table exists and the key is free. Otherwise it reports failure and changes nothing. Executed statements are untouched |
| Ledger.Database.Execute | src/main/java/sdk/db/vcs/DbVcsApplicationEventListener.java:141-142 | an accepted statement is logged and stays applied; a rejected one changes nothing |
| Resources.KeyStartsWithV | src/main/java/sdk/db/vcs/DbVcsApplicationEventListener.java:155-159 | a name starting with `V` has a non-empty first segment that starts with `V`, so the `length == 0` branch is dead |
| Resources.MigrationVersionPositive | src/main/java/sdk/db/vcs/DbVcsApplicationEventListener.java:161-162 | a kept file's version is a positive Java int |
| Resources.ValidNameAccepted | src/main/java/sdk/db/vcs/DbVcsApplicationEventListener.java:153-166 | `V<n>__…` is kept for 0 < n ≤ `MAX_VALUE`, however n is written. Its key is the text before `__` and its version is n |
| Resources.OverflowingNameRejected | src/main/java/sdk/db/vcs/DbVcsApplicationEventListener.java:160-165 | a version above `MAX_VALUE` makes the file invalid, not an error |
| Resources.ZeroVersionRejected | src/main/java/sdk/db/vcs/DbVcsApplicationEventListener.java:161-162 | version zero, written with any number of zeros, is invalid |
| Resources.MissingSeparatorRejected | src/main/java/sdk/db/vcs/DbVcsApplicationEventListener.java:156-165 | every `V` name without `__` keeps `.sql` in its first segment and is invalid, since `.` is not a digit |
| Resources.NonDigitRejected | src/main/java/sdk/db/vcs/DbVcsApplicationEventListener.java:160-165 | a key with a character that is not a digit or a leading sign makes the file invalid |
| Resources.SameVersionDistinctKeys | src/main/java/sdk/db/vcs/DbVcsApplicationEventListener.java:104-108 | `V0…0n__a` and `Vn__b` are both kept and both have version n, but their keys differ |
| Resources.FilterValidFails | src/main/java/sdk/db/vcs/DbVcsApplicationEventListener.java:153-155 | the filter throws exactly when some file name is empty |
| Resources.FilterValidKeeps | src/main/java/sdk/db/vcs/DbVcsApplicationEventListener.java:91 | the filter keeps only valid files. For each version it keeps exactly the valid files of that version, in discovery order |
| Resources.InsertByVersionPermutes | src/main/java/sdk/db/vcs/DbVcsApplicationEventListener.java:91-95 | one insertion step adds exactly the file: nothing is lost or duplicated |
| Resources.InsertByVersionSorted | src/main/java/sdk/db/vcs/DbVcsApplicationEventListener.java:91-95 | one insertion step keeps the list ascending by version |
| Resources.InsertByVersionStable | src/main/java/sdk/db/vcs/DbVcsApplicationEventListener.java:91-95 | the inserted file goes before the files of its own version |
| Resources.SortByVersionSorted | src/main/java/sdk/db/vcs/DbVcsApplicationEventListener.java:91-95 | the sort is a permutation, and its result is ascending by the parsed version |
| Resources.SortByVersionStable | src/main/java/sdk/db/vcs/DbVcsApplicationEventListener.java:91-95 | the sort is stable: the files of each version keep their relative order |
| Resources.ResolveMigrationsSpec | src/main/java/sdk/db/vcs/DbVcsApplicationEventListener.java:91-95 | filter-then-sort throws exactly when a name is empty. Otherwise it yields only valid files, ascending, with every version's valid files in discovery order |
| Migration.Statements | src/main/java/sdk/db/vcs/DbVcsApplicationEventListener.java:138-143 | there are no more statements than pieces, and each is non-empty and free of line feeds |
| Migration.StatementsOfPieces | src/main/java/sdk/db/vcs/DbVcsApplicationEventListener.java:138-143 | every non-empty piece is executed, whitespace-only ones included, and each statement is a piece with its line feeds replaced |
| Migration.ExecuteAllSpec | src/main/java/sdk/db/vcs/DbVcsApplicationEventListener.java:138-144 | the executed statements are a prefix of the script, in order: all of them, or those before the first rejected one, which is reported |
| Migration.ExecuteAllAppend | src/main/java/sdk/db/vcs/DbVcsApplicationEventListener.java:138-144 | executing a + b is executing a, then b unless a failed |
| Migration.ExecuteStopsAtFailure | src/main/java/sdk/db/vcs/DbVcsApplicationEventListener.java:138-148 | after a rejected statement no later piece is executed |
| Migration.StepPreserves | src/main/java/sdk/db/vcs/DbVcsApplicationEventListener.java:102-146 | one script keeps the table, only appends to the log, keeps every row and adds at most its own key |
| Migration.RunFilesPreserves | src/main/java/sdk/db/vcs/DbVcsApplicationEventListener.java:102-146 | the loop keeps the table, only appends to the log, and never removes or rewrites a ledger row |
| Migration.RunFilesNext | src/main/java/sdk/db/vcs/DbVcsApplicationEventListener.java:102-146 | the loop over i + 1 scripts is the loop over i, then script i unless the loop already failed |
| Migration.RunFilesStopsAtFailure | src/main/java/sdk/db/vcs/DbVcsApplicationEventListener.java:147-148 | once a script fails, the scripts after it are never looked at |
| Migration.RunPreserves | src/main/java/sdk/db/vcs/DbVcsApplicationEventListener.java:63-151 | the event is Disabled exactly when the gate is off, and then nothing changes. An empty file name aborts before any change. With no kept script the run completes without any change, and otherwise the ledger table exists afterwards: it is created only when a kept script remains. The log only grows and every ledger row is kept |
| Migration.FeatureEnabled | src/main/java/sdk/db/vcs/DbVcsApplicationEventListener.java:66-75 | the gate is on exactly when some configuration bean carries `@EnableDbVcs` or the property is `"true"` |
| Migration.ExecuteQueries | src/main/java/sdk/db/vcs/DbVcsApplicationEventListener.java:138-144 | the inner loop ends in the log and failure of `ExecuteAll` over the statements of the pieces, and leaves the ledger alone |
| Migration.ProcessFile | src/main/java/sdk/db/vcs/DbVcsApplicationEventListener.java:103-145 | the loop body ends in exactly the state and failure that `Step` computes |
| Migration.RunResources | src/main/java/sdk/db/vcs/DbVcsApplicationEventListener.java:102-146 | the loop over the sorted scripts ends in exactly the state and failure that `RunFiles` computes |
| Migration.OnApplicationEvent | src/main/java/sdk/db/vcs/DbVcsApplicationEventListener.java:63-151 | the whole event ends in exactly the state and outcome that `Run` computes |
| MigrationProperties.NewKeyGuard | src/main/java/sdk/db/vcs/DbVcsApplicationEventListener.java:104-112 | a new key gets its row exactly when the ledger is empty or the string-greatest key's number is below the script's. Otherwise the run fails with the matching error and nothing changes |
| MigrationProperties.KnownKeySkipsOrFails | src/main/java/sdk/db/vcs/DbVcsApplicationEventListener.java:128-137 | a recorded key skips the guard and changes nothing. The step fails exactly when the stored hash differs from the hash of the trimmed content |
| MigrationProperties.NewKeyRowBeforeStatements | src/main/java/sdk/db/vcs/DbVcsApplicationEventListener.java:128-144 | a new key that passes the guard adds exactly its row (time, hash, name). The row stays when a statement fails, and the accepted statements stay applied in file order |
| MigrationProperties.ExecuteAllAccepts | src/main/java/sdk/db/vcs/DbVcsApplicationEventListener.java:138-144 | the statements run without failure exactly when each is accepted after all those before it |
| MigrationProperties.StepOfNewKey | src/main/java/sdk/db/vcs/DbVcsApplicationEventListener.java:104-144 | a new key that passes the guard inserts its row, then runs the statements of the trimmed content |
| MigrationProperties.StepRecordsScript | src/main/java/sdk/db/vcs/DbVcsApplicationEventListener.java:128-137 | a step that does not fail leaves the script recorded with its current hash |
| MigrationProperties.StepSkipsRecorded | src/main/java/sdk/db/vcs/DbVcsApplicationEventListener.java:128-137 | a script recorded with its current hash is skipped without any change |
| MigrationProperties.NewRowsComeFromScripts | src/main/java/sdk/db/vcs/DbVcsApplicationEventListener.java:102-146 | every row a run adds is the row of one of its scripts: that script's key, time stamp, hash and name |
| MigrationProperties.CompletedRunRecordsScript | src/main/java/sdk/db/vcs/DbVcsApplicationEventListener.java:102-146 | after a completed run, every script is recorded under its key with its current hash |
| MigrationProperties.RecordedScriptsAreSkipped | src/main/java/sdk/db/vcs/DbVcsApplicationEventListener.java:128-137 | when every script is recorded with its current hash, the loop changes nothing and succeeds |
| MigrationProperties.RerunIsNoOp | src/main/java/sdk/db/vcs/DbVcsApplicationEventListener.java:97-137 | a second run over the same files, after a completed run, adds no row and executes no statement, whatever the clock says |
| MigrationProperties.WithVersionHasKeptFiles | src/main/java/sdk/db/vcs/DbVcsApplicationEventListener.java:91 | the files of a version taken from a list are kept files of that list |
| MigrationProperties.RunRecordsOnlyKeptScripts | src/main/java/sdk/db/vcs/DbVcsApplicationEventListener.java:91-131 | a run keeps every existing row. Each row it adds belongs to a discovered file that passes `isValidResourceFile`, under its key, name and hash |
| MigrationProperties.LastVersionOfOne | src/main/java/sdk/db/vcs/DbVcsApplicationEventListener.java:168-178 | the only key of a one-row ledger is its last version |
| MigrationProperties.SameVersionTwiceAborts | src/main/java/sdk/db/vcs/DbVcsApplicationEventListener.java:105-111 | rows written earlier in the run count: two scripts of one version under different keys abort with an ordering violation on the second |
| MigrationProperties.LastVersionOfV2AndV10 | src/main/java/sdk/db/vcs/DbVcsApplicationEventListener.java:170 | with `V2` and `V10` recorded, the last version is `"V2"` |
| MigrationProperties.StringOrderAdmitsOlderVersion | src/main/java/sdk/db/vcs/DbVcsApplicationEventListener.java:105-112 | with `V2` and `V10` recorded, a new `V5` script passes the guard and is recorded |
| MigrationProperties.FileStatementsOfAllPieces | src/main/java/sdk/db/vcs/DbVcsApplicationEventListener.java:129-143 | dropping trailing empty pieces changes no statement: the statements are those of every piece between semicolons |

## Left out

- Spring wiring is left out: `getBeansWithAnnotation`, `getOriginalClass` and the reflection behind them (lines 64-74, 254-268). Each configuration bean's `@EnableDbVcs` flag and the `db.vcs.enabled` property are inputs.
- The `db.vcs.migration.location` override and classpath resource discovery are left out (lines 56, 80-89). The discovered scripts are an input list of (file name, content) pairs, in discovery order.
- Reading a file character by character, and the swallowed `IOException`, are left out (lines 103, 114-123). The content is an input.
- MD5 through `MessageDigest` and `getBytes` in the platform charset are left out (lines 86, 125-126). They are an opaque, deterministic function from text to Java bytes, passed as a parameter.
- `SimpleDateFormat`/`Date` are left out (lines 101, 113). The time stamp of the i-th script is an opaque `Clock` parameter.
- SQL semantics, `DatabaseMetaData` and collation are left out. Whether a statement succeeds is an oracle over the statements executed before it. `ORDER BY` is plain character-code order.
- Ledger.Database.Execute: script statements are assumed not to touch the `db_vcs_schema` table. A script that deletes, updates or drops it would change the ledger. The append-only results (`StepPreserves`, `RunFilesPreserves`, `RunPreserves`, `RunRecordsOnlyKeptScripts`) rest on this.
- Ledger queries are assumed to succeed. The `SQLException`-to-`null` swallowing of the ledger queries (lines 179-182, 205-208) is not modelled.
- `Ledger.Database.InsertInDbVcsSchema`: the ledger's own INSERT and CREATE TABLE are assumed to be accepted by the database. The table's DDL (lines 49-54) limits `sql_file` to 100 characters and `version_no` to 255, so a database that enforces those widths rejects the INSERT for a longer file name after the guard has passed. `insertInDbVcsSchema` then throws (lines 221-223) and the run aborts with no row written and no statement run; the model instead writes the row and runs the statements. Likewise a failing CREATE TABLE throws in `createBaseSchema` (lines 248-251) and aborts the run, while `Ledger.CreateTable` always succeeds. Neither failure is modelled. The model's insert fails only on a missing table or a taken key, which the run never reaches because it checks the key first.
- Exceptions are modelled as the failure value that aborts the run (`Failure`). The message text of `DbVcsException` and the logging are left out.
- `Resources.Version`: a file that is not kept has version 0. The comparator never sees such a file.
- Characters are Dafny `char`s, standing for Java's UTF-16 units. Only `'0'`-`'9'` count as digits. Java's `parseInt` also accepts the other Unicode decimal digits, so a name spelling its version with them is rejected by the model but kept by the listener.
- `src/main/java/sdk/db/vcs/autoconfiguration/DbMigrationAutoConfiguration.java` (connection-pool setup) is not part of this model.
