/**
 * Which migration scripts the listener runs, and in what order: isValidResourceFile, the ledger
 * key and version of a file name, and the filter-then-sort stream of onApplicationEvent.
 */
module Resources {
  import opened Wrappers
  import opened JavaText

  /** One migration script as discovered on the classpath: its file name and its whole text. */
  datatype MigrationFile = MigrationFile(name: string, content: string)

  /** fileName.split("__")[0]: the ledger key of a file, its leading 'V' included ("V1" for "V1__init.sql"). */
  function VersionKey(fileName: string): string
  {
    FirstSegment(fileName)
  }

  /**
   * Integer.parseInt(key.substring(1)), as the ordering guard and (through Integer.valueOf) the
   * filter and the sort compute it; none where substring or parseInt throws.
   */
  function VersionNumber(key: string): Option<int>
  {
    if key == [] then None else ParseInt(key[1..])
  }

  /**
   * isValidResourceFile: the name starts with 'V' and the rest of its first "__"-segment parses
   * as a Java int above zero. charAt(0) throws on an empty name, hence the precondition.
   */
  predicate IsValidResourceFile(fileName: string)
    requires fileName != []
  {
    fileName[0] == 'V' &&
    var version := VersionNumber(VersionKey(fileName));
    version.Some? && version.value > 0
  }

  /**
   * The fileSegments.length == 0 branch of isValidResourceFile is never taken: once the name
   * starts with 'V', its first segment is not empty, and the key starts with that 'V'.
   */
  lemma KeyStartsWithV(fileName: string)
    requires fileName != [] && fileName[0] == 'V'
    ensures VersionKey(fileName) != [] && VersionKey(fileName)[0] == 'V'
  {
  }

  /** A file the listener keeps: a non-empty name that passes isValidResourceFile. */
  predicate IsMigration(f: MigrationFile)
  {
    f.name != [] && IsValidResourceFile(f.name)
  }

  /**
   * The version the sort comparator reads, Integer.valueOf(split("__")[0].substring(1)). The
   * comparator only sees kept files, whose key always parses; 0 stands in for any other file.
   */
  function Version(f: MigrationFile): int
  {
    match VersionNumber(VersionKey(f.name))
    case Some(n) => n
    case None => 0
  }

  /** A kept file's version is a positive Java int. */
  lemma MigrationVersionPositive(f: MigrationFile)
    requires IsMigration(f)
    ensures 0 < Version(f) <= IntMaxValue
  {
  }

  predicate AllMigrations(fs: seq<MigrationFile>)
  {
    forall g | g in fs :: IsMigration(g)
  }

  predicate SortedByVersion(fs: seq<MigrationFile>)
  {
    forall i, j :: 0 <= i < j < |fs| ==> Version(fs[i]) <= Version(fs[j])
  }

  /** The kept files of fs that carry version v, in their order in fs. */
  function WithVersion(fs: seq<MigrationFile>, v: int): seq<MigrationFile>
  {
    if fs == [] then []
    else (if IsMigration(fs[0]) && Version(fs[0]) == v then [fs[0]] else []) + WithVersion(fs[1..], v)
  }

  lemma {:induction false} WithVersionAppend(a: seq<MigrationFile>, b: seq<MigrationFile>, v: int)
    ensures WithVersion(a + b, v) == WithVersion(a, v) + WithVersion(b, v)
  {
    if a == [] {
      assert a + b == b;
    } else {
      assert (a + b)[0] == a[0];
      assert (a + b)[1..] == a[1..] + b;
      WithVersionAppend(a[1..], b, v);
    }
  }

  // ------------------------------------------------------------------ filter, then sort

  /** filter(this::isValidResourceFile); none when some name is empty and charAt(0) throws. */
  function FilterValid(files: seq<MigrationFile>): Option<seq<MigrationFile>>
  {
    if files == [] then Some([])
    else if files[0].name == [] then None
    else
      match FilterValid(files[1..])
      case None => None
      case Some(rest) => Some(if IsValidResourceFile(files[0].name) then [files[0]] + rest else rest)
  }

  /** The filter throws exactly when some file name is empty. */
  lemma {:induction false} FilterValidFails(files: seq<MigrationFile>)
    ensures FilterValid(files).None? <==> exists i :: 0 <= i < |files| && files[i].name == []
  {
    if files != [] {
      FilterValidFails(files[1..]);
      assert forall i :: 0 <= i < |files| - 1 ==> files[1..][i] == files[i + 1];
      if files[0].name != [] && FilterValid(files[1..]).None? {
        var i :| 0 <= i < |files| - 1 && files[1..][i].name == [];
        assert files[i + 1].name == [];
      }
    }
  }

  /**
   * What the filter keeps: only files that pass isValidResourceFile, and for every version
   * exactly the files of that version, in discovery order.
   */
  lemma {:induction false} FilterValidKeeps(files: seq<MigrationFile>, v: int)
    requires FilterValid(files).Some?
    ensures AllMigrations(FilterValid(files).value)
    ensures WithVersion(FilterValid(files).value, v) == WithVersion(files, v)
  {
    if files != [] {
      var rest := FilterValid(files[1..]).value;
      FilterValidKeeps(files[1..], v);
      if IsValidResourceFile(files[0].name) {
        WithVersionAppend([files[0]], rest, v);
      }
    }
  }

  /** Puts f in front of the first file whose version is not below f's. */
  function InsertByVersion(f: MigrationFile, fs: seq<MigrationFile>): seq<MigrationFile>
  {
    if fs == [] || Version(f) <= Version(fs[0]) then [f] + fs
    else [fs[0]] + InsertByVersion(f, fs[1..])
  }

  /** A file no later than any file of a sorted list can go in front of it. */
  lemma SortedCons(g: MigrationFile, fs: seq<MigrationFile>)
    requires SortedByVersion(fs)
    requires forall h | h in fs :: Version(g) <= Version(h)
    ensures SortedByVersion([g] + fs)
  {
    var r := [g] + fs;
    forall i, j | 0 <= i < j < |r|
      ensures Version(r[i]) <= Version(r[j])
    {
      assert r[j] == fs[j - 1];
      if i > 0 {
        assert r[i] == fs[i - 1];
      }
    }
  }

  /** Inserting adds exactly f: nothing is lost or duplicated. */
  lemma {:induction false} InsertByVersionPermutes(f: MigrationFile, fs: seq<MigrationFile>)
    ensures multiset(InsertByVersion(f, fs)) == multiset(fs) + multiset{f}
  {
    if fs != [] && Version(f) > Version(fs[0]) {
      InsertByVersionPermutes(f, fs[1..]);
      assert fs == [fs[0]] + fs[1..];
    }
  }

  /** Every file of a list is no earlier than the head of that list, when the list is sorted. */
  lemma SortedHeadFirst(fs: seq<MigrationFile>, h: MigrationFile)
    requires SortedByVersion(fs) && fs != [] && h in fs
    ensures Version(fs[0]) <= Version(h)
  {
    var j :| 0 <= j < |fs| && fs[j] == h;
  }

  /** Inserting keeps a list sorted. */
  lemma {:induction false} InsertByVersionSorted(f: MigrationFile, fs: seq<MigrationFile>)
    requires SortedByVersion(fs)
    ensures SortedByVersion(InsertByVersion(f, fs))
  {
    if fs == [] || Version(f) <= Version(fs[0]) {
      forall h | h in fs
        ensures Version(f) <= Version(h)
      {
        SortedHeadFirst(fs, h);
      }
      SortedCons(f, fs);
    } else {
      var g, tail := fs[0], fs[1..];
      assert SortedByVersion(tail) by {
        forall i, j | 0 <= i < j < |tail|
          ensures Version(tail[i]) <= Version(tail[j])
        {
          assert tail[i] == fs[i + 1] && tail[j] == fs[j + 1];
        }
      }
      InsertByVersionSorted(f, tail);
      var rest := InsertByVersion(f, tail);
      InsertByVersionPermutes(f, tail);
      forall h | h in rest
        ensures Version(g) <= Version(h)
      {
        assert h in multiset(rest);
        if h != f {
          assert h in tail;
          SortedHeadFirst(fs, h);
        }
      }
      SortedCons(g, rest);
    }
  }

  /**
   * Inserting f puts it after the files of lower version and before all others, so among the
   * files of any one version it comes first.
   */
  lemma {:induction false} InsertByVersionStable(f: MigrationFile, fs: seq<MigrationFile>, v: int)
    ensures WithVersion(InsertByVersion(f, fs), v) == WithVersion([f], v) + WithVersion(fs, v)
  {
    if fs == [] || Version(f) <= Version(fs[0]) {
      WithVersionAppend([f], fs, v);
    } else {
      var g, tail := fs[0], fs[1..];
      InsertByVersionStable(f, tail, v);
      WithVersionAppend([g], InsertByVersion(f, tail), v);
      WithVersionAppend([g], tail, v);
      assert fs == [g] + tail;
      assert InsertByVersion(f, fs) == [g] + InsertByVersion(f, tail);
      assert WithVersion([g], v) == [] || WithVersion([f], v) == [] by {
        assert [g][1..] == [] && [f][1..] == [];
      }
    }
  }

  /**
   * sorted(comparator) on the kept files: ascending by parsed version. Stream.sorted is stable
   * on an ordered stream, so the files of one version keep their relative order.
   */
  function SortByVersion(fs: seq<MigrationFile>): seq<MigrationFile>
  {
    if fs == [] then [] else InsertByVersion(fs[0], SortByVersion(fs[1..]))
  }

  /** The sort is a permutation, and its result is ascending by version. */
  lemma {:induction false} SortByVersionSorted(fs: seq<MigrationFile>)
    ensures SortedByVersion(SortByVersion(fs))
    ensures multiset(SortByVersion(fs)) == multiset(fs)
  {
    if fs != [] {
      SortByVersionSorted(fs[1..]);
      InsertByVersionSorted(fs[0], SortByVersion(fs[1..]));
      InsertByVersionPermutes(fs[0], SortByVersion(fs[1..]));
      assert fs == [fs[0]] + fs[1..];
    }
  }

  /** The sort is stable: the files of each version stay in their order. */
  lemma {:induction false} SortByVersionStable(fs: seq<MigrationFile>, v: int)
    ensures WithVersion(SortByVersion(fs), v) == WithVersion(fs, v)
  {
    if fs != [] {
      SortByVersionStable(fs[1..], v);
      InsertByVersionStable(fs[0], SortByVersion(fs[1..]), v);
      WithVersionAppend([fs[0]], fs[1..], v);
      assert fs == [fs[0]] + fs[1..];
    }
  }

  /** The whole stream of onApplicationEvent: filter, then sort. */
  function ResolveMigrations(files: seq<MigrationFile>): Option<seq<MigrationFile>>
  {
    match FilterValid(files)
    case None => None
    case Some(kept) => Some(SortByVersion(kept))
  }

  /**
   * When no name is empty, the stream holds only kept files, ascending by version, and for
   * every version exactly the kept files of that version in discovery order: nothing is
   * dropped, added or reordered beyond what sorting requires. Otherwise it throws.
   */
  lemma ResolveMigrationsSpec(files: seq<MigrationFile>, v: int)
    ensures var r := ResolveMigrations(files);
      (r.None? <==> exists i :: 0 <= i < |files| && files[i].name == []) &&
      (r.Some? ==> AllMigrations(r.value) && SortedByVersion(r.value) &&
                   WithVersion(r.value, v) == WithVersion(files, v))
  {
    FilterValidFails(files);
    if FilterValid(files).Some? {
      var kept := FilterValid(files).value;
      FilterValidKeeps(files, v);
      SortByVersionSorted(kept);
      SortByVersionStable(kept, v);
      assert forall g | g in SortByVersion(kept) :: g in multiset(kept);
    }
  }

  // ---------------------------------------------------------------- which names are kept

  /** The text after the 'V' of a key written with an optional '+' and k leading zeros. */
  function Spelled(n: nat, k: nat, plus: bool): string
  {
    (if plus then "+" else "") + Zeros(k) + Decimal(n)
  }

  lemma SpelledHasNoUnderscore(n: nat, k: nat, plus: bool)
    ensures '_' !in "V" + Spelled(n, k, plus)
  {
    var s := "V" + Spelled(n, k, plus);
    var z, d := Zeros(k), Decimal(n);
    forall i | 0 <= i < |s|
      ensures s[i] != '_'
    {
      var p := if plus then 2 else 1;
      if i >= p {
        assert s[i] == (z + d)[i - p];
        assert IsDigit((z + d)[i - p]);
      }
    }
  }

  /**
   * V<n>__<anything> is kept for 0 < n <= Integer.MAX_VALUE, however n is written: a '+' and
   * leading zeros are accepted. Its key is the text before "__", its version n.
   */
  lemma ValidNameAccepted(n: nat, k: nat, plus: bool, suffix: string)
    requires 0 < n <= IntMaxValue
    ensures var name := "V" + Spelled(n, k, plus) + "__" + suffix;
      IsValidResourceFile(name) &&
      VersionKey(name) == "V" + Spelled(n, k, plus) &&
      Version(MigrationFile(name, [])) == n
  {
    var key := "V" + Spelled(n, k, plus);
    SpelledHasNoUnderscore(n, k, plus);
    FirstSegmentBeforeSeparator(key, suffix);
    assert key[1..] == Spelled(n, k, plus);
    ParseIntLenient(n, k, plus);
  }

  /** A version above Integer.MAX_VALUE makes valueOf throw, so the file is skipped, not an error. */
  lemma OverflowingNameRejected(n: nat, k: nat, plus: bool, suffix: string)
    requires n > IntMaxValue
    ensures !IsValidResourceFile("V" + Spelled(n, k, plus) + "__" + suffix)
  {
    var key := "V" + Spelled(n, k, plus);
    SpelledHasNoUnderscore(n, k, plus);
    FirstSegmentBeforeSeparator(key, suffix);
    assert key[1..] == Spelled(n, k, plus);
    ParseIntOverflow(n, k, plus);
  }

  /** Version zero, written with any number of zeros, is skipped. */
  lemma ZeroVersionRejected(k: nat, plus: bool, suffix: string)
    ensures !IsValidResourceFile("V" + Spelled(0, k, plus) + "__" + suffix)
  {
    var key := "V" + Spelled(0, k, plus);
    SpelledHasNoUnderscore(0, k, plus);
    FirstSegmentBeforeSeparator(key, suffix);
    assert key[1..] == Spelled(0, k, plus);
    ParseIntLenient(0, k, plus);
  }

  /**
   * A 'V' name without "__" keeps the whole name, ".sql" included, as its first segment; the
   * '.' is not a digit, so the file is skipped.
   */
  lemma MissingSeparatorRejected(stem: string)
    requires stem != [] && stem[0] == 'V'
    requires forall i :: 0 <= i < |stem| ==> !SeparatorAt(stem, i)
    ensures !IsValidResourceFile(stem + ".sql")
  {
    var name := stem + ".sql";
    forall i | 0 <= i < |name|
      ensures !SeparatorAt(name, i)
    {
      if i + 1 < |stem| {
        assert !SeparatorAt(stem, i);
      } else if i + 1 == |stem| {
        assert name[i + 1] == '.';
      } else {
        assert name[i] == ".sql"[i - |stem|];
      }
    }
    var key := VersionKey(name);
    FirstSegmentSpec(name);
    assert key == name;
    var body := name[1..];
    assert body[|body| - 4] == '.';
    ParseIntRejectsNonDigit(body, |body| - 4);
  }

  /** A key whose text after the 'V' holds a character other than a digit or a leading sign is skipped. */
  lemma NonDigitRejected(fileName: string, i: nat)
    requires fileName != [] && fileName[0] == 'V'
    requires 1 <= i < |VersionKey(fileName)| && !IsDigit(VersionKey(fileName)[i])
    requires i > 1 || (VersionKey(fileName)[1] != '+' && VersionKey(fileName)[1] != '-')
    ensures !IsValidResourceFile(fileName)
  {
    var key := VersionKey(fileName);
    assert key[1..][i - 1] == key[i];
    ParseIntRejectsNonDigit(key[1..], i - 1);
  }

  /**
   * Lenient parsing gives two files the same version under different keys: V01__a.sql and
   * V1__b.sql are both kept with version 1, keyed "V01" and "V1"; the ordering guard refuses
   * whichever of them runs second.
   */
  lemma SameVersionDistinctKeys(n: nat, k: nat, suffixA: string, suffixB: string)
    requires 0 < n <= IntMaxValue && k > 0
    ensures var a := MigrationFile("V" + Spelled(n, k, false) + "__" + suffixA, []);
      var b := MigrationFile("V" + Spelled(n, 0, false) + "__" + suffixB, []);
      IsMigration(a) && IsMigration(b) && Version(a) == Version(b) == n &&
      VersionKey(a.name) != VersionKey(b.name)
  {
    ValidNameAccepted(n, k, false, suffixA);
    ValidNameAccepted(n, 0, false, suffixB);
    assert |Spelled(n, k, false)| != |Spelled(n, 0, false)|;
  }
}
