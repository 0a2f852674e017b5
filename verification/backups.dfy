/**
  Backup rotation of `backup_utils.py`. A backup is a file in the backup
  directory whose name starts with `beevy.db.bak.`; by default the rest of the
  name is a `YYYYmmddHHMMSS` timestamp, so sorting names in descending string
  order lists the newest backup first.
 */
module Backups {
  import opened Base
  import opened Strings
  import opened Sorting

  const BackupPrefix: string := "beevy.db.bak."

  // ---------------------------------------------------------------------------
  // Timestamps and default names.

  /** A wall-clock reading as `datetime.now()` returns it, to the second. */
  datatype Stamp = Stamp(year: nat, month: nat, day: nat, hour: nat, minute: nat, second: nat)

  /** The ranges `datetime` guarantees for its fields. */
  predicate ValidStamp(t: Stamp) {
    1 <= t.year <= 9999 && 1 <= t.month <= 12 && 1 <= t.day <= 31
    && t.hour <= 23 && t.minute <= 59 && t.second <= 59
  }

  /** Chronological order: compare year, then month, and so on down to the second. */
  predicate Earlier(a: Stamp, b: Stamp) {
    a.year < b.year || (a.year == b.year && EarlierFromMonth(a, b))
  }

  predicate EarlierFromMonth(a: Stamp, b: Stamp) {
    a.month < b.month || (a.month == b.month && EarlierFromDay(a, b))
  }

  predicate EarlierFromDay(a: Stamp, b: Stamp) {
    a.day < b.day || (a.day == b.day && EarlierFromHour(a, b))
  }

  predicate EarlierFromHour(a: Stamp, b: Stamp) {
    a.hour < b.hour || (a.hour == b.hour && EarlierFromMinute(a, b))
  }

  predicate EarlierFromMinute(a: Stamp, b: Stamp) {
    a.minute < b.minute || (a.minute == b.minute && a.second < b.second)
  }

  /** The digits of a stamp from the minute on, from the hour on, and so on. */
  function MinuteText(t: Stamp): string { Digits(t.minute, 2) + Digits(t.second, 2) }
  function HourText(t: Stamp): string { Digits(t.hour, 2) + MinuteText(t) }
  function DayText(t: Stamp): string { Digits(t.day, 2) + HourText(t) }
  function MonthText(t: Stamp): string { Digits(t.month, 2) + DayText(t) }

  /** `strftime('%Y%m%d%H%M%S')`: fourteen zero-padded digits. */
  function StampText(t: Stamp): (s: string)
    ensures |s| == 14
  {
    Digits(t.year, 4) + MonthText(t)
  }

  /** The name `backup_database` picks when none is supplied. */
  function DefaultBackupName(t: Stamp): string {
    BackupPrefix + StampText(t)
  }

  /** The glob `beevy.db.bak.*`. */
  predicate IsBackupName(name: string) {
    StartsWith(name, BackupPrefix)
  }

  /** One step of the order proof: comparing a fixed-width field followed by a tail. */
  lemma FieldThenTail(a: nat, b: nat, w: nat, ra: string, rb: string)
    requires a < Pow10(w) && b < Pow10(w)
    ensures LexLess(Digits(a, w) + ra, Digits(b, w) + rb) <==> a < b || (a == b && LexLess(ra, rb))
    ensures Digits(a, w) + ra == Digits(b, w) + rb <==> a == b && ra == rb
  {
    DigitsOrder(a, b, w);
    LexConcat(Digits(a, w), ra, Digits(b, w), rb);
    if Digits(a, w) + ra == Digits(b, w) + rb {
      assert (Digits(a, w) + ra)[..w] == Digits(a, w);
      assert (Digits(b, w) + rb)[..w] == Digits(b, w);
      assert (Digits(a, w) + ra)[w..] == ra;
      assert (Digits(b, w) + rb)[w..] == rb;
    }
  }

  lemma MinuteTextOrder(a: Stamp, b: Stamp)
    requires ValidStamp(a) && ValidStamp(b)
    ensures LexLess(MinuteText(a), MinuteText(b)) <==> EarlierFromMinute(a, b)
    ensures MinuteText(a) == MinuteText(b) <==> a.minute == b.minute && a.second == b.second
  {
    assert Pow10(2) == 100;
    FieldThenTail(a.minute, b.minute, 2, Digits(a.second, 2), Digits(b.second, 2));
    DigitsOrder(a.second, b.second, 2);
  }

  lemma HourTextOrder(a: Stamp, b: Stamp)
    requires ValidStamp(a) && ValidStamp(b)
    ensures LexLess(HourText(a), HourText(b)) <==> EarlierFromHour(a, b)
    ensures HourText(a) == HourText(b) <==> a.hour == b.hour && MinuteText(a) == MinuteText(b)
  {
    assert Pow10(2) == 100;
    MinuteTextOrder(a, b);
    FieldThenTail(a.hour, b.hour, 2, MinuteText(a), MinuteText(b));
  }

  lemma DayTextOrder(a: Stamp, b: Stamp)
    requires ValidStamp(a) && ValidStamp(b)
    ensures LexLess(DayText(a), DayText(b)) <==> EarlierFromDay(a, b)
    ensures DayText(a) == DayText(b) <==> a.day == b.day && HourText(a) == HourText(b)
  {
    assert Pow10(2) == 100;
    HourTextOrder(a, b);
    FieldThenTail(a.day, b.day, 2, HourText(a), HourText(b));
  }

  lemma MonthTextOrder(a: Stamp, b: Stamp)
    requires ValidStamp(a) && ValidStamp(b)
    ensures LexLess(MonthText(a), MonthText(b)) <==> EarlierFromMonth(a, b)
    ensures MonthText(a) == MonthText(b) <==> a.month == b.month && DayText(a) == DayText(b)
  {
    assert Pow10(2) == 100;
    DayTextOrder(a, b);
    FieldThenTail(a.month, b.month, 2, DayText(a), DayText(b));
  }

  /** Default backup names sort, as strings, exactly in chronological order, so
      "descending by name" is "newest first". */
  lemma DefaultNamesSortChronologically(a: Stamp, b: Stamp)
    requires ValidStamp(a) && ValidStamp(b)
    ensures LexLess(DefaultBackupName(a), DefaultBackupName(b)) <==> Earlier(a, b)
    ensures DefaultBackupName(a) == DefaultBackupName(b) <==> a == b
  {
    assert Pow10(4) == 10000 by {
      assert Pow10(2) == 100;
    }
    MonthTextOrder(a, b);
    DayTextOrder(a, b);
    HourTextOrder(a, b);
    MinuteTextOrder(a, b);
    FieldThenTail(a.year, b.year, 4, MonthText(a), MonthText(b));
    LexConcat(BackupPrefix, StampText(a), BackupPrefix, StampText(b));
    if DefaultBackupName(a) == DefaultBackupName(b) {
      assert DefaultBackupName(a)[|BackupPrefix|..] == StampText(a);
      assert DefaultBackupName(b)[|BackupPrefix|..] == StampText(b);
    }
  }

  // ---------------------------------------------------------------------------
  // Listing.

  /** The names the glob matches, in listing order. */
  function MatchingBackups(names: seq<string>): (r: seq<string>)
    ensures forall x :: x in r <==> x in names && IsBackupName(x)
    ensures |r| <= |names|
  {
    if |names| == 0 then []
    else (if IsBackupName(names[0]) then [names[0]] else []) + MatchingBackups(names[1..])
  }

  /** `backup_dir / name` rendered with `str`: an absolute name replaces the
      directory, an empty one leaves it. */
  function PathJoin(dir: string, name: string): string {
    if |name| == 0 then dir
    else if name[0] == '/' then name
    else if EndsWith(dir, "/") then dir + name
    else dir + "/" + name
  }

  /** The backup directory: its path and the names of its entries. */
  datatype BackupDir = BackupDir(path: string, names: seq<string>)

  /** One element of `get_backups_list`; the size in megabytes is not modelled. */
  datatype BackupEntry = BackupEntry(name: string, path: string)

  function EntryNames(entries: seq<BackupEntry>): (r: seq<string>)
    ensures |r| == |entries|
    ensures forall i :: 0 <= i < |entries| ==> r[i] == entries[i].name
  {
    if |entries| == 0 then [] else [entries[0].name] + EntryNames(entries[1..])
  }

  function Entries(dir: string, names: seq<string>): (r: seq<BackupEntry>)
    ensures |r| == |names|
    ensures forall i :: 0 <= i < |names| ==> r[i] == BackupEntry(names[i], PathJoin(dir, names[i]))
  {
    if |names| == 0 then [] else [BackupEntry(names[0], PathJoin(dir, names[0]))] + Entries(dir, names[1..])
  }

  /** `get_backups_list`: every matching entry, newest name first; `None` for the
      directory stands for any exception, which yields the empty list. */
  function BackupsList(dir: Option<BackupDir>): (r: seq<BackupEntry>)
    ensures dir.None? ==> r == []
    ensures dir.Some? ==> multiset(EntryNames(r)) == multiset(MatchingBackups(dir.value.names))
    ensures SortedDesc(EntryNames(r))
    ensures forall i :: 0 <= i < |r| ==> IsBackupName(r[i].name)
    ensures dir.Some? ==> forall i :: 0 <= i < |r| ==> r[i].path == PathJoin(dir.value.path, r[i].name)
  {
    match dir
    case None => []
    case Some(d) =>
      var sorted := SortDesc(MatchingBackups(d.names));
      var r := Entries(d.path, sorted);
      assert EntryNames(r) == sorted;
      forall i | 0 <= i < |r| ensures IsBackupName(r[i].name) {
        assert sorted[i] in multiset(sorted);
      }
      r
  }

  /** Default-named backups are listed newest first. */
  lemma BackupsListNewestFirst(d: BackupDir, i: nat, j: nat, ti: Stamp, tj: Stamp)
    requires i < j < |BackupsList(Some(d))|
    requires ValidStamp(ti) && ValidStamp(tj)
    ensures BackupsList(Some(d))[i].name == DefaultBackupName(ti) && BackupsList(Some(d))[j].name == DefaultBackupName(tj)
            ==> !Earlier(ti, tj)
  {
    var names := EntryNames(BackupsList(Some(d)));
    assert !LexLess(names[i], names[j]);
    DefaultNamesSortChronologically(ti, tj);
  }

  // ---------------------------------------------------------------------------
  // Cleanup.

  /** Python's `s[k:]`, where a negative `k` counts from the end. */
  function SliceFrom(s: seq<string>, k: int): seq<string> {
    if k >= 0 then (if k <= |s| then s[k..] else [])
    else if -k <= |s| then s[|s| + k..]
    else s
  }

  /** The `unlink` of the `index`-th doomed file raises with `error`. */
  datatype UnlinkFailure = UnlinkFailure(index: nat, error: string)

  /** What `cleanup_old_backups` reports and which files it actually removed. */
  datatype CleanupResult = CleanupResult(removedCount: int, deleted: seq<string>, message: string)

  /** The names `cleanup_old_backups` unlinks: `sorted(matching, reverse=True)[keep_count:]`. */
  function Doomed(names: seq<string>, keepCount: int): seq<string> {
    SliceFrom(SortDesc(MatchingBackups(names)), keepCount)
  }

  /** `s[k:]` is a suffix whose length follows Python's slice bounds. */
  lemma SliceFromIsSuffix(s: seq<string>, k: int)
    ensures |SliceFrom(s, k)| <= |s|
    ensures SliceFrom(s, k) == s[|s| - |SliceFrom(s, k)|..]
    ensures k >= 0 ==> |SliceFrom(s, k)| == (if |s| > k then |s| - k else 0)
    ensures k < 0 ==> |SliceFrom(s, k)| == (if -k < |s| then -k else |s|)
  {
  }

  /** In a descending sequence, nothing outside a suffix is smaller than
      anything inside it. */
  lemma SuffixHoldsSmallest(sorted: seq<string>, start: nat, x: string, y: string)
    requires SortedDesc(sorted) && start <= |sorted|
    requires x in sorted && x !in sorted[start..] && y in sorted[start..]
    ensures !LexLess(x, y)
  {
    var i :| 0 <= i < |sorted| && sorted[i] == x;
    var j :| 0 <= j < |sorted| - start && sorted[start..][j] == y;
    assert sorted[start + j] == y;
  }

  /** What the doomed names are: matching names, as many as the slice bounds
      say, and none of them newer than a name that survives. */
  lemma DoomedFacts(names: seq<string>, keepCount: int)
    ensures forall x :: x in Doomed(names, keepCount) ==> x in names && IsBackupName(x)
    ensures keepCount >= 0 ==>
              |Doomed(names, keepCount)| == (if |MatchingBackups(names)| > keepCount then |MatchingBackups(names)| - keepCount else 0)
    ensures keepCount < 0 ==>
              |Doomed(names, keepCount)| == (if -keepCount < |MatchingBackups(names)| then -keepCount else |MatchingBackups(names)|)
    ensures forall x, y :: x in MatchingBackups(names) && x !in Doomed(names, keepCount) && y in Doomed(names, keepCount) ==> !LexLess(x, y)
  {
    var m := MatchingBackups(names);
    var sorted := SortDesc(m);
    var doomed := Doomed(names, keepCount);
    assert |sorted| == |m| by {
      assert |sorted| == |multiset(sorted)| == |multiset(m)| == |m|;
    }
    SliceFromIsSuffix(sorted, keepCount);
    var start := |sorted| - |doomed|;
    assert doomed == sorted[start..];
    forall x | x in doomed ensures x in m {
      assert x in multiset(sorted);
    }
    forall x, y | x in m && x !in doomed && y in doomed
      ensures !LexLess(x, y)
    {
      assert x in multiset(sorted);
      SuffixHoldsSmallest(sorted, start, x, y);
    }
  }

  /** The failing `unlink` is reached: its index names one of the doomed files. */
  predicate UnlinkRaises(names: seq<string>, keepCount: int, failure: Option<UnlinkFailure>) {
    failure.Some? && failure.value.index < |Doomed(names, keepCount)|
  }

  /** `cleanup_old_backups(keep_count)`: sort matching names descending and delete
      `sorted[keep_count:]`. `dir` is `Err` when listing the directory raised;
      `failure` makes one `unlink` raise, after which the reported count is 0
      although the earlier deletions stand. */
  function CleanupOldBackups(dir: Result<seq<string>, string>, keepCount: int, failure: Option<UnlinkFailure>): (r: CleanupResult)
    ensures dir.Err? ==> r.removedCount == 0 && r.deleted == []
    ensures dir.Ok? ==> forall x :: x in r.deleted ==> x in dir.value && IsBackupName(x)
    ensures r.removedCount == |r.deleted| || r.removedCount == 0
    ensures dir.Ok? && UnlinkRaises(dir.value, keepCount, failure) ==>
              r.removedCount == 0 && r.deleted == Doomed(dir.value, keepCount)[..failure.value.index]
    ensures dir.Ok? && !UnlinkRaises(dir.value, keepCount, failure) ==> r.removedCount == |r.deleted|
    ensures dir.Ok? && !UnlinkRaises(dir.value, keepCount, failure) && keepCount >= 0 ==>
              r.removedCount == (if |MatchingBackups(dir.value)| > keepCount then |MatchingBackups(dir.value)| - keepCount else 0)
    ensures dir.Ok? && !UnlinkRaises(dir.value, keepCount, failure) && keepCount < 0 ==>
              r.removedCount == (if -keepCount < |MatchingBackups(dir.value)| then -keepCount else |MatchingBackups(dir.value)|)
    ensures dir.Ok? && !UnlinkRaises(dir.value, keepCount, failure) ==>
              forall x, y :: x in MatchingBackups(dir.value) && x !in r.deleted && y in r.deleted ==> !LexLess(x, y)
  {
    match dir
    case Err(e) => CleanupResult(0, [], "Cleanup failed: " + e)
    case Ok(names) =>
      var doomed := Doomed(names, keepCount);
      DoomedFacts(names, keepCount);
      if UnlinkRaises(names, keepCount, failure) then
        assert forall x :: x in doomed[..failure.value.index] ==> x in doomed;
        CleanupResult(0, doomed[..failure.value.index], "Cleanup failed: " + failure.value.error)
      else
        CleanupResult(|doomed|, doomed, "Cleaned up " + IntToDecimal(|doomed|) + " old backups (keeping " + IntToDecimal(keepCount) + ")")
  }

  /** The directory after the given files are unlinked. */
  function Without(names: seq<string>, gone: seq<string>): (r: seq<string>)
    ensures forall x :: x in r <==> x in names && x !in gone
  {
    if |names| == 0 then []
    else (if names[0] in gone then [] else [names[0]]) + Without(names[1..], gone)
  }

  lemma {:induction false} MatchingDistinct(names: seq<string>)
    requires Distinct(names)
    ensures Distinct(MatchingBackups(names))
  {
    if |names| > 0 {
      MatchingDistinct(names[1..]);
      assert names[0] !in names[1..];
    }
  }

  lemma {:induction false} WithoutDistinct(names: seq<string>, gone: seq<string>)
    requires Distinct(names)
    ensures Distinct(Without(names, gone))
  {
    if |names| > 0 {
      WithoutDistinct(names[1..], gone);
      assert names[0] !in names[1..];
    }
  }

  /** The matching names after an unlink are the matching names not unlinked. */
  lemma {:induction false} MatchingWithout(names: seq<string>, gone: seq<string>)
    ensures MatchingBackups(Without(names, gone)) == Without(MatchingBackups(names), gone)
  {
    if |names| > 0 {
      var h, t := names[0], names[1..];
      MatchingWithout(t, gone);
      var w, m := Without(names, gone), MatchingBackups(names);
      if h in gone {
        assert w == Without(t, gone);
        if IsBackupName(h) {
          assert m[0] == h && m[1..] == MatchingBackups(t);
        } else {
          assert m == MatchingBackups(t);
        }
      } else {
        assert w[0] == h && w[1..] == Without(t, gone);
        if IsBackupName(h) {
          assert m[0] == h && m[1..] == MatchingBackups(t);
          assert MatchingBackups(w) == [h] + MatchingBackups(w[1..]);
          assert Without(m, gone) == [h] + Without(m[1..], gone);
        } else {
          assert m == MatchingBackups(t);
          assert MatchingBackups(w) == MatchingBackups(w[1..]);
        }
      }
    }
  }

  /** Of distinct names, those outside `sorted[k:]` number at most `k`. */
  lemma SurvivorsFewEnough(m: seq<string>, keepCount: int)
    requires Distinct(m) && keepCount >= 0
    ensures |Without(m, SliceFrom(SortDesc(m), keepCount))| <= keepCount
  {
    var sorted := SortDesc(m);
    var doomed := SliceFrom(sorted, keepCount);
    var left := Without(m, doomed);
    WithoutDistinct(m, doomed);
    if |sorted| > keepCount {
      var kept := sorted[..keepCount];
      assert sorted == kept + doomed;
      forall x | x in left ensures x in kept {
        assert x in multiset(sorted);
      }
      DistinctNoLonger(left, kept);
    } else {
      assert |sorted| == |m| by {
        assert |sorted| == |multiset(sorted)| == |multiset(m)| == |m|;
      }
      DistinctNoLonger(left, m);
    }
  }

  /** Running cleanup again on what the first run left, with the same
      non-negative `keep_count`, deletes nothing. */
  lemma CleanupIdempotent(names: seq<string>, keepCount: int)
    requires Distinct(names) && keepCount >= 0
    ensures
      var first := CleanupOldBackups(Ok(names), keepCount, None);
      var second := CleanupOldBackups(Ok(Without(names, first.deleted)), keepCount, None);
      second.removedCount == 0 && second.deleted == []
  {
    var first := CleanupOldBackups(Ok(names), keepCount, None);
    var m := MatchingBackups(names);
    assert first.deleted == SliceFrom(SortDesc(m), keepCount);
    MatchingDistinct(names);
    MatchingWithout(names, first.deleted);
    SurvivorsFewEnough(m, keepCount);
  }

  /** Unlinking one name of a duplicate-free listing shortens it by one. */
  lemma {:induction false} WithoutOne(m: seq<string>, x: string)
    requires Distinct(m) && x in m
    ensures |Without(m, [x])| == |m| - 1
  {
    if m[0] == x {
      assert x !in m[1..];
      WithoutAbsent(m[1..], x);
    } else {
      WithoutOne(m[1..], x);
    }
  }

  lemma {:induction false} WithoutAbsent(m: seq<string>, x: string)
    requires x !in m
    ensures Without(m, [x]) == m
  {
    if |m| > 0 {
      assert m[0] != x;
      WithoutAbsent(m[1..], x);
    }
  }

  /** With a negative `keep_count` the slice counts from the end, so a second
      run deletes again: with -1 and at least two backups, each run removes one. */
  lemma CleanupRepeatsForNegativeKeep(names: seq<string>)
    requires Distinct(names) && |MatchingBackups(names)| >= 2
    ensures
      var first := CleanupOldBackups(Ok(names), -1, None);
      var second := CleanupOldBackups(Ok(Without(names, first.deleted)), -1, None);
      first.removedCount == 1 && second.removedCount == 1
  {
    var first := CleanupOldBackups(Ok(names), -1, None);
    var m := MatchingBackups(names);
    DoomedFacts(names, -1);
    assert |first.deleted| == 1;
    var x := first.deleted[0];
    assert first.deleted == [x];
    assert x in m;
    MatchingDistinct(names);
    MatchingWithout(names, first.deleted);
    WithoutOne(m, x);
  }

  /** Cleanup removes the oldest default-named backups: no deleted backup is
      newer than one that survives. */
  lemma CleanupRemovesOldest(names: seq<string>, keepCount: int, kept: Stamp, deleted: Stamp)
    requires ValidStamp(kept) && ValidStamp(deleted)
    ensures DefaultBackupName(kept) in names
            && DefaultBackupName(kept) !in CleanupOldBackups(Ok(names), keepCount, None).deleted
            && DefaultBackupName(deleted) in CleanupOldBackups(Ok(names), keepCount, None).deleted
            ==> !Earlier(kept, deleted)
  {
    var x := DefaultBackupName(kept);
    if x in names {
      assert IsBackupName(x) by {
        assert x[..|BackupPrefix|] == BackupPrefix;
      }
      assert x in MatchingBackups(names);
      DefaultNamesSortChronologically(kept, deleted);
    }
  }

  // ---------------------------------------------------------------------------
  // Making a backup.

  /** What `backup_database` returns, plus the file the copy left behind. */
  datatype BackupOutcome = BackupOutcome(success: bool, path: Option<string>, message: string, written: Option<string>)

  /** `os.path.basename`: the text after the last `/`. */
  function BaseName(p: string): (b: string)
    ensures '/' !in b
    ensures |b| <= |p| && p[|p| - |b|..] == b
    ensures |b| < |p| ==> p[|p| - |b| - 1] == '/'
  {
    if |p| == 0 || p[|p| - 1] == '/' then ""
    else BaseName(p[..|p| - 1]) + [p[|p| - 1]]
  }

  /** `os.path.join(a, b)` for two parts. */
  function OsPathJoin(a: string, b: string): string {
    if |b| > 0 && b[0] == '/' then b
    else if |a| == 0 || EndsWith(a, "/") then a + b
    else a + "/" + b
  }

  /** The file `shutil.copy2(src, dst)` writes: `dst` itself, or, when `dst` is
      a directory, the entry of that directory named like `src`. */
  function CopyDestination(src: string, dst: string, dstIsDir: bool): string {
    if dstIsDir then OsPathJoin(dst, BaseName(src)) else dst
  }

  /** `backup_database(db_path, backup_name)`. `backupDir` is `Err` when creating
      the backup directory raised; `dirs` holds the paths inside it that are
      directories; `copyError` is set when the copy raised, and `leftBehind`
      says whether the failed copy had already created its target; `now` is the
      clock reading used for a default name. */
  function BackupDatabase(dbPath: string, dbExists: bool, backupDir: Result<string, string>, dirs: set<string>,
                          backupName: Option<string>, now: Stamp, copyError: Option<string>, leftBehind: bool): (r: BackupOutcome)
    ensures !dbExists ==> r == BackupOutcome(false, None, "Database file not found: " + dbPath, None)
    ensures r.success <==> dbExists && backupDir.Ok? && copyError.None?
    ensures !r.success ==> r.path == None
    ensures r.success ==> r.path.Some? && r.message == "Database backed up to: " + r.path.value
    ensures r.success && backupName.Some? ==> r.path == Some(PathJoin(backupDir.value, backupName.value))
    ensures r.success && backupName.None? ==> r.path == Some(PathJoin(backupDir.value, DefaultBackupName(now)))
    ensures r.written.Some? <==> dbExists && backupDir.Ok? && (copyError.None? || leftBehind)
    ensures r.success && r.path.value != backupDir.value && r.path.value !in dirs ==> r.written == r.path
    ensures r.success && (r.path.value == backupDir.value || r.path.value in dirs) ==>
              r.written == Some(OsPathJoin(r.path.value, BaseName(dbPath)))
  {
    if !dbExists then BackupOutcome(false, None, "Database file not found: " + dbPath, None)
    else match backupDir
      case Err(e) => BackupOutcome(false, None, "Backup failed: " + e, None)
      case Ok(dir) =>
        var name := if backupName.None? then DefaultBackupName(now) else backupName.value;
        var path := PathJoin(dir, name);
        var target := CopyDestination(dbPath, path, path == dir || path in dirs);
        if copyError.Some? then BackupOutcome(false, None, "Backup failed: " + copyError.value, if leftBehind then Some(target) else None)
        else BackupOutcome(true, Some(path), "Database backed up to: " + path, Some(target))
  }

  /** An empty backup name makes the path the backup directory itself, so the
      copy lands inside it under the database's own file name. */
  lemma EmptyNameCopiesIntoDirectory(dbPath: string, dir: string, dirs: set<string>, now: Stamp)
    ensures var r := BackupDatabase(dbPath, true, Ok(dir), dirs, Some(""), now, None, false);
      r.success && r.path == Some(dir) && r.written == Some(OsPathJoin(dir, BaseName(dbPath)))
  {
  }

  /** A default-named backup is written under the path it reports, unless a
      directory of that name is already there. */
  lemma DefaultBackupWritesItsPath(dbPath: string, dir: string, dirs: set<string>, now: Stamp)
    requires PathJoin(dir, DefaultBackupName(now)) !in dirs
    ensures var r := BackupDatabase(dbPath, true, Ok(dir), dirs, None, now, None, false);
      r.success && r.written == r.path && r.path == Some(PathJoin(dir, DefaultBackupName(now)))
  {
    var name := DefaultBackupName(now);
    assert name[0] == 'b';
    assert |PathJoin(dir, name)| > |dir|;
  }

  /** A default-named backup is one the listing and the cleanup consider. */
  lemma DefaultBackupIsListed(d: BackupDir, now: Stamp)
    requires DefaultBackupName(now) in d.names
    ensures DefaultBackupName(now) in EntryNames(BackupsList(Some(d)))
  {
    var x := DefaultBackupName(now);
    assert x[..|BackupPrefix|] == BackupPrefix;
    assert x in MatchingBackups(d.names);
    assert x in multiset(EntryNames(BackupsList(Some(d))));
  }
}
