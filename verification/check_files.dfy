/**
  `check_files.py`: which uploaded shop files the `art` table still refers to.
  The paths stored in the four path columns are collected into a set; each
  file of each upload folder is turned into the stored form of its path and
  counted as referenced or orphaned.
 */
module CheckFiles {
  import opened Base
  import opened Strings
  import opened Sql

  /** The upload folders, in the order they are reported. */
  const Folders: seq<string> := ["thumbs", "examples", "owned", "original"]
  const UploadRoot: string := "static/uploads/shop"
  const StaticDir: string := "static/"

  // ---------------------------------------------------------------------------
  // The stored paths.

  /** Every value of a row set, flattened row by row. */
  function Flatten(rows: seq<seq<Value>>): (vs: seq<Value>)
    ensures forall v :: v in vs <==> exists i :: 0 <= i < |rows| && v in rows[i]
  {
    if |rows| == 0 then []
    else
      var rest := Flatten(rows[1..]);
      assert forall i :: 0 <= i < |rows[1..]| ==> rows[1..][i] == rows[i + 1];
      rows[0] + rest
  }

  /** `all_db_files`: the truthy values of the path columns of every `art` row
      (NULL and the empty string are skipped). */
  function DbPaths(rows: seq<seq<Value>>): (paths: set<Value>)
    ensures forall v :: v in paths <==> Truthy(v) && exists i :: 0 <= i < |rows| && v in rows[i]
  {
    var vs := Flatten(rows);
    set v | v in vs && Truthy(v)
  }

  // ---------------------------------------------------------------------------
  // Normalising a file path.

  /** `str(upload_root / folder / name)` on a POSIX system. */
  function FilePath(folder: string, name: string): string {
    UploadRoot + "/" + folder + "/" + name
  }

  /** `.replace('\\', '/').replace('static/', '')`. */
  function Normalise(p: string): (q: string)
    ensures '\\' !in q
  {
    var slashed := ReplaceAll(p, "\\", "/");
    ReplaceCharRemovesIt(p, '\\', '/');
    RemovalKeepsCharsOut(slashed, StaticDir, '\\');
    ReplaceAll(slashed, StaticDir, "")
  }

  /** Deleting occurrences of a pattern adds no character. */
  lemma {:induction false} RemovalKeepsCharsOut(s: string, pat: string, c: char)
    requires |pat| > 0 && c !in s
    ensures c !in ReplaceAll(s, pat, "")
    decreases |s|
  {
    if |s| > 0 {
      assert forall x :: x in s[1..] ==> x in s;
      if StartsWith(s, pat) {
        assert forall x :: x in s[|pat|..] ==> x in s;
        RemovalKeepsCharsOut(s[|pat|..], pat, c);
      } else {
        RemovalKeepsCharsOut(s[1..], pat, c);
      }
    }
  }

  /** Every `static/` is removed, not only a leading one: the result is the
      pieces between occurrences, none of which contains `static/`. */
  lemma NormaliseRemovesEveryStatic(p: string)
    ensures var pieces := Split(ReplaceAll(p, "\\", "/"), StaticDir);
      Normalise(p) == Join(pieces, "")
      && forall i :: 0 <= i < |pieces| ==> !Contains(pieces[i], StaticDir)
  {
    ReplaceAllIsSplitJoin(ReplaceAll(p, "\\", "/"), StaticDir, "");
    SplitSegmentsAvoidPattern(ReplaceAll(p, "\\", "/"), StaticDir);
  }

  /** The usual case: a file `name` in `folder`, with no backslash and no
      further `static/`, is looked up as `uploads/shop/<folder>/<name>`. */
  lemma NormaliseShopFile(folder: string, name: string)
    requires '\\' !in folder && '\\' !in name
    requires !Contains("uploads/shop/" + folder + "/" + name, StaticDir)
    ensures Normalise(FilePath(folder, name)) == "uploads/shop/" + folder + "/" + name
  {
    var shop := "uploads/shop/";
    var rest := shop + folder + "/" + name;
    var p := FilePath(folder, name);
    assert UploadRoot + "/" == StaticDir + shop;
    assert p == StaticDir + rest by {
      var tail := folder + "/" + name;
      assert rest == shop + tail;
      assert p == (UploadRoot + "/") + tail;
      assert (StaticDir + shop) + tail == StaticDir + (shop + tail);
    }
    assert '\\' !in rest by {
      assert '\\' !in "uploads/shop/" && '\\' !in "/";
    }
    assert '\\' !in p by {
      assert '\\' !in StaticDir;
    }
    MissingCharNotContained(p, '\\');
    ReplaceAbsent(p, "\\", "/");
    assert StartsWith(p, StaticDir) && p[|StaticDir|..] == rest;
    assert ReplaceAll(p, StaticDir, "") == ReplaceAll(rest, StaticDir, "");
    ReplaceAbsent(rest, StaticDir, "");
  }

  // ---------------------------------------------------------------------------
  // Classifying the files of one folder.

  /** A file is referenced when its normalised path is a stored path. */
  predicate Referenced(paths: set<Value>, folder: string, name: string) {
    Text(Normalise(FilePath(folder, name))) in paths
  }

  /** Reference definition of the orphan list: the unreferenced names, in
      listing order. */
  function Orphans(paths: set<Value>, folder: string, names: seq<string>): (o: seq<string>)
    ensures |o| <= |names|
    ensures forall n :: n in o <==> n in names && !Referenced(paths, folder, n)
  {
    if |names| == 0 then []
    else
      var last := names[|names| - 1];
      var prior := Orphans(paths, folder, names[..|names| - 1]);
      assert forall n :: n in names <==> n in names[..|names| - 1] || n == last by {
        assert names == names[..|names| - 1] + [last];
      }
      if Referenced(paths, folder, last) then prior else prior + [last]
  }

  /** The loop over `files`: each file adds one to `referenced` or its name to
      `orphaned`. */
  method Classify(paths: set<Value>, folder: string, names: seq<string>) returns (referenced: nat, orphaned: seq<string>)
    ensures orphaned == Orphans(paths, folder, names)
    ensures referenced + |orphaned| == |names|
    ensures referenced == |FilterReferenced(paths, folder, names)|
    ensures forall n :: n in orphaned <==> n in names && !Referenced(paths, folder, n)
  {
    referenced := 0;
    orphaned := [];
    var i := 0;
    while i < |names|
      invariant 0 <= i <= |names|
      invariant orphaned == Orphans(paths, folder, names[..i])
      invariant referenced + |orphaned| == i
      invariant referenced == |FilterReferenced(paths, folder, names[..i])|
    {
      assert names[..i + 1][..i] == names[..i];
      if Referenced(paths, folder, names[i]) {
        referenced := referenced + 1;
      } else {
        orphaned := orphaned + [names[i]];
      }
      i := i + 1;
    }
    assert names[..|names|] == names;
  }

  /** Every file is counted once: as referenced or as orphaned, never both. */
  lemma {:induction false} ReferencedCount(paths: set<Value>, folder: string, names: seq<string>)
    ensures |FilterReferenced(paths, folder, names)| + |Orphans(paths, folder, names)| == |names|
    decreases |names|
  {
    if |names| > 0 {
      ReferencedCount(paths, folder, names[..|names| - 1]);
    }
  }

  /** The referenced names, in listing order. */
  function FilterReferenced(paths: set<Value>, folder: string, names: seq<string>): (r: seq<string>)
    ensures forall n :: n in r <==> n in names && Referenced(paths, folder, n)
  {
    if |names| == 0 then []
    else
      var prior := FilterReferenced(paths, folder, names[..|names| - 1]);
      var last := names[|names| - 1];
      assert forall n :: n in names <==> n in names[..|names| - 1] || n == last by {
        assert names == names[..|names| - 1] + [last];
      }
      if Referenced(paths, folder, last) then prior + [last] else prior
  }

  // ---------------------------------------------------------------------------
  // Reporting.

  /** One line under "Orphaned": a file name, or the count of names not shown. */
  datatype DisplayLine = Item(name: string) | More(count: int)

  /** How many orphans a display accounts for. */
  function Accounted(lines: seq<DisplayLine>): nat {
    if |lines| == 0 then 0
    else (match lines[0] case Item(_) => 1 case More(c) => if c > 0 then c else 0) + Accounted(lines[1..])
  }

  /** Up to five orphans are listed in full; beyond that the first three are
      listed, followed by `... and <n-3> more`. */
  function OrphanDisplay(orphaned: seq<string>): seq<DisplayLine> {
    if |orphaned| <= 5 then seq(|orphaned|, k requires 0 <= k < |orphaned| => Item(orphaned[k]))
    else [Item(orphaned[0]), Item(orphaned[1]), Item(orphaned[2]), More(|orphaned| - 3)]
  }

  /** The display accounts for every orphan exactly once. */
  lemma OrphanDisplayAccountsForAll(orphaned: seq<string>)
    ensures Accounted(OrphanDisplay(orphaned)) == |orphaned|
  {
    var lines := OrphanDisplay(orphaned);
    if |orphaned| <= 5 {
      AllItemsAccounted(lines);
    } else {
      assert lines[3..] == [More(|orphaned| - 3)];
      assert Accounted(lines[3..]) == |orphaned| - 3 by {
        assert lines[3..][1..] == [];
      }
      assert lines[2..][1..] == lines[3..] && lines[2..][0].Item?;
      assert Accounted(lines[2..]) == 1 + Accounted(lines[3..]);
      assert lines[1..][1..] == lines[2..] && lines[1..][0].Item?;
      assert Accounted(lines[1..]) == 1 + Accounted(lines[2..]);
      assert Accounted(lines) == 1 + Accounted(lines[1..]);
    }
  }

  /** The display never runs past five lines or past the orphan count; the
      named lines are the first orphans in listing order, and only the last
      line can be a count. */
  lemma OrphanDisplayShape(orphaned: seq<string>)
    ensures |OrphanDisplay(orphaned)| <= 5 && |OrphanDisplay(orphaned)| <= |orphaned|
    ensures forall k :: 0 <= k < |OrphanDisplay(orphaned)| && OrphanDisplay(orphaned)[k].Item? ==>
              OrphanDisplay(orphaned)[k].name == orphaned[k]
    ensures forall k :: 0 <= k < |OrphanDisplay(orphaned)| - 1 ==> OrphanDisplay(orphaned)[k].Item?
  {
  }

  lemma {:induction false} AllItemsAccounted(lines: seq<DisplayLine>)
    requires forall k :: 0 <= k < |lines| ==> lines[k].Item?
    ensures Accounted(lines) == |lines|
    decreases |lines|
  {
    if |lines| > 0 {
      AllItemsAccounted(lines[1..]);
    }
  }

  /** What is printed for one folder. */
  datatype FolderReport =
    | Missing(folder: string)
    | Counted(folder: string, total: nat, referenced: nat, orphaned: seq<string>, display: seq<DisplayLine>)

  /** Reference definition of the report for one folder: `listing` is `None`
      when the folder does not exist, otherwise the names `glob('*')` yields. */
  function ExpectedReport(paths: set<Value>, folder: string, listing: Option<seq<string>>): FolderReport {
    match listing
    case None => Missing(folder)
    case Some(names) =>
      var orphaned := Orphans(paths, folder, names);
      Counted(folder, |names|, |FilterReferenced(paths, folder, names)|, orphaned, OrphanDisplay(orphaned))
  }

  /** The listing of `folder`, `None` when it does not exist. */
  function Listing(uploads: map<string, seq<string>>, folder: string): Option<seq<string>> {
    if folder in uploads then Some(uploads[folder]) else None
  }

  /** One iteration of the folder loop: a missing folder is reported and
      skipped; otherwise every file is counted once. */
  method CheckFolder(paths: set<Value>, folder: string, listing: Option<seq<string>>) returns (report: FolderReport)
    ensures report == ExpectedReport(paths, folder, listing)
    ensures listing.None? <==> report == Missing(folder)
    ensures report.Counted? ==> report.referenced + |report.orphaned| == report.total
  {
    if listing.None? {
      return Missing(folder);
    }
    var referenced, orphaned := Classify(paths, folder, listing.value);
    report := Counted(folder, |listing.value|, referenced, orphaned, OrphanDisplay(orphaned));
  }

  /** `owned_sources`: the query keeps non-NULL, non-empty `source` values and
      the loop keeps the truthy ones. */
  function OwnerSources(sources: seq<Value>): (owned: set<Value>)
    ensures forall v :: v in owned <==> v in sources && Truthy(v)
  {
    set v | v in sources && v != Null && v != Text("") && Truthy(v)
  }

  /** The whole script: the stored-path count, one report per folder in
      `Folders` order, and the owner-copy count. `uploads` maps a folder name to
      its listing; a folder absent from it does not exist. */
  method CheckAll(artRows: seq<seq<Value>>, uploads: map<string, seq<string>>, sources: seq<Value>)
    returns (dbFiles: nat, reports: seq<FolderReport>, ownedCount: nat)
    ensures dbFiles == |DbPaths(artRows)|
    ensures |reports| == |Folders|
    ensures forall k :: 0 <= k < |Folders| ==> reports[k] == ExpectedReport(DbPaths(artRows), Folders[k], Listing(uploads, Folders[k]))
    ensures ownedCount == |OwnerSources(sources)|
  {
    var paths := DbPaths(artRows);
    dbFiles := |paths|;
    reports := [];
    var i := 0;
    while i < |Folders|
      invariant 0 <= i <= |Folders| && |reports| == i
      invariant forall k :: 0 <= k < i ==> reports[k] == ExpectedReport(paths, Folders[k], Listing(uploads, Folders[k]))
    {
      var report := CheckFolder(paths, Folders[i], Listing(uploads, Folders[i]));
      reports := reports + [report];
      i := i + 1;
    }
    ownedCount := |OwnerSources(sources)|;
  }
}
