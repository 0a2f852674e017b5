# BeevyApp helpers in Dafny

This project models the small, deterministic helpers of the BeevyApp drawing
shop and proves properties of them. The helpers are the translation catalogue,
database backup rotation, the schema initialiser's preference backfill and
database link, the one-off migration that moves inlined preference columns
into a `preferences` table, and the orphaned-upload report. Every effect
becomes a plain input or output value:

- a directory listing becomes a sequence of names;
- a parsed JSON file becomes a `Json` value;
- the rows of a table become sequences of SQLite values;
- the filesystem state becomes a few booleans;
- `datetime.now()` becomes a `Stamp`.

Files:

- `base.dfy` (`Base`): `Option`, `Result`, duplicate-freedom and set-size lemmas.
- `strings.dfy` (`Strings`): the parts of Python's `str` the helpers use:
  - `split` with a separator;
  - `join`;
  - `replace`;
  - ASCII `upper`;
  - code-point ordering;
  - zero-padded decimal digits.
- `sorting.dfy` (`Sorting`): `sorted(..., reverse=True)` on strings, as an insertion sort.
- `sql.dfy` (`Sql`): SQLite values, their truthiness, and the preferences row with its defaults.
- `translations.dfy` (`Translations`): `translations.py`.
- `backups.dfy` (`Backups`): `backup_utils.py`.
- `init_db.dfy` (`InitDb`): `scripts/init_db.py`.
- `migrate_db.dfy` (`MigrateDb`): `scripts/migrate_db.py`.
- `check_files.dfy` (`CheckFiles`): `check_files.py`.

Notes on the semantics:

- `pathlib`'s `glob('*')` also matches names that start with a dot, so the listings are not filtered for hidden files.
- `sorted` on paths in one directory orders them by name. Python compares strings by code point, and that is what `Strings.LexLess` defines.
- Python's `backups[keep_count:]` with a negative `keep_count` counts from the end. The model does the same.
- An exception caught by the source becomes an `Err` or `None` input that selects the error path.

## Model

| member | source | states |
|---|---|---|
| Translations.LangCode | translations.py:16-18 | A file yields a language code iff its name ends in `.json`, and the code is the name without that suffix. |
| Translations.NameOfCode | translations.py:17-18 | A file name belongs to the code `c` iff it is `c + ".json"`. |
| Translations.LastLoadedExtend | translations.py:16-25 | Reading one more file changes what is loaded only for that file's own code, and only when it parsed. |
| Translations.LoadAllLanguages | translations.py:11-25 | Both dictionaries hold exactly the same codes. A code is loaded iff some file `code.json` parsed, and it holds the last such document. Every friendly name is `LanguageName(code)`. A missing directory loads nothing. |
| Translations.LanguageName | translations.py:27-33 | A code without a fixed name is shown as itself in capitals: the same text up to ASCII case, with no ASCII lower-case letter left. |
| Translations.Lookup | translations.py:43-52 | The walk yields either the default or a truthy value, never a falsy one. |
| Translations.Get | translations.py:35-52 | `get` never fails: it returns the default or a truthy value. |
| Translations.GetAllAgreesWithGet | translations.py:35-56 | For a loaded language, `get` reads exactly the document `get_all` returns. |
| Translations.LanguageExists | translations.py:62-64 | A code exists iff it is listed among the available (friendly-named) languages. |
| Translations.WalkAppend | translations.py:43-50 | Walking a concatenated key path is walking the first part, then the rest. |
| Translations.LookupDescends | translations.py:43-49 | A dotted key `head.rest` descends into the entry under `head` and looks `rest` up there. |
| Translations.LookupNonObject | translations.py:46-50 | Once a non-object is reached (a string, number, list, boolean or null) every key yields the default, since a split key has at least one segment left. |
| Translations.LookupSingleSegment | translations.py:46-52 | A key without dots yields the entry when present and truthy, even a sub-object, and the default otherwise. |
| Translations.LookupMissingSegment | translations.py:46-50 | A dotted key whose first segment is absent yields the default. |
| Translations.GetFallsBackToEnglish | translations.py:40-41 | An unloaded language is looked up in English. |
| Translations.GetAllHasNoFallback | translations.py:54-56 | `get_all` of an unloaded language does not fall back to English: every lookup in it yields the default. |
| Strings.Split | translations.py:43 | `split` always yields at least one segment. |
| Strings.SplitJoinRoundTrip | translations.py:43 | Joining the segments of `key.split(sep)` with `sep` gives back the key, so splitting loses nothing. |
| Strings.ReplaceAllIsSplitJoin | check_files.py:41 | `s.replace(a, b)` equals `b.join(s.split(a))`. |
| Strings.SplitSegmentsAvoidPattern | check_files.py:41 | No segment of `s.split(sep)` contains `sep`. |
| Strings.Upper | translations.py:33 | `upper` keeps the length, and maps ASCII lower-case letters to upper case while keeping every other character. |
| Strings.UpperOnlyChangesCase | translations.py:33 | Upper-casing yields the same text up to ASCII case, with no ASCII lower-case letter left. |
| Strings.DigitsOrder | backup_utils.py:37 | Fixed-width zero-padded decimals compare as strings exactly as the numbers compare. |
| Sorting.SortDesc | backup_utils.py:55 | `sorted(..., reverse=True)` is a permutation of its input in descending string order. |
| Sorting.SortedUnique | backup_utils.py:73 | Two descending permutations of the same names are equal, so the sort order is fully determined. |
| Backups.StampText | backup_utils.py:37 | The timestamp is exactly fourteen characters. |
| Backups.DefaultNamesSortChronologically | backup_utils.py:36-38 | For valid clock readings, default backup names compare as strings exactly as the readings compare in time. Equal names mean equal readings. |
| Backups.MatchingBackups | backup_utils.py:55 | The glob keeps exactly the names that start with `beevy.db.bak.`. |
| Backups.BackupsList | backup_utils.py:51-59 | The listing holds exactly the matching names, newest name first, each with its path in the backup directory. Any failure yields the empty list. |
| Backups.BackupsListNewestFirst | backup_utils.py:55 | Of two default-named backups, the one listed first is not older. |
| Backups.SliceFromIsSuffix | backup_utils.py:76 | `s[k:]` is a suffix of `s`, with length max(0, n-k) for k >= 0 and min(-k, n) for k < 0. |
| Backups.DoomedFacts | backup_utils.py:73-76 | The names picked for deletion are matching names, and there are as many as the slice bounds allow. None of them is greater than a surviving matching name. |
| Backups.CleanupOldBackups | backup_utils.py:61-84 | Only matching names are deleted, and the reported count is the number deleted. That count is max(0, n-keep_count) for keep_count >= 0. Every survivor sorts at or above every deleted name. A listing failure deletes nothing and reports 0. When the `unlink` of the i-th doomed file raises, the first i doomed files stay deleted and the count is reported as 0; a failure index past the doomed files changes nothing. |
| Backups.CleanupIdempotent | backup_utils.py:73-79 | A second cleanup with the same non-negative `keep_count` deletes nothing. |
| Backups.CleanupRepeatsForNegativeKeep | backup_utils.py:76-78 | With `keep_count = -1` and at least two backups, each of two successive runs deletes one backup. |
| Backups.CleanupRemovesOldest | backup_utils.py:73-79 | No deleted default-named backup is newer than a surviving one. |
| Backups.MatchingWithout | backup_utils.py:73-77 | The matching names after unlinking are the matching names that were not unlinked. |
| Backups.SurvivorsFewEnough | backup_utils.py:76 | At most `keep_count` distinct matching names survive a cleanup. |
| Backups.BackupDatabase | backup_utils.py:16-49 | A missing database gives `(False, None, "Database file not found: …")` and writes nothing. Success holds iff the database exists and the directory and the copy both succeed. The reported path is the supplied name, used verbatim, or the default timestamped name, inside the backup directory. The copy writes that path, or, when the path is a directory, the entry in it named like the database file. A failed copy may leave its target behind. |
| Backups.BaseName | backup_utils.py:43 | `os.path.basename`: the suffix after the last `/`, containing no `/`. |
| Backups.EmptyNameCopiesIntoDirectory | backup_utils.py:40-46 | An empty backup name reports the backup directory itself, and the copy lands inside it under the database's own file name. |
| Backups.DefaultBackupWritesItsPath | backup_utils.py:36-46 | A default-named backup writes the file at the path it reports, unless a directory of that name already exists. |
| Backups.DefaultBackupIsListed | backup_utils.py:36-38 | A backup made under the default name appears in the backup listing. |
| InitDb.Backfill | scripts/init_db.py:105-116 | Existing rows are kept unchanged as a prefix, and afterwards every user has a row. Every inserted row is the default row for a listed user that had none. No user gets two inserted rows. |
| InitDb.BackfillCovered | scripts/init_db.py:107-109 | When every user already has a row, nothing is inserted. |
| InitDb.BackfillIdempotent | scripts/init_db.py:105-116 | Running the backfill twice inserts nothing the second time. |
| InitDb.AddedUsersAreUncovered | scripts/init_db.py:107-116 | A user receives an inserted row iff it is listed and had no row. |
| InitDb.BackfillInsertsOnePerUncoveredUser | scripts/init_db.py:105-116 | The number of inserted rows equals the number of distinct users without a row. |
| InitDb.EnsureDbLink | scripts/init_db.py:9-24 | Nothing happens when the local file is already a live link or the target's parent is missing. A regular local file is copied only when the target is absent, so an existing target is never overwritten, and it is then replaced by a link. A dangling link makes the call raise. |
| InitDb.Main | scripts/init_db.py:122-125 | The primary path is used iff its parent directory exists, otherwise the fallback. After a run that does not raise, the chosen database file exists. |
| InitDb.MainIsRerunnable | scripts/init_db.py:122-125 | A second run after a successful one changes nothing and copies nothing. |
| MigrateDb.ColumnIndex | scripts/migrate_db.py:122 | A column name has an index iff it is a column. The index is its last position, as the dict comprehension keeps the last one. |
| MigrateDb.Field | scripts/migrate_db.py:140-154 | A value is read under a named column. A missing column raises; a present column raises only for a row shorter than the column list, so a full row always reads. |
| MigrateDb.Project | scripts/migrate_db.py:140-154 | Projecting a row succeeds iff every named field can be read, and yields those fields in order. |
| MigrateDb.ProjectAll | scripts/migrate_db.py:137-154 | Projecting the table succeeds iff every row projects, keeping one result per row. |
| MigrateDb.HasPrefCols | scripts/migrate_db.py:122-123 | `has_pref_cols` holds iff `language`, `theme`, `default_brush_size` and `notifications` are all columns. |
| MigrateDb.MaxId | scripts/migrate_db.py:205-206 | `MAX(id) or 0`: 0 for an empty table, otherwise an id that no other id exceeds. |
| MigrateDb.NextId | scripts/migrate_db.py:19 | An AUTOINCREMENT id is positive and larger than every id before it. |
| MigrateDb.Assigned | scripts/migrate_db.py:156-159 | An integer id is kept; a NULL id draws a fresh one, positive and above every earlier id. |
| MigrateDb.AssignIds | scripts/migrate_db.py:156-159 | Inserting rows with the given ids succeeds iff every id is an integer or NULL, and gives one id per row. |
| MigrateDb.AssignedIdsFacts | scripts/migrate_db.py:156-159 | Integer ids are kept. Every NULL id becomes positive and larger than all ids before it. |
| MigrateDb.FreshIdsCount | scripts/migrate_db.py:86-95 | Rows inserted without ids into the fresh `preferences` table are numbered 1..n. |
| MigrateDb.SequenceEntry | scripts/migrate_db.py:204-210 | The sequence entry exists iff the largest id is non-zero, and it holds that id. |
| MigrateDb.SetEntry | scripts/migrate_db.py:208-210 | Deleting and re-inserting one table's entry leaves the other tables' entries alone. |
| MigrateDb.PrefsFrom | scripts/migrate_db.py:162-171 | The row keeps the user's id. Language, theme and brush size are the old value when truthy and the default otherwise, so a brush size of 0 becomes 30. `notifications` is copied unchanged, even NULL. With all three falsy, the row is the initialiser's default row except for `notifications`. |
| MigrateDb.PrefUserIds | scripts/migrate_db.py:168-171 | Preference rows can be keyed iff every old id is an integer (`user_id` is NOT NULL). |
| MigrateDb.MigrateUserRows | scripts/migrate_db.py:137-159 | There is one new user row per old row, holding the fifteen named fields. The ids are distinct, and an integer old id is kept. Success needs every old id to be an integer or NULL. |
| MigrateDb.PrefRowOf | scripts/migrate_db.py:162-171 | A user's preferences row exists iff the four columns can be read, and it is keyed by the given id. |
| MigrateDb.MigratePrefRows | scripts/migrate_db.py:161-171 | Preference rows insert iff every user id is an integer (`user_id` is NOT NULL) and every row can read the four columns. There is then one preferences row per user, built from that user's row and keyed by the user's id. |
| MigrateDb.MigrateUsers | scripts/migrate_db.py:137-171 | The users stage succeeds iff the user rows insert and, when the preference columns exist, the preference rows insert too. There are then as many preferences rows as users when the preference columns exist, and none otherwise. |
| MigrateDb.UsersStageCounts | scripts/migrate_db.py:137-171 | Each old user yields one user row. With the preference columns present, each user has exactly one preferences row carrying its id. |
| MigrateDb.FirstUnknown | scripts/migrate_db.py:181-183 | It finds an old column that the new schema lacks, comparing names up to ASCII case as SQLite does, if one exists. |
| MigrateDb.ColumnCaseIgnored | scripts/migrate_db.py:181-183 | Old columns spelled in another case (`Title`, `ROOM_id`) bind to the new columns `title` and `room_ID`. |
| MigrateDb.IdColumn | scripts/migrate_db.py:183 | The old column bound to the new `id` is the last one spelled `id` in any case; there is none iff no column is. |
| MigrateDb.IdValue | scripts/migrate_db.py:183 | The id a copied row is inserted with is NULL when no column is spelled `id` in any case. Otherwise it is the row's value under the last such column, or NULL when the row is too short to reach it. |
| MigrateDb.CopyTable | scripts/migrate_db.py:176-200 | Rows are copied unchanged under their old column list, with distinct ids and integer ids kept. Success needs every column in the schema up to case, full rows, and ids that are integers or NULL. An empty table inserts nothing and is never checked against the schema. |
| MigrateDb.Migrate | scripts/migrate_db.py:106-233 | The migration once the four tables have been read. A missing old database aborts before anything else. A completed migration names its backup `beevy.db.bak.<YYYYmmddHHMMSS>`, copies `art`, `rooms` and `art_ownership` unchanged, and numbers the preferences 1..n. |
| MigrateDb.MigrateFile | scripts/migrate_db.py:97-119 | A missing `beevy.db` aborts. A file that is not a database fails. A database lacking one of `users`, `art`, `rooms`, `art_ownership` fails with "no such table" for the first missing one in reading order. Only a database holding all four tables migrates, and it migrates as `Migrate` does with those tables. |
| MigrateDb.MissingOldTableFails | scripts/migrate_db.py:97-119 | Whatever else it holds, an old database without one of the four tables makes the migration raise "no such table". |
| MigrateDb.MigratedUsersAndPrefs | scripts/migrate_db.py:137-171 | After a completed migration, users count as before, and the preferences count equals the users count when the preference columns existed. Each preferences row carries its user's id. |
| MigrateDb.MigratedSequence | scripts/migrate_db.py:203-211 | Each of `users`, `art`, `rooms` and `art_ownership` has a sequence entry iff its largest id is non-zero, and the entry is that id. `preferences` has one iff it is non-empty, and it equals the row count. No other table has an entry. |
| MigrateDb.MissingUserColumnFails | scripts/migrate_db.py:140-154 | An old `users` table that lacks one of the fifteen columns and has rows makes the migration fail. |
| MigrateDb.DistinctIntegersKept | scripts/migrate_db.py:156-159 | Rows inserted with pairwise different integer ids keep them, so the insert succeeds with distinct ids. |
| MigrateDb.UserRowsSucceed | scripts/migrate_db.py:137-159 | An old `users` table with all fifteen columns, full rows and distinct integer ids migrates its user rows. |
| MigrateDb.UsersStageSucceeds | scripts/migrate_db.py:137-171 | Such a table passes the whole users stage, preferences included when the four columns exist. |
| MigrateDb.CopyTableSucceeds | scripts/migrate_db.py:176-200 | A table whose columns are all in the schema up to case, with full rows and either no `id` column or distinct integer ids, copies. |
| MigrateDb.WellFormedMigrates | scripts/migrate_db.py:106-211 | A well-formed old database (ready users, ready `art`, `rooms` and `art_ownership`) migrates. |
| CheckFiles.Flatten | check_files.py:15-16 | Every value of every row is visited. |
| CheckFiles.DbPaths | check_files.py:9-18 | The stored-path set is exactly the truthy values of the path columns, without duplicates. |
| CheckFiles.Normalise | check_files.py:41 | A normalised path contains no backslash. |
| CheckFiles.RemovalKeepsCharsOut | check_files.py:41 | Deleting `static/` introduces no character. |
| CheckFiles.NormaliseRemovesEveryStatic | check_files.py:41 | Every `static/` is removed, not only a leading one. The result joins the pieces between occurrences, and none of those pieces contains `static/`. |
| CheckFiles.NormaliseShopFile | check_files.py:24-41 | A file without backslashes or a further `static/` is looked up as `uploads/shop/<folder>/<name>`. |
| CheckFiles.Orphans | check_files.py:40-45 | A name is orphaned iff it is listed and not referenced. |
| CheckFiles.FilterReferenced | check_files.py:40-43 | A name is counted as referenced iff it is listed and its normalised path is a stored path. |
| CheckFiles.Classify | check_files.py:36-45 | Each file is referenced or orphaned, never both. The two counts add up to the file count, and the orphans are the unreferenced names in listing order. |
| CheckFiles.ReferencedCount | check_files.py:33-45 | Referenced plus orphaned equals the number of files. |
| CheckFiles.OrphanDisplayShape | check_files.py:51-57 | The display has at most five lines and no more lines than orphans. Its named lines are the first orphans in listing order, and only the last line can be a count. |
| CheckFiles.AllItemsAccounted | check_files.py:51-53 | A display of names only accounts for one orphan per line. |
| CheckFiles.OrphanDisplayAccountsForAll | check_files.py:51-57 | The display accounts for every orphan exactly once. |
| CheckFiles.CheckFolder | check_files.py:26-58 | A missing folder is reported and skipped. Otherwise the report matches the reference classification, and referenced plus orphaned equals the total. |
| CheckFiles.OwnerSources | check_files.py:61-67 | The owner-copy set is exactly the truthy `source` values, so NULL and empty values are excluded. |
| CheckFiles.CheckAll | check_files.py:14-67 | The report covers the four folders in order, each as the reference classification says. It also counts the stored paths and the owner copies. |

## Left out

- The real-time drawing rooms are not part of this model: room access control, stroke broadcast and history replay. Their server code is not among the files modelled; `app.py` is a stub.
- Functions whose source is not available are not part of this model. They include `allowed_file`, `validate_image`, `add_metadata`, `process_uploaded_image` and `flash_translated`.
- `setup_db.py`, `check_art.py`, `check_unused.py`, `delete_ownership.py` and `static/script/draw.js` are not modelled. They are bare SQL with prints, or browser UI.
- All I/O is replaced by inputs: file reads, JSON parsing, SQLite, `shutil` copies, symlinks, `mkdir` and the clock. So are all `print` output and the migration's sanity-check queries.
- The migration's backup copy, database swap and log file (scripts/migrate_db.py:213-248) are left out beyond the backup name, as are the deletion of a stale `beevy_new.db` and the schema script.
- Translations.LoadAllLanguages: `os.listdir` raising for a path that exists but cannot be listed is not modelled. That exception escapes the constructor, and the model has no such case.
- InitDb.EnsureDbLink: `copy2`, `unlink` and `symlink_to` raising for reasons other than a dangling link is not modelled. Permissions, a full disk and races are examples.
- Backups.BackupDatabase: which directory names exist is an input, and no other `copy2` special case is modelled. Examples are a source that is itself a directory, or a target on another device.
- The `size_mb` field of `get_backups_list` is floating point and is not modelled.
- JSON numbers with a fraction are not modelled.
- Strings.Upper: models `str.upper` for ASCII letters only and leaves every other character unchanged, so length-changing mappings such as `ß` to `SS` are not modelled. Translations.LanguageName inherits this for codes with non-ASCII letters.
- `pathlib` rendering is modelled as plain `/` concatenation. A name starting with `/` replaces the directory. There is no normalisation of `.`, `..` or repeated slashes, and no Windows separators or case-insensitive matching and ordering.
- `os.listdir` and `glob` order is an input. Directories in a folder are treated like files, as the glob returns them too.
- `Backups.CleanupIdempotent` is stated only for a non-negative `keep_count` and a duplicate-free listing. With a negative `keep_count` a second run deletes again (`Backups.CleanupRepeatsForNegativeKeep`).
- `Backups.CleanupOldBackups` models an `unlink` failure as one failing index. The earlier deletions stand, and the count is reported as 0. An index past the last doomed file is never reached and acts as no failure.
- MigrateDb.MigrateFile: opening and reading the old file fail only as "not a database" or "no such table". A locked or unreadable file, and corruption found mid-read, are not modelled.
- `InitDb.Main` treats an existing link at `beevy.db` as pointing at the primary database, since that is the only link the script creates. The schema creation itself is not modelled: the table DDL is taken as given, and only the backfill is modelled.
- `MigrateDb.NextId` follows SQLite's AUTOINCREMENT for tables that only ever received inserts, with a sequence that starts at 0. The row-id limit of 2^63-1 is not modelled.
- MigrateDb.AssignIds: rejects every id that is not an integer or NULL. SQLite would convert a text id that looks like an integer and a real id with no fraction.
- Sql.Value: a REAL is an exact `real`, so NaN, infinities and rounding are not modelled. A BLOB is a byte sequence.
- MigrateDb.CopyTable: the rowid aliases `rowid`, `oid` and `_rowid_` are not recognised as column names. SQLite would accept them in an INSERT.
- `MigrateDb.Migrate` ignores several SQLite checks:
  - NOT NULL on user, art, room and ownership columns;
  - foreign keys;
  - SQLite's type affinity;
  - an INSERT naming a column twice.
  It reports a failure when some insert raises, but not necessarily the error SQLite would raise first.
- The surrogate `id` of the preferences rows inserted by the schema initialiser is not modelled.
