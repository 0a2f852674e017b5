/**
  `scripts/migrate_db.py`: rebuilding the database under the current schema.
  Each old user row becomes a user row plus, when the old table still has the
  inlined preference columns, one `preferences` row; `art`, `rooms` and
  `art_ownership` are copied row by row under their old column lists; every
  table's `sqlite_sequence` entry is then reset to its largest id.
 */
module MigrateDb {
  import opened Base
  import opened Sql
  import opened Strings
  import Backups

  /** An old table as `fetch_all_rows` returns it: column names and rows. */
  datatype Table = Table(cols: seq<string>, rows: seq<seq<Value>>)

  /** The four tables read from the old database. */
  datatype OldDb = OldDb(users: Table, art: Table, rooms: Table, ownership: Table)

  /** The old `beevy.db` as SQLite opens it: a file that is not a database, on
      which every query raises, or a database in which any of the four tables
      may be missing. A zero-byte file opens as a database without tables. */
  datatype OldFile =
    | NotADatabase
    | OldFile(users: Option<Table>, art: Option<Table>, rooms: Option<Table>, ownership: Option<Table>)

  /** The tables `fetch_all_rows` reads, in the order it reads them. */
  const OldTables: seq<string> := ["users", "art", "rooms", "art_ownership"]

  /** A table of the new database: the rows as inserted under `cols`, and the
      id each row ended up with. */
  datatype NewTable = NewTable(cols: seq<string>, rows: seq<seq<Value>>, ids: seq<int>)

  /** The new database. `sequence` maps a table name to its `sqlite_sequence` value. */
  datatype NewDb = NewDb(users: NewTable, prefs: seq<PrefRow>, prefIds: seq<int>,
                         art: NewTable, rooms: NewTable, ownership: NewTable,
                         sequence: map<string, int>)

  /** Why an insert or a column lookup raised. */
  datatype MigrateError =
    | MissingColumn(name: string)              // `ucol_index['id']` or `row[None]`
    | ShortRow                                 // a column index past the end of a row
    | NonIntegerId                             // an INTEGER PRIMARY KEY given neither an integer nor NULL
    | NullUserId                               // `preferences.user_id` is NOT NULL
    | DuplicateId(table: string)               // UNIQUE constraint on the primary key
    | UnknownColumn(table: string, name: string) // no such column in the new schema
    | BindingCount(table: string)              // a row whose length differs from its column list
    | NoSuchTable(table: string)               // `SELECT * FROM` a table the old database lacks
    | FileIsNotADatabase                       // the old file is not an SQLite database

  /** What `migrate` does: return 1 before touching anything, raise (leaving
      the old database in place), or build the new database and back the old
      one up under `backupName`. */
  datatype MigrateOutcome = Aborted | Failed(error: MigrateError) | Migrated(db: NewDb, backupName: string)

  /** The fifteen columns of the new `users` table, in insert order. */
  const UserFields: seq<string> := ["id", "name", "surname", "username", "email", "password", "dob", "bio",
                                    "avatar_path", "social_links", "last_login_at", "bee_points", "deleted",
                                    "deleted_at", "recovery_username"]

  /** The inlined preference columns of an old `users` table. */
  const PrefFields: seq<string> := ["language", "theme", "default_brush_size", "notifications"]

  const ArtColumns: seq<string> := ["id", "author_name", "title", "description", "tat", "price", "type",
                                    "thumbnail_path", "preview_path", "original_path", "examples_path",
                                    "slots", "author_id", "is_active"]
  const RoomColumns: seq<string> := ["id", "room_ID", "name", "password", "is_public", "user_id", "is_active"]
  const OwnershipColumns: seq<string> := ["id", "art_id", "owner_id", "acquired_at", "source", "is_exclusive",
                                          "can_download", "license_type"]

  // ---------------------------------------------------------------------------
  // Column lookup.

  /** `{c: i for i, c in enumerate(cols)}[name]`: a later duplicate overwrites
      an earlier one, so the last position wins. */
  function ColumnIndex(cols: seq<string>, name: string): (r: Option<nat>)
    ensures r.None? <==> name !in cols
    ensures r.Some? ==> r.value < |cols| && cols[r.value] == name
    ensures r.Some? ==> forall j :: r.value < j < |cols| ==> cols[j] != name
  {
    if |cols| == 0 then None
    else if cols[|cols| - 1] == name then Some(|cols| - 1)
    else ColumnIndex(cols[..|cols| - 1], name)
  }

  /** `row[ucol_index[name]]`. */
  function Field(row: seq<Value>, cols: seq<string>, name: string): (r: Result<Value, MigrateError>)
    ensures r.Ok? || r == Err(MissingColumn(name)) || r == Err(ShortRow)
    ensures name !in cols <==> r == Err(MissingColumn(name))
    ensures r == Err(ShortRow) ==> |row| < |cols|
    ensures name in cols && |cols| <= |row| ==> r.Ok?
    ensures r.Ok? ==> exists i :: 0 <= i < |cols| && i < |row| && cols[i] == name && r.value == row[i]
  {
    match ColumnIndex(cols, name)
    case None => Err(MissingColumn(name))
    case Some(i) => if i < |row| then Ok(row[i]) else Err(ShortRow)
  }

  /** The values of `names`, in that order; the first failing lookup raises. */
  function Project(row: seq<Value>, cols: seq<string>, names: seq<string>): (r: Result<seq<Value>, MigrateError>)
    ensures r.Ok? <==> forall k :: 0 <= k < |names| ==> Field(row, cols, names[k]).Ok?
    ensures r.Ok? ==> |r.value| == |names|
    ensures r.Ok? ==> forall k :: 0 <= k < |names| ==> Field(row, cols, names[k]) == Ok(r.value[k])
  {
    if |names| == 0 then Ok([])
    else match Field(row, cols, names[0])
      case Err(e) => Err(e)
      case Ok(v) =>
        match Project(row, cols, names[1..])
        case Err(e) => Err(e)
        case Ok(vs) => Ok([v] + vs)
  }

  /** `Project` applied to every row; the first failing row raises. */
  function ProjectAll(rows: seq<seq<Value>>, cols: seq<string>, names: seq<string>): (r: Result<seq<seq<Value>>, MigrateError>)
    ensures r.Ok? <==> forall k :: 0 <= k < |rows| ==> Project(rows[k], cols, names).Ok?
    ensures r.Ok? ==> |r.value| == |rows|
    ensures r.Ok? ==> forall k :: 0 <= k < |rows| ==> Project(rows[k], cols, names) == Ok(r.value[k])
  {
    if |rows| == 0 then Ok([])
    else match Project(rows[0], cols, names)
      case Err(e) => Err(e)
      case Ok(v) =>
        match ProjectAll(rows[1..], cols, names)
        case Err(e) => Err(e)
        case Ok(vs) => Ok([v] + vs)
  }

  /** `has_pref_cols`. */
  function HasPrefCols(cols: seq<string>): (b: bool)
    ensures b <==> "language" in cols && "theme" in cols && "default_brush_size" in cols && "notifications" in cols
  {
    assert PrefFields[0] == "language" && PrefFields[1] == "theme";
    assert PrefFields[2] == "default_brush_size" && PrefFields[3] == "notifications";
    forall k :: 0 <= k < |PrefFields| ==> PrefFields[k] in cols
  }

  // ---------------------------------------------------------------------------
  // Ids.

  /** The largest id, or 0 for an empty table (`MAX(id)` then `or 0`). */
  function MaxId(ids: seq<int>): (m: int)
    ensures |ids| == 0 ==> m == 0
    ensures |ids| > 0 ==> m in ids
    ensures forall k :: 0 <= k < |ids| ==> ids[k] <= m
  {
    if |ids| == 0 then 0
    else
      var m := MaxId(ids[..|ids| - 1]);
      if |ids| == 1 || ids[|ids| - 1] > m then ids[|ids| - 1] else m
  }

  /** The id AUTOINCREMENT gives a row inserted without one into a table that
      has only ever held `ids`: one more than the largest, and at least 1. */
  function NextId(ids: seq<int>): (n: int)
    ensures n >= 1
    ensures forall k :: 0 <= k < |ids| ==> ids[k] < n
  {
    if MaxId(ids) > 0 then MaxId(ids) + 1 else 1
  }

  /** What an INTEGER PRIMARY KEY column accepts: an integer, or NULL for a
      fresh id. */
  predicate IdAccepted(v: Value) {
    v.Int? || v.Null?
  }

  /** The id a row inserted with `id` value `v` ends up with, after rows that
      ended up with `prev`: an integer is kept, NULL draws a fresh id. */
  function Assigned(prev: seq<int>, v: Value): (id: int)
    requires IdAccepted(v)
    ensures v.Int? ==> id == v.i
    ensures v.Null? ==> id >= 1 && forall j :: 0 <= j < |prev| ==> prev[j] < id
  {
    if v.Int? then v.i else NextId(prev)
  }

  /** The ids rows end up with when inserted in order with the given `id`
      values; any other value is rejected. */
  function AssignIds(given: seq<Value>): (r: Result<seq<int>, MigrateError>)
    ensures r.Ok? <==> forall k :: 0 <= k < |given| ==> IdAccepted(given[k])
    ensures r.Ok? ==> |r.value| == |given|
    decreases |given|
  {
    if |given| == 0 then Ok([])
    else
      var prior := given[..|given| - 1];
      var last := given[|given| - 1];
      assert forall k :: 0 <= k < |prior| ==> prior[k] == given[k];
      match AssignIds(prior)
      case Err(e) => Err(e)
      case Ok(prev) => if !IdAccepted(last) then Err(NonIntegerId) else Ok(prev + [Assigned(prev, last)])
  }

  /** Assigned ids keep integer ids and give each NULL a positive id larger
      than every id before it. */
  lemma {:induction false} AssignedIdsFacts(given: seq<Value>, k: nat)
    requires AssignIds(given).Ok? && k < |given|
    ensures given[k].Int? ==> AssignIds(given).value[k] == given[k].i
    ensures given[k].Null? ==>
              AssignIds(given).value[k] >= 1 && forall j :: 0 <= j < k ==> AssignIds(given).value[j] < AssignIds(given).value[k]
    decreases |given|
  {
    var n := |given|;
    var prior := given[..n - 1];
    assert forall i :: 0 <= i < |prior| ==> prior[i] == given[i];
    var prev := AssignIds(prior).value;
    var ids := AssignIds(given).value;
    assert ids == prev + [Assigned(prev, given[n - 1])];
    if k < n - 1 {
      AssignedIdsFacts(prior, k);
    }
  }

  /** The ids `1, 2, …, n`. */
  function Counting(n: nat): (s: seq<int>)
    ensures |s| == n && forall k :: 0 <= k < n ==> s[k] == k + 1
  {
    seq(n, k => k + 1)
  }

  /** `n` rows inserted without an id. */
  function Nulls(n: nat): (s: seq<Value>)
    ensures |s| == n && forall k :: 0 <= k < n ==> s[k] == Null
  {
    seq(n, _ => Null)
  }

  /** The largest of `1, …, n` is `n`. */
  lemma MaxOfCounting(n: nat)
    ensures MaxId(Counting(n)) == n
  {
    var c := Counting(n);
    if n > 0 {
      assert c[n - 1] == n;
      var i :| 0 <= i < n && c[i] == MaxId(c);
    }
  }

  /** Rows inserted without ids into a fresh table are numbered from 1. */
  lemma {:induction false} FreshIdsCount(n: nat)
    ensures AssignIds(Nulls(n)) == Ok(Counting(n))
  {
    if n > 0 {
      var given := Nulls(n);
      assert given[..n - 1] == Nulls(n - 1);
      FreshIdsCount(n - 1);
      var prev := Counting(n - 1);
      MaxOfCounting(n - 1);
      assert NextId(prev) == n;
      assert Assigned(prev, given[n - 1]) == n;
      assert prev + [n] == Counting(n);
    }
  }

  /** `sqlite_sequence` after the reset: an entry only when the largest id is
      non-zero, holding that id. */
  function SequenceEntry(ids: seq<int>): (r: Option<int>)
    ensures r.Some? ==> r.value != 0 && r.value in ids && forall k :: 0 <= k < |ids| ==> ids[k] <= r.value
    ensures r.None? ==> (|ids| == 0 || 0 in ids) && forall k :: 0 <= k < |ids| ==> ids[k] <= 0
  {
    var m := MaxId(ids);
    if m != 0 then Some(m) else None
  }

  /** Records or deletes the entry of `table`. */
  function SetEntry(m: map<string, int>, table: string, e: Option<int>): (r: map<string, int>)
    ensures table in r <==> e.Some?
    ensures e.Some? ==> r[table] == e.value
    ensures forall t :: t != table ==> (t in r <==> t in m) && (t in m ==> r[t] == m[t])
  {
    if e.Some? then m[table := e.value] else m - {table}
  }

  // ---------------------------------------------------------------------------
  // Users and preferences.

  /** `v or d`. */
  function OrDefault(v: Value, d: Value): Value {
    if Truthy(v) then v else d
  }

  /** The preferences row built from the four old columns, in `PrefFields` order. */
  function PrefsFrom(userId: int, vals: seq<Value>): (p: PrefRow)
    requires |vals| == 4
    ensures p.userId == userId && p.notifications == vals[3]
    ensures Truthy(p.language) && Truthy(p.theme) && Truthy(p.brushSize)
    ensures Truthy(vals[0]) ==> p.language == vals[0]
    ensures Truthy(vals[1]) ==> p.theme == vals[1]
    ensures Truthy(vals[2]) ==> p.brushSize == vals[2]
    ensures !Truthy(vals[0]) && !Truthy(vals[1]) && !Truthy(vals[2]) ==>
              p == DefaultPrefs(userId).(notifications := vals[3])
  {
    PrefRow(userId, OrDefault(vals[0], Text(DefaultLanguage)), OrDefault(vals[1], Text(DefaultTheme)),
            OrDefault(vals[2], Int(DefaultBrushSize)), vals[3])
  }

  /** The users part of `migrate`. */
  datatype UsersOut = UsersOut(users: NewTable, prefs: seq<PrefRow>)

  /** The `user_id` of each preferences row: the raw old id, which must be an integer. */
  function PrefUserIds(ids: seq<Value>): (r: Result<seq<int>, MigrateError>)
    ensures r.Ok? <==> forall k :: 0 <= k < |ids| ==> ids[k].Int?
    ensures r.Ok? ==> |r.value| == |ids| && forall k :: 0 <= k < |ids| ==> r.value[k] == ids[k].i
  {
    if |ids| == 0 then Ok([])
    else match PrefUserIds(ids[1..])
      case Err(e) => Err(e)
      case Ok(rest) => if ids[0].Int? then Ok([ids[0].i] + rest) else Err(NullUserId)
  }

  /** The `id` value each projected user row is inserted with. */
  function UserIdValues(userRows: seq<seq<Value>>): (r: seq<Value>)
    requires forall k :: 0 <= k < |userRows| ==> |userRows[k]| == |UserFields|
    ensures |r| == |userRows| && forall k :: 0 <= k < |userRows| ==> r[k] == userRows[k][0]
  {
    seq(|userRows|, k requires 0 <= k < |userRows| => userRows[k][0])
  }

  /** The `id` an old user row is read with (`row[ucol_index['id']]`); NULL
      when it cannot be read. */
  function UserIdValue(row: seq<Value>, cols: seq<string>): Value {
    match Field(row, cols, "id")
    case Ok(v) => v
    case Err(_) => Null
  }

  /** The `INSERT INTO users` of the loop: the fifteen named fields of every
      row, under ids that must be integers or NULL and must not repeat. */
  function MigrateUserRows(t: Table): (r: Result<NewTable, MigrateError>)
    ensures r.Ok? ==> r.value.cols == UserFields
    ensures r.Ok? ==> |r.value.rows| == |t.rows| == |r.value.ids|
    ensures r.Ok? ==> forall k :: 0 <= k < |t.rows| ==> Project(t.rows[k], t.cols, UserFields) == Ok(r.value.rows[k])
    ensures r.Ok? ==> Distinct(r.value.ids)
    ensures r.Ok? ==> forall k :: 0 <= k < |r.value.rows| ==> |r.value.rows[k]| == |UserFields|
    ensures r.Ok? ==> forall k :: 0 <= k < |r.value.rows| && r.value.rows[k][0].Int? ==> r.value.ids[k] == r.value.rows[k][0].i
    ensures r.Ok? ==> forall k :: 0 <= k < |t.rows| ==> IdAccepted(UserIdValue(t.rows[k], t.cols))
  {
    match ProjectAll(t.rows, t.cols, UserFields)
    case Err(e) => Err(e)
    case Ok(userRows) =>
      var given := UserIdValues(userRows);
      assert forall k :: 0 <= k < |t.rows| ==> given[k] == UserIdValue(t.rows[k], t.cols) by {
        forall k | 0 <= k < |t.rows| ensures given[k] == UserIdValue(t.rows[k], t.cols) {
          assert Project(t.rows[k], t.cols, UserFields) == Ok(userRows[k]);
          assert Field(t.rows[k], t.cols, UserFields[0]) == Ok(userRows[k][0]);
        }
      }
      match AssignIds(given)
      case Err(e) => Err(e)
      case Ok(ids) =>
        assert forall k :: 0 <= k < |userRows| && userRows[k][0].Int? ==> ids[k] == userRows[k][0].i by {
          forall k | 0 <= k < |userRows| && userRows[k][0].Int? ensures ids[k] == userRows[k][0].i {
            AssignedIdsFacts(given, k);
          }
        }
        if Distinct(ids) then Ok(NewTable(UserFields, userRows, ids)) else Err(DuplicateId("users"))
  }

  /** The preferences row of one old user row, inserted under `userId`. */
  function PrefRowOf(row: seq<Value>, cols: seq<string>, userId: int): (r: Result<PrefRow, MigrateError>)
    ensures r.Ok? <==> Project(row, cols, PrefFields).Ok?
    ensures r.Ok? ==> r.value.userId == userId
  {
    match Project(row, cols, PrefFields)
    case Err(e) => Err(e)
    case Ok(vals) => Ok(PrefsFrom(userId, vals))
  }

  /** The `INSERT INTO preferences` of the loop, given the migrated users:
      one row per user, keyed by the user's old id, which must be an integer. */
  function MigratePrefRows(t: Table, users: NewTable): (r: Result<seq<PrefRow>, MigrateError>)
    requires |users.rows| == |t.rows| == |users.ids|
    requires forall k :: 0 <= k < |users.rows| ==> |users.rows[k]| == |UserFields|
    requires forall k :: 0 <= k < |users.rows| && users.rows[k][0].Int? ==> users.ids[k] == users.rows[k][0].i
    ensures r.Ok? <==> (forall k :: 0 <= k < |users.rows| ==> users.rows[k][0].Int?)
                       && forall k :: 0 <= k < |t.rows| ==> Project(t.rows[k], t.cols, PrefFields).Ok?
    ensures r.Ok? ==> |r.value| == |t.rows|
    ensures r.Ok? ==> forall k :: 0 <= k < |t.rows| ==> PrefRowOf(t.rows[k], t.cols, users.ids[k]) == Ok(r.value[k])
  {
    match PrefUserIds(UserIdValues(users.rows))
    case Err(e) => Err(e)
    case Ok(userIds) =>
      match ProjectAll(t.rows, t.cols, PrefFields)
      case Err(e) => Err(e)
      case Ok(vals) =>
        assert forall k :: 0 <= k < |vals| ==> userIds[k] == users.ids[k];
        Ok(seq(|vals|, k requires 0 <= k < |vals| => PrefsFrom(userIds[k], vals[k])))
  }

  /** The loop over `users_rows`: each row yields a user row of the fifteen
      fields and, when the old table has the preference columns, a
      preferences row keyed by the same id. */
  function MigrateUsers(t: Table): (r: Result<UsersOut, MigrateError>)
    ensures r.Ok? <==> MigrateUserRows(t).Ok? && (HasPrefCols(t.cols) ==> MigratePrefRows(t, MigrateUserRows(t).value).Ok?)
    ensures r.Ok? ==> Ok(r.value.users) == MigrateUserRows(t)
    ensures r.Ok? ==> |r.value.prefs| == (if HasPrefCols(t.cols) then |t.rows| else 0)
    ensures r.Ok? && HasPrefCols(t.cols) ==> Ok(r.value.prefs) == MigratePrefRows(t, r.value.users)
  {
    match MigrateUserRows(t)
    case Err(e) => Err(e)
    case Ok(users) =>
      if !HasPrefCols(t.cols) then Ok(UsersOut(users, []))
      else
        match MigratePrefRows(t, users)
        case Err(e) => Err(e)
        case Ok(prefs) => Ok(UsersOut(users, prefs))
  }

  // ---------------------------------------------------------------------------
  // Verbatim copies.

  /** SQLite resolves a column name in an INSERT up to ASCII case. */
  predicate SqlColumnIn(name: string, schema: seq<string>) {
    exists k :: 0 <= k < |schema| && SameIgnoringCase(name, schema[k])
  }

  /** Old columns spelled in another case still bind: `Title` is the new
      `title`, and `ROOM_id` the new `room_ID`. */
  lemma ColumnCaseIgnored()
    ensures SqlColumnIn("Title", ArtColumns) && SqlColumnIn("ROOM_id", RoomColumns)
  {
    assert SameIgnoringCase("Title", ArtColumns[2]);
    assert SameIgnoringCase("ROOM_id", RoomColumns[1]);
  }

  /** The first old column the new schema lacks. */
  function FirstUnknown(cols: seq<string>, schema: seq<string>): (r: Option<string>)
    ensures r.None? <==> forall k :: 0 <= k < |cols| ==> SqlColumnIn(cols[k], schema)
    ensures r.Some? ==> r.value in cols && !SqlColumnIn(r.value, schema)
  {
    if |cols| == 0 then None
    else if !SqlColumnIn(cols[0], schema) then Some(cols[0])
    else FirstUnknown(cols[1..], schema)
  }

  /** The position of the old column SQLite binds to the new `id`: the last
      one spelled `id` in any case. */
  function IdColumn(cols: seq<string>): (r: Option<nat>)
    ensures r.None? <==> forall k :: 0 <= k < |cols| ==> !SameIgnoringCase(cols[k], "id")
    ensures r.Some? ==> r.value < |cols| && SameIgnoringCase(cols[r.value], "id")
    ensures r.Some? ==> forall j :: r.value < j < |cols| ==> !SameIgnoringCase(cols[j], "id")
  {
    if |cols| == 0 then None
    else if SameIgnoringCase(cols[|cols| - 1], "id") then Some(|cols| - 1)
    else IdColumn(cols[..|cols| - 1])
  }

  /** The value a copied row supplies for `id`: the value under the last
      column spelled `id` in any case, or NULL when there is none. */
  function IdValue(row: seq<Value>, cols: seq<string>): (r: Value)
    ensures (forall i :: 0 <= i < |cols| ==> !SameIgnoringCase(cols[i], "id")) ==> r == Null
    ensures r != Null ==> exists i :: 0 <= i < |cols| && i < |row| && SameIgnoringCase(cols[i], "id") && r == row[i]
    ensures forall i :: (0 <= i < |cols| && SameIgnoringCase(cols[i], "id")
                          && forall j :: i < j < |cols| ==> !SameIgnoringCase(cols[j], "id"))
              ==> r == (if i < |row| then row[i] else Null)
  {
    match IdColumn(cols)
    case None => Null
    case Some(i) => if i < |row| then row[i] else Null
  }

  /** The `id` values the rows are inserted with. */
  function GivenIds(rows: seq<seq<Value>>, cols: seq<string>): (r: seq<Value>)
    ensures |r| == |rows|
    ensures forall k :: 0 <= k < |rows| ==> r[k] == IdValue(rows[k], cols)
  {
    seq(|rows|, k requires 0 <= k < |rows| => IdValue(rows[k], cols))
  }

  /** Copying an old table row by row under its own column list. Nothing is
      inserted, and no column checked, when the table is empty. */
  function CopyTable(name: string, t: Table, schema: seq<string>): (r: Result<NewTable, MigrateError>)
    ensures |t.rows| == 0 ==> r == Ok(NewTable(t.cols, [], []))
    ensures r.Ok? ==> r.value.cols == t.cols && r.value.rows == t.rows
    ensures r.Ok? ==> |r.value.ids| == |t.rows| && Distinct(r.value.ids)
    ensures r.Ok? && |t.rows| > 0 ==> forall k :: 0 <= k < |t.cols| ==> SqlColumnIn(t.cols[k], schema)
    ensures r.Ok? ==> forall k :: 0 <= k < |t.rows| ==> |t.rows[k]| == |t.cols| && IdAccepted(IdValue(t.rows[k], t.cols))
    ensures r.Ok? ==> forall k :: 0 <= k < |t.rows| && IdValue(t.rows[k], t.cols).Int? ==>
              r.value.ids[k] == IdValue(t.rows[k], t.cols).i
  {
    if |t.rows| == 0 then Ok(NewTable(t.cols, [], []))
    else match FirstUnknown(t.cols, schema)
      case Some(c) => Err(UnknownColumn(name, c))
      case None =>
        if exists k :: 0 <= k < |t.rows| && |t.rows[k]| != |t.cols| then Err(BindingCount(name))
        else
          var given := GivenIds(t.rows, t.cols);
          match AssignIds(given)
          case Err(e) => Err(e)
          case Ok(ids) =>
            assert forall k :: 0 <= k < |t.rows| && IdValue(t.rows[k], t.cols).Int? ==> ids[k] == IdValue(t.rows[k], t.cols).i by {
              forall k | 0 <= k < |t.rows| && IdValue(t.rows[k], t.cols).Int?
                ensures ids[k] == IdValue(t.rows[k], t.cols).i
              {
                AssignedIdsFacts(given, k);
              }
            }
            if !Distinct(ids) then Err(DuplicateId(name))
            else Ok(NewTable(t.cols, t.rows, ids))
  }

  // ---------------------------------------------------------------------------
  // The whole migration.

  /** The `sqlite_sequence` loop over the five tables. */
  function Sequences(users: seq<int>, art: seq<int>, rooms: seq<int>, ownership: seq<int>, prefs: seq<int>): map<string, int> {
    var m0: map<string, int> := map[];
    var m1 := SetEntry(m0, "users", SequenceEntry(users));
    var m2 := SetEntry(m1, "art", SequenceEntry(art));
    var m3 := SetEntry(m2, "rooms", SequenceEntry(rooms));
    var m4 := SetEntry(m3, "art_ownership", SequenceEntry(ownership));
    SetEntry(m4, "preferences", SequenceEntry(prefs))
  }

  /** `migrate()` once the four tables have been read (`MigrateFile` reads
      them). `src` is `None` when `beevy.db` does not exist; `now` is the clock
      reading that names the backup. */
  function Migrate(src: Option<OldDb>, now: Backups.Stamp): (r: MigrateOutcome)
    ensures r.Aborted? <==> src.None?
    ensures r.Migrated? ==> r.backupName == Backups.DefaultBackupName(now)
    ensures r.Migrated? ==> AssignIds(Nulls(|r.db.prefs|)) == Ok(r.db.prefIds)
    ensures r.Migrated? ==> r.db.art.cols == src.value.art.cols && r.db.art.rows == src.value.art.rows
    ensures r.Migrated? ==> r.db.rooms.cols == src.value.rooms.cols && r.db.rooms.rows == src.value.rooms.rows
    ensures r.Migrated? ==> r.db.ownership.cols == src.value.ownership.cols && r.db.ownership.rows == src.value.ownership.rows
  {
    if src.None? then Aborted
    else
      var o := src.value;
      match MigrateUsers(o.users)
      case Err(e) => Failed(e)
      case Ok(u) =>
        match CopyTable("art", o.art, ArtColumns)
        case Err(e) => Failed(e)
        case Ok(art) =>
          match CopyTable("rooms", o.rooms, RoomColumns)
          case Err(e) => Failed(e)
          case Ok(rooms) =>
            match CopyTable("art_ownership", o.ownership, OwnershipColumns)
            case Err(e) => Failed(e)
            case Ok(own) =>
              FreshIdsCount(|u.prefs|);
              var prefIds := Counting(|u.prefs|);
              var sequence := Sequences(u.users.ids, art.ids, rooms.ids, own.ids, prefIds);
              Migrated(NewDb(u.users, u.prefs, prefIds, art, rooms, own, sequence), Backups.DefaultBackupName(now))
  }

  /** The table of the old file that `fetch_all_rows(old, name)` reads. */
  function TableNamed(f: OldFile, name: string): Option<Table> {
    if f.NotADatabase? then None
    else if name == "users" then f.users
    else if name == "art" then f.art
    else if name == "rooms" then f.rooms
    else if name == "art_ownership" then f.ownership
    else None
  }

  /** The old file is a database holding all four tables. */
  predicate AllTables(f: OldFile) {
    f.OldFile? && f.users.Some? && f.art.Some? && f.rooms.Some? && f.ownership.Some?
  }

  /** `migrate()` from the existence check on: a missing `beevy.db` aborts, a
      file that is not a database or lacks one of the four tables makes the
      first `fetch_all_rows` that reaches it raise, and otherwise the tables
      are migrated. */
  function MigrateFile(src: Option<OldFile>, now: Backups.Stamp): (r: MigrateOutcome)
    ensures r.Aborted? <==> src.None?
    ensures src == Some(NotADatabase) ==> r == Failed(FileIsNotADatabase)
    ensures src.Some? && src.value.OldFile? && !AllTables(src.value) ==>
              exists k :: 0 <= k < |OldTables| && TableNamed(src.value, OldTables[k]).None?
                && (forall j :: 0 <= j < k ==> TableNamed(src.value, OldTables[j]).Some?)
                && r == Failed(NoSuchTable(OldTables[k]))
    ensures r.Migrated? ==> src.Some? && AllTables(src.value)
    ensures src.Some? && AllTables(src.value) ==>
              r == Migrate(Some(OldDb(src.value.users.value, src.value.art.value,
                                      src.value.rooms.value, src.value.ownership.value)), now)
  {
    if src.None? then Aborted
    else match src.value
      case NotADatabase => Failed(FileIsNotADatabase)
      case OldFile(u, a, rm, o) =>
        assert TableNamed(src.value, OldTables[0]) == u;
        assert TableNamed(src.value, OldTables[1]) == a;
        assert TableNamed(src.value, OldTables[2]) == rm;
        assert TableNamed(src.value, OldTables[3]) == o;
        if u.None? then Failed(NoSuchTable("users"))
        else if a.None? then Failed(NoSuchTable("art"))
        else if rm.None? then Failed(NoSuchTable("rooms"))
        else if o.None? then Failed(NoSuchTable("art_ownership"))
        else Migrate(Some(OldDb(u.value, a.value, rm.value, o.value)), now)
  }

  /** An old database without one of the four tables makes the migration
      raise, whatever the other tables hold. */
  lemma MissingOldTableFails(f: OldFile, now: Backups.Stamp, name: string)
    requires f.OldFile? && name in OldTables && TableNamed(f, name).None?
    ensures MigrateFile(Some(f), now).Failed? && MigrateFile(Some(f), now).error.NoSuchTable?
  {
  }

  // ---------------------------------------------------------------------------
  // Properties of a completed migration.

  /** The users stage keeps one row per old user and, with the preference
      columns present, pairs each with a preferences row under its id. */
  lemma UsersStageCounts(t: Table)
    requires MigrateUsers(t).Ok?
    ensures var u := MigrateUsers(t).value;
      |u.users.rows| == |t.rows| == |u.users.ids|
      && (HasPrefCols(t.cols) ==>
            |u.prefs| == |t.rows| && forall k :: 0 <= k < |u.prefs| ==> u.prefs[k].userId == u.users.ids[k])
      && (!HasPrefCols(t.cols) ==> u.prefs == [])
  {
    var u := MigrateUsers(t).value;
    if HasPrefCols(t.cols) {
      forall k | 0 <= k < |u.prefs| ensures u.prefs[k].userId == u.users.ids[k] {
        assert PrefRowOf(t.rows[k], t.cols, u.users.ids[k]) == Ok(u.prefs[k]);
      }
    }
  }

  /** A completed migration is made of the users stage and the three copies. */
  lemma MigratedParts(src: OldDb, now: Backups.Stamp)
    ensures Migrate(Some(src), now).Migrated? ==>
      MigrateUsers(src.users).Ok? && CopyTable("art", src.art, ArtColumns).Ok?
      && CopyTable("rooms", src.rooms, RoomColumns).Ok? && CopyTable("art_ownership", src.ownership, OwnershipColumns).Ok?
    ensures Migrate(Some(src), now).Migrated? ==> var db := Migrate(Some(src), now).db;
      db.users == MigrateUsers(src.users).value.users && db.prefs == MigrateUsers(src.users).value.prefs
      && db.art == CopyTable("art", src.art, ArtColumns).value
      && db.rooms == CopyTable("rooms", src.rooms, RoomColumns).value
      && db.ownership == CopyTable("art_ownership", src.ownership, OwnershipColumns).value
      && db.prefIds == Counting(|db.prefs|)
      && db.sequence == Sequences(db.users.ids, db.art.ids, db.rooms.ids, db.ownership.ids, db.prefIds)
  {
  }

  /** Every old user is migrated under the fifteen named columns, and when the
      old table has the preference columns every user gets exactly one
      preferences row keyed by its id, so the two tables have equal counts. */
  lemma MigratedUsersAndPrefs(src: OldDb, now: Backups.Stamp)
    ensures Migrate(Some(src), now).Migrated? ==> var db := Migrate(Some(src), now).db;
      |db.users.rows| == |src.users.rows| == |db.users.ids|
      && (HasPrefCols(src.users.cols) ==>
            |db.prefs| == |db.users.rows| && forall k :: 0 <= k < |db.prefs| ==> db.prefs[k].userId == db.users.ids[k])
      && (!HasPrefCols(src.users.cols) ==> db.prefs == [])
  {
    MigratedParts(src, now);
    if Migrate(Some(src), now).Migrated? {
      UsersStageCounts(src.users);
    }
  }

  /** After the reset, each of the five tables has a sequence entry exactly
      when its largest id is non-zero, and the entry is that id; `preferences`
      counts its rows. No other table has an entry. */
  lemma MigratedSequence(src: OldDb, now: Backups.Stamp)
    ensures Migrate(Some(src), now).Migrated? ==> var db := Migrate(Some(src), now).db;
      ("art" in db.sequence <==> SequenceEntry(db.art.ids).Some?)
      && ("art" in db.sequence ==> db.sequence["art"] == MaxId(db.art.ids))
      && ("users" in db.sequence <==> SequenceEntry(db.users.ids).Some?)
      && ("users" in db.sequence ==> db.sequence["users"] == MaxId(db.users.ids))
      && ("rooms" in db.sequence <==> SequenceEntry(db.rooms.ids).Some?)
      && ("rooms" in db.sequence ==> db.sequence["rooms"] == MaxId(db.rooms.ids))
      && ("art_ownership" in db.sequence <==> SequenceEntry(db.ownership.ids).Some?)
      && ("art_ownership" in db.sequence ==> db.sequence["art_ownership"] == MaxId(db.ownership.ids))
      && ("preferences" in db.sequence <==> |db.prefs| > 0)
      && (|db.prefs| > 0 ==> db.sequence["preferences"] == |db.prefs|)
      && db.sequence.Keys <= {"users", "art", "rooms", "art_ownership", "preferences"}
  {
    if Migrate(Some(src), now).Migrated? {
      MigratedParts(src, now);
      var db := Migrate(Some(src), now).db;
      var n := |db.prefs|;
      if n > 0 {
        assert Counting(n)[n - 1] == n;
        assert MaxId(Counting(n)) == n;
      } else {
        assert Counting(n) == [];
      }
    }
  }

  /** An old user table that lacks one of the fifteen named columns makes the
      migration raise as soon as it has a row. */
  lemma MissingUserColumnFails(src: OldDb, now: Backups.Stamp, name: string)
    requires name in UserFields && name !in src.users.cols && |src.users.rows| > 0
    ensures Migrate(Some(src), now).Failed?
  {
    var k :| 0 <= k < |UserFields| && UserFields[k] == name;
  }

  // ---------------------------------------------------------------------------
  // When the migration succeeds.

  /** Every row has one value per column. */
  predicate FullRows(t: Table) {
    forall k :: 0 <= k < |t.rows| ==> |t.rows[k]| == |t.cols|
  }

  /** An old `users` table the loop migrates: all fifteen columns, full rows,
      and integer ids no two of which are equal. */
  predicate UsersReady(t: Table) {
    (forall j :: 0 <= j < |UserFields| ==> UserFields[j] in t.cols)
    && FullRows(t)
    && (forall k :: 0 <= k < |t.rows| ==> UserIdValue(t.rows[k], t.cols).Int?)
    && (forall j, k :: 0 <= j < k < |t.rows| ==> UserIdValue(t.rows[j], t.cols) != UserIdValue(t.rows[k], t.cols))
  }

  /** An old table that copies: every column known to the new schema up to
      case, full rows, and either no `id` column or integer ids no two of which
      are equal. */
  predicate CopyReady(t: Table, schema: seq<string>) {
    (forall k :: 0 <= k < |t.cols| ==> SqlColumnIn(t.cols[k], schema))
    && FullRows(t)
    && (IdColumn(t.cols).None?
        || ((forall k :: 0 <= k < |t.rows| ==> IdValue(t.rows[k], t.cols).Int?)
            && forall j, k :: 0 <= j < k < |t.rows| ==> IdValue(t.rows[j], t.cols) != IdValue(t.rows[k], t.cols)))
  }

  /** Distinct integer ids are kept, so they stay distinct. */
  lemma DistinctIntegersKept(given: seq<Value>)
    requires forall k :: 0 <= k < |given| ==> given[k].Int?
    requires forall j, k :: 0 <= j < k < |given| ==> given[j] != given[k]
    ensures AssignIds(given).Ok? && Distinct(AssignIds(given).value)
  {
    forall k | 0 <= k < |given| ensures AssignIds(given).value[k] == given[k].i {
      AssignedIdsFacts(given, k);
    }
  }

  /** The user rows of a ready table insert. */
  lemma UserRowsSucceed(t: Table)
    requires UsersReady(t)
    ensures MigrateUserRows(t).Ok?
  {
    forall k | 0 <= k < |t.rows| ensures Project(t.rows[k], t.cols, UserFields).Ok? {
      forall j | 0 <= j < |UserFields| ensures Field(t.rows[k], t.cols, UserFields[j]).Ok? {
        assert UserFields[j] in t.cols;
      }
    }
    var userRows := ProjectAll(t.rows, t.cols, UserFields).value;
    var given := UserIdValues(userRows);
    forall k | 0 <= k < |t.rows| ensures given[k] == UserIdValue(t.rows[k], t.cols) {
      assert Project(t.rows[k], t.cols, UserFields) == Ok(userRows[k]);
      assert Field(t.rows[k], t.cols, UserFields[0]) == Ok(userRows[k][0]);
    }
    DistinctIntegersKept(given);
  }

  /** A ready `users` table passes the whole users stage, preferences included. */
  lemma UsersStageSucceeds(t: Table)
    requires UsersReady(t)
    ensures MigrateUsers(t).Ok?
  {
    UserRowsSucceed(t);
    if HasPrefCols(t.cols) {
      var users := MigrateUserRows(t).value;
      forall k | 0 <= k < |users.rows| ensures users.rows[k][0].Int? {
        assert Project(t.rows[k], t.cols, UserFields) == Ok(users.rows[k]);
        assert Field(t.rows[k], t.cols, UserFields[0]) == Ok(users.rows[k][0]);
      }
      forall k | 0 <= k < |t.rows| ensures Project(t.rows[k], t.cols, PrefFields).Ok? {
        forall j | 0 <= j < |PrefFields| ensures Field(t.rows[k], t.cols, PrefFields[j]).Ok? {
          assert PrefFields[j] in t.cols;
        }
      }
    }
  }

  /** A ready table copies. */
  lemma CopyTableSucceeds(name: string, t: Table, schema: seq<string>)
    requires CopyReady(t, schema)
    ensures CopyTable(name, t, schema).Ok?
  {
    if |t.rows| > 0 {
      var given := GivenIds(t.rows, t.cols);
      if IdColumn(t.cols).None? {
        assert given == Nulls(|t.rows|);
        FreshIdsCount(|t.rows|);
        assert Distinct(Counting(|t.rows|));
      } else {
        DistinctIntegersKept(given);
      }
    }
  }

  /** A well-formed old database migrates: every stage succeeds. */
  lemma WellFormedMigrates(src: OldDb, now: Backups.Stamp)
    ensures (UsersReady(src.users) && CopyReady(src.art, ArtColumns) && CopyReady(src.rooms, RoomColumns)
             && CopyReady(src.ownership, OwnershipColumns))
            ==> Migrate(Some(src), now).Migrated?
  {
    if UsersReady(src.users) && CopyReady(src.art, ArtColumns) && CopyReady(src.rooms, RoomColumns)
       && CopyReady(src.ownership, OwnershipColumns) {
      UsersStageSucceeds(src.users);
      CopyTableSucceeds("art", src.art, ArtColumns);
      CopyTableSucceeds("rooms", src.rooms, RoomColumns);
      CopyTableSucceeds("art_ownership", src.ownership, OwnershipColumns);
    }
  }
}
