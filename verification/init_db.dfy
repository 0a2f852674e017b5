/**
  `scripts/init_db.py`: choosing the database path, linking the local
  `beevy.db` to the persistent disk, and back-filling a preferences row for
  every user that lacks one.
 */
module InitDb {
  import opened Base
  import opened Sql

  // ---------------------------------------------------------------------------
  // Preferences backfill.

  /** Some preferences row belongs to `userId` (`SELECT 1 FROM preferences WHERE user_id = ?`). */
  predicate HasPrefs(prefs: seq<PrefRow>, userId: int) {
    exists i :: 0 <= i < |prefs| && prefs[i].userId == userId
  }

  /** The loop of `create_schema` over `SELECT id FROM users`: each user found
      without a preferences row gets the default row appended. Rows inserted
      earlier in the loop are visible to later checks. */
  function Backfill(prefs: seq<PrefRow>, userIds: seq<int>): (r: seq<PrefRow>)
    ensures |prefs| <= |r| && r[..|prefs|] == prefs
    ensures forall u :: u in userIds ==> HasPrefs(r, u)
    ensures forall i :: |prefs| <= i < |r| ==>
              r[i] == DefaultPrefs(r[i].userId) && r[i].userId in userIds && !HasPrefs(prefs, r[i].userId)
    ensures forall i, j :: |prefs| <= i < j < |r| ==> r[i].userId != r[j].userId
    decreases |userIds|
  {
    if |userIds| == 0 then prefs
    else
      var u := userIds[0];
      var next := if HasPrefs(prefs, u) then prefs else prefs + [DefaultPrefs(u)];
      assert forall v :: HasPrefs(prefs, v) ==> HasPrefs(next, v) by {
        forall v | HasPrefs(prefs, v) ensures HasPrefs(next, v) {
          var i :| 0 <= i < |prefs| && prefs[i].userId == v;
          assert next[i] == prefs[i];
        }
      }
      assert HasPrefs(next, u) by {
        if !HasPrefs(prefs, u) {
          assert next[|prefs|].userId == u;
        }
      }
      var r := Backfill(next, userIds[1..]);
      assert r[..|prefs|] == prefs by {
        assert r[..|prefs|] == r[..|next|][..|prefs|];
      }
      assert forall v :: v in userIds ==> v == u || v in userIds[1..];
      r
  }

  /** When every user already has a row, the backfill inserts nothing. */
  lemma {:induction false} BackfillCovered(prefs: seq<PrefRow>, userIds: seq<int>)
    requires forall u :: u in userIds ==> HasPrefs(prefs, u)
    ensures Backfill(prefs, userIds) == prefs
    decreases |userIds|
  {
    if |userIds| > 0 {
      assert userIds[0] in userIds;
      assert forall u :: u in userIds[1..] ==> u in userIds;
      BackfillCovered(prefs, userIds[1..]);
    }
  }

  /** Running the backfill a second time inserts nothing. */
  lemma BackfillIdempotent(prefs: seq<PrefRow>, userIds: seq<int>)
    ensures Backfill(Backfill(prefs, userIds), userIds) == Backfill(prefs, userIds)
  {
    BackfillCovered(Backfill(prefs, userIds), userIds);
  }

  /** The users of a sequence of rows, in order. */
  function UserIdsOf(rows: seq<PrefRow>): (ids: seq<int>)
    ensures |ids| == |rows|
    ensures forall i :: 0 <= i < |rows| ==> ids[i] == rows[i].userId
  {
    if |rows| == 0 then [] else [rows[0].userId] + UserIdsOf(rows[1..])
  }

  /** The users given a row by the backfill are exactly those that had none. */
  lemma AddedUsersAreUncovered(prefs: seq<PrefRow>, userIds: seq<int>, x: int)
    ensures x in UserIdsOf(Backfill(prefs, userIds)[|prefs|..]) <==> x in userIds && !HasPrefs(prefs, x)
  {
    var r := Backfill(prefs, userIds);
    var added := UserIdsOf(r[|prefs|..]);
    if x in added {
      var k :| 0 <= k < |added| && added[k] == x;
      assert r[|prefs| + k].userId == x;
    }
    if x in userIds && !HasPrefs(prefs, x) {
      assert HasPrefs(r, x);
      forall j | 0 <= j < |prefs| ensures r[j].userId != x {
        assert r[..|prefs|][j] == prefs[j];
      }
      var i :| 0 <= i < |r| && r[i].userId == x;
      assert added[i - |prefs|] == x;
    }
  }

  /** The backfill inserts exactly one row per distinct user that had none. */
  lemma BackfillInsertsOnePerUncoveredUser(prefs: seq<PrefRow>, userIds: seq<int>)
    ensures |Backfill(prefs, userIds)| - |prefs| == |set u | u in userIds && !HasPrefs(prefs, u)|
  {
    var r := Backfill(prefs, userIds);
    var added := UserIdsOf(r[|prefs|..]);
    forall i, j | 0 <= i < j < |added| ensures added[i] != added[j] {
      assert added[i] == r[|prefs| + i].userId && added[j] == r[|prefs| + j].userId;
    }
    forall x ensures x in added <==> x in userIds && !HasPrefs(prefs, x) {
      AddedUsersAreUncovered(prefs, userIds, x);
    }
    assert (set x | x in added) == (set u | u in userIds && !HasPrefs(prefs, u));
    DistinctSetSize(added);
  }

  // ---------------------------------------------------------------------------
  // Linking the local database file.

  /** What sits at the local path `beevy.db`. The only link the script makes
      points at the primary database, so a link is assumed to point there. */
  datatype LocalDb = Absent | RegularFile | Symlink

  /** The parts of the filesystem `ensure_db_link` and `main` look at. */
  datatype FsState = FsState(local: LocalDb, targetParentExists: bool, targetExists: bool)

  /** `Path.exists()` on the local path: it follows the link. */
  predicate LocalExists(s: FsState) {
    s.local == RegularFile || (s.local == Symlink && s.targetExists)
  }

  /** The filesystem after the call, whether the local file was copied onto the
      target, and whether the call raised. */
  datatype LinkOutcome = LinkOutcome(state: FsState, copied: bool, raised: bool)

  /** `ensure_db_link(DB_PRIMARY_PATH)`. A dangling link at the local path is
      seen as absent, and re-creating it raises `FileExistsError`. */
  function EnsureDbLink(s: FsState): (r: LinkOutcome)
    ensures r.raised <==> s.targetParentExists && s.local == Symlink && !s.targetExists
    ensures r.raised || !s.targetParentExists || (s.local == Symlink && s.targetExists) ==> r.state == s && !r.copied
    ensures r.copied <==> s.targetParentExists && s.local == RegularFile && !s.targetExists
    ensures r.state.targetExists <==> s.targetExists || r.copied
    ensures r.state.targetParentExists == s.targetParentExists
    ensures s.targetParentExists && !r.raised ==> r.state.local == Symlink
    ensures s.local == RegularFile && s.targetParentExists ==> LocalExists(r.state)
  {
    if LocalExists(s) && s.local == Symlink then LinkOutcome(s, false, false)
    else if !s.targetParentExists then LinkOutcome(s, false, false)
    else
      var copied := s.local == RegularFile && !s.targetExists;
      var afterUnlink := if s.local == RegularFile then FsState(Absent, true, s.targetExists || copied) else s;
      if afterUnlink.local == Symlink then LinkOutcome(s, false, true)
      else LinkOutcome(afterUnlink.(local := Symlink), copied, false)
  }

  const PrimaryPath: string := "/var/data/beevy.db"
  const FallbackPath: string := "beevy.db"

  /** The result of `main`: the path it initialised, the filesystem afterwards,
      and whether it raised. */
  datatype MainOutcome = MainOutcome(dbPath: string, state: FsState, raised: bool)

  /** Opening a SQLite database creates the file: at the primary path the link
      target appears; at the fallback path an absent local file appears, while
      a dangling link there cannot be opened. */
  function OpenDatabase(s: FsState, dbPath: string): (r: MainOutcome) {
    if dbPath == PrimaryPath then MainOutcome(dbPath, s.(targetExists := true), false)
    else if s.local == Symlink && !s.targetExists then MainOutcome(dbPath, s, true)
    else if s.local == Absent then MainOutcome(dbPath, s.(local := RegularFile), false)
    else MainOutcome(dbPath, s, false)
  }

  /** `main`: the primary path iff its parent directory exists, then the link,
      then the schema. */
  function Main(s: FsState): (r: MainOutcome)
    ensures r.dbPath == PrimaryPath <==> s.targetParentExists
    ensures r.dbPath == FallbackPath <==> !s.targetParentExists
    ensures !s.targetParentExists && !r.raised ==> r.state.local != Absent && r.state.targetExists == s.targetExists
    ensures s.targetParentExists && !r.raised ==> r.state.local == Symlink && r.state.targetExists
  {
    var dbPath := if s.targetParentExists then PrimaryPath else FallbackPath;
    var link := EnsureDbLink(s);
    if link.raised then MainOutcome(dbPath, s, true)
    else OpenDatabase(link.state, dbPath)
  }

  /** Running `main` again after a successful run changes nothing and copies nothing. */
  lemma MainIsRerunnable(s: FsState)
    requires !Main(s).raised
    ensures Main(Main(s).state) == Main(s)
    ensures !EnsureDbLink(Main(s).state).copied
  {
  }
}
