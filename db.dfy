/**
 * The three tables of the lift log (users, sessions, sets) as an in-memory store, with the
 * schema's constraints as the store's invariant and one method or function per storage
 * primitive. A statement that would violate a constraint fails and leaves the tables as
 * they were; so does a failure of the storage engine itself, which the caller passes in.
 */
module Db {
  import opened Wrappers

  /** Timestamps are ISO-8601 texts produced by the caller and never interpreted here. */
  type Timestamp = string

  /** A set as handed to `InsertSets`: (weight, reps, is_1rm). */
  datatype SetRow = SetRow(weight: real, reps: int, isOneRm: int)

  datatype UserRow = UserRow(userId: nat, username: string, createdAt: Timestamp)

  /** A session; `endedAt == None` (SQL NULL) means the session is still open. */
  datatype SessionRow = SessionRow(
    sessionId: nat, userId: nat, performedAt: Timestamp, notes: Option<string>, endedAt: Option<Timestamp>)

  datatype StoredSet = StoredSet(
    setId: nat, sessionId: nat, exercise: string, weight: real, reps: int, setIndex: int, isOneRm: int)

  /** The columns a session listing selects: set_id, exercise, weight, reps, is_1rm. */
  datatype SetListing = SetListing(setId: nat, exercise: string, weight: real, reps: int, isOneRm: int)

  datatype StorageError =
    | ConstraintViolation  // a UNIQUE, CHECK or FOREIGN KEY constraint refused the statement
    | EngineFailure        // the storage engine failed for a reason of its own
    | OutOfRange           // the driver refused to bind an integer outside SQLite's signed
                           // 64-bit INTEGER (an `OverflowError`, which is not an `sqlite3.Error`)

  // ---------------------------------------------------------------------------------------
  // Users table

  /** The FOREIGN KEY target: some row of `us` has id `userId`. */
  predicate UserExists(us: seq<UserRow>, userId: nat) {
    exists j :: 0 <= j < |us| && us[j].userId == userId
  }

  lemma UserExistsGrow(us: seq<UserRow>, u: UserRow)
    ensures forall id :: UserExists(us, id) ==> UserExists(us + [u], id)
    ensures UserExists(us + [u], u.userId)
  {
    forall id | UserExists(us, id) ensures UserExists(us + [u], id) {
      var j :| 0 <= j < |us| && us[j].userId == id;
      assert (us + [u])[j] == us[j];
    }
    assert (us + [u])[|us|] == u;
  }

  /** Primary key increasing in insertion order and below the AUTOINCREMENT counter; UNIQUE
      username. */
  predicate UsersValid(us: seq<UserRow>, lastId: nat) {
    && (forall i, j :: 0 <= i < j < |us| ==> us[i].userId < us[j].userId)
    && (forall i :: 0 <= i < |us| ==> 0 < us[i].userId <= lastId)
    && (forall i, j :: 0 <= i < j < |us| ==> us[i].username != us[j].username)
  }

  function FindUser(us: seq<UserRow>, username: string): (r: Option<nat>)
    ensures r.None? <==> forall i :: 0 <= i < |us| ==> us[i].username != username
    ensures r.Some? ==> exists i :: 0 <= i < |us| && us[i].username == username && us[i].userId == r.value
  {
    if us == [] then None
    else if us[0].username == username then Some(us[0].userId)
    else
      var r := FindUser(us[1..], username);
      assert forall i :: 1 <= i < |us| ==> us[i] == us[1..][i - 1];
      r
  }

  /** Usernames being unique, a row's name finds that row's id. */
  lemma FindUserAt(us: seq<UserRow>, i: nat)
    requires forall j, k :: 0 <= j < k < |us| ==> us[j].username != us[k].username
    requires i < |us|
    ensures FindUser(us, us[i].username) == Some(us[i].userId)
  {
    var r := FindUser(us, us[i].username);
    var j :| 0 <= j < |us| && us[j].username == us[i].username && us[j].userId == r.value;
    assert j == i;
  }

  // ---------------------------------------------------------------------------------------
  // Sessions table

  predicate IsOpen(s: SessionRow) {
    s.endedAt.None?
  }

  predicate OpenFor(s: SessionRow, userId: nat) {
    s.userId == userId && IsOpen(s)
  }

  /** The FOREIGN KEY target: some row of `ss` has id `sessionId`. */
  predicate SessionExists(ss: seq<SessionRow>, sessionId: nat) {
    exists j :: 0 <= j < |ss| && ss[j].sessionId == sessionId
  }

  lemma SessionExistsGrow(ss: seq<SessionRow>, t: SessionRow)
    ensures forall id :: SessionExists(ss, id) ==> SessionExists(ss + [t], id)
  {
    forall id | SessionExists(ss, id) ensures SessionExists(ss + [t], id) {
      var j :| 0 <= j < |ss| && ss[j].sessionId == id;
      assert (ss + [t])[j] == ss[j];
    }
  }

  /** The partial unique index `idx_one_active_session_per_user`. */
  predicate OneOpenPerUser(ss: seq<SessionRow>) {
    forall i, j :: 0 <= i < j < |ss| && IsOpen(ss[i]) && IsOpen(ss[j]) ==> ss[i].userId != ss[j].userId
  }

  /** Primary key increasing in insertion order and below the AUTOINCREMENT counter; every
      session belongs to an existing user; at most one open session per user. */
  predicate SessionsValid(ss: seq<SessionRow>, lastId: nat, us: seq<UserRow>) {
    && (forall i, j :: 0 <= i < j < |ss| ==> ss[i].sessionId < ss[j].sessionId)
    && (forall i :: 0 <= i < |ss| ==> 0 < ss[i].sessionId <= lastId)
    && (forall i :: 0 <= i < |ss| ==> UserExists(us, ss[i].userId))
    && OneOpenPerUser(ss)
  }

  /** How many of the sessions of `userId` are open. */
  function OpenCount(ss: seq<SessionRow>, userId: nat): nat {
    if ss == [] then 0
    else OpenCount(ss[..|ss| - 1], userId) + (if OpenFor(ss[|ss| - 1], userId) then 1 else 0)
  }

  /** The unique index allows the user one open session at most. */
  lemma {:induction false} OpenCountAtMostOne(ss: seq<SessionRow>, userId: nat)
    requires OneOpenPerUser(ss)
    ensures OpenCount(ss, userId) <= 1
    ensures OpenCount(ss, userId) == 0 <==> forall i :: 0 <= i < |ss| ==> !OpenFor(ss[i], userId)
  {
    if ss != [] {
      var p := ss[..|ss| - 1];
      assert OneOpenPerUser(p) by {
        forall i, j | 0 <= i < j < |p| && IsOpen(p[i]) && IsOpen(p[j]) ensures p[i].userId != p[j].userId {
          assert p[i] == ss[i] && p[j] == ss[j];
        }
      }
      OpenCountAtMostOne(p, userId);
      assert forall i :: 0 <= i < |p| ==> p[i] == ss[i];
      if OpenFor(ss[|ss| - 1], userId) {
        forall i | 0 <= i < |p| ensures !OpenFor(p[i], userId) {
          assert ss[i] == p[i];
        }
      }
    }
  }

  /** The open session of `userId` with the highest id, if there is one. */
  function LatestOpen(ss: seq<SessionRow>, userId: nat): (r: Option<nat>)
    ensures r.None? <==> forall i :: 0 <= i < |ss| ==> !OpenFor(ss[i], userId)
    ensures r.Some? ==> exists i :: 0 <= i < |ss| && OpenFor(ss[i], userId) && ss[i].sessionId == r.value
    ensures r.Some? ==> forall i :: 0 <= i < |ss| && OpenFor(ss[i], userId) ==> ss[i].sessionId <= r.value
  {
    if ss == [] then None
    else
      var p := ss[..|ss| - 1];
      var last := ss[|ss| - 1];
      var m := LatestOpen(p, userId);
      assert forall i :: 0 <= i < |p| ==> p[i] == ss[i];
      if OpenFor(last, userId) && (m.None? || m.value < last.sessionId) then Some(last.sessionId)
      else m
  }

  /** Under the unique index, the active session is the user's only open session. */
  lemma LatestOpenIsOnlyOpen(ss: seq<SessionRow>, userId: nat)
    requires OneOpenPerUser(ss)
    requires LatestOpen(ss, userId).Some?
    ensures forall i :: 0 <= i < |ss| && OpenFor(ss[i], userId) ==> ss[i].sessionId == LatestOpen(ss, userId).value
    ensures OpenCount(ss, userId) == 1
  {
    var j :| 0 <= j < |ss| && OpenFor(ss[j], userId) && ss[j].sessionId == LatestOpen(ss, userId).value;
    forall i | 0 <= i < |ss| && OpenFor(ss[i], userId) ensures ss[i].sessionId == LatestOpen(ss, userId).value {
      if i < j {
        assert false;
      } else if i > j {
        assert false;
      }
    }
    OpenCountAtMostOne(ss, userId);
  }

  /** A session appended for another user leaves the user's latest open session as it was. */
  lemma LatestOpenAppendOther(ss: seq<SessionRow>, t: SessionRow, userId: nat)
    requires !OpenFor(t, userId)
    ensures LatestOpen(ss + [t], userId) == LatestOpen(ss, userId)
  {
    assert (ss + [t])[..|ss|] == ss;
  }

  /** Every session of `userId` still open, ended at `at`; all other rows as they are. */
  function CloseOpenOf(ss: seq<SessionRow>, userId: nat, at: Timestamp): (r: seq<SessionRow>)
    ensures |r| == |ss|
  {
    seq(|ss|, i requires 0 <= i < |ss| => if OpenFor(ss[i], userId) then ss[i].(endedAt := Some(at)) else ss[i])
  }

  /** The session with id `sessionId` ended at `at`; all other rows as they are. */
  function CloseById(ss: seq<SessionRow>, sessionId: nat, at: Timestamp): (r: seq<SessionRow>)
    ensures |r| == |ss|
  {
    seq(|ss|, i requires 0 <= i < |ss| => if ss[i].sessionId == sessionId then ss[i].(endedAt := Some(at)) else ss[i])
  }

  /** Ending sessions keeps every id and owner, and never opens one. */
  predicate OnlyEnds(before: seq<SessionRow>, after: seq<SessionRow>) {
    && |after| == |before|
    && (forall i :: 0 <= i < |before| ==>
          after[i].sessionId == before[i].sessionId && after[i].userId == before[i].userId
          && (IsOpen(after[i]) ==> IsOpen(before[i])))
  }

  lemma OnlyEndsKeepsValid(before: seq<SessionRow>, after: seq<SessionRow>, lastId: nat, us: seq<UserRow>)
    requires SessionsValid(before, lastId, us)
    requires OnlyEnds(before, after)
    ensures SessionsValid(after, lastId, us)
    ensures forall id :: SessionExists(after, id) <==> SessionExists(before, id)
  {
    forall id | SessionExists(after, id) ensures SessionExists(before, id) {
      var j :| 0 <= j < |after| && after[j].sessionId == id;
      assert before[j].sessionId == id;
    }
    forall id | SessionExists(before, id) ensures SessionExists(after, id) {
      var j :| 0 <= j < |before| && before[j].sessionId == id;
      assert after[j].sessionId == id;
    }
  }

  /** After closing every open session of `userId`, none is left and the other users' open
      sessions are untouched. */
  lemma CloseOpenOfCloses(ss: seq<SessionRow>, userId: nat, at: Timestamp)
    ensures LatestOpen(CloseOpenOf(ss, userId, at), userId).None?
    ensures forall v :: v != userId ==> LatestOpen(CloseOpenOf(ss, userId, at), v) == LatestOpen(ss, v)
    ensures OnlyEnds(ss, CloseOpenOf(ss, userId, at))
  {
    var r := CloseOpenOf(ss, userId, at);
    forall v | v != userId ensures LatestOpen(r, v) == LatestOpen(ss, v) {
      assert forall i :: 0 <= i < |ss| ==> (OpenFor(r[i], v) <==> OpenFor(ss[i], v)) && r[i].sessionId == ss[i].sessionId;
      LatestOpenSame(ss, r, v);
    }
  }

  /** With one open session per user and distinct ids, ending the user's open session by its
      id is ending every open session of the user. */
  lemma CloseByIdOfOpen(ss: seq<SessionRow>, userId: nat, at: Timestamp, j: nat)
    requires OneOpenPerUser(ss)
    requires forall i, k :: 0 <= i < k < |ss| ==> ss[i].sessionId < ss[k].sessionId
    requires j < |ss| && OpenFor(ss[j], userId)
    ensures CloseById(ss, ss[j].sessionId, at) == CloseOpenOf(ss, userId, at)
  {
    forall i | 0 <= i < |ss| ensures CloseById(ss, ss[j].sessionId, at)[i] == CloseOpenOf(ss, userId, at)[i] {
      if i < j {
        assert ss[i].sessionId != ss[j].sessionId && !OpenFor(ss[i], userId);
      } else if i > j {
        assert ss[i].sessionId != ss[j].sessionId && !OpenFor(ss[i], userId);
      }
    }
  }

  /** `LatestOpen` sees only which rows are open sessions of the user and their ids. */
  lemma {:induction false} LatestOpenSame(a: seq<SessionRow>, b: seq<SessionRow>, userId: nat)
    requires |a| == |b|
    requires forall i :: 0 <= i < |a| ==> (OpenFor(a[i], userId) <==> OpenFor(b[i], userId)) && a[i].sessionId == b[i].sessionId
    ensures LatestOpen(a, userId) == LatestOpen(b, userId)
  {
    if a != [] {
      LatestOpenSame(a[..|a| - 1], b[..|b| - 1], userId);
    }
  }

  // ---------------------------------------------------------------------------------------
  // Sets table

  /** The CHECK constraints on a row before it gets its index. */
  predicate Admissible(row: SetRow) {
    row.weight >= 0.0 && row.reps > 0 && (row.isOneRm == 0 || row.isOneRm == 1)
  }

  /** SQLite's INTEGER is a signed 64-bit number: the driver binds a Python int only when it
      lies in [-2^63, 2^63). */
  const Int64Bound: int := 0x8000_0000_0000_0000

  predicate FitsInt64(n: int) {
    -Int64Bound <= n < Int64Bound
  }

  /** The driver can bind the integers of the row (its weight is bound as a REAL). */
  predicate Binds(row: SetRow) {
    FitsInt64(row.reps) && FitsInt64(row.isOneRm)
  }

  /** What the INSERT of one row meets: the driver binds its parameters first, then SQLite
      runs the CHECK and FOREIGN KEY constraints (`sessionKnown` says the session exists). */
  function RowError(row: SetRow, sessionKnown: bool): Option<StorageError> {
    if !Binds(row) then Some(OutOfRange)
    else if !Admissible(row) || !sessionKnown then Some(ConstraintViolation)
    else None
  }

  /** `executemany` inserts the rows one after the other and stops at the first that fails. */
  function BatchError(rows: seq<SetRow>, sessionKnown: bool): (e: Option<StorageError>)
    ensures e.None? <==> forall k :: 0 <= k < |rows| ==> RowError(rows[k], sessionKnown).None?
  {
    if rows == [] then None
    else if RowError(rows[0], sessionKnown).Some? then RowError(rows[0], sessionKnown)
    else BatchError(rows[1..], sessionKnown)
  }

  /** The error of a batch is that of its first failing row. */
  lemma {:induction false} BatchErrorFirst(rows: seq<SetRow>, sessionKnown: bool)
    ensures var e := BatchError(rows, sessionKnown);
            e.Some? ==> exists k :: 0 <= k < |rows| && RowError(rows[k], sessionKnown) == e
                           && forall i :: 0 <= i < k ==> RowError(rows[i], sessionKnown).None?
  {
    if rows != [] && RowError(rows[0], sessionKnown).None? {
      var t := rows[1..];
      BatchErrorFirst(t, sessionKnown);
      if BatchError(t, sessionKnown).Some? {
        var k :| 0 <= k < |t| && RowError(t[k], sessionKnown) == BatchError(t, sessionKnown)
                 && forall i :: 0 <= i < k ==> RowError(t[i], sessionKnown).None?;
        assert RowError(rows[k + 1], sessionKnown) == BatchError(rows, sessionKnown);
        forall i | 0 <= i < k + 1 ensures RowError(rows[i], sessionKnown).None? {
          if i > 0 { assert rows[i] == t[i - 1]; }
        }
      }
    }
  }


  /** Every rep count of `rows` fits SQLite's INTEGER. */
  predicate RepsFit(rows: seq<SetRow>) {
    forall k :: 0 <= k < |rows| ==> rows[k].reps < Int64Bound
  }

  /** Rows that pass the CHECKs, for an existing session, fail only when some rep count does
      not fit SQLite's INTEGER. */
  lemma BatchErrorOfAdmissible(rows: seq<SetRow>)
    requires forall k :: 0 <= k < |rows| ==> Admissible(rows[k])
    ensures BatchError(rows, true) == if RepsFit(rows) then None else Some(OutOfRange)
  {
    if BatchError(rows, true).Some? {
      BatchErrorFirst(rows, true);
    }
  }

  /** The CHECK constraints of the sets table. */
  predicate RowChecks(t: StoredSet) {
    t.weight >= 0.0 && t.reps > 0 && t.setIndex > 0 && (t.isOneRm == 0 || t.isOneRm == 1)
  }

  predicate HasKey(t: StoredSet, sessionId: nat, exercise: string) {
    t.sessionId == sessionId && t.exercise == exercise
  }

  /** How many rows of `ts` belong to (sessionId, exercise). */
  function KeyCount(ts: seq<StoredSet>, sessionId: nat, exercise: string): nat {
    if ts == [] then 0
    else KeyCount(ts[..|ts| - 1], sessionId, exercise) + (if HasKey(ts[|ts| - 1], sessionId, exercise) then 1 else 0)
  }

  /** Per (session, exercise) the indices run 1, 2, 3, ... in insertion order: each row's
      index is one more than the number of earlier rows of its pair. */
  predicate IndicesContiguous(ts: seq<StoredSet>) {
    ts == [] ||
      (var p := ts[..|ts| - 1];
       var last := ts[|ts| - 1];
       IndicesContiguous(p) && last.setIndex == KeyCount(p, last.sessionId, last.exercise) + 1)
  }

  /** The unique index `idx_sets_unique_order` on (session_id, exercise, set_index). */
  predicate UniqueOrder(ts: seq<StoredSet>) {
    forall i, j :: 0 <= i < j < |ts| && HasKey(ts[j], ts[i].sessionId, ts[i].exercise) ==> ts[i].setIndex != ts[j].setIndex
  }

  /** Primary key increasing in insertion order and below the AUTOINCREMENT counter; every
      set belongs to an existing session; the CHECK constraints; the unique index. */
  predicate SetsValid(ts: seq<StoredSet>, lastId: nat, ss: seq<SessionRow>) {
    RowsValid(ts, lastId, ss) && UniqueOrder(ts)
  }

  /** The constraints of the sets table that look at rows one by one (and at their ids). */
  predicate RowsValid(ts: seq<StoredSet>, lastId: nat, ss: seq<SessionRow>) {
    && (forall i, j :: 0 <= i < j < |ts| ==> ts[i].setId < ts[j].setId)
    && (forall i :: 0 <= i < |ts| ==> 0 < ts[i].setId <= lastId)
    && (forall i :: 0 <= i < |ts| ==> SessionExists(ss, ts[i].sessionId))
    && (forall i :: 0 <= i < |ts| ==> RowChecks(ts[i]))
  }

  lemma AppendRowsValid(a: seq<StoredSet>, b: seq<StoredSet>, lastA: nat, lastB: nat, ss: seq<SessionRow>)
    requires RowsValid(a, lastA, ss) && RowsValid(b, lastB, ss)
    requires forall k :: 0 <= k < |b| ==> b[k].setId > lastA
    requires lastA <= lastB
    ensures RowsValid(a + b, lastB, ss)
  {
    var all := a + b;
    forall i | 0 <= i < |all| ensures 0 < all[i].setId <= lastB && SessionExists(ss, all[i].sessionId) && RowChecks(all[i]) {
      if i >= |a| {
        assert all[i] == b[i - |a|];
      }
    }
    forall i, j | 0 <= i < j < |all| ensures all[i].setId < all[j].setId {
      if j >= |a| {
        assert all[j] == b[j - |a|];
        if i >= |a| {
          assert all[i] == b[i - |a|];
        }
      }
    }
  }

  lemma {:induction false} KeyCountAppend(a: seq<StoredSet>, b: seq<StoredSet>, sessionId: nat, exercise: string)
    ensures KeyCount(a + b, sessionId, exercise) == KeyCount(a, sessionId, exercise) + KeyCount(b, sessionId, exercise)
    decreases |b|
  {
    if b == [] {
      assert a + b == a;
    } else {
      assert (a + b)[..|a + b| - 1] == a + b[..|b| - 1];
      KeyCountAppend(a, b[..|b| - 1], sessionId, exercise);
    }
  }

  lemma {:induction false} KeyCountPrefix(ts: seq<StoredSet>, i: nat, j: nat, sessionId: nat, exercise: string)
    requires i <= j <= |ts|
    ensures KeyCount(ts[..i], sessionId, exercise) <= KeyCount(ts[..j], sessionId, exercise)
    ensures i < j && HasKey(ts[i], sessionId, exercise) ==> KeyCount(ts[..i], sessionId, exercise) < KeyCount(ts[..j], sessionId, exercise)
  {
    assert ts[..j] == ts[..i] + ts[i..j];
    KeyCountAppend(ts[..i], ts[i..j], sessionId, exercise);
    if i < j && HasKey(ts[i], sessionId, exercise) {
      assert ts[i..j] == [ts[i]] + ts[i + 1..j];
      KeyCountAppend([ts[i]], ts[i + 1..j], sessionId, exercise);
      assert [ts[i]][..0] == [];
    }
  }

  lemma {:induction false} ContiguousPrefix(ts: seq<StoredSet>, k: nat)
    requires IndicesContiguous(ts) && k <= |ts|
    ensures IndicesContiguous(ts[..k])
    decreases |ts|
  {
    if k < |ts| {
      var p := ts[..|ts| - 1];
      ContiguousPrefix(p, k);
      assert p[..k] == ts[..k];
    } else {
      assert ts[..k] == ts;
    }
  }

  /** Contiguity read at one row: its index is one more than the number of earlier rows of
      its pair. */
  lemma ContiguousAt(ts: seq<StoredSet>, i: nat)
    requires IndicesContiguous(ts) && i < |ts|
    ensures ts[i].setIndex == KeyCount(ts[..i], ts[i].sessionId, ts[i].exercise) + 1
  {
    ContiguousPrefix(ts, i + 1);
    var q := ts[..i + 1];
    assert q[..|q| - 1] == ts[..i];
  }

  /** Contiguous indices are in particular unique per (session, exercise). */
  lemma ContiguousIsUnique(ts: seq<StoredSet>)
    requires IndicesContiguous(ts)
    ensures UniqueOrder(ts)
  {
    forall i, j | 0 <= i < j < |ts| && HasKey(ts[j], ts[i].sessionId, ts[i].exercise)
      ensures ts[i].setIndex != ts[j].setIndex
    {
      ContiguousAt(ts, i);
      ContiguousAt(ts, j);
      KeyCountPrefix(ts, i, j, ts[i].sessionId, ts[i].exercise);
    }
  }

  /** The indices of (sessionId, exercise), in storage order. */
  function KeyIndices(ts: seq<StoredSet>, sessionId: nat, exercise: string): seq<int> {
    if ts == [] then []
    else KeyIndices(ts[..|ts| - 1], sessionId, exercise)
         + (if HasKey(ts[|ts| - 1], sessionId, exercise) then [ts[|ts| - 1].setIndex] else [])
  }

  /** In a table with contiguous indices, the indices of every (session, exercise) read
      1, 2, ..., k in storage order. */
  lemma {:induction false} KeyIndicesRunFromOne(ts: seq<StoredSet>, sessionId: nat, exercise: string)
    requires IndicesContiguous(ts)
    ensures KeyIndices(ts, sessionId, exercise) == seq(KeyCount(ts, sessionId, exercise), k => k + 1)
  {
    if ts != [] {
      KeyIndicesRunFromOne(ts[..|ts| - 1], sessionId, exercise);
    }
  }

  /** The largest index of (sessionId, exercise), or None when the pair has no row:
      `MAX(set_index)` of the matching rows. */
  function MaxSetIndex(ts: seq<StoredSet>, sessionId: nat, exercise: string): (m: Option<int>)
    ensures m.None? <==> forall i :: 0 <= i < |ts| ==> !HasKey(ts[i], sessionId, exercise)
    ensures m.Some? ==> exists i :: 0 <= i < |ts| && HasKey(ts[i], sessionId, exercise) && ts[i].setIndex == m.value
    ensures m.Some? ==> forall i :: 0 <= i < |ts| && HasKey(ts[i], sessionId, exercise) ==> ts[i].setIndex <= m.value
  {
    if ts == [] then None
    else
      var p := ts[..|ts| - 1];
      var last := ts[|ts| - 1];
      var m := MaxSetIndex(p, sessionId, exercise);
      assert forall i :: 0 <= i < |p| ==> p[i] == ts[i];
      if HasKey(last, sessionId, exercise) && (m.None? || m.value < last.setIndex) then Some(last.setIndex)
      else m
  }

  /** `db_get_next_set_index` on a table: `COALESCE(MAX(set_index), 0) + 1`. */
  function NextIndexOf(ts: seq<StoredSet>, sessionId: nat, exercise: string): int {
    match MaxSetIndex(ts, sessionId, exercise)
    case None => 1
    case Some(m) => m + 1
  }

  /** With contiguous indices the largest index is the number of rows of the pair. */
  lemma {:induction false} MaxSetIndexIsCount(ts: seq<StoredSet>, sessionId: nat, exercise: string)
    requires IndicesContiguous(ts)
    ensures MaxSetIndex(ts, sessionId, exercise) == if KeyCount(ts, sessionId, exercise) == 0 then None else Some(KeyCount(ts, sessionId, exercise))
  {
    if ts != [] {
      MaxSetIndexIsCount(ts[..|ts| - 1], sessionId, exercise);
    }
  }

  /** With contiguous indices the next index is one more than the number of rows of the
      pair. */
  lemma NextIndexCounts(ts: seq<StoredSet>, sessionId: nat, exercise: string)
    requires IndicesContiguous(ts)
    ensures NextIndexOf(ts, sessionId, exercise) == KeyCount(ts, sessionId, exercise) + 1
  {
    MaxSetIndexIsCount(ts, sessionId, exercise);
  }

  /** The rows `InsertSets` appends: the i-th of `rows` gets index `firstIndex + i` and id
      `firstId + i`. */
  function Stamped(rows: seq<SetRow>, sessionId: nat, exercise: string, firstIndex: int, firstId: nat): (ts: seq<StoredSet>)
    ensures |ts| == |rows|
    ensures forall i :: 0 <= i < |ts| ==>
              && ts[i].setId == firstId + i && ts[i].setIndex == firstIndex + i
              && ts[i].sessionId == sessionId && ts[i].exercise == exercise
              && ts[i].weight == rows[i].weight && ts[i].reps == rows[i].reps && ts[i].isOneRm == rows[i].isOneRm
  {
    seq(|rows|, i requires 0 <= i < |rows| =>
      StoredSet(firstId + i, sessionId, exercise, rows[i].weight, rows[i].reps, firstIndex + i, rows[i].isOneRm))
  }

  /** A batch stamped from the next free index keeps the indices contiguous. */
  lemma {:induction false} AppendStampedContiguous(ts: seq<StoredSet>, rows: seq<SetRow>, sessionId: nat, exercise: string, start: int, firstId: nat)
    requires IndicesContiguous(ts)
    requires start == KeyCount(ts, sessionId, exercise) + 1
    ensures IndicesContiguous(ts + Stamped(rows, sessionId, exercise, start, firstId))
  {
    var b := Stamped(rows, sessionId, exercise, start, firstId);
    if rows == [] {
      assert ts + b == ts;
    } else {
      var front := rows[..|rows| - 1];
      var b' := Stamped(front, sessionId, exercise, start, firstId);
      AppendStampedContiguous(ts, front, sessionId, exercise, start, firstId);
      assert b[..|b| - 1] == b';
      assert (ts + b)[..|ts + b| - 1] == ts + b';
      KeyCountAppend(ts, b', sessionId, exercise);
      KeyCountOfBatch(b', sessionId, exercise);
    }
  }

  lemma {:induction false} KeyCountOfBatch(b: seq<StoredSet>, sessionId: nat, exercise: string)
    requires forall i :: 0 <= i < |b| ==> HasKey(b[i], sessionId, exercise)
    ensures KeyCount(b, sessionId, exercise) == |b|
  {
    if b != [] {
      KeyCountOfBatch(b[..|b| - 1], sessionId, exercise);
    }
  }

  /** An insert keeps the indices of a contiguous table contiguous: whatever the table held,
      inserting only ever continues each pair's run 1, 2, 3, ... */
  lemma InsertKeepsContiguous(ts: seq<StoredSet>, rows: seq<SetRow>, sessionId: nat, exercise: string, firstId: nat)
    requires IndicesContiguous(ts)
    ensures IndicesContiguous(ts + Stamped(rows, sessionId, exercise, NextIndexOf(ts, sessionId, exercise), firstId))
  {
    NextIndexCounts(ts, sessionId, exercise);
    AppendStampedContiguous(ts, rows, sessionId, exercise, NextIndexOf(ts, sessionId, exercise), firstId);
  }

  /** A batch stamped with the next free ids and an index from 1 up meets the row
      constraints on its own. */
  lemma StampedRowsValid(rows: seq<SetRow>, sessionId: nat, exercise: string, firstIndex: int, lastId: nat, ss: seq<SessionRow>, b: seq<StoredSet>)
    requires forall i :: 0 <= i < |rows| ==> Admissible(rows[i])
    requires rows == [] || SessionExists(ss, sessionId)
    requires firstIndex >= 1
    requires b == Stamped(rows, sessionId, exercise, firstIndex, lastId + 1)
    ensures RowsValid(b, lastId + |rows|, ss)
    ensures forall k :: 0 <= k < |b| ==> b[k].setId > lastId
  {
    forall i | 0 <= i < |b| ensures b[i].setId == lastId + 1 + i && b[i].sessionId == sessionId && RowChecks(b[i]) {
      assert Admissible(rows[i]);
    }
  }

  /** A batch whose indices start above every index its pair already has keeps the
      (session, exercise, index) triples unique. */
  lemma AppendStampedUnique(ts: seq<StoredSet>, rows: seq<SetRow>, sessionId: nat, exercise: string, firstIndex: int, firstId: nat)
    requires UniqueOrder(ts)
    requires forall i :: 0 <= i < |ts| && HasKey(ts[i], sessionId, exercise) ==> ts[i].setIndex < firstIndex
    ensures UniqueOrder(ts + Stamped(rows, sessionId, exercise, firstIndex, firstId))
  {
    var b := Stamped(rows, sessionId, exercise, firstIndex, firstId);
    var all := ts + b;
    forall i, j | 0 <= i < j < |all| && HasKey(all[j], all[i].sessionId, all[i].exercise)
      ensures all[i].setIndex != all[j].setIndex
    {
      if j >= |ts| {
        assert all[j] == b[j - |ts|];
        if i >= |ts| {
          assert all[i] == b[i - |ts|];
        } else {
          assert all[i] == ts[i];
        }
      } else {
        assert all[i] == ts[i] && all[j] == ts[j];
      }
    }
  }

  /** Appending a batch stamped from the next free index and the next free ids keeps every
      constraint of the sets table. */
  lemma AppendStampedValid(ts: seq<StoredSet>, lastId: nat, ss: seq<SessionRow>, rows: seq<SetRow>, sessionId: nat, exercise: string, firstIndex: int, b: seq<StoredSet>)
    requires SetsValid(ts, lastId, ss)
    requires forall i :: 0 <= i < |rows| ==> Admissible(rows[i])
    requires rows == [] || SessionExists(ss, sessionId)
    requires firstIndex == NextIndexOf(ts, sessionId, exercise)
    requires b == Stamped(rows, sessionId, exercise, firstIndex, lastId + 1)
    ensures SetsValid(ts + b, lastId + |b|, ss)
  {
    var m := MaxSetIndex(ts, sessionId, exercise);
    if m.Some? {
      var i :| 0 <= i < |ts| && HasKey(ts[i], sessionId, exercise) && ts[i].setIndex == m.value;
      assert RowChecks(ts[i]);
    }
    StampedRowsValid(rows, sessionId, exercise, firstIndex, lastId, ss, b);
    AppendRowsValid(ts, b, lastId, lastId + |rows|, ss);
    AppendStampedUnique(ts, rows, sessionId, exercise, firstIndex, lastId + 1);
  }

  /** Rows of other pairs do not move another pair's largest index. */
  lemma {:induction false} MaxSetIndexAppendOther(ts: seq<StoredSet>, b: seq<StoredSet>, sessionId: nat, exercise: string)
    requires forall k :: 0 <= k < |b| ==> !HasKey(b[k], sessionId, exercise)
    ensures MaxSetIndex(ts + b, sessionId, exercise) == MaxSetIndex(ts, sessionId, exercise)
  {
    if b == [] {
      assert ts + b == ts;
    } else {
      var b' := b[..|b| - 1];
      assert (ts + b)[..|ts + b| - 1] == ts + b';
      MaxSetIndexAppendOther(ts, b', sessionId, exercise);
    }
  }

  /** After a batch whose indices start above every index its pair already has, the pair's
      largest index is the last one of the batch. */
  lemma {:induction false} MaxSetIndexAppendStamped(ts: seq<StoredSet>, rows: seq<SetRow>, sessionId: nat, exercise: string, start: int, firstId: nat)
    requires rows != []
    requires forall i :: 0 <= i < |ts| && HasKey(ts[i], sessionId, exercise) ==> ts[i].setIndex < start
    ensures MaxSetIndex(ts + Stamped(rows, sessionId, exercise, start, firstId), sessionId, exercise) == Some(start + |rows| - 1)
  {
    var b := Stamped(rows, sessionId, exercise, start, firstId);
    var front := rows[..|rows| - 1];
    var b' := Stamped(front, sessionId, exercise, start, firstId);
    var all := ts + b;
    var last := b[|b| - 1];
    assert b[..|b| - 1] == b';
    assert all[..|all| - 1] == ts + b';
    assert all[|all| - 1] == last;
    assert HasKey(last, sessionId, exercise) && last.setIndex == start + |rows| - 1;
    var m := MaxSetIndex(ts + b', sessionId, exercise);
    if front != [] {
      MaxSetIndexAppendStamped(ts, front, sessionId, exercise, start, firstId);
      assert m == Some(start + |rows| - 2);
    } else {
      assert ts + b' == ts;
      assert m.None? || m.value < start;
    }
    assert MaxSetIndex(all, sessionId, exercise) == Some(last.setIndex);
  }

  /** After an insert the pair's next index has moved on by the number of rows inserted. */
  lemma InsertContinuesIndices(ts: seq<StoredSet>, rows: seq<SetRow>, sessionId: nat, exercise: string, firstId: nat)
    ensures NextIndexOf(ts + Stamped(rows, sessionId, exercise, NextIndexOf(ts, sessionId, exercise), firstId), sessionId, exercise)
            == NextIndexOf(ts, sessionId, exercise) + |rows|
  {
    if rows != [] {
      MaxSetIndexAppendStamped(ts, rows, sessionId, exercise, NextIndexOf(ts, sessionId, exercise), firstId);
    } else {
      assert ts + Stamped(rows, sessionId, exercise, NextIndexOf(ts, sessionId, exercise), firstId) == ts;
    }
  }

  /** An insert into one pair moves no other pair's next index. */
  lemma InsertKeepsOtherIndices(ts: seq<StoredSet>, rows: seq<SetRow>, sessionId: nat, exercise: string, firstIndex: int, firstId: nat)
    ensures forall sid, ex :: (sid != sessionId || ex != exercise) ==>
              NextIndexOf(ts + Stamped(rows, sessionId, exercise, firstIndex, firstId), sid, ex) == NextIndexOf(ts, sid, ex)
  {
    var b := Stamped(rows, sessionId, exercise, firstIndex, firstId);
    forall sid, ex | sid != sessionId || ex != exercise
      ensures NextIndexOf(ts + b, sid, ex) == NextIndexOf(ts, sid, ex)
    {
      MaxSetIndexAppendOther(ts, b, sid, ex);
    }
  }

  /** The listing of `sessionId`'s sets, newest first. */
  function ListNewestFirst(ts: seq<StoredSet>, sessionId: nat): (r: seq<SetListing>)
    requires forall i, j :: 0 <= i < j < |ts| ==> ts[i].setId < ts[j].setId
    ensures forall x :: x in r <==> exists i :: 0 <= i < |ts| && ts[i].sessionId == sessionId && Listing(ts[i]) == x
    ensures forall i, j :: 0 <= i < j < |r| ==> r[i].setId > r[j].setId
  {
    if ts == [] then []
    else
      var p := ts[..|ts| - 1];
      var last := ts[|ts| - 1];
      var rest := ListNewestFirst(p, sessionId);
      assert forall i :: 0 <= i < |p| ==> p[i] == ts[i];
      if last.sessionId == sessionId then
        assert forall x :: x in rest ==> x.setId < last.setId;
        [Listing(last)] + rest
      else rest
  }

  function Listing(t: StoredSet): SetListing {
    SetListing(t.setId, t.exercise, t.weight, t.reps, t.isOneRm)
  }

  /** A user with the next id and a name not yet taken keeps the users table valid and
      every session's owner in it. */
  lemma AddUserValid(us: seq<UserRow>, lastId: nat, ss: seq<SessionRow>, lastSessionId: nat, u: UserRow)
    requires UsersValid(us, lastId) && SessionsValid(ss, lastSessionId, us)
    requires u.userId == lastId + 1
    requires forall i :: 0 <= i < |us| ==> us[i].username != u.username
    ensures UsersValid(us + [u], u.userId) && SessionsValid(ss, lastSessionId, us + [u])
  {
    UserExistsGrow(us, u);
  }

  /** An open session with the next id, for an existing user with no open session, keeps
      the sessions table valid and every set's session in it. */
  lemma AddSessionValid(ss: seq<SessionRow>, lastId: nat, us: seq<UserRow>, ts: seq<StoredSet>, lastSetId: nat, t: SessionRow)
    requires SessionsValid(ss, lastId, us) && SetsValid(ts, lastSetId, ss)
    requires t.sessionId == lastId + 1 && UserExists(us, t.userId) && IsOpen(t)
    requires forall i :: 0 <= i < |ss| ==> !OpenFor(ss[i], t.userId)
    ensures SessionsValid(ss + [t], t.sessionId, us) && SetsValid(ts, lastSetId, ss + [t])
  {
    SessionExistsGrow(ss, t);
    var all := ss + [t];
    forall i, j | 0 <= i < j < |all| && IsOpen(all[i]) && IsOpen(all[j]) ensures all[i].userId != all[j].userId {
      if j == |ss| {
        assert all[i] == ss[i];
      } else {
        assert all[i] == ss[i] && all[j] == ss[j];
      }
    }
  }

  // ---------------------------------------------------------------------------------------
  // The store

  class Store {
    var users: seq<UserRow>
    var sessions: seq<SessionRow>
    var sets: seq<StoredSet>
    // the AUTOINCREMENT counters (sqlite_sequence): the last id handed out per table
    var lastUserId: nat
    var lastSessionId: nat
    var lastSetId: nat

    /** Every constraint of the schema: the users' UNIQUE names, the FOREIGN KEYs, the partial
        unique index on open sessions, the CHECKs on set rows and the UNIQUE set order. */
    ghost predicate Valid()
      reads this
    {
      && UsersValid(users, lastUserId)
      && SessionsValid(sessions, lastSessionId, users)
      && SetsValid(sets, lastSetId, sessions)
    }

    /** A freshly initialised database: the three tables, empty. */
    constructor ()
      ensures Valid()
      ensures users == [] && sessions == [] && sets == []
      ensures lastUserId == 0 && lastSessionId == 0 && lastSetId == 0
    {
      users, sessions, sets := [], [], [];
      lastUserId, lastSessionId, lastSetId := 0, 0, 0;
    }

    /** The id of the user named exactly `username`, if any. */
    function GetUser(username: string): (r: Option<nat>)
      reads this
      ensures r.None? <==> forall i :: 0 <= i < |users| ==> users[i].username != username
      ensures r.Some? ==> exists i :: 0 <= i < |users| && users[i].username == username && users[i].userId == r.value
    {
      FindUser(users, username)
    }

    /** Inserts a user; the UNIQUE constraint refuses a name already taken. */
    method CreateUser(createdAt: Timestamp, username: string) returns (r: Result<nat, StorageError>)
      requires Valid()
      modifies this
      ensures Valid()
      ensures sessions == old(sessions) && sets == old(sets)
      ensures lastSessionId == old(lastSessionId) && lastSetId == old(lastSetId)
      ensures r.Ok? <==> old(GetUser(username)).None?
      ensures r.Ok? ==> r.value == old(lastUserId) + 1 && lastUserId == r.value
      ensures r.Ok? ==> users == old(users) + [UserRow(r.value, username, createdAt)]
      ensures r.Err? ==> r.error == ConstraintViolation && users == old(users) && lastUserId == old(lastUserId)
    {
      if GetUser(username).Some? {
        return Err(ConstraintViolation);
      }
      var u := UserRow(lastUserId + 1, username, createdAt);
      AddUserValid(users, lastUserId, sessions, lastSessionId, u);
      users, lastUserId := users + [u], u.userId;
      r := Ok(u.userId);
    }

    /** `db_create_session`: inserts an open session; a missing user (FOREIGN KEY) or an
        open session of the same user (the partial unique index) refuses it. */
    method CreateSession(userId: nat, performedAt: Timestamp, notes: Option<string>) returns (r: Result<nat, StorageError>)
      requires Valid()
      modifies this
      ensures Valid()
      ensures users == old(users) && sets == old(sets)
      ensures lastUserId == old(lastUserId) && lastSetId == old(lastSetId)
      ensures r.Ok? <==> UserExists(old(users), userId) && old(ActiveSession(userId)).None?
      ensures r.Ok? ==> r.value == old(lastSessionId) + 1 && lastSessionId == r.value
      ensures r.Ok? ==> forall i :: 0 <= i < |old(sessions)| ==> old(sessions)[i].sessionId < r.value
      ensures r.Ok? ==> sessions == old(sessions) + [SessionRow(r.value, userId, performedAt, notes, None)]
      ensures r.Err? ==> r.error == ConstraintViolation && sessions == old(sessions) && lastSessionId == old(lastSessionId)
    {
      if !UserExists(users, userId) || ActiveSession(userId).Some? {
        return Err(ConstraintViolation);
      }
      var t := SessionRow(lastSessionId + 1, userId, performedAt, notes, None);
      AddSessionValid(sessions, lastSessionId, users, sets, lastSetId, t);
      sessions, lastSessionId := sessions + [t], t.sessionId;
      r := Ok(t.sessionId);
    }

    /** `db_end_all_open_sessions`: ends every open session of `userId` at `performedAt` and
        returns how many there were. */
    method EndAllOpenSessions(userId: nat, performedAt: Timestamp) returns (count: nat)
      requires Valid()
      modifies this
      ensures Valid()
      ensures users == old(users) && sets == old(sets)
      ensures lastUserId == old(lastUserId) && lastSessionId == old(lastSessionId) && lastSetId == old(lastSetId)
      ensures count == OpenCount(old(sessions), userId) && count <= 1
      ensures |sessions| == |old(sessions)|
      ensures forall i :: 0 <= i < |sessions| ==>
                sessions[i] == if OpenFor(old(sessions)[i], userId) then old(sessions)[i].(endedAt := Some(performedAt)) else old(sessions)[i]
      ensures sessions == CloseOpenOf(old(sessions), userId, performedAt)
      ensures ActiveSession(userId).None?
      ensures forall v :: v != userId ==> ActiveSession(v) == old(ActiveSession(v))
    {
      count := OpenCount(sessions, userId);
      OpenCountAtMostOne(sessions, userId);
      CloseOpenOfCloses(sessions, userId, performedAt);
      OnlyEndsKeepsValid(sessions, CloseOpenOf(sessions, userId, performedAt), lastSessionId, users);
      sessions := CloseOpenOf(sessions, userId, performedAt);
    }

    /** Ends the session `sessionId` at `endedAt`, open or not (UPDATE ... WHERE session_id). */
    method EndSession(sessionId: nat, endedAt: Timestamp)
      requires Valid()
      modifies this
      ensures Valid()
      ensures users == old(users) && sets == old(sets)
      ensures lastUserId == old(lastUserId) && lastSessionId == old(lastSessionId) && lastSetId == old(lastSetId)
      ensures |sessions| == |old(sessions)|
      ensures forall i :: 0 <= i < |sessions| ==>
                sessions[i] == if old(sessions)[i].sessionId == sessionId then old(sessions)[i].(endedAt := Some(endedAt)) else old(sessions)[i]
      ensures sessions == CloseById(old(sessions), sessionId, endedAt)
    {
      OnlyEndsKeepsValid(sessions, CloseById(sessions, sessionId, endedAt), lastSessionId, users);
      sessions := CloseById(sessions, sessionId, endedAt);
    }

    /** `db_get_active_session`: the highest id among the open sessions of `userId`. */
    function ActiveSession(userId: nat): (r: Option<nat>)
      reads this
      ensures r.None? <==> forall i :: 0 <= i < |sessions| ==> !OpenFor(sessions[i], userId)
      ensures r.Some? ==> exists i :: 0 <= i < |sessions| && OpenFor(sessions[i], userId) && sessions[i].sessionId == r.value
      ensures r.Some? ==> forall i :: 0 <= i < |sessions| && OpenFor(sessions[i], userId) ==> sessions[i].sessionId <= r.value
    {
      LatestOpen(sessions, userId)
    }

    /** `db_get_next_set_index`: one more than the largest index of (sessionId, exercise),
        or 1 when the pair has no set yet. */
    function NextSetIndex(sessionId: nat, exercise: string): (n: int)
      reads this
      ensures forall i :: 0 <= i < |sets| && HasKey(sets[i], sessionId, exercise) ==> sets[i].setIndex < n
      ensures (forall i :: 0 <= i < |sets| ==> !HasKey(sets[i], sessionId, exercise)) ==> n == 1
      ensures n != 1 ==> exists i :: 0 <= i < |sets| && HasKey(sets[i], sessionId, exercise) && sets[i].setIndex == n - 1
    {
      NextIndexOf(sets, sessionId, exercise)
    }

    /** `db_insert_sets`: appends `rows` to (sessionId, exercise) with indices continuing from
        `NextSetIndex` and ids continuing from the counter, all or none. `fault` stands for a
        failure of the storage engine; otherwise the first row the driver cannot bind (a value
        outside 64 bits) or a constraint refuses (`BatchError`) makes the whole batch fail. What the append does to the next index and to
        contiguity is stated on the appended table by `InsertContinuesIndices`,
        `InsertKeepsOtherIndices` and `InsertKeepsContiguous`. */
    method InsertSets(sessionId: nat, exercise: string, rows: seq<SetRow>, fault: bool) returns (r: Result<nat, StorageError>)
      requires Valid()
      modifies this
      ensures Valid()
      ensures users == old(users) && sessions == old(sessions)
      ensures lastUserId == old(lastUserId) && lastSessionId == old(lastSessionId)
      ensures fault ==> r == Err(EngineFailure)
      ensures r.Ok? <==> !fault && BatchError(rows, SessionExists(sessions, sessionId)).None?
      ensures !fault && r.Err? ==> BatchError(rows, SessionExists(sessions, sessionId)) == Some(r.error)
      ensures r.Ok? ==> r.value == |rows| && lastSetId == old(lastSetId) + |rows|
      ensures r.Ok? ==> sets == old(sets) + Stamped(rows, sessionId, exercise, NextIndexOf(old(sets), sessionId, exercise), old(lastSetId) + 1)
      ensures r.Err? ==> sets == old(sets) && lastSetId == old(lastSetId)
    {
      if fault {
        return Err(EngineFailure);
      }
      var failure := BatchError(rows, SessionExists(sessions, sessionId));
      if failure.Some? {
        return Err(failure.value);
      }
      assert forall i :: 0 <= i < |rows| ==> Admissible(rows[i]);
      assert rows != [] ==> RowError(rows[0], SessionExists(sessions, sessionId)).None?;
      AppendRows(sessionId, exercise, rows);
      r := Ok(|rows|);
    }

    /** The insert itself, once no row is refused: the rows, stamped with the next indices of
        (sessionId, exercise) and the next ids, go to the end of the sets table. */
    method AppendRows(sessionId: nat, exercise: string, rows: seq<SetRow>)
      requires Valid()
      requires forall i :: 0 <= i < |rows| ==> Admissible(rows[i])
      requires rows != [] ==> SessionExists(sessions, sessionId)
      modifies this
      ensures Valid()
      ensures users == old(users) && sessions == old(sessions)
      ensures lastUserId == old(lastUserId) && lastSessionId == old(lastSessionId)
      ensures lastSetId == old(lastSetId) + |rows|
      ensures sets == old(sets) + Stamped(rows, sessionId, exercise, NextIndexOf(old(sets), sessionId, exercise), old(lastSetId) + 1)
    {
      var start := NextIndexOf(sets, sessionId, exercise);
      var batch := Stamped(rows, sessionId, exercise, start, lastSetId + 1);
      AppendStampedValid(sets, lastSetId, sessions, rows, sessionId, exercise, start, batch);
      sets, lastSetId := sets + batch, lastSetId + |batch|;
    }

    /** `db_get_sets_by_session`: the session's sets, newest (highest set id) first. */
    function SetsBySession(sessionId: nat): (r: seq<SetListing>)
      reads this
      requires Valid()
      ensures forall x :: x in r <==> exists i :: 0 <= i < |sets| && sets[i].sessionId == sessionId && Listing(sets[i]) == x
      ensures forall i, j :: 0 <= i < j < |r| ==> r[i].setId > r[j].setId
    {
      ListNewestFirst(sets, sessionId)
    }
  }
}
