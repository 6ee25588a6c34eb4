/**
 * The menu options of the lift log, with their input and output taken away: the typed
 * texts, the y/n answers and the clock are parameters, and what an option prints is what it
 * returns.
 */
module MenuOptions {
  import opened Wrappers
  import opened Text
  import Db
  import Services

  // ---------------------------------------------------------------------------------------
  // 1) Start new session

  /** `start_new_session`: ends every open session of the user at `performedAt`, then opens a
      new one at the same time. `closed` is the number of sessions it ended. The only way the
      insert can fail is a user who does not exist; that user has no session to end, so the
      rolled-back transaction leaves the table as it was. */
  method StartNewSession(db: Db.Store, userId: nat, performedAt: Db.Timestamp, notes: Option<string>)
    returns (r: Result<nat, Db.StorageError>, closed: nat)
    requires db.Valid()
    modifies db
    ensures db.Valid()
    ensures db.users == old(db.users) && db.sets == old(db.sets)
    ensures db.lastUserId == old(db.lastUserId) && db.lastSetId == old(db.lastSetId)
    ensures closed == Db.OpenCount(old(db.sessions), userId) && closed <= 1
    ensures r.Ok? <==> Db.UserExists(old(db.users), userId)
    ensures r.Err? ==> r.error == Db.ConstraintViolation && db.sessions == old(db.sessions) && db.lastSessionId == old(db.lastSessionId)
    ensures r.Ok? ==> r.value == old(db.lastSessionId) + 1 && db.lastSessionId == r.value
    ensures r.Ok? ==> forall i :: 0 <= i < |old(db.sessions)| ==> old(db.sessions)[i].sessionId < r.value
    ensures r.Ok? ==> db.sessions == Db.CloseOpenOf(old(db.sessions), userId, performedAt) + [Db.SessionRow(r.value, userId, performedAt, notes, None)]
    ensures r.Ok? ==> db.ActiveSession(userId) == Some(r.value)
    ensures forall v :: v != userId ==> db.ActiveSession(v) == old(db.ActiveSession(v))
  {
    ghost var before := db.sessions;
    closed := db.EndAllOpenSessions(userId, performedAt);
    ghost var ended := db.sessions;
    r := db.CreateSession(userId, performedAt, notes);
    if r.Err? {
      assert forall i :: 0 <= i < |before| ==> !Db.OpenFor(before[i], userId);
      assert db.sessions == before;
    } else {
      forall v | v != userId ensures db.ActiveSession(v) == old(db.ActiveSession(v)) {
        Db.LatestOpenAppendOther(ended, Db.SessionRow(r.value, userId, performedAt, notes, None), v);
      }
    }
  }

  // ---------------------------------------------------------------------------------------
  // 2) Add sets

  /** `add_set_ui`: with the user's active session, reads the entry stripped, parses it and
      stores its rows; the errors it prints are the errors returned here. Its effect is
      `add_sets_from_entry`'s on the line as typed: the strip changes nothing. */
  method AddSetUi(db: Db.Store, userId: nat, typed: string, askIsOneRm: Services.Oracle, fault: bool)
    returns (r: Result<(string, nat), Services.AddError>, asked: seq<real>)
    requires db.Valid()
    modifies db
    ensures db.Valid()
    ensures db.users == old(db.users) && db.sessions == old(db.sessions)
    ensures db.lastUserId == old(db.lastUserId) && db.lastSessionId == old(db.lastSessionId)
    ensures r.Err? ==> db.sets == old(db.sets) && db.lastSetId == old(db.lastSetId)
    ensures old(db.ActiveSession(userId)).None? ==> r == Err(Services.NoActiveSession) && asked == []
    ensures old(db.ActiveSession(userId)).Some? ==>
              Services.Stored(old(db.sets), old(db.lastSetId), db.sets, db.lastSetId, old(db.ActiveSession(userId)).value,
                              typed, askIsOneRm, fault, r, asked)
  {
    var sessionId := db.ActiveSession(userId);
    if sessionId.None? {
      return Err(Services.NoActiveSession), [];
    }
    r, asked := Services.InsertEntry(db, sessionId.value, Strip(typed), askIsOneRm, fault);
    Services.EntryOfStripped(typed, askIsOneRm);
  }

  // ---------------------------------------------------------------------------------------
  // 3) View active session

  /** `view_active_session`: the active session and its sets, newest first. */
  function ViewActiveSession(db: Db.Store, userId: nat): (r: Option<(nat, seq<Db.SetListing>)>)
    reads db
    requires db.Valid()
    ensures r.None? <==> db.ActiveSession(userId).None?
    ensures r.Some? ==> r.value.0 == db.ActiveSession(userId).value
    ensures r.Some? ==> forall x :: x in r.value.1 <==>
              exists i :: 0 <= i < |db.sets| && db.sets[i].sessionId == r.value.0 && Db.Listing(db.sets[i]) == x
    ensures r.Some? ==> forall i, j :: 0 <= i < j < |r.value.1| ==> r.value.1[i].setId > r.value.1[j].setId
  {
    match db.ActiveSession(userId)
    case None => None
    case Some(sessionId) => Some((sessionId, db.SetsBySession(sessionId)))
  }

  // ---------------------------------------------------------------------------------------
  // 4) View exercise stats

  /** The JOIN of a set with its session: the session `sessionId` belongs to `userId`. */
  predicate Owns(ss: seq<Db.SessionRow>, userId: nat, sessionId: nat) {
    exists j :: 0 <= j < |ss| && ss[j].sessionId == sessionId && ss[j].userId == userId
  }

  /** The WHERE clause of the stats queries: the set belongs to `userId` and its lower-cased
      exercise is `key`. */
  predicate Matches(ss: seq<Db.SessionRow>, userId: nat, key: string, t: Db.StoredSet) {
    Owns(ss, userId, t.sessionId) && Lower(t.exercise) == key
  }

  /** The sets of `userId`, across all sessions, whose lower-cased exercise is `key`, in
      stored order. */
  function MatchingSets(ts: seq<Db.StoredSet>, ss: seq<Db.SessionRow>, userId: nat, key: string): (ms: seq<Db.StoredSet>)
    ensures |ms| <= |ts|
    ensures forall t :: t in ms <==> t in ts && Owns(ss, userId, t.sessionId) && Lower(t.exercise) == key
  {
    if ts == [] then []
    else
      var p := ts[..|ts| - 1];
      var last := ts[|ts| - 1];
      assert ts == p + [last];
      MatchingSets(p, ss, userId, key) + (if Matches(ss, userId, key, last) then [last] else [])
  }

  /** The filter keeps the stored order: the matches of two tables one after the other are
      the matches of the first followed by those of the second. */
  lemma {:induction false} MatchingSetsAppend(ts1: seq<Db.StoredSet>, ts2: seq<Db.StoredSet>, ss: seq<Db.SessionRow>, userId: nat, key: string)
    ensures MatchingSets(ts1 + ts2, ss, userId, key) == MatchingSets(ts1, ss, userId, key) + MatchingSets(ts2, ss, userId, key)
    decreases |ts2|
  {
    if ts2 == [] {
      assert ts1 + ts2 == ts1;
    } else {
      var p, last := ts2[..|ts2| - 1], ts2[|ts2| - 1];
      var q := ts1 + ts2;
      var tail := if Matches(ss, userId, key, last) then [last] else [];
      MatchingSetsAppend(ts1, p, ss, userId, key);
      assert q[..|q| - 1] == ts1 + p && q[|q| - 1] == last;
      assert MatchingSets(q, ss, userId, key) == MatchingSets(ts1 + p, ss, userId, key) + tail;
      assert MatchingSets(ts2, ss, userId, key) == MatchingSets(p, ss, userId, key) + tail;
    }
  }

  /** `COUNT(*)` counts every matching row once: a set occurs among the matches as often as
      it occurs in the table when it matches, and not at all otherwise. */
  lemma {:induction false} MatchingSetsMultiplicity(ts: seq<Db.StoredSet>, ss: seq<Db.SessionRow>, userId: nat, key: string, t: Db.StoredSet)
    ensures multiset(MatchingSets(ts, ss, userId, key))[t] == if Matches(ss, userId, key, t) then multiset(ts)[t] else 0
  {
    if ts != [] {
      var p, last := ts[..|ts| - 1], ts[|ts| - 1];
      MatchingSetsMultiplicity(p, ss, userId, key, t);
      assert ts == p + [last];
    }
  }

  /** The first row of `ORDER BY weight DESC`: a set of the greatest weight. Which of several
      equally heavy sets comes first is not fixed by the query; this one is the earliest
      stored. */
  function Heaviest(ms: seq<Db.StoredSet>): (h: Db.StoredSet)
    requires ms != []
    ensures h in ms
    ensures forall t :: t in ms ==> t.weight <= h.weight
  {
    if |ms| == 1 then ms[0]
    else
      var rest := Heaviest(ms[1..]);
      assert forall t :: t in ms ==> t == ms[0] || t in ms[1..];
      if rest.weight > ms[0].weight then rest else ms[0]
  }

  /** The greatest weight among the sets flagged as a tested 1RM, if any is. */
  function TestedOneRm(ms: seq<Db.StoredSet>): (r: Option<real>)
    ensures r.None? <==> forall t :: t in ms ==> t.isOneRm != 1
    ensures r.Some? ==> exists t :: t in ms && t.isOneRm == 1 && t.weight == r.value
    ensures r.Some? ==> forall t :: t in ms && t.isOneRm == 1 ==> t.weight <= r.value
  {
    if ms == [] then None
    else
      var rest := TestedOneRm(ms[1..]);
      assert forall t :: t in ms ==> t == ms[0] || t in ms[1..];
      if ms[0].isOneRm != 1 then rest
      else if rest.Some? && rest.value > ms[0].weight then rest
      else Some(ms[0].weight)
  }

  /** What `view_stats` reports on an exercise. */
  datatype Stats = Stats(count: nat, maxWeight: real, repsAtMax: int, testedOneRm: Option<real>)

  datatype StatsView =
    | NoExerciseGiven              // "No exercise provided."
    | NoSetsFound(exercise: string)
    | Found(exercise: string, stats: Stats)

  /** The two queries of `view_stats` for a non-empty exercise key. */
  function StatsFor(ts: seq<Db.StoredSet>, ss: seq<Db.SessionRow>, userId: nat, key: string): (r: StatsView)
    ensures r.NoExerciseGiven? ==> false
    ensures r.NoSetsFound? <==> MatchingSets(ts, ss, userId, key) == []
    ensures r.Found? ==> r.exercise == key
    ensures r.Found? ==> r.stats.count == |MatchingSets(ts, ss, userId, key)|
    ensures r.Found? ==> exists t :: (t in MatchingSets(ts, ss, userId, key)
              && t.weight == r.stats.maxWeight && t.reps == r.stats.repsAtMax)
    ensures r.Found? ==> forall t :: t in MatchingSets(ts, ss, userId, key) ==> t.weight <= r.stats.maxWeight
    ensures r.Found? ==> r.stats.testedOneRm == TestedOneRm(MatchingSets(ts, ss, userId, key))
  {
    var ms := MatchingSets(ts, ss, userId, key);
    if ms == [] then NoSetsFound(key)
    else
      var h := Heaviest(ms);
      Found(key, Stats(|ms|, h.weight, h.reps, TestedOneRm(ms)))
  }

  /** `view_stats` as written: the key is the typed text stripped and lower-cased. */
  function ViewStatsOf(ts: seq<Db.StoredSet>, ss: seq<Db.SessionRow>, userId: nat, typed: string): (r: StatsView)
    ensures r.NoExerciseGiven? <==> AllSpace(typed)
    ensures !r.NoExerciseGiven? ==> r == StatsFor(ts, ss, userId, Lower(Strip(typed)))
  {
    var key := Lower(Strip(typed));
    if key == [] then NoExerciseGiven else StatsFor(ts, ss, userId, key)
  }


  /** `view_stats` with the key normalised the way an entry normalises the exercise name it
      stores: the typed text's words, lower-cased, joined by single spaces. */
  function ViewStatsNormalized(ts: seq<Db.StoredSet>, ss: seq<Db.SessionRow>, userId: nat, typed: string): (r: StatsView)
    ensures r.NoExerciseGiven? <==> AllSpace(typed)
    ensures !r.NoExerciseGiven? ==> r == StatsFor(ts, ss, userId, Services.Normalize(typed))
  {
    var key := Services.Normalize(typed);
    if key == [] then NoExerciseGiven else StatsFor(ts, ss, userId, key)
  }

  /** The stats option over the store, with the normalised key: nothing is looked up for a
      blank input, and otherwise the user's sets across all sessions whose exercise is the
      normal form of the typed name are counted and measured. */
  function ViewStats(db: Db.Store, userId: nat, typed: string): (r: StatsView)
    reads db
    ensures r.NoExerciseGiven? <==> AllSpace(typed)
    ensures r.NoSetsFound? <==> !AllSpace(typed) && MatchingSets(db.sets, db.sessions, userId, Services.Normalize(typed)) == []
    ensures r.Found? ==> r.exercise == Services.Normalize(typed)
                         && r.stats.count == |MatchingSets(db.sets, db.sessions, userId, Services.Normalize(typed))|
    ensures !r.NoExerciseGiven? ==> r == StatsFor(db.sets, db.sessions, userId, Services.Normalize(typed))
  {
    ViewStatsNormalized(db.sets, db.sessions, userId, typed)
  }

  /** The exercise of a stored set is the normal form of the name in its entry; typing that
      name again, spaced or capitalised in any way, finds the set with the normalised key. */
  lemma NormalizedStatsFindEntry(ts: seq<Db.StoredSet>, ss: seq<Db.SessionRow>, userId: nat, name: string, t: Db.StoredSet)
    requires t in ts && Owns(ss, userId, t.sessionId)
    requires t.exercise == Services.Normalize(name) && t.exercise != []
    ensures t in MatchingSets(ts, ss, userId, Services.Normalize(name))
    ensures ViewStatsNormalized(ts, ss, userId, name).Found?
    ensures ViewStatsNormalized(ts, ss, userId, name).stats.count >= 1
  {
    Services.LowerNoUpper(t.exercise);
    assert t in MatchingSets(ts, ss, userId, Services.Normalize(name));
  }

  /** With the key only stripped and lower-cased, a set stored from the entry
      `bench  press: 135x5` (its exercise is `bench press`) is not found by typing
      `bench  press` again, although the normalised lookup finds it. */
  lemma StatsMissRespacedName()
    ensures Services.Normalize("bench  press") == "bench press"
    ensures var ss := [Db.SessionRow(1, 1, "2026-01-05 18:00:00", None, None)];
            var ts := [Db.StoredSet(1, 1, "bench press", 135.0, 5, 1, 0)];
            && ViewStatsOf(ts, ss, 1, "bench  press") == NoSetsFound("bench  press")
            && ViewStatsNormalized(ts, ss, 1, "bench  press").Found?
  {
    var ss := [Db.SessionRow(1, 1, "2026-01-05 18:00:00", None, None)];
    var t := Db.StoredSet(1, 1, "bench press", 135.0, 5, 1, 0);
    assert Owns(ss, 1, 1) by { assert ss[0].sessionId == 1 && ss[0].userId == 1; }
    RespacedNameNormal();
    RespacedKeyAsWritten();
    AsWrittenMisses(t, ss);
    NormalizedStatsFindEntry([t], ss, 1, "bench  press", t);
  }

  /** The as-written key of `bench  press` keeps both spaces. */
  lemma RespacedKeyAsWritten()
    ensures Lower(Strip("bench  press")) == "bench  press"
  {
    var typed := "bench  press";
    Services.StripTrimmed(typed);
    RespacedNameLower();
  }

  lemma AsWrittenMisses(t: Db.StoredSet, ss: seq<Db.SessionRow>)
    requires t.exercise == "bench press"
    requires Lower(Strip("bench  press")) == "bench  press"
    ensures ViewStatsOf([t], ss, 1, "bench  press") == NoSetsFound("bench  press")
  {
    Services.LowerNoUpper("bench press");
    assert Lower(t.exercise) != "bench  press" by { assert |Lower(t.exercise)| != |"bench  press"|; }
    assert MatchingSets([t], ss, 1, "bench  press") == [];
  }

  lemma RespacedNameNormal()
    ensures Services.Normalize("bench  press") == "bench press"
  {
    var typed := "bench  press";
    RespacedNameLower();
    RespacedNameWords();
    Services.NormalizeIsLowerWords(typed);
    BenchPressJoin();
  }

  lemma BenchPressJoin()
    ensures JoinWith(' ', ["bench", "press"]) == "bench press"
  {
    assert ["bench", "press"][1..] == ["press"];
  }

  lemma RespacedNameLower()
    ensures Lower("bench  press") == "bench  press"
  {
  }

  lemma RespacedNameWords()
    ensures Words("bench  press") == ["bench", "press"]
  {
    var w := "bench";
    var rest := "  press";
    assert IsWord(w) by { assert forall i :: 0 <= i < |w| ==> !IsSpace(w[i]); }
    assert "bench  press" == w + rest;
    Services.WordsAfterWord(w, rest);
    PressWords();
  }

  lemma PressWords()
    ensures Words("  press") == ["press"]
  {
    var w := "press";
    assert IsWord(w) by { assert forall i :: 0 <= i < |w| ==> !IsSpace(w[i]); }
    assert "  press" == "  " + w;
    Services.WordsSpacePrefix("  ", w);
    assert w == w + [];
    Services.WordsAfterWord(w, []);
  }

  // ---------------------------------------------------------------------------------------
  // 5) List sessions

  /** The user's sessions as (session id, performed at), highest id first. */
  function SessionsNewestFirst(ss: seq<Db.SessionRow>, userId: nat): (r: seq<(nat, Db.Timestamp)>)
    requires forall i, j :: 0 <= i < j < |ss| ==> ss[i].sessionId < ss[j].sessionId
    ensures forall x :: x in r <==> exists i :: 0 <= i < |ss| && ss[i].userId == userId && (ss[i].sessionId, ss[i].performedAt) == x
    ensures forall i, j :: 0 <= i < j < |r| ==> r[i].0 > r[j].0
  {
    if ss == [] then []
    else
      var p := ss[..|ss| - 1];
      var last := ss[|ss| - 1];
      var rest := SessionsNewestFirst(p, userId);
      assert forall i :: 0 <= i < |p| ==> p[i] == ss[i];
      if last.userId == userId then
        assert forall x :: x in rest ==> x.0 < last.sessionId;
        [(last.sessionId, last.performedAt)] + rest
      else rest
  }

  /** `view_sessions`. */
  function ViewSessions(db: Db.Store, userId: nat): (r: seq<(nat, Db.Timestamp)>)
    reads db
    requires db.Valid()
    ensures forall x :: x in r <==> exists i :: (0 <= i < |db.sessions| && db.sessions[i].userId == userId
              && (db.sessions[i].sessionId, db.sessions[i].performedAt) == x)
    ensures forall i, j :: 0 <= i < j < |r| ==> r[i].0 > r[j].0
  {
    SessionsNewestFirst(db.sessions, userId)
  }

  // ---------------------------------------------------------------------------------------
  // 6) End active session

  /** `end_active_session`: ends the user's open session of the highest id at `endedAt`, if
      there is one, and returns its id. */
  method EndActiveSession(db: Db.Store, userId: nat, endedAt: Db.Timestamp) returns (ended: Option<nat>)
    requires db.Valid()
    modifies db
    ensures db.Valid()
    ensures db.users == old(db.users) && db.sets == old(db.sets)
    ensures db.lastUserId == old(db.lastUserId) && db.lastSessionId == old(db.lastSessionId) && db.lastSetId == old(db.lastSetId)
    ensures ended == old(db.ActiveSession(userId))
    ensures ended.None? ==> db.sessions == old(db.sessions)
    ensures |db.sessions| == |old(db.sessions)|
    ensures ended.Some? ==> db.sessions == Db.CloseById(old(db.sessions), ended.value, endedAt)
    ensures db.sessions == Db.CloseOpenOf(old(db.sessions), userId, endedAt)
    ensures db.ActiveSession(userId).None?
    ensures forall v :: v != userId ==> db.ActiveSession(v) == old(db.ActiveSession(v))
  {
    ended := db.ActiveSession(userId);
    if ended.None? {
      assert db.sessions == Db.CloseOpenOf(db.sessions, userId, endedAt);
      return;
    }
    ghost var j :| 0 <= j < |db.sessions| && Db.OpenFor(db.sessions[j], userId) && db.sessions[j].sessionId == ended.value;
    Db.CloseByIdOfOpen(db.sessions, userId, endedAt, j);
    Db.CloseOpenOfCloses(db.sessions, userId, endedAt);
    db.EndSession(ended.value, endedAt);
  }
}
