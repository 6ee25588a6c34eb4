# Lift log — a verified model

The lift log is a command-line workout logger backed by SQLite. A lifter logs in under a user
name. They then start a session and type entry lines such as `bench press: 135x5, 155x3`. Each
entry becomes one row per set in the active session. Later they can look at the active
session, the statistics of an exercise and the list of sessions, and end the session.

This project models the logging core in Dafny:

- **`Text`**: the `str` operations the parser is built from, over ASCII: `isspace`,
  `lower`, `strip`, `split()`, `split(sep)`, `split(sep, 1)` and `join`.
- **`Numeric`**: `int()` and `float()` on plain decimal texts, and `str()` of a natural
  number.
- **`Services`**: the business logic of `src/services.py`. It covers the normal form of
  exercise and user names, the entry-line and set-token parsers, `add_sets_from_entry` and
  `get_or_create_user`. The older draft `services.py` has the same parser and the same
  `add_sets_from_entry`, so both files map onto the same members. Some rows below cite one
  file and some the other.
- **`Db`**: the three tables of `db.py` as a class `Store`.
  - The users, sessions and sets tables are sequence fields, with the AUTOINCREMENT
    counters beside them.
  - The schema's constraints are the invariant `Valid()`.
  - Each storage primitive is a method (when it writes) or a function (when it reads).
  - A statement a constraint refuses leaves the tables unchanged.
  - The set insert can also fail in two more ways, and both leave the tables unchanged. One
    is a failure of the storage engine, which the caller passes in as `fault`. The other is
    a rep count the driver cannot bind as a 64-bit integer.
- **`MenuOptions`**: the menu actions of `menu_options.py` with their input and output
  removed. The typed text, the y/n answer about a one-rep maximum and the clock become
  parameters. What an option prints becomes its return value.

On a single-rep set the user is asked whether it was a tested one-rep maximum (1RM). The
`askIsOneRm` parameter stands in for that question and its re-prompt loop. It receives the
position of the token in the entry along with the exercise and the weight. So the same
weight can get different answers within one entry (`bench: 225x1, 225x1` answered y, then
n). Every method that consults it also returns `asked`, the weights it asked about in order.
This makes "the lifter is asked only about single reps" a provable statement.

## Model

| member | source | states |
|---|---|---|
| `Text.Lower` | src/services.py:74 | `lower()` keeps the length and lower-cases each character; whitespace stays whitespace |
| `Text.Strip` | src/services.py:74 | `strip()` returns a text with no whitespace at either end; the result is empty exactly when the input is all whitespace |
| `Text.StripSplits` | src/services.py:92 | every text is whitespace, then its stripped form, then whitespace: `strip` removes only surrounding whitespace |
| `Text.StripPadded` | src/services.py:108-109 | stripping a trimmed text padded with whitespace on both sides gives the text back |
| `Text.Words` | src/services.py:74 | every piece of `split()` is a non-empty word without whitespace |
| `Text.SplitOn` | src/services.py:92 | `split(sep)` gives at least one piece; no piece contains `sep`; joining the pieces with `sep` gives the input back |
| `Text.SplitJoin` | src/services.py:103 | `split(sep)` inverts `sep.join` on pieces that do not contain `sep` |
| `Text.SplitOnCount` | src/services.py:103-104 | `split(sep)` yields one more piece than there are occurrences of `sep` |
| `Text.SplitFirst` | src/services.py:84-86 | `split(sep, 1)` finds no split exactly when `sep` is absent; otherwise the input is head, separator, tail, and the head has no `sep` |
| `Text.SplitFirstAt` | services.py:57 | the split happens at the first separator, and later separators stay in the tail |
| `Numeric.ParseInt` | src/services.py:109 | `int()` accepts only signed digit strings of at most 4300 digits; an unsigned result is non-negative |
| `Numeric.DecimalValue` | src/services.py:108 | the digits after the point only add to the value of the digits before it |
| `Numeric.ParseFloat` | src/services.py:108 | `float()` accepts only signed decimals; an unsigned result is non-negative |
| `Numeric.ParseFloatDecimal` | src/services.py:108 | `float()` of an optional sign, digits, a point and digits (not both digit strings empty) is the whole digits plus the fraction digits over `10^k`, negated under `-` |
| `Numeric.ParseFloatWithFraction` | src/services.py:108 | `137.5` is 137.5 |
| `Numeric.ParseFloatFractionOnly` | src/services.py:108 | `-.5` is -0.5 |
| `Numeric.ShowNatValue` | src/services.py:109 | the digits `str(n)` writes denote `n` |
| `Numeric.ParseIntShow` | src/services.py:109 | `int(str(n)) == n` whenever `str(n)` is within the digit limit |
| `Numeric.ParseFloatShow` | src/services.py:108 | `float(str(n)) == n` for a natural number `n` |
| `Services.Normalize` | src/services.py:72-74 | the normalised name has no upper-case letter, no whitespace at the ends and no two adjacent spaces; it is empty exactly when the input is all whitespace |
| `Services.NormalizeFixedPoints` | src/services.py:72-74 | a text is its own normal form exactly when it is in normal form |
| `Services.NormalizeIdempotent` | services.py:53-54 | normalising twice is normalising once |
| `Services.NormalizeIsLowerWords` | src/services.py:141-142 | the normal form is the words of the lower-cased text joined by single spaces (the `strip()` is redundant); the same function serves user names |
| `Services.JoinWordsOfNormal` | src/services.py:74 | a normal-form text is the join of its own words |
| `Services.WordsOfJoin` | src/services.py:74 | `split()` of words joined by single spaces gives the words back |
| `Services.WordsOfJoinCons` | src/services.py:74 | a word in front of a join that `split()` undoes is split off as the first word |
| `Services.StripWords` | src/services.py:74 | stripping before lower-casing and splitting changes none of the words |
| `Services.Tokens` | src/services.py:92 | the kept pieces are at most as many as the pieces, each non-empty and trimmed |
| `Services.TokensAppend` | src/services.py:92 | the token filter works piece by piece: the tokens of two piece lists are the tokens of each, in order |
| `Services.ParseEntryLine` | src/services.py:76-96 | the missing-colon error occurs exactly when the line has no `:`; a parsed line has a non-empty normalised name and at least one token, each non-empty, trimmed and free of commas |
| `Services.ParseEntryLineAt` | src/services.py:84-94 | for a name without `:`, the line fails with a missing name when the name is all whitespace; otherwise it fails when no token remains after the colon, and else returns the normalised name with the trimmed non-blank comma pieces of the rest |
| `Services.ParseEntryLineFormat` | src/services.py:92-96 | a line written as the name, a colon and the trimmed tokens separated by `, ` parses back to the normalised name and exactly those tokens, in order |
| `Services.ParseEntryLineExample` | test_lift_log.py:48-51 | `Bench press: 135x5, 155x3` parses to `bench press` with tokens `135x5`, `155x3` |
| `Services.ParseEntryLineStrip` | services.py:56-69 | whitespace around a whole entry line changes nothing of what it parses to |
| `Services.ParseSetToken` | src/services.py:98-117 | an accepted token has weight >= 0 and reps >= 1 |
| `Services.ParseSetTokenNeedsOneX` | src/services.py:103-105 | a token is refused for its shape exactly when it does not contain exactly one lower-case `x` |
| `Services.ParseSetTokenAt` | services.py:71-86 | a token with one `x` is judged by the stripped texts on either side: both must be numbers, then the weight must be >= 0 and the reps > 0 |
| `Services.ParseSetTokenFormat` | src/services.py:107-117 | a token written as weight `x` reps, with whitespace around either number, parses back to that weight and rep count |
| `Services.ParseSetTokenPaddedExample` | test_lift_log.py:57-60 | ` 135 x 5 ` is 135.0 pounds for 5 reps |
| `Services.ParseSetTokenNoRepsExample` | test_lift_log.py:62-64 | `135x` is refused as invalid numbers |
| `Services.ParseSetTokenNoWeightExample` | src/services.py:107-112 | `x5` is refused as invalid numbers |
| `Services.BuildRows` | src/services.py:54-60 | the loop yields at most one row per token, and exactly one per token when no token is refused |
| `Services.BuildRowsRows` | services.py:36-42 | row `k` is token `k`'s weight and reps, admissible to the sets table, and flagged as a 1RM exactly when it is a single rep the oracle confirms when asked about position `k` |
| `Services.BuildRowsFailure` | src/services.py:56 | on a refusal, the refused token is the one after the rows built, and the error is that token's error |
| `Services.BuildRowsStops` | src/services.py:55-56 | the first refused token ends the loop: tokens after it change nothing |
| `Services.CollectRows` | services.py:37-42 | the `for token in tokens` loop builds exactly the rows `BuildRows` describes; the oracle is consulted exactly for the single-rep rows, in order, each with its token's position |
| `Services.OneRepWeightsMembers` | src/services.py:58 | a weight is asked about exactly when some row is a single rep with that weight |
| `Services.EntryRows` | src/services.py:52-60 | the rows of an accepted entry are non-empty and all admissible to the sets table |
| `Services.EntryRowsMeaning` | services.py:34-42 | an entry yields rows exactly when its line parses and every token parses; then there is one row per token, in order, carrying that token's numbers; otherwise the error is the line's, or that of the first refused token with every earlier token accepted |
| `Services.EntryOfStripped` | src/services.py:52 | stripping the entry first changes neither the rows nor the questions asked |
| `Services.ParseEntry` | services.py:34-42 | the parsing half yields the entry's rows or first error, and asks exactly the entry's questions |
| `Services.InsertEntry` | src/services.py:52-70 | a refused entry, an engine failure or a rep count of 2^63 or more leaves the sets and the counter as they were, with the error; otherwise every row is appended in order under the session, with indices from the next index on and fresh ids, and the result is the exercise and the number of tokens |
| `Services.StoreRows` | src/services.py:61-68 | inserting parsed rows fails with the storage error on an engine failure and with the overflow error when a rep count does not fit 64 bits, changing nothing; otherwise it appends them all |
| `Services.AddSetsFromEntry` | src/services.py:46-70 | with no active session it fails before parsing, asks nothing and stores nothing; otherwise it behaves as `InsertEntry` on the active session; users and sessions are never changed |
| `Services.GetOrCreateUser` | src/services.py:144-164 | afterwards the normalised name finds the returned id; an existing user keeps its id and the table is unchanged; a new user gets the next id, which becomes the users counter, and exactly one new row |
| `Db.FindUser` | db.py:30 | the lookup by name fails exactly when no row has that name; otherwise it returns the id of a row with that name |
| `Db.FindUserAt` | db.py:30 | with unique names, looking up a row's name returns that row's id |
| `Db.OpenCountAtMostOne` | db.py:48-52 | under the partial unique index a user has at most one open session; the count is zero exactly when none is open |
| `Db.LatestOpen` | db.py:139-157 | it returns nothing exactly when the user has no open session; otherwise it returns the highest id among the user's open sessions |
| `Db.LatestOpenIsOnlyOpen` | db.py:48-52 | under the partial unique index, the latest open session is the user's only open session |
| `Db.LatestOpenAppendOther` | db.py:135-157 | adding a session that is not an open session of the user leaves the user's active session unchanged |
| `Db.CloseOpenOfCloses` | db.py:92-103 | after ending a user's open sessions the user has none; every other user's active session is unchanged; only end times were written |
| `Db.OnlyEndsKeepsValid` | db.py:36-52 | writing end times keeps the sessions table valid and keeps the same session ids |
| `Db.CloseByIdOfOpen` | menu_options.py:172-178 | ending the user's open session by its id does exactly what ending all of the user's open sessions does |
| `Db.AppendStampedValid` | db.py:54-72 | appending rows that pass the CHECKs, with indices from the next index on and fresh ids, keeps the sets table valid |
| `Db.AppendStampedUnique` | db.py:69-72 | appending indices above every existing index of the pair keeps (session, exercise, set_index) unique |
| `Db.ContiguousIsUnique` | db.py:69-72 | indices that run 1, 2, 3, ... per pair are unique per pair |
| `Db.InsertKeepsContiguous` | db.py:120-131 | inserting a batch at the next index keeps every pair's indices running 1, 2, 3, ... |
| `Db.KeyIndicesRunFromOne` | db.py:128 | with contiguous indices, a pair's indices in insertion order are exactly 1 to the pair's row count |
| `Db.MaxSetIndexIsCount` | db.py:105-111 | with contiguous indices, the largest index of a pair is its row count, or none when the pair has no row |
| `Db.NextIndexCounts` | db.py:105-111 | with contiguous indices, the next index is one more than the pair's row count |
| `Db.MaxSetIndex` | db.py:108 | `MAX(set_index)` is absent exactly when the pair has no row; otherwise it is attained and bounds every index of the pair |
| `Db.MaxSetIndexAppendStamped` | db.py:120-131 | after a non-empty batch at `start`, the pair's largest index is `start + n - 1` |
| `Db.InsertContinuesIndices` | test_lift_log.py:110-123 | after a batch of `n` rows, the pair's next index is `n` more than before, so a second batch continues where the first ended |
| `Db.InsertKeepsOtherIndices` | db.py:113-133 | a batch changes the next index of no other (session, exercise) pair |
| `Db.KeyCountAppend` | db.py:108 | the row count of a pair adds up over two tables |
| `Db.Stamped` | db.py:120-131 | a batch has one stored row per input row; row `i` has id `firstId + i` and index `firstIndex + i`, the batch's session and exercise, and the weight, reps and 1RM flag of input row `i` |
| `Db.ListNewestFirst` | db.py:159-172 | the listing holds exactly the session's sets and is in descending set id order |
| `Db.Store.constructor` | db.py:18-76 | a fresh database has three empty tables and zero counters, and is valid |
| `Db.Store.GetUser` | db.py:28-32 | the name lookup finds a user exactly when some row has that name |
| `Db.Store.CreateUser` | db.py:28-32 | it inserts exactly when the name is free (UNIQUE), with the next id; otherwise it fails and changes nothing |
| `Db.Store.CreateSession` | db.py:83-90 | it inserts exactly when the user exists (FOREIGN KEY) and has no open session (partial unique index); the new open session has an id above every existing one; otherwise it fails and changes nothing |
| `Db.Store.EndAllOpenSessions` | db.py:92-103 | it ends exactly the user's open sessions at the given time and returns how many there were (at most one); no other row changes |
| `Db.Store.EndSession` | menu_options.py:172-178 | it sets the end time of the rows with the given id and changes nothing else |
| `Db.Store.ActiveSession` | db.py:135-157 | it returns nothing exactly when the user has no open session; otherwise it returns the highest id among them |
| `Db.Store.NextSetIndex` | db.py:105-111 | the result is above every index of the pair; it is 1 when the pair has no row; otherwise it is one more than an existing index |
| `Db.BatchError` | db.py:113-133 | a batch is refused exactly when one of its rows is refused |
| `Db.BatchErrorFirst` | db.py:113-133 | the error of a refused batch is that of its first refused row, every earlier row being accepted |
| `Db.BatchErrorOfAdmissible` | db.py:54-72 | a batch of rows that pass the CHECKs, into an existing session, is refused only for a rep count of 2^63 or more, and then as out of range |
| `Db.Store.InsertSets` | db.py:113-133 | an engine failure inserts nothing and reports the engine; otherwise the first row whose values do not fit 64 bits, that fails the CHECKs or that names a missing session makes the whole batch fail with that row's error and insert nothing; otherwise all rows are appended in order with indices `start + i` and fresh ids, and the count is returned |
| `Db.Store.AppendRows` | db.py:120-131 | the rows, stamped with the next indices of the pair and fresh ids, are appended to the sets table, which stays valid |
| `Db.Store.SetsBySession` | db.py:159-172 | it returns exactly the session's sets, in descending set id order |
| `MenuOptions.StartNewSession` | menu_options.py:13-25 | every previously open session of the user is ended at `performedAt` and one open session is added with a fresh id; the new one is the active session; others' active sessions are unchanged; for a missing user the rollback leaves the table unchanged |
| `MenuOptions.AddSetUi` | menu_options.py:28-60 | with no active session it asks and stores nothing; otherwise the stripped entry has exactly the effect of `add_sets_from_entry` on the typed text (a parse error, a storage error or a rep count too large to bind stores nothing) |
| `MenuOptions.ViewActiveSession` | menu_options.py:63-79 | nothing when there is no active session; otherwise the active session's id and exactly its sets, newest first |
| `MenuOptions.MatchingSets` | menu_options.py:91-98 | exactly the user's sets, from any session, whose lower-cased exercise equals the key |
| `MenuOptions.MatchingSetsMultiplicity` | menu_options.py:100-104 | each matching set occurs among the matches exactly as often as in the table, and a non-matching one not at all, so their number is the `COUNT` of matching rows |
| `MenuOptions.MatchingSetsAppend` | menu_options.py:91-98 | the filter keeps the stored order: the matches of two tables in a row are the matches of each, in order |
| `MenuOptions.Heaviest` | menu_options.py:108 | the first row under `ORDER BY weight DESC` is a matching set of maximum weight |
| `MenuOptions.TestedOneRm` | menu_options.py:112-127 | nothing exactly when no matching set is a tested 1RM; otherwise the largest weight among the tested 1RMs |
| `MenuOptions.StatsFor` | menu_options.py:100-127 | no sets found exactly when nothing matches; otherwise the count of matching sets, and a maximum weight some matching set attains with that set's reps, bounding every matching weight, and the tested 1RM |
| `MenuOptions.ViewStatsOf` | menu_options.py:82-106 | an all-whitespace input performs no lookup; otherwise the stats of the stripped, lower-cased key |
| `MenuOptions.ViewStatsNormalized` | src/services.py:88 | an all-whitespace input performs no lookup; otherwise the result is the stats of the key normalised the way stored exercise names are |
| `MenuOptions.ViewStats` | menu_options.py:82-127 | over the store, with the normalised key: no lookup exactly for an all-whitespace input; no sets found exactly when none of the user's sets matches the normalised key; otherwise the normal form and exactly the stats `StatsFor` gives for the normalised key: the count, the maximum weight with its reps, and the tested 1RM |
| `MenuOptions.NormalizedStatsFindEntry` | src/services.py:72-74 | a stored set of the user is found, and counted, under any spelling of its entry's name that has the same normal form |
| `MenuOptions.StatsMissRespacedName` | menu_options.py:83 | a set stored from `bench  press: 135x5` is not found by typing `bench  press` as written, but is found with the normalised key |
| `MenuOptions.SessionsNewestFirst` | menu_options.py:133-138 | exactly the user's sessions (id and start time), in descending id order |
| `MenuOptions.ViewSessions` | menu_options.py:130-145 | the listing over the store holds exactly the user's sessions, newest first |
| `MenuOptions.EndActiveSession` | menu_options.py:148-180 | it returns the active session; with none, nothing changes; otherwise only that session is ended, which leaves the user with no open session and is the same as ending all of the user's open sessions; other users are unaffected |

## Left out

- Terminal input and output. The menu loop of `src/main.py`, `get_menu_choice`, `get_username`
  and `closeout` are not modelled. The y/n re-prompt loops become the `askIsOneRm` oracle.
  Printed messages become returned values, and their exact text is not modelled.
- `scratch.py` is not part of this model: it only inspects the schema and prints it.
- Clock: `datetime.now()` becomes a timestamp parameter, which is never interpreted.
- Connections and transactions:
  - File and path handling and `db_init_db` are not modelled. A fresh database is the
    `Db.Store` constructor.
  - The `with get_conn()` transaction is modelled as all-or-nothing.
  - A SQLite error not caused by a constraint (a locked file, and so on) is the `fault`
    flag of the set insert (`Db.Store.InsertSets`) only.
  - Engine failures are not modelled for the other store operations. `CreateUser`,
    `CreateSession`, `EndAllOpenSessions`, `EndSession`, `Services.GetOrCreateUser`,
    `MenuOptions.StartNewSession` and `MenuOptions.EndActiveSession` assume that the engine
    succeeds. For instance, the model has no case where the INSERT of `start_new_session`
    fails for such a reason after its UPDATE, which would roll the UPDATE back too.
  - Isolation and concurrent writers are not modelled.
- `db_get_user` and `db_create_user` are imported by `src/services.py` but not defined in
  `db.py`. `Db.Store.GetUser` and `Db.Store.CreateUser` model them from the users schema
  (db.py:28-32).
- Numbers:
  - `float()` and `int()` are modelled on plain decimal texts only: sign, digits and one
    decimal point.
  - Exponents, `inf`, `nan`, underscores and non-ASCII digits are refused by the model,
    although Python accepts them. In particular `nan` would pass the `weight < 0` check in
    the source.
  - Weights are exact `real`s, not binary floating point. A very long digit string that
    Python's `float()` turns into `inf` or rounds keeps its exact value in the model.
  - `int()` refuses digit strings longer than 4300 digits (a `ValueError`, so invalid
    numbers). That is the default limit since Python 3.11 and in the security releases
    before it. Older Pythons have no limit.
  - Session ids, set ids and set indices are unbounded. AUTOINCREMENT past 2^63 - 1
    (`SQLITE_FULL`) and a set index too large to bind are not modelled, since they need
    2^63 rows. Rep counts are bounded: one of 2^63 or more makes the driver raise
    `OverflowError`.
  - `Services.InsertEntry`: in the source the `OverflowError` of a rep count too large to
    bind is not an `sqlite3.Error`. It escapes `add_set_ui` as an uncaught exception after
    the rollback. The model returns it as the error `RepsOutOfRange`, with the tables
    unchanged.
- Characters: strings are ASCII in effect. `isspace` and `lower` are modelled on the ASCII
  range only, with no Unicode whitespace and no Unicode case mapping. SQLite's `lower()` is
  the same ASCII mapping.
- `Services.ParseSetTokenNeedsOneX`: only the lower-case `x` separates weight from reps, as
  in the source. An upper-case `X` does not count as the separator, so a token such as
  `135X5` is refused as not weight-by-reps.
- `MenuOptions.Heaviest`: when several matching sets share the maximum weight, `ORDER BY
  weight DESC` leaves their order to SQLite. The model returns the first one stored. The
  reps of `StatsFor` are those of some set with the maximum weight, which is all the query
  guarantees.
- `Db.Store.InsertSets`: contiguity of indices (1, 2, 3, ... per pair) is not part of
  `Valid()`. The schema does not require it. It is proved as a property of the appended
  table (`Db.InsertKeepsContiguous`, `Db.KeyIndicesRunFromOne`).
- `MenuOptions.StartNewSession`: the statement that the new session is the user's only
  open session is proved about the resulting table by `Db.LatestOpenIsOnlyOpen`. The
  method itself does not restate it.
- `MenuOptions.StartNewSession`: the rollback of the failed insert is not modelled as a
  rollback. The method's contract states that the failed path leaves the sessions table as
  it was, which is what the rollback achieves.
- Notes for a session are an optional text passed in, as the source's `notes=None`.

## Findings

| source | as written | input that shows it | evidently intended | confidence | as-written member | corrected member |
|---|---|---|---|---|---|---|
| menu_options.py:83 | the stats key is the typed text stripped and lower-cased, but stored exercise names are normalised by src/services.py:88 (runs of whitespace collapsed), so a name typed with inner runs of spaces is never found | after logging `bench  press: 135x5`, asking for stats of `bench  press` | normalise the key the way entry names are normalised | not executed | `MenuOptions.StatsMissRespacedName` (on `MenuOptions.ViewStatsOf`) | `MenuOptions.ViewStatsNormalized` (with `MenuOptions.NormalizedStatsFindEntry`) |
