# metric-review-system in Dafny

A model of the bookkeeping core of *metric-review-system*, a Streamlit app for sprint peer reviews. Each reviewer picks a name once per browser. The reviewer then scores every colleague, and themselves, on ten metrics from 1 to 10, and submits one colleague ("ratee") at a time. The scores go to an SQLite store. From it the app derives who has not started, who is pending and who is done, and the average scores per ratee.

The model is functional. The state the app keeps in `st.const_vars`, `st.browser_access_info` and the session becomes plain values: maps, sets and sequences of rows. Every transition is a pure function that returns the new state together with its result. Python exceptions become `Result`/`Option` error values. A Python dict becomes an ordered sequence of items (module `Dicts`). That keeps both behaviours a dict shows: `dict(rows)` keeps the last value of a key, and the insertion order of the keys survives.

Modules, one per part of the program:

| module | file | models |
|---|---|---|
| `Base` | base.dfy | `Option`, `Result` |
| `Dicts` | dicts.dfy | Python dict semantics over item sequences: last-wins `dict(rows)`, `{v: k …}` inversion, first-wins `if k not in d` loops, repeated `d[k] = v` |
| `Initials` | initials.dfy | `fetch_initials` (metric_utils.py; the copy in metric_review.py is the same) |
| `ShippedMetrics` | shipped_metrics.dfy | the shorthands of the ten configured metric titles |
| `Config` | config.py data | the roster, the metric list, the selective override, and its validation |
| `Identity` | identity.dfy | `get_refresh_browser_ids`, `page_has_refreshed`, `store_selection`, access-info seeding |
| `Store` | store.dfy | the four tables and their constraints, `insert_all_data`, `delete_all_db_data`, the id maps, `get_initialized_user_requests` |
| `Reports` | reports.dfy | finalised columns, per-reviewer counts, the permissible-ratee map, the completion report, the average scores |
| `Entry` | entry.dfy | ui.py: `validate_input`, field keys, value restore, the error set of `create_txt_entries`, the column order, `confirm_rating` |
| `Submit` | submit.dfy | handler.py's `confirmation_dialog` and the older dialog of metric_review.py |
| `Init` | init.dfy | init.py: `initialize_const_vars`, `insert_into_db`, `initiated_request_verif` |

Parameters stand in for what the model cannot see:
- Python's `float()` and `int()` are the function parameters `asFloat` and `asInt`. They return `None` where Python raises `ValueError`.
- The browser id and refresh id are inputs. Only the missing-cookie failure of the request is modelled.
- The answer to the overwrite question is a parameter. Its shipped value is `Accept == "y"`.
- Whether the store file exists is `Startup.db == None`.
- Which dialog button was pressed is `Submit.Button`.

Where the code departs from the app's documented intent, the model follows the code:
- `&` becomes the single letter `a` in a shorthand, not `and`.
- The completion test subtracts `len(SELECTIVE_REVIEWERS)` terms (see Findings).
- The overwrite answer is hard-coded to `'y'` rather than asked.
- The ratee is marked finalised before the batch is converted and written, not after.
- A constraint violation on insert is an integrity error, not an "already submitted" report.
- The confirm path does not re-validate scores. It converts them with `int()`.
- No start-up check rejects colliding metric initials. The model instead proves that the shipped titles do not collide (`ShippedMetrics.ShippedShorthandsDistinct`).
- A selective reviewer stays on everybody's default ratee list.

## Model

| member | source | states |
|---|---|---|
| `Dicts.Keys` | config.py:21 | `list(d.keys())` has one entry per item, in insertion order |
| `Dicts.MapOf` | db_storage/db_queries.py:163 | the keys of `dict(rows)` are exactly the keys of the rows |
| `Dicts.MapOfLast` | db_storage/db_queries.py:163 | `dict(rows)` maps a key to the value of its last row |
| `Dicts.MapOfSource` | db_storage/db_queries.py:163 | every entry of `dict(rows)` comes from the last row with that key |
| `Dicts.Invert` | config.py:35 | the keys of `{v: k for k, v in d.items()}` are exactly the values of `d` |
| `Dicts.InvertUndoes` | config.py:35 | with distinct values, the inversion maps each value back to its own key |
| `Dicts.InvertSource` | init.py:67 | every entry of an inversion comes from the last item carrying that value |
| `Dicts.FirstWins` | db_storage/db_queries.py:85-89 | the `if name not in result` loop keeps one item per key, the first one, and no key is lost |
| `Dicts.FirstWinsValue` | db_storage/db_queries.py:86-88 | the loop's dict maps a key to the value of its first row |
| `Dicts.Put` | handler.py:27 | `d[k] = v` keeps keys distinct, adds `k` once, and as a map is `d` updated at `k` |
| `Dicts.DictOf` | handler.py:22-27 | a dict built by repeated assignment has distinct keys, the same keys as the items, and the last value of each |
| `Dicts.KeyCount` | init.py:35 | a dict built from items has at most one entry per item, and exactly one per item iff the keys are distinct |
| `Dicts.DictOfDistinct` | handler.py:28-29 | iterating a dict built from items with distinct keys gives the items back in order |
| `Initials.Split` | metric_utils.py:82 | `str.split(' ')` always yields at least one word |
| `Initials.SplitConcat` | metric_utils.py:82 | splitting around a space splits each side separately |
| `Initials.JoinSplit` | metric_utils.py:82 | joining the words with single spaces gives the text back, and no word holds a space |
| `Initials.SplitJoin` | metric_utils.py:82 | splitting space-free words joined by spaces gives the words back |
| `Initials.NormalizeConcat` | metric_utils.py:81 | the `&`, `/`, `-` rewrite works character by character |
| `Initials.Initial` | metric_utils.py:85-89 | a first character is kept iff its code, after 32 is added to an upper-case letter's code, lies in 97..123, and then it is a letter `a`..`z` or `{` |
| `Initials.InitialsOf` | metric_utils.py:84-89 | the words have initials iff no word is empty; at most one character per word, each in `a`..`{` |
| `Initials.FetchInitials` | metric_utils.py:79-90 | fails iff the rewritten text has an empty word (`li[0]` raises); otherwise at most one character per word, each in `a`..`{` |
| `Initials.InitialsStep` | metric_utils.py:84-89 | the first word contributes its initial, in front of the rest's initials |
| `Initials.NonLetterWordIgnored` | metric_utils.py:85-89 | a leading word whose first character is not a letter contributes nothing |
| `Initials.BulletIgnored` | metric_utils.py:85-89 | a leading `• ` bullet does not change the shorthand |
| `Initials.DoubledSpaceFails` | metric_utils.py:82-85 | any text containing two spaces in a row fails |
| `Initials.SplitLower` | metric_utils.py:82 | lower-casing commutes with splitting into words |
| `Initials.InitialsOfLower` | metric_utils.py:86-87 | the initials of lower-cased words are the initials of the words |
| `Initials.LowerCaseInvariant` | metric_utils.py:86-87 | an upper-case letter gives the same shorthand as its lower-case form |
| `Initials.LetterWordsInitials` | metric_utils.py:84-89 | when every word is non-empty, has no space and starts with an ASCII letter, the shorthand is exactly the lower-cased first letter of each word, in order |
| `Initials.TitleShorthand` | metric_utils.py:79-90 | a title that normalises to at least one such word gives those first letters, and putting the list bullet in front changes nothing |
| `ShippedMetrics.CodeQualityMetricsShorthand` | config.py:6 | "Code Quality Metrics" gives `cqm` |
| `ShippedMetrics.CollaborationCommunicationShorthand` | config.py:6-7 | "Collaboration & Communication" gives `cac`: `&` becomes `a` |
| `ShippedMetrics.WorkLifeBalanceShorthand` | config.py:6-7 | "Work-Life Balance" gives `wlb`: `-` separates words |
| `ShippedMetrics.CustomerFocusShorthand` | config.py:7 | "Customer/End-User Focus" gives `ceuf`: `/` and `-` separate words |
| `ShippedMetrics.MetricListed` | config.py:8-21 | `METRIC` is the ten titles of `METRIC_DESCRIPTIVE` in declaration order |
| `ShippedMetrics.ShippedMetricShorthand` | config.py:8-19 | each shipped title, bullet included, has its expected shorthand |
| `ShippedMetrics.ShippedShorthandsDistinct` | config.py:4-5 | the ten shipped titles all have shorthands, and these are pairwise distinct |
| `Config.CheckAssignees` | config.py:46-49 | the assignee loop passes iff every assignee is a shorthand, and otherwise names the first one that is not |
| `Config.ValidateSelective` | config.py:42-49 | the override passes iff every reviewer and every assignee is a shorthand; a failure blames an entry that is wrong in the way it reports |
| `Config.ShippedRosterUnique` | config.py:23-33 | the shipped display names are distinct and the shipped shorthands are distinct |
| `Config.RevUndoesRoster` | config.py:35 | `REVIEWERS_SHORTHAND_REV[REVIEWERS_SHORTHAND[n]] == n` for every configured name |
| `Config.ShippedOverridesValid` | config.py:37-49 | the shipped override `{"nischey": ["rohan"]}` passes validation |
| `Identity.GetRefreshBrowserIds` | metric_utils.py:21-29 | the ids are the cookie and the header when both exist; a missing cookie is the private-window error |
| `Identity.PageHasRefreshed` | metric_utils.py:32-76 | no bindings, or no access info, gives "not refreshed" with nothing changed; a failure is exactly an unbound browser or a reviewer without a record |
| `Identity.RefreshCases` | metric_utils.py:63-76 | empty record: becomes `{browser: {refresh}}`, answer None; unknown browser: None, unchanged; seen refresh id: False, unchanged; new refresh id: added to that browser's set only, answer True |
| `Identity.BlankRecordRefreshes` | metric_utils.py:66-76 | a record that knows the browser with no refresh ids answers True |
| `Identity.RefreshOnlyGrows` | metric_utils.py:63-76 | refresh detection never drops a reviewer, a browser or a refresh id |
| `Identity.RefreshIdempotent` | metric_utils.py:63-76 | a second call with the same ids changes nothing and answers False, or None when the browser is not in the reviewer's record |
| `Identity.StoreSelection` | metric_review.py:134-146 | binds iff the browser is unbound and the selection is non-empty and unbound; an already bound browser or an already bound name changes nothing |
| `Identity.StoreSelectionKeepsInjective` | metric_review.py:137-145 | binding never gives one name two browsers |
| `Identity.SeedAccessInfo` | metric_review.py:98-100 | every choice gets an empty record, and existing records are kept |
| `Store.RatingKeysUnique` | db_storage/db_queries.py:29 | no two rows of a valid ratings table share (user, ratee, metric) |
| `Store.Append` | db_storage/sqlite3_db_helper.py:15-20 | a batch commits whole iff every row fits after its predecessors, and otherwise nothing is written |
| `Store.AppendValid` | db_storage/sqlite3_db_helper.py:15-20 | a committed batch keeps every row of the table fitting |
| `Store.NumberUsers` | db_storage/db_queries.py:125-131 | seeded user rows get consecutive ids after the last one, with (name, username) taken from (display name, shorthand) |
| `Store.NumberMetrics` | db_storage/db_queries.py:133-139 | seeded metric rows get consecutive ids after the last one |
| `Store.InsertAllData` | db_storage/db_queries.py:104-154 | succeeds iff all four batches fit the constraints; on failure the store is unchanged; on success each table has its batch appended |
| `Store.UsersAppendValid` | db_storage/db_queries.py:9-13 | appending fitting users keeps ids increasing and usernames and names unique |
| `Store.MetricsAppendValid` | db_storage/db_queries.py:15-19 | appending fitting metrics keeps ids increasing and names unique |
| `Store.InsertKeepsValid` | db_storage/db_queries.py:8-39 | every insert keeps all schema constraints of the store |
| `Store.RatingBatchRefused` | db_storage/db_queries.py:21-30 | a rating batch is refused iff some row has a score outside 1..10 or repeats a (user, ratee, metric), and a refused batch writes nothing |
| `Store.MetricsOnly` | init.py:29 | inserting only metrics appends them and changes no other table |
| `Store.UsersOnly` | init.py:31 | inserting only users appends them and changes no other table |
| `Store.DeleteAllData` | db_storage/db_queries.py:55-67 | all four tables end up empty and both id sequences are reset, so the next user and the next metric get id 1 |
| `Store.GetUserToIdMap` | db_storage/db_queries.py:157-163 | the map is keyed by exactly the usernames of the users |
| `Store.GetMetricToIdMap` | db_storage/db_queries.py:166-172 | the map is keyed by exactly the metric names |
| `Store.UserToIdExact` | db_storage/db_queries.py:157-163 | in a valid store every username maps to its own row's id |
| `Store.MetricToIdExact` | db_storage/db_queries.py:166-172 | in a valid store every metric name maps to its own row's id |
| `Store.AuthJoin` | db_storage/db_queries.py:76-79 | the join holds exactly the (name, browser) pairs of an auth row and a user row with the same id |
| `Store.GetInitializedUserRequests` | db_storage/db_queries.py:75-89 | its keys are exactly the names with at least one auth row |
| `Store.InitializedRequestIsFirst` | db_storage/db_queries.py:86-88 | a name maps to the browser of its first joined row; later rows are ignored |
| `Reports.RatedNames` | db_storage/db_queries.py:177-181 | the names of the users that have a rating row by the reviewer |
| `Reports.GetReviewersFinalisedCols` | db_storage/db_queries.py:175-184 | defined iff every rated name is on the roster, and then exactly the shorthands of the rated names |
| `Reports.FinalisedColumnStays` | db_storage/db_queries.py:175-184 | inserting never takes a name out of the finalised columns |
| `Reports.SubmittedRateeRated` | db_storage/db_queries.py:175-184 | after a committed row by the reviewer about a user, that user is among the finalised names |
| `Reports.FetchTheCountOnIds` | db_storage/db_queries.py:187-196 | exactly the reviewers with at least one row appear, each with its number of rows |
| `Reports.CountAfterInsert` | db_storage/db_queries.py:187-196 | appending a batch adds to each reviewer's count exactly its rows in the batch |
| `Reports.IdsOf` | db_storage/db_queries.py:234 | the ids of the names, in order |
| `Reports.Values` | db_storage/db_queries.py:233 | the shorthands of the roster, in order |
| `Reports.CountPermissibleByUsers` | db_storage/db_queries.py:227-244 | defined iff every name has an id; every user maps to the ids of the whole roster, itself included, unless it is selective; a selective reviewer maps to its own assignees' ids; the selective ids are listed in order |
| `Reports.RemainingAsWritten` | db_storage/db_queries.py:266 | `(L*M - count) // M - S` as floor division |
| `Reports.GetCountsOfReviewed` | db_storage/db_queries.py:247-267 | not-started, pending and completed split the mapped ids; not started is exactly the ids without rows; a counted id is completed iff the test as written holds, and pending otherwise with `RemainingAsWritten` ratees left, `(L*M - count) // M - S` |
| `Reports.RemainingFixed` | db_storage/db_queries.py:260-266 | the ratees left, rounded down, against the rows actually owed |
| `Reports.GetCountsOfReviewedFixed` | db_storage/db_queries.py:247-267 | the same split, with completed iff the count equals the rows owed, and pending otherwise with `RemainingFixed` ratees left, the owed rows not yet written divided by `M` and rounded down |
| `Reports.FixedAgreesOffSelective` | db_storage/db_queries.py:263-266 | for an ordinary reviewer the written test and remainder are the intended ones |
| `Reports.CountsAgreeWithoutSelective` | db_storage/db_queries.py:259-266 | when no selective reviewer has rows, the report as written equals the intended report |
| `Reports.SelectiveMislabelled` | db_storage/db_queries.py:261-262 | as written, a selective reviewer with two assignees who rated one is reported completed |
| `Reports.SelectiveMislabelledFixed` | db_storage/db_queries.py:260-262 | as intended, that reviewer is pending with one ratee left |
| `Reports.SelectiveNegative` | db_storage/db_queries.py:265-266 | as written, a selective reviewer half way through one assignee is pending with -1 left |
| `Reports.SelectiveNegativeFixed` | db_storage/db_queries.py:265-266 | as intended, that reviewer is pending with 0 whole ratees left |
| `Reports.ScoresOf` | db_storage/db_queries.py:205-219 | the scores of exactly the rows about the ratee and metric, by someone else (`ratings`) or by the ratee itself (`self_rating`) |
| `Reports.Present` | db_storage/db_queries.py:206 | `AVG` ignores NULL scores |
| `Reports.SumBounds` | db_storage/db_queries.py:206 | the sum of n scores in lo..hi lies in n*lo..n*hi |
| `Reports.Avg` | db_storage/db_queries.py:206 | `AVG` is NULL iff no score is present |
| `Reports.AvgBounds` | db_storage/db_queries.py:206 | an average of scores in lo..hi lies in lo..hi |
| `Reports.Grouped` | db_storage/db_queries.py:205-222 | one item per metric that has matching rows, with that metric's value |
| `Reports.GroupedDistinct` | db_storage/db_queries.py:210-213 | with distinct metric names, the grouped items have distinct names |
| `Reports.AveragesOf` | db_storage/db_queries.py:213-223 | `ratings` and `self_rating` are keyed by the metrics with matching rows |
| `Reports.GetAverageScores` | db_storage/db_queries.py:199-224 | one report for each id of the list, and nothing else |
| `Reports.AveragesExact` | db_storage/db_queries.py:205-223 | in a valid store, `ratings[m]` is the average of the others' scores of `m` and `self_rating[m]` the ratee's own score; metrics without rows are absent |
| `Reports.OwnRowIgnored` | db_storage/db_queries.py:209 | a row about oneself never changes the others' averages |
| `Reports.AveragesInRange` | db_storage/db_queries.py:25 | every average and own score of a valid store lies in 1..10 |
| `Entry.ValidateInput` | ui.py:34-45 | no message iff the value parses and 1 ≤ v ≤ 10, both bounds inclusive; the format message when parsing fails, the range message otherwise |
| `Entry.Get` | ui.py:114 | `dict.pop(k, None)`: the value of `k` when present |
| `Entry.Columns` | ui.py:114-135 | a permutation of the roster's shorthands: the others in config order, then self last; undefined iff the reviewer's shorthand is empty |
| `Entry.OthersAndSelf` | ui.py:114-115 | the others together with the popped shorthand are exactly the roster's shorthands; with no reviewer entry the others are the whole roster, in order |
| `Entry.FieldKey` | ui.py:85 | the key is the user, `_`, then the metric shorthand |
| `Entry.FieldKeyInjective` | ui.py:85 | for users without `_`, distinct (user, metric) pairs have distinct keys |
| `Entry.RestoreValue` | ui.py:80-90 | finalised: `*` and disabled; a key never saved: empty; after a refresh, the saved value when non-empty; otherwise the session's value |
| `Entry.Persist` | ui.py:144 | the session's values overwrite the saved ones, and everything else is kept |
| `Entry.RestoreAfterPersist` | ui.py:86-90 | a persisted non-empty value comes back after a refresh; on a plain rerun the session's value stays |
| `Entry.RowErrorsStep` | ui.py:75-95 | one more column adds exactly that ratee when its field draws an error |
| `Entry.ErrorSetStep` | ui.py:69-95 | one more metric row adds exactly the ratees whose field of that metric draws an error |
| `Entry.ErrorSetUnsubmitted` | ui.py:82-92 | a submitted ratee is never in the error set |
| `Entry.CreateTxtEntries` | ui.py:68-96 | the error set is exactly the ratees with a non-submitted field that is non-empty, not `*`, and refused by validation |
| `Entry.ConfirmRating` | ui.py:17-31 | a submitted ratee is refused before the error set is consulted; a ratee with errors is refused next; otherwise the dialog opens |
| `Entry.SeedInputSave` | ui.py:106-111 | a new roster reviewer starts with its finalised columns from the store, anybody else with none; an existing entry is kept |
| `Entry.AllMetricInitials` | ui.py:10-13 | every title maps to its shorthand; defined iff every title has one |
| `Submit.ScorePairs` | handler.py:23-27 | one (metric id, score) item per metric in order: the converted value for a non-empty field, None for an empty one; fails iff a non-empty field does not convert |
| `Submit.Rows` | handler.py:28-29 | one row per item, by the reviewer about the ratee |
| `Submit.WriteBatch` | handler.py:20-30 | bindings and saved inputs are untouched, and a failure writes nothing |
| `Submit.Dialog` | handler.py:8-34 | Cancel only sets the flag; Confirm marks the ratee finalised before anything is converted or written; an unbound browser fails with no mark |
| `Submit.ConfirmationDialog` | handler.py:8-34 | as written with `int()`: Confirm leaves the ratee finalised whatever the write does, and nothing else writes |
| `Submit.ConfirmationDialogFixed` | handler.py:8-34 | the same dialog converting with `float()` |
| `Submit.ConfirmAppends` | handler.py:28-30 | a confirmation succeeds iff the store accepts its batch, and then only appends it |
| `Submit.AlignedKeys` | handler.py:22-27 | the score dict is keyed by exactly the column's metric ids |
| `Submit.RowsKeysDistinct` | handler.py:28-29 | rows built from a dict never share a (user, ratee, metric) |
| `Submit.RowsCover` | handler.py:22-29 | exactly one row per distinct metric id, and one for every metric of the column |
| `Submit.ConfirmWritesBatch` | handler.py:18-30 | a successful confirmation appends one row per metric id, each with the reviewer's id and the ratee's id, and nothing else |
| `Submit.SecondSubmissionRefused` | ui.py:22-24 | after any Confirm, the gate refuses the same ratee from the same browser |
| `Submit.SubmittedRateeRecorded` | handler.py:30 | after a successful submission, the store's finalised columns include the ratee |
| `Submit.RatedAfterAppend` | db_storage/db_queries.py:177-181 | an appended row about a user puts that user among the rated names |
| `Submit.DecimalScoreLost` | handler.py:19-30 | "7.5" passes validation, but Confirm fails in `int()` after marking the ratee: finalised, no rows |
| `Submit.ValidatedScoresConvert` | ui.py:38-45 | under `float()`, a validated column converts and every score passes the CHECK constraint |
| `Submit.FreshBatch` | db_storage/db_queries.py:21-30 | a column of in-range scores fits iff none of its (user, ratee, metric) keys is already stored |
| `Submit.ValidatedColumnWritten` | handler.py:22-30 | the intended dialog writes every validated column, unless one of its keys is already stored |
| `Submit.BatchFitsFresh` | db_storage/db_queries.py:29 | in-range rows with distinct keys fit iff none of their keys is already stored |
| `Submit.ColumnFresh` | db_storage/db_queries.py:29 | the column's rows are all new iff none of its metrics is already rated for the pair |
| `Submit.NoneRated` | db_storage/db_queries.py:29 | rows covering exactly the column's metrics are new iff no metric is rated |
| `Submit.LegacyConfirmationDialog` | metric_review.py:149-162 | Confirm marks the ratee finalised and writes nothing to the store; Cancel only sets the flag |
| `Init.InitializeConstVars` | init.py:17-22 | `setdefault`: adds the key when missing and never overwrites a value |
| `Init.InitializeConstVarsSettles` | init.py:17-22 | initializing an existing key again, with any value, changes nothing |
| `Init.GetInitializationChoices` | init.py:9-14 | the two id maps, exactly when the choices hold them |
| `Init.ShorthandItems` | init.py:35 | fails iff some title has no initials, and otherwise has one (initials, id) item per metric |
| `Init.MetricIdMapping` | init.py:34-35 | keyed by exactly the initials of the stored metric titles; each initials maps to the id of the last metric, in row order, whose title has them |
| `Init.MetricIdMappingSize` | init.py:34-35 | the map has at most one entry per metric, and exactly one per metric iff the initials are distinct |
| `Init.InsertIntoDb` | init.py:25-36 | with the configured metrics and roster: no variable but the choices changes; on failure the choices are `''`; on success both batches are appended and the choices are the store's username map and shorthand map; a refused batch leaves the store as it was or with only the metrics written, and a title without initials leaves both batches written |
| `Init.SeedStore` | init.py:29-35 | on success the metrics and then the users are appended, nothing else changes, and the choices are the username map and the shorthand map of the store; each batch commits on its own, so an integrity error leaves the store unchanged or with only the metrics written, and a title without initials leaves both batches written |
| `Init.Seed` | init.py:25-36 | the choices hold the id maps iff seeding succeeded, and are `''` otherwise; no other variable changes |
| `Init.TitlesDistinct` | init.py:35 | titles with distinct initials are themselves distinct |
| `Init.SeedBatchesFit` | init.py:29-31 | distinct titles and distinct names and usernames seed the empty store without a constraint failure |
| `Init.SeedUserIds` | init.py:31-33 | each seeded username maps to its position, counted from 1 |
| `Init.SeedMetricIds` | init.py:34-35 | each seeded title's initials map to its position, counted from 1 |
| `Init.SeedEmptyStore` | init.py:25-36 | seeding the empty store succeeds, numbers rows from 1 in configuration order, and the id maps hold exactly those numbers |
| `Init.ShippedSeedable` | config.py:4-5 | the shipped configuration has unique initials, names and usernames |
| `Init.ShippedSeedSucceeds` | init.py:25-36 | seeding the empty store with the shipped configuration succeeds |
| `Init.ShippedSeed` | init.py:29-35 | the shipped seed stores 10 metrics and 8 users, and maps each shipped shorthand to its position |
| `Init.RequestItems` | init.py:65 | the name-to-browser items, with distinct names, are `get_initialized_user_requests()` |
| `Init.ResumedAccess` | init.py:66 | each name with an auth row gets `{browser: set()}` |
| `Init.InitiatedRequestVerif` | init.py:39-73 | `db_verified` becomes 'True' on every path; a verified run changes nothing; a missing store is created and seeded; 'y'/'Y' wipes and reseeds; any other answer than y/n stops |
| `Init.VerifiedOnce` | init.py:41 | a second start-up check does nothing |
| `Init.ExistingStoreWiped` | init.py:49-57 | with the hard-coded 'y', an existing store ends exactly as a missing one would, with `browser_reviewer` reset to `{}` |
| `Init.MissingStoreSeeded` | init.py:44-47 | a missing store is created and seeded successfully |
| `Init.ResumedMapsAgree` | init.py:65-67 | the access info seeded from the first-browser dict and its inversion agree: every name with an auth row has its first browser with no refresh ids, and exactly those browsers are bound to their names |
| `Init.Resume` | init.py:58-68 | fails, changing nothing, iff some title has no initials; otherwise the choices are rebuilt from the store, `initialized_from_db` is 'True', and the access info and `browser_reviewer` agree with the store's first browser per name |
| `Init.ResumeBranch` | init.py:58-68 | answering 'n'/'N' over an existing store keeps the store and ends with what `Resume` rebuilds from it after the reset, with `db_verified` set |
| `Init.ResumedBindingsInjective` | init.py:67 | resumed bindings never give a name two browsers |
| `Init.ResumedBrowserRefreshes` | init.py:66-67 | the first page load of a resumed browser counts as a refresh |

## Left out

- Streamlit rendering is not modelled: layouts, columns, buttons, dialogs, `st.rerun`, markdown, CSS and the tooltip template. It is presentation with no stated behaviour.
- The `st.cache_data` memoisation is not modelled. Each cached function is modelled as the function it wraps.
- Extracting the cookie and header from the Streamlit runtime is not modelled (`get_request_obj`). The ids are inputs, and only the missing-cookie error is kept.
- The SQLite engine is not modelled: SQL text, `sqlite_master`/`sqlite_sequence`, file paths and the existence check. The store is a set of table rows, and file existence is an `Option`.
- Store.AuthJoin: takes the join in `user_auth` row order. The query at db_storage/db_queries.py:76-79 has no `ORDER BY`, so SQLite may return the rows in another order, for instance by walking an index. Which browser counts as a name's first one in `Store.GetInitializedUserRequests` depends on that order.
- Init.MetricIdMapping: takes the metric rows in insertion order. The query at db_storage/db_queries.py:169 has no `ORDER BY`, so SQLite may return the rows in another order, for instance by walking the unique index on `name`. When two titles share initials, which id the shorthand keeps depends on that order. The shipped titles have distinct initials (`ShippedMetrics.ShippedShorthandsDistinct`), so the shipped mapping does not depend on it.
- The foreign keys of the schema are not checked on insert. SQLite leaves them off unless asked.
- `GROUP BY` without an aggregate returns an arbitrary row of the group. The model takes the first own row.
- `float()` and `int()` parsing is not modelled: whitespace, exponents, `inf`, and `nan`, which slips past the range check. Both are abstract partial functions.
- Scores are exact `real`s, not IEEE floats. This includes averages.
- The `str`/`eval` round trip of the initialization choices is the identity in the model.
- The console `input()` prompt, `exit`, `print` calls and the `sys.orig_argv` launch check are not modelled. The answer is a parameter.
- The auth-row write in `store_selection` (metric_review.py:146) is not modelled: it references an undefined `user_id`. Only the in-memory binding is modelled.
- metric_review.py's older start-up (lines 89-124) is not modelled. Its seeding, reset and resume logic are the ones modelled from init.py; only its access-info seeding (lines 98-100) is kept.
- The duplicate copies in metric_review.py of `get_refresh_browser_ids`, `page_has_refreshed`, `fetch_initials`, `validate_input`, `confirm_rating` and `initialize_const_vars` have the same logic as the ones modelled. Its older `create_metric_mapping` (lines 211-319) is not modelled; it differs from the ui.py version in five ways. It seeds `finalised` with `get_reviewers_finalised_cols()` called without the reviewer's id and without the roster test (line 217). It pops the reviewer with `pop(reviewer)` and no default, so a reviewer off the roster raises `KeyError` (line 221). It always appends the reviewer's own column, with no branch for a missing one (line 250). It restores a never-saved key from the session instead of blanking it (line 258). Its Done button passes `reversed_metrics_initials.keys()` as the metrics rather than the shorthand-to-id map (line 315). The `confirm_rating` copy reads the global `browser_id` instead of the request.
- db_queries.py is the older copy of db_storage/db_queries.py. Its schema, `insert_all_data`, `delete_all_db_data`, `get_initialized_user_requests` and `get_reviewers_finalised_cols` are line for line the same, and the model cites the newer copy.
- `get_metric_id` and `initialize_tables_for_db` are not modelled. Nothing in the core calls the first; the second only creates the empty tables, which is `Store.EmptyDb`.
- `capitalize()` of names in the progress report is not modelled. Ids are reported instead, and the id-to-name inversion is `Dicts.Invert`.
- A `TypeError` from `validate_input` is not modelled: `float(None)` raises it for a key missing from the session. Field values are strings.
- Non-string session entries are not modelled. `reviewer_save_vars.update(st.session_state.to_dict())` also copies flags like `confirm_dialog`; the model keeps only text fields.
- The finalised list is a set. It is only ever tested for membership, and duplicates are not distinguished.
- Store.GetInitializedUserRequests: states the key set and, through `Store.InitializedRequestIsFirst`, the value of each key, rather than equality with a reference dict.
- Init.InitiatedRequestVerif: the resume branch ('n'/'N') is stated by `Init.ResumeBranch` and `Init.Resume` rather than in this member's own contract.

## Findings

| source | as written | input that shows it | evidently intended | confidence | as-written member | corrected member |
|---|---|---|---|---|---|---|
| db_storage/db_queries.py:259-266 | A selective reviewer counts as completed at `L*M` rows, and also at `(L - S)*M` rows. A pending reviewer's remainder subtracts `S` (the number of selective reviewers) again, whether or not the reviewer is selective. | A selective reviewer with assignees [1, 2], 10 rows, 10 metrics and S = 1 is reported completed with one ratee unrated. With assignees [1] and 5 rows it is pending with -1 ratees left. | Completed exactly when the rows equal those owed: `L*M` for a selective reviewer, `(L - S)*M` for the others. Pending with the owed rows left, divided by `M`. | not executed | `Reports.GetCountsOfReviewed`, `Reports.SelectiveMislabelled`, `Reports.SelectiveNegative` | `Reports.GetCountsOfReviewedFixed`, `Reports.SelectiveMislabelledFixed`, `Reports.SelectiveNegativeFixed` |
| handler.py:19-30 | The ratee is marked finalised, then each field goes through `int()`. The form validated the fields with `float()`. | A field "7.5": `validate_input` accepts it, `int("7.5")` raises, and the ratee stays finalised with no rows written. | Convert with `float()`, the validating conversion and the `REAL` column's type, so every validated column is written. | not executed | `Submit.ConfirmationDialog`, `Submit.DecimalScoreLost` | `Submit.ConfirmationDialogFixed`, `Submit.ValidatedColumnWritten` |
