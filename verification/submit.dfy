/**
 * Submitting one ratee's column: the confirmation dialog of handler.py,
 * which marks the ratee submitted, turns the column's fields into one rating
 * row per metric and writes them in one batch; and the older dialog of
 * metric_review.py, which only marks the ratee.
 */
module Submit {
  import opened Base
  import Dicts
  import Store
  import Reports
  import Identity
  import Entry

  /** Which button of the dialog was pressed on this run, if any. */
  datatype Button = ConfirmPressed | CancelPressed | NoPress

  /**
   * What a submission reads and writes: the browser bindings, the saved
   * inputs of every reviewer, the store, and the `confirm_dialog` flag of
   * the session (`None` until a button sets it).
   */
  datatype AppState = AppState(bindings: Identity.Bindings, saves: map<string, Entry.SaveVars>,
                               db: Store.Db, confirmDialog: Option<bool>)

  datatype SubmitError =
    | UnboundBrowser              // `browser_reviewer[browser_id]`
    | NoSavedInputs               // `input_save[reviewer]`
    | UnknownReviewer             // `REVIEWERS_SHORTHAND[reviewer]`
    | UnknownUser                 // `user_to_id_map[...]`
    | NotANumber(key: string)     // `int(val)` raises `ValueError`
    | Integrity                   // the batch violates a constraint and is rolled back

  /** The field value of `key` in the session, empty by default. */
  function FieldValue(session: map<string, string>, key: string): string {
    if key in session then session[key] else ""
  }

  /**
   * The `(metric id, score)` items of every metric shorthand in order, with
   * the score `convert(val)` of a non-empty field and `None` for an empty
   * one; the first field that does not convert raises.
   */
  function ScorePairs(name: string, metrics: seq<(string, int)>, session: map<string, string>,
                      convert: string -> Option<real>): (r: Result<seq<(int, Option<real>)>, SubmitError>)
    ensures r.Ok? <==> forall i :: 0 <= i < |metrics| ==>
      FieldValue(session, Entry.FieldKey(name, metrics[i].0)) == "" || convert(FieldValue(session, Entry.FieldKey(name, metrics[i].0))).Some?
    ensures r.Ok? ==> |r.value| == |metrics| && forall i :: 0 <= i < |metrics| ==>
      var v := FieldValue(session, Entry.FieldKey(name, metrics[i].0));
      r.value[i] == (metrics[i].1, if v == "" then None else convert(v))
  {
    if |metrics| == 0 then Ok([])
    else
      var key := Entry.FieldKey(name, metrics[0].0);
      var v := FieldValue(session, key);
      if v != "" && convert(v).None? then Err(NotANumber(key))
      else
        var rest := ScorePairs(name, metrics[1..], session, convert);
        assert forall i :: 1 <= i < |metrics| ==> metrics[1..][i - 1] == metrics[i];
        if rest.Err? then rest
        else Ok([(metrics[0].1, if v == "" then None else convert(v))] + rest.value)
  }

  /** The rating rows of one reviewer about one ratee, one per `(metric id, score)` item. */
  function Rows(user: int, ratee: int, scores: seq<(int, Option<real>)>): (rows: seq<Store.Rating>)
    ensures |rows| == |scores|
    ensures forall k :: 0 <= k < |scores| ==> rows[k] == Store.Rating(user, ratee, scores[k].0, scores[k].1)
  {
    seq(|scores|, k requires 0 <= k < |scores| => Store.Rating(user, ratee, scores[k].0, scores[k].1))
  }

  /**
   * The confirm path, once the reviewer is known and the ratee is marked:
   * both ids, the scores keyed by metric id (`metric_to_score`, so a repeated
   * id keeps its first place and its last score), then the batch insert.
   */
  function WriteBatch(st: AppState, reviewer: string, name: string, metrics: seq<(string, int)>,
                      session: map<string, string>, userToId: map<string, int>, roster: seq<(string, string)>,
                      convert: string -> Option<real>): (r: (AppState, Result<(), SubmitError>))
    ensures r.0.bindings == st.bindings && r.0.saves == st.saves && r.0.confirmDialog == st.confirmDialog
    ensures r.1.Err? ==> r.0.db == st.db
  {
    if reviewer !in Dicts.KeySet(roster) then (st, Err(UnknownReviewer))
    else
      var shorthand := Dicts.MapOf(roster)[reviewer];
      if shorthand !in userToId || name !in userToId then (st, Err(UnknownUser))
      else
        match ScorePairs(name, metrics, session, convert)
        case Err(e) => (st, Err(e))
        case Ok(pairs) =>
          var rows := Rows(userToId[shorthand], userToId[name], Dicts.DictOf(pairs));
          var (db, res) := Store.InsertAllData(st.db, [], [], rows, None);
          if res.Ok? then (st.(db := db), Ok(())) else (st, Err(Integrity))
  }

  /**
   * The dialog with a score conversion: Confirm sets the flag, looks up the
   * reviewer of the browser, marks the ratee submitted, and only then builds
   * and writes the batch; Cancel only sets the flag.
   */
  function Dialog(st: AppState, browser: Identity.BrowserId, name: string, metrics: seq<(string, int)>,
                  session: map<string, string>, userToId: map<string, int>, roster: seq<(string, string)>,
                  convert: string -> Option<real>, button: Button): (r: (AppState, Result<(), SubmitError>))
    ensures button == NoPress ==> r == (st, Ok(()))
    ensures button == CancelPressed ==> r == (st.(confirmDialog := Some(false)), Ok(()))
    ensures button == ConfirmPressed ==> r.0.confirmDialog == Some(true) && r.0.bindings == st.bindings
    ensures r.1.Err? ==> r.0.db == st.db
    ensures (button == ConfirmPressed && browser in st.bindings && st.bindings[browser] in st.saves) ==>
      var reviewer := st.bindings[browser];
      && r.0.saves == st.saves[reviewer := st.saves[reviewer].(finalised := st.saves[reviewer].finalised + {name})]
    ensures button == ConfirmPressed && !(browser in st.bindings && st.bindings[browser] in st.saves) ==>
      r.1.Err? && r.0.saves == st.saves
  {
    match button
    case NoPress => (st, Ok(()))
    case CancelPressed => (st.(confirmDialog := Some(false)), Ok(()))
    case ConfirmPressed =>
      var st1 := st.(confirmDialog := Some(true));
      if browser !in st.bindings then (st1, Err(UnboundBrowser))
      else
        var reviewer := st.bindings[browser];
        if reviewer !in st.saves then (st1, Err(NoSavedInputs))
        else
          var save := st.saves[reviewer];
          var st2 := st1.(saves := st.saves[reviewer := save.(finalised := save.finalised + {name})]);
          WriteBatch(st2, reviewer, name, metrics, session, userToId, roster, convert)
  }

  /** `int(val)` as a score: the integer as a real, where `int()` accepts the text. */
  function IntScore(asInt: string -> Option<int>): string -> Option<real> {
    s => if asInt(s).Some? then Some(asInt(s).value as real) else None
  }

  /** handler.py's `confirmation_dialog` as written: scores go through `int()`. */
  function ConfirmationDialog(st: AppState, browser: Identity.BrowserId, name: string, metrics: seq<(string, int)>,
                              session: map<string, string>, userToId: map<string, int>, roster: seq<(string, string)>,
                              asInt: string -> Option<int>, button: Button): (r: (AppState, Result<(), SubmitError>))
    ensures button != ConfirmPressed ==> r.0.db == st.db && r.0.saves == st.saves
    ensures r.1.Err? ==> r.0.db == st.db
    ensures (button == ConfirmPressed && browser in st.bindings && st.bindings[browser] in st.saves) ==>
      st.bindings[browser] in r.0.saves && name in r.0.saves[st.bindings[browser]].finalised
  {
    Dialog(st, browser, name, metrics, session, userToId, roster, IntScore(asInt), button)
  }

  /**
   * The dialog as intended: scores go through `float()`, the conversion the
   * form validated them with, into the `REAL` column.
   */
  function ConfirmationDialogFixed(st: AppState, browser: Identity.BrowserId, name: string, metrics: seq<(string, int)>,
                                   session: map<string, string>, userToId: map<string, int>, roster: seq<(string, string)>,
                                   asFloat: string -> Option<real>, button: Button): (r: (AppState, Result<(), SubmitError>))
    ensures button != ConfirmPressed ==> r.0.db == st.db && r.0.saves == st.saves
    ensures r.1.Err? ==> r.0.db == st.db
    ensures (button == ConfirmPressed && browser in st.bindings && st.bindings[browser] in st.saves) ==>
      st.bindings[browser] in r.0.saves && name in r.0.saves[st.bindings[browser]].finalised
  {
    Dialog(st, browser, name, metrics, session, userToId, roster, asFloat, button)
  }

  // ---------------------------------------------------------------------------
  // Properties of a submission

  /** Everything a confirmed submission needs to look up is there. */
  predicate Resolvable(st: AppState, browser: Identity.BrowserId, name: string,
                       userToId: map<string, int>, roster: seq<(string, string)>) {
    && browser in st.bindings && st.bindings[browser] in st.saves
    && st.bindings[browser] in Dicts.KeySet(roster)
    && Dicts.MapOf(roster)[st.bindings[browser]] in userToId && name in userToId
  }

  /** The reviewer's user id, through the roster's shorthand. */
  function ReviewerId(st: AppState, browser: Identity.BrowserId, name: string,
                      userToId: map<string, int>, roster: seq<(string, string)>): int
    requires Resolvable(st, browser, name, userToId, roster)
  {
    userToId[Dicts.MapOf(roster)[st.bindings[browser]]]
  }

  /** The rows a confirmed submission hands to the insert. */
  function Batch(st: AppState, browser: Identity.BrowserId, name: string, metrics: seq<(string, int)>,
                 session: map<string, string>, userToId: map<string, int>, roster: seq<(string, string)>,
                 convert: string -> Option<real>): seq<Store.Rating>
    requires Resolvable(st, browser, name, userToId, roster)
    requires ScorePairs(name, metrics, session, convert).Ok?
  {
    Rows(ReviewerId(st, browser, name, userToId, roster), userToId[name],
         Dicts.DictOf(ScorePairs(name, metrics, session, convert).value))
  }

  /**
   * A resolvable confirmation with convertible fields succeeds exactly when
   * the store accepts its batch, and then appends the batch to the ratings
   * and changes nothing else.
   */
  lemma ConfirmAppends(st: AppState, browser: Identity.BrowserId, name: string, metrics: seq<(string, int)>,
                       session: map<string, string>, userToId: map<string, int>, roster: seq<(string, string)>,
                       convert: string -> Option<real>)
    requires Resolvable(st, browser, name, userToId, roster)
    requires ScorePairs(name, metrics, session, convert).Ok?
    ensures var r := Dialog(st, browser, name, metrics, session, userToId, roster, convert, ConfirmPressed);
      var batch := Batch(st, browser, name, metrics, session, userToId, roster, convert);
      && (r.1.Ok? <==> Store.RatingBatchFits(st.db, batch))
      && (r.1.Ok? ==> r.0.db == st.db.(ratings := st.db.ratings + batch))
  {
    var batch := Batch(st, browser, name, metrics, session, userToId, roster, convert);
    assert Store.UserBatchFits(st.db, []) && Store.MetricBatchFits(st.db, []) && Store.AuthRowFits(st.db, None);
    assert Store.InsertAllData(st.db, [], [], batch, None).1.Ok? <==> Store.RatingBatchFits(st.db, batch);
  }

  /** The metric ids of a column's metrics. */
  function MetricIds(metrics: seq<(string, int)>): set<int> {
    set i | 0 <= i < |metrics| :: metrics[i].1
  }

  /** The score items of a column carry its metric ids, in order. */
  predicate Aligned(metrics: seq<(string, int)>, pairs: seq<(int, Option<real>)>) {
    |pairs| == |metrics| && forall i :: 0 <= i < |metrics| ==> pairs[i].0 == metrics[i].1
  }

  lemma AlignedKeys(metrics: seq<(string, int)>, pairs: seq<(int, Option<real>)>)
    requires Aligned(metrics, pairs)
    ensures Dicts.KeySet(pairs) == MetricIds(metrics)
  {
    forall x | x in Dicts.KeySet(pairs) ensures x in MetricIds(metrics) {
      var i :| 0 <= i < |pairs| && pairs[i].0 == x;
    }
    forall i | 0 <= i < |metrics| ensures metrics[i].1 in Dicts.KeySet(pairs) {
      assert pairs[i].0 == metrics[i].1;
    }
  }

  /** Rows built from a dict, all by one reviewer about one ratee, never share a key. */
  lemma RowsKeysDistinct(user: int, ratee: int, d: seq<(int, Option<real>)>)
    requires Dicts.DistinctKeys(d)
    ensures var rows := Rows(user, ratee, d);
      forall a, b :: 0 <= a < b < |rows| ==> Store.RatingKey(rows[a]) != Store.RatingKey(rows[b])
  {
  }

  /**
   * The rows built from a column: one per distinct metric id, and one for
   * every metric of the column.
   */
  lemma RowsCover(user: int, ratee: int, metrics: seq<(string, int)>, pairs: seq<(int, Option<real>)>)
    requires Aligned(metrics, pairs)
    ensures var rows := Rows(user, ratee, Dicts.DictOf(pairs));
      && |rows| == |MetricIds(metrics)|
      && (forall k :: 0 <= k < |rows| ==> rows[k].metric in MetricIds(metrics))
      && (forall i :: 0 <= i < |metrics| ==> exists k :: 0 <= k < |rows| && rows[k].metric == metrics[i].1)
  {
    var d := Dicts.DictOf(pairs);
    var rows := Rows(user, ratee, d);
    Dicts.KeyCount(d);
    AlignedKeys(metrics, pairs);
    forall k | 0 <= k < |rows| ensures rows[k].metric in MetricIds(metrics) {
      assert d[k].0 in Dicts.KeySet(d);
    }
    forall i | 0 <= i < |metrics| ensures exists k :: 0 <= k < |rows| && rows[k].metric == metrics[i].1 {
      assert metrics[i].1 in Dicts.KeySet(d);
      var k :| 0 <= k < |d| && d[k].0 == metrics[i].1;
      assert rows[k].metric == metrics[i].1;
    }
  }

  /**
   * A successful confirmation appends exactly one row per distinct metric id,
   * each by the reviewer's id about the ratee's id; nothing else in the store
   * changes.
   */
  lemma ConfirmWritesBatch(st: AppState, browser: Identity.BrowserId, name: string, metrics: seq<(string, int)>,
                           session: map<string, string>, userToId: map<string, int>, roster: seq<(string, string)>,
                           convert: string -> Option<real>)
    requires Resolvable(st, browser, name, userToId, roster)
    requires Dialog(st, browser, name, metrics, session, userToId, roster, convert, ConfirmPressed).1.Ok?
    ensures ScorePairs(name, metrics, session, convert).Ok?
    ensures var batch := Batch(st, browser, name, metrics, session, userToId, roster, convert);
      && Dialog(st, browser, name, metrics, session, userToId, roster, convert, ConfirmPressed).0.db
         == st.db.(ratings := st.db.ratings + batch)
      && |batch| == |MetricIds(metrics)|
      && (forall k :: 0 <= k < |batch| ==>
            batch[k].user == ReviewerId(st, browser, name, userToId, roster) && batch[k].ratee == userToId[name])
      && (forall i :: 0 <= i < |metrics| ==> exists k :: 0 <= k < |batch| && batch[k].metric == metrics[i].1)
  {
    var pairs := ScorePairs(name, metrics, session, convert).value;
    ConfirmAppends(st, browser, name, metrics, session, userToId, roster, convert);
    RowsCover(ReviewerId(st, browser, name, userToId, roster), userToId[name], metrics, pairs);
  }

  /**
   * A second submission of the same ratee from the same browser is refused
   * at the gate, whatever became of the first one, and the gate itself
   * writes nothing.
   */
  lemma SecondSubmissionRefused(st: AppState, browser: Identity.BrowserId, name: string, metrics: seq<(string, int)>,
                                session: map<string, string>, userToId: map<string, int>, roster: seq<(string, string)>,
                                asInt: string -> Option<int>, errors: set<string>)
    requires browser in st.bindings && st.bindings[browser] in st.saves
    ensures var after := ConfirmationDialog(st, browser, name, metrics, session, userToId, roster, asInt, ConfirmPressed).0;
      Entry.ConfirmRating(after.bindings, after.saves, browser, name, errors) == Ok(Entry.AlreadySubmitted)
  {
  }

  /**
   * After a successful submission with at least one metric, the store itself
   * records the ratee's user row among those the reviewer has rated, so the
   * column is still closed after a restart.
   */
  lemma SubmittedRateeRecorded(st: AppState, browser: Identity.BrowserId, name: string, metrics: seq<(string, int)>,
                               session: map<string, string>, userToId: map<string, int>, roster: seq<(string, string)>,
                               convert: string -> Option<real>, j: int)
    requires Resolvable(st, browser, name, userToId, roster) && |metrics| > 0
    requires 0 <= j < |st.db.users| && st.db.users[j].id == userToId[name]
    requires Dialog(st, browser, name, metrics, session, userToId, roster, convert, ConfirmPressed).1.Ok?
    ensures st.db.users[j].name in Reports.RatedNames(
      Dialog(st, browser, name, metrics, session, userToId, roster, convert, ConfirmPressed).0.db,
      ReviewerId(st, browser, name, userToId, roster))
  {
    ConfirmWritesBatch(st, browser, name, metrics, session, userToId, roster, convert);
    var batch := Batch(st, browser, name, metrics, session, userToId, roster, convert);
    var k :| 0 <= k < |batch| && batch[k].metric == metrics[0].1;
    RatedAfterAppend(st.db, batch, ReviewerId(st, browser, name, userToId, roster), j, k);
  }

  /** Appending a row of `reviewer` about user row `j` puts that user's name among the rated names. */
  lemma RatedAfterAppend(db: Store.Db, batch: seq<Store.Rating>, reviewer: int, j: int, k: int)
    requires 0 <= j < |db.users| && 0 <= k < |batch|
    requires batch[k].user == reviewer && batch[k].ratee == db.users[j].id
    ensures db.users[j].name in Reports.RatedNames(db.(ratings := db.ratings + batch), reviewer)
  {
    var after := db.(ratings := db.ratings + batch);
    assert after.ratings[|db.ratings| + k] == batch[k];
    assert after.users[j] == db.users[j];
  }

  // ---------------------------------------------------------------------------
  // The integer conversion

  /**
   * A score the form accepts but `int()` refuses (such as "7.5", which
   * `float()` reads as 7.5) leaves the ratee marked submitted with no rows
   * written: the column is closed and its scores are lost.
   */
  lemma DecimalScoreLost(st: AppState, browser: Identity.BrowserId, name: string, metric: string, id: int,
                         userToId: map<string, int>, roster: seq<(string, string)>,
                         asFloat: string -> Option<real>, asInt: string -> Option<int>)
    requires Resolvable(st, browser, name, userToId, roster)
    requires asFloat("7.5") == Some(7.5) && asInt("7.5").None?
    ensures Entry.ValidateInput("7.5", asFloat).None?
    ensures var session := map[Entry.FieldKey(name, metric) := "7.5"];
      var r := ConfirmationDialog(st, browser, name, [(metric, id)], session, userToId, roster, asInt, ConfirmPressed);
      && r.1 == Err(NotANumber(Entry.FieldKey(name, metric)))
      && st.bindings[browser] in r.0.saves && name in r.0.saves[st.bindings[browser]].finalised
      && r.0.db == st.db
  {
  }

  /** Every field of the column is empty or passes `validate_input`. */
  predicate ColumnValidated(name: string, metrics: seq<(string, int)>, session: map<string, string>,
                            asFloat: string -> Option<real>) {
    forall i :: 0 <= i < |metrics| ==>
      var v := FieldValue(session, Entry.FieldKey(name, metrics[i].0));
      v == "" || Entry.ValidateInput(v, asFloat).None?
  }

  /** Under `float()`, a validated column converts, and every score passes the `CHECK` constraint. */
  lemma ValidatedScoresConvert(name: string, metrics: seq<(string, int)>, session: map<string, string>,
                               asFloat: string -> Option<real>)
    requires ColumnValidated(name, metrics, session, asFloat)
    ensures ScorePairs(name, metrics, session, asFloat).Ok?
    ensures var pairs := ScorePairs(name, metrics, session, asFloat).value;
      Aligned(metrics, pairs) && forall i :: 0 <= i < |pairs| ==> Store.ScoreOk(pairs[i].1)
  {
  }

  /**
   * The batch of a column whose scores are in range fits the ratings table
   * exactly when the reviewer has no row yet about this ratee for any of its
   * metrics.
   */
  lemma FreshBatch(db: Store.Db, user: int, ratee: int, metrics: seq<(string, int)>, pairs: seq<(int, Option<real>)>)
    requires Aligned(metrics, pairs) && forall i :: 0 <= i < |pairs| ==> Store.ScoreOk(pairs[i].1)
    ensures Store.RatingBatchFits(db, Rows(user, ratee, Dicts.DictOf(pairs)))
      <==> forall j, i :: 0 <= j < |db.ratings| && 0 <= i < |metrics| ==>
        Store.RatingKey(db.ratings[j]) != (user, ratee, metrics[i].1)
  {
    var d := Dicts.DictOf(pairs);
    var rows := Rows(user, ratee, d);
    forall k | 0 <= k < |rows| ensures Store.ScoreOk(rows[k].score) {
      Dicts.MapOfDistinct(d, k);
      var i := Dicts.MapOfSource(pairs, d[k].0);
      assert rows[k].score == pairs[i].1;
    }
    RowsKeysDistinct(user, ratee, d);
    BatchFitsFresh(db, rows);
    ColumnFresh(db, user, ratee, metrics, pairs);
  }

  /**
   * The intended dialog writes whatever the form accepted: a validated column
   * is refused only when the reviewer already has a row about this ratee for
   * one of its metrics.
   */
  lemma ValidatedColumnWritten(st: AppState, browser: Identity.BrowserId, name: string, metrics: seq<(string, int)>,
                               session: map<string, string>, userToId: map<string, int>, roster: seq<(string, string)>,
                               asFloat: string -> Option<real>)
    requires Resolvable(st, browser, name, userToId, roster)
    requires ColumnValidated(name, metrics, session, asFloat)
    ensures var r := ConfirmationDialogFixed(st, browser, name, metrics, session, userToId, roster, asFloat, ConfirmPressed);
      var user := ReviewerId(st, browser, name, userToId, roster);
      r.1.Ok? <==> forall j, i :: 0 <= j < |st.db.ratings| && 0 <= i < |metrics| ==>
        Store.RatingKey(st.db.ratings[j]) != (user, userToId[name], metrics[i].1)
  {
    ValidatedScoresConvert(name, metrics, session, asFloat);
    FreshBatch(st.db, ReviewerId(st, browser, name, userToId, roster), userToId[name], metrics,
               ScorePairs(name, metrics, session, asFloat).value);
    ConfirmAppends(st, browser, name, metrics, session, userToId, roster, asFloat);
  }

  /** A batch of in-range scores and distinct keys fits exactly when no key is already in the table. */
  lemma BatchFitsFresh(db: Store.Db, rows: seq<Store.Rating>)
    requires forall k :: 0 <= k < |rows| ==> Store.ScoreOk(rows[k].score)
    requires forall a, b :: 0 <= a < b < |rows| ==> Store.RatingKey(rows[a]) != Store.RatingKey(rows[b])
    ensures Store.RatingBatchFits(db, rows) <==>
      forall k, j :: 0 <= k < |rows| && 0 <= j < |db.ratings| ==> Store.RatingKey(db.ratings[j]) != Store.RatingKey(rows[k])
  {
    forall k | 0 <= k < |rows|
      ensures Store.RatingFits(db.ratings + rows[..k], rows[k]) <==>
        forall j :: 0 <= j < |db.ratings| ==> Store.RatingKey(db.ratings[j]) != Store.RatingKey(rows[k])
    {
      assert forall j :: 0 <= j < |db.ratings| ==> (db.ratings + rows[..k])[j] == db.ratings[j];
      assert forall j :: |db.ratings| <= j < |db.ratings| + k ==> (db.ratings + rows[..k])[j] == rows[j - |db.ratings|];
    }
  }

  /** The rows of a column are all new to the table exactly when none of its metrics is already rated. */
  lemma ColumnFresh(db: Store.Db, user: int, ratee: int, metrics: seq<(string, int)>, pairs: seq<(int, Option<real>)>)
    requires Aligned(metrics, pairs)
    ensures var rows := Rows(user, ratee, Dicts.DictOf(pairs));
      (forall k, j :: 0 <= k < |rows| && 0 <= j < |db.ratings| ==> Store.RatingKey(db.ratings[j]) != Store.RatingKey(rows[k]))
      <==> forall j, i :: 0 <= j < |db.ratings| && 0 <= i < |metrics| ==> Store.RatingKey(db.ratings[j]) != (user, ratee, metrics[i].1)
  {
    RowsCover(user, ratee, metrics, pairs);
    NoneRated(db, user, ratee, metrics, Rows(user, ratee, Dicts.DictOf(pairs)));
  }

  /** No row of the batch is already in the table exactly when no metric of the column is already rated. */
  lemma NoneRated(db: Store.Db, user: int, ratee: int, metrics: seq<(string, int)>, rows: seq<Store.Rating>)
    requires forall k :: 0 <= k < |rows| ==> rows[k].user == user && rows[k].ratee == ratee && rows[k].metric in MetricIds(metrics)
    requires forall i :: 0 <= i < |metrics| ==> exists k :: 0 <= k < |rows| && rows[k].metric == metrics[i].1
    ensures (forall k, j :: 0 <= k < |rows| && 0 <= j < |db.ratings| ==> Store.RatingKey(db.ratings[j]) != Store.RatingKey(rows[k]))
      <==> forall j, i :: 0 <= j < |db.ratings| && 0 <= i < |metrics| ==> Store.RatingKey(db.ratings[j]) != (user, ratee, metrics[i].1)
  {
  }

  // ---------------------------------------------------------------------------
  // The older dialog

  /**
   * metric_review.py's `confirmation_dialog`: Confirm marks the ratee
   * submitted and writes nothing to the store; Cancel only sets the flag.
   */
  function LegacyConfirmationDialog(st: AppState, browser: Identity.BrowserId, name: string, button: Button)
    : (r: (AppState, Result<(), SubmitError>))
    ensures r.0.db == st.db && r.0.bindings == st.bindings
    ensures button == CancelPressed ==> r == (st.(confirmDialog := Some(false)), Ok(()))
    ensures button == NoPress ==> r == (st, Ok(()))
    ensures button == ConfirmPressed ==> (r.1.Ok? <==> browser in st.bindings && st.bindings[browser] in st.saves)
    ensures button == ConfirmPressed && r.1.Ok? ==>
      st.bindings[browser] in r.0.saves && name in r.0.saves[st.bindings[browser]].finalised
      && r.0.saves.Keys == st.saves.Keys
  {
    match button
    case NoPress => (st, Ok(()))
    case CancelPressed => (st.(confirmDialog := Some(false)), Ok(()))
    case ConfirmPressed =>
      var st1 := st.(confirmDialog := Some(true));
      if browser !in st.bindings then (st1, Err(UnboundBrowser))
      else
        var reviewer := st.bindings[browser];
        if reviewer !in st.saves then (st1, Err(NoSavedInputs))
        else
          var save := st.saves[reviewer];
          (st1.(saves := st.saves[reviewer := save.(finalised := save.finalised + {name})]), Ok(()))
  }
}
