/**
 * The SQLite store of db_storage/db_queries.py (and its older copy
 * db_queries.py) as four tables of rows, in row-id order. The schema's
 * UNIQUE and CHECK constraints are predicates; foreign keys are not enforced
 * (no `PRAGMA foreign_keys`), so they are not either. Every call of
 * `insert_all_data` runs in one session that commits on success and rolls
 * back on an exception (db_storage/sqlite3_db_helper.py), so a batch is
 * written whole or not at all.
 */
module Store {
  import opened Base
  import Dicts

  datatype User = User(id: int, username: string, name: string)
  datatype MetricRow = MetricRow(id: int, name: string, description: string)
  /** A `NULL` score is `None`; the CHECK constraint lets it through. */
  datatype Rating = Rating(user: int, ratee: int, metric: int, score: Option<real>)
  datatype Auth = Auth(user: int, browser: string)

  /**
   * The four tables, with the AUTOINCREMENT counters of `sqlite_sequence`
   * for the two tables that have one (the last id handed out).
   */
  datatype Db = Db(
    users: seq<User>, metrics: seq<MetricRow>, ratings: seq<Rating>, auth: seq<Auth>,
    userSeq: int, metricSeq: int)

  /** The `sqlite3.IntegrityError` of a violated UNIQUE or CHECK constraint. */
  datatype DbError = IntegrityError

  const EmptyDb := Db([], [], [], [], 0, 0)

  // ---------------------------------------------------------------------------
  // Constraints

  /** `CHECK (score >= 1 AND score <= 10)`: a NULL score passes. */
  predicate ScoreOk(score: Option<real>) {
    score.None? || 1.0 <= score.value <= 10.0
  }

  /** The key of `UNIQUE(user_id, ratee_id, metric_id)`. */
  function RatingKey(r: Rating): (int, int, int) {
    (r.user, r.ratee, r.metric)
  }

  /** A rating row that the table of `rows` accepts next. */
  predicate RatingFits(rows: seq<Rating>, r: Rating) {
    ScoreOk(r.score) && forall j :: 0 <= j < |rows| ==> RatingKey(rows[j]) != RatingKey(r)
  }

  /** A user row that the table of `rows` accepts next: `username` and `name` are UNIQUE. */
  predicate UserFits(rows: seq<User>, u: User) {
    forall j :: 0 <= j < |rows| ==> rows[j].id != u.id && rows[j].username != u.username && rows[j].name != u.name
  }

  /** A metric row that the table of `rows` accepts next: `name` is UNIQUE. */
  predicate MetricFits(rows: seq<MetricRow>, m: MetricRow) {
    forall j :: 0 <= j < |rows| ==> rows[j].id != m.id && rows[j].name != m.name
  }

  /** `PRIMARY KEY (user_id, browser_uuid)`. */
  predicate AuthFits(rows: seq<Auth>, a: Auth) {
    forall j :: 0 <= j < |rows| ==> rows[j] != a
  }

  predicate RatingsValid(rows: seq<Rating>) {
    forall i :: 0 <= i < |rows| ==> RatingFits(rows[..i], rows[i])
  }

  predicate UsersValid(rows: seq<User>, last: int) {
    0 <= last && forall i :: 0 <= i < |rows| ==> UserFits(rows[..i], rows[i]) && 1 <= rows[i].id <= last
  }

  predicate MetricsValid(rows: seq<MetricRow>, last: int) {
    0 <= last && forall i :: 0 <= i < |rows| ==> MetricFits(rows[..i], rows[i]) && 1 <= rows[i].id <= last
  }

  predicate AuthValid(rows: seq<Auth>) {
    forall i :: 0 <= i < |rows| ==> AuthFits(rows[..i], rows[i])
  }

  /** Every constraint of the schema holds, and the counters are ahead of every id. */
  predicate Valid(db: Db) {
    && UsersValid(db.users, db.userSeq)
    && MetricsValid(db.metrics, db.metricSeq)
    && RatingsValid(db.ratings)
    && AuthValid(db.auth)
  }

  /** No two rating rows of a valid table share their key. */
  lemma RatingKeysUnique(rows: seq<Rating>, i: int, j: int)
    requires RatingsValid(rows) && 0 <= i < j < |rows|
    ensures RatingKey(rows[i]) != RatingKey(rows[j])
  {
    assert rows[..j][i] == rows[i];
  }

  // ---------------------------------------------------------------------------
  // Inserting

  /**
   * Rows inserted one after another into a table whose next-row test is
   * `fits`; `None` at the first row it refuses.
   */
  function Append<R>(rows: seq<R>, batch: seq<R>, fits: (seq<R>, R) -> bool): (r: Option<seq<R>>)
    ensures r.Some? <==> forall i :: 0 <= i < |batch| ==> fits(rows + batch[..i], batch[i])
    ensures r.Some? ==> r.value == rows + batch
    decreases |batch|
  {
    if |batch| == 0 then Some(rows)
    else if !fits(rows, batch[0]) then
      assert rows + batch[..0] == rows;
      None
    else
      var r := Append(rows + [batch[0]], batch[1..], fits);
      assert forall i :: 0 <= i < |batch| - 1 ==> (rows + [batch[0]]) + batch[1..][..i] == rows + batch[..i + 1] by {
        forall i | 0 <= i < |batch| - 1 ensures (rows + [batch[0]]) + batch[1..][..i] == rows + batch[..i + 1] {
          assert batch[..i + 1] == [batch[0]] + batch[1..][..i];
        }
      }
      assert rows + batch[..0] == rows;
      assert (rows + [batch[0]]) + batch[1..] == rows + batch;
      r
  }

  /** A table stays valid when a row it accepts is appended. */
  lemma AppendValid<R>(rows: seq<R>, batch: seq<R>, fits: (seq<R>, R) -> bool)
    requires forall i :: 0 <= i < |rows| ==> fits(rows[..i], rows[i])
    requires Append(rows, batch, fits).Some?
    ensures var all := rows + batch; forall i :: 0 <= i < |all| ==> fits(all[..i], all[i])
  {
    var all := rows + batch;
    forall i | 0 <= i < |all| ensures fits(all[..i], all[i]) {
      if i < |rows| {
        assert all[..i] == rows[..i];
      } else {
        assert all[..i] == rows + batch[..i - |rows|];
      }
    }
  }

  /** The user rows of `(name, username)` pairs, numbered from `last + 1` on. */
  function NumberUsers(last: int, pairs: seq<(string, string)>): (us: seq<User>)
    ensures |us| == |pairs|
    ensures forall i :: 0 <= i < |pairs| ==> us[i] == User(last + 1 + i, pairs[i].1, pairs[i].0)
  {
    seq(|pairs|, i requires 0 <= i < |pairs| => User(last + 1 + i, pairs[i].1, pairs[i].0))
  }

  /** The metric rows of `(name, description)` pairs, numbered from `last + 1` on. */
  function NumberMetrics(last: int, pairs: seq<(string, string)>): (ms: seq<MetricRow>)
    ensures |ms| == |pairs|
    ensures forall i :: 0 <= i < |pairs| ==> ms[i] == MetricRow(last + 1 + i, pairs[i].0, pairs[i].1)
  {
    seq(|pairs|, i requires 0 <= i < |pairs| => MetricRow(last + 1 + i, pairs[i].0, pairs[i].1))
  }

  /** The user batch fits: the (username, name) pairs are new and pairwise distinct. */
  predicate UserBatchFits(db: Db, pairs: seq<(string, string)>) {
    var us := NumberUsers(db.userSeq, pairs);
    forall i :: 0 <= i < |us| ==> UserFits(db.users + us[..i], us[i])
  }

  predicate MetricBatchFits(db: Db, pairs: seq<(string, string)>) {
    var ms := NumberMetrics(db.metricSeq, pairs);
    forall i :: 0 <= i < |ms| ==> MetricFits(db.metrics + ms[..i], ms[i])
  }

  /** Every rating has a score in range, and no key repeats one in the table or earlier in the batch. */
  predicate RatingBatchFits(db: Db, batch: seq<Rating>) {
    forall i :: 0 <= i < |batch| ==> RatingFits(db.ratings + batch[..i], batch[i])
  }

  predicate AuthRowFits(db: Db, auth: Option<Auth>) {
    auth.None? || AuthFits(db.auth, auth.value)
  }

  /**
   * `insert_all_data`: users, then metrics, then ratings, then the auth row,
   * in one session. The new store comes with the outcome; on an
   * `IntegrityError` it is the store as it was.
   */
  function InsertAllData(db: Db, userData: seq<(string, string)>, metricData: seq<(string, string)>,
                         ratingData: seq<Rating>, authData: Option<Auth>): (r: (Db, Result<(), DbError>))
    ensures r.1.Ok? <==> (UserBatchFits(db, userData) && MetricBatchFits(db, metricData)
      && RatingBatchFits(db, ratingData) && AuthRowFits(db, authData))
    ensures r.1.Err? ==> r.0 == db
    ensures r.1.Ok? ==> r.0 == Db(
      db.users + NumberUsers(db.userSeq, userData),
      db.metrics + NumberMetrics(db.metricSeq, metricData),
      db.ratings + ratingData,
      db.auth + (if authData.Some? then [authData.value] else []),
      db.userSeq + |userData|,
      db.metricSeq + |metricData|)
  {
    var users := Append(db.users, NumberUsers(db.userSeq, userData), UserFits);
    var metrics := Append(db.metrics, NumberMetrics(db.metricSeq, metricData), MetricFits);
    var ratings := Append(db.ratings, ratingData, RatingFits);
    var auth := Append(db.auth, if authData.Some? then [authData.value] else [], AuthFits);
    if users.Some? && metrics.Some? && ratings.Some? && auth.Some? then
      (Db(users.value, metrics.value, ratings.value, auth.value,
          db.userSeq + |userData|, db.metricSeq + |metricData|), Ok(()))
    else
      (db, Err(IntegrityError))
  }

  lemma UsersAppendValid(users: seq<User>, last: int, pairs: seq<(string, string)>)
    requires UsersValid(users, last)
    requires Append(users, NumberUsers(last, pairs), UserFits).Some?
    ensures UsersValid(users + NumberUsers(last, pairs), last + |pairs|)
  {
    var us := NumberUsers(last, pairs);
    AppendValid(users, us, UserFits);
    var all := users + us;
    forall i | 0 <= i < |all| ensures 1 <= all[i].id <= last + |pairs| {
      if i >= |users| { assert all[i] == us[i - |users|]; } else { assert all[i] == users[i]; }
    }
  }

  lemma MetricsAppendValid(metrics: seq<MetricRow>, last: int, pairs: seq<(string, string)>)
    requires MetricsValid(metrics, last)
    requires Append(metrics, NumberMetrics(last, pairs), MetricFits).Some?
    ensures MetricsValid(metrics + NumberMetrics(last, pairs), last + |pairs|)
  {
    var ms := NumberMetrics(last, pairs);
    AppendValid(metrics, ms, MetricFits);
    var all := metrics + ms;
    forall i | 0 <= i < |all| ensures 1 <= all[i].id <= last + |pairs| {
      if i >= |metrics| { assert all[i] == ms[i - |metrics|]; } else { assert all[i] == metrics[i]; }
    }
  }

  /** A committed batch keeps every constraint. */
  lemma InsertKeepsValid(db: Db, userData: seq<(string, string)>, metricData: seq<(string, string)>,
                         ratingData: seq<Rating>, authData: Option<Auth>)
    requires Valid(db)
    ensures Valid(InsertAllData(db, userData, metricData, ratingData, authData).0)
  {
    var r := InsertAllData(db, userData, metricData, ratingData, authData);
    if r.1.Ok? {
      UsersAppendValid(db.users, db.userSeq, userData);
      MetricsAppendValid(db.metrics, db.metricSeq, metricData);
      AppendValid(db.ratings, ratingData, RatingFits);
      AppendValid(db.auth, if authData.Some? then [authData.value] else [], AuthFits);
    }
  }

  /**
   * A rating batch is refused as a whole exactly when one of its rows has a
   * score outside 1..10 or repeats a (user, ratee, metric) key, of the table
   * or of an earlier row of the batch.
   */
  lemma RatingBatchRefused(db: Db, batch: seq<Rating>)
    ensures InsertAllData(db, [], [], batch, None).1.Err? <==>
      exists i :: 0 <= i < |batch| && (!ScoreOk(batch[i].score)
        || (exists j :: 0 <= j < |db.ratings| && RatingKey(db.ratings[j]) == RatingKey(batch[i]))
        || (exists j :: 0 <= j < i && RatingKey(batch[j]) == RatingKey(batch[i])))
    ensures InsertAllData(db, [], [], batch, None).1.Err? ==> InsertAllData(db, [], [], batch, None).0 == db
  {
    assert UserBatchFits(db, []) && MetricBatchFits(db, []) && AuthRowFits(db, None);
    forall i | 0 <= i < |batch|
      ensures RatingFits(db.ratings + batch[..i], batch[i]) <==>
        (ScoreOk(batch[i].score)
          && (forall j :: 0 <= j < |db.ratings| ==> RatingKey(db.ratings[j]) != RatingKey(batch[i]))
          && (forall j :: 0 <= j < i ==> RatingKey(batch[j]) != RatingKey(batch[i])))
    {
      var pre := db.ratings + batch[..i];
      assert forall j :: 0 <= j < |db.ratings| ==> pre[j] == db.ratings[j];
      assert forall j :: 0 <= j < i ==> pre[|db.ratings| + j] == batch[j];
    }
  }

  /** An accepted batch of metrics alone changes only the metrics table and its sequence. */
  lemma MetricsOnly(db: Db, metricData: seq<(string, string)>)
    ensures var (db', res) := InsertAllData(db, [], metricData, [], None);
      res.Ok? ==> db' == db.(metrics := db.metrics + NumberMetrics(db.metricSeq, metricData),
                             metricSeq := db.metricSeq + |metricData|)
  {
    assert db.users + NumberUsers(db.userSeq, []) == db.users;
    assert db.ratings + [] == db.ratings && db.auth + [] == db.auth;
  }

  /** An accepted batch of users alone changes only the users table and its sequence. */
  lemma UsersOnly(db: Db, userData: seq<(string, string)>)
    ensures var (db', res) := InsertAllData(db, userData, [], [], None);
      res.Ok? ==> db' == db.(users := db.users + NumberUsers(db.userSeq, userData),
                             userSeq := db.userSeq + |userData|)
  {
    assert db.metrics + NumberMetrics(db.metricSeq, []) == db.metrics;
    assert db.ratings + [] == db.ratings && db.auth + [] == db.auth;
  }

  /**
   * `delete_all_db_data`: every table emptied and `sqlite_sequence` cleared,
   * so ids start again from 1.
   */
  function DeleteAllData(db: Db): (r: Db)
    ensures |r.users| == 0 && |r.metrics| == 0 && |r.ratings| == 0 && |r.auth| == 0
    ensures r.userSeq == 0 && r.metricSeq == 0
    ensures Valid(r)
    ensures InsertAllData(r, [("n", "u")], [], [], None).0.users == [User(1, "u", "n")]
    ensures InsertAllData(r, [], [("t", "d")], [], None).0.metrics == [MetricRow(1, "t", "d")]
  {
    EmptyDb
  }

  // ---------------------------------------------------------------------------
  // Reading

  /** The `(key, id)` rows of `SELECT username, id FROM users`, in row order. */
  function UsernameRows(users: seq<User>): (ps: seq<(string, int)>)
    ensures |ps| == |users|
    ensures forall i :: 0 <= i < |users| ==> ps[i] == (users[i].username, users[i].id)
  {
    seq(|users|, i requires 0 <= i < |users| => (users[i].username, users[i].id))
  }

  function MetricNameRows(metrics: seq<MetricRow>): (ps: seq<(string, int)>)
    ensures |ps| == |metrics|
    ensures forall i :: 0 <= i < |metrics| ==> ps[i] == (metrics[i].name, metrics[i].id)
  {
    seq(|metrics|, i requires 0 <= i < |metrics| => (metrics[i].name, metrics[i].id))
  }

  /** `get_user_to_id_map`: `dict(rows)` of the username rows. */
  function GetUserToIdMap(db: Db): (m: map<string, int>)
    ensures m.Keys == Dicts.KeySet(UsernameRows(db.users))
  {
    Dicts.MapOf(UsernameRows(db.users))
  }

  /** `get_metric_to_id_map`: `dict(rows)` of the metric-name rows. */
  function GetMetricToIdMap(db: Db): (m: map<string, int>)
    ensures m.Keys == Dicts.KeySet(MetricNameRows(db.metrics))
  {
    Dicts.MapOf(MetricNameRows(db.metrics))
  }

  /** In a valid store the id map holds every user under its username. */
  lemma UserToIdExact(db: Db, i: int)
    requires UsersValid(db.users, db.userSeq) && 0 <= i < |db.users|
    ensures db.users[i].username in GetUserToIdMap(db)
    ensures GetUserToIdMap(db)[db.users[i].username] == db.users[i].id
  {
    var ps := UsernameRows(db.users);
    forall j | i < j < |ps| ensures ps[j].0 != ps[i].0 {
      assert db.users[..j][i] == db.users[i];
    }
    Dicts.MapOfLast(ps, i);
  }

  lemma MetricToIdExact(db: Db, i: int)
    requires MetricsValid(db.metrics, db.metricSeq) && 0 <= i < |db.metrics|
    ensures db.metrics[i].name in GetMetricToIdMap(db)
    ensures GetMetricToIdMap(db)[db.metrics[i].name] == db.metrics[i].id
  {
    var ps := MetricNameRows(db.metrics);
    forall j | i < j < |ps| ensures ps[j].0 != ps[i].0 {
      assert db.metrics[..j][i] == db.metrics[i];
    }
    Dicts.MapOfLast(ps, i);
  }

  /** The `(name, id)` pairs of the users with id `id`, in row order. */
  function UsersWithId(users: seq<User>, id: int): (ns: seq<string>)
    ensures forall n :: n in ns <==> exists i :: 0 <= i < |users| && users[i].id == id && users[i].name == n
  {
    if |users| == 0 then []
    else
      var rest := UsersWithId(users[1..], id);
      assert forall i :: 1 <= i < |users| ==> users[i] == users[1..][i - 1];
      if users[0].id == id then [users[0].name] + rest else rest
  }

  /** Auth row `i` joins user row `j` into the pair `p`. */
  predicate JoinedAt(auth: seq<Auth>, users: seq<User>, i: int, j: int, p: (string, string)) {
    0 <= i < |auth| && 0 <= j < |users| && users[j].id == auth[i].user && p == (users[j].name, auth[i].browser)
  }

  /**
   * `SELECT users.name, user_auth.browser_uuid FROM user_auth JOIN users`,
   * taken in `user_auth` row order.
   */
  function AuthJoin(auth: seq<Auth>, users: seq<User>): (ps: seq<(string, string)>)
    ensures forall p :: p in ps <==> (exists i, j :: JoinedAt(auth, users, i, j, p))
  {
    if |auth| == 0 then []
    else
      var a := auth[|auth| - 1];
      var init := AuthJoin(auth[..|auth| - 1], users);
      var names := UsersWithId(users, a.user);
      var last := seq(|names|, k requires 0 <= k < |names| => (names[k], a.browser));
      forall p: (string, string) | p in init
        ensures exists i, j :: JoinedAt(auth, users, i, j, p)
      {
        var i, j :| JoinedAt(auth[..|auth| - 1], users, i, j, p);
        assert JoinedAt(auth, users, i, j, p);
      }
      forall p: (string, string) | exists i, j :: JoinedAt(auth, users, i, j, p)
        ensures p in init + last
      {
        var i, j :| JoinedAt(auth, users, i, j, p);
        if i < |auth| - 1 {
          assert JoinedAt(auth[..|auth| - 1], users, i, j, p);
        } else {
          assert p.0 in names;
          var k :| 0 <= k < |names| && names[k] == p.0;
          assert last[k] == p;
        }
      }
      forall p: (string, string) | p in last
        ensures exists i, j :: JoinedAt(auth, users, i, j, p)
      {
        var k :| 0 <= k < |last| && last[k] == p;
        assert p.0 in names;
        var j :| 0 <= j < |users| && users[j].id == a.user && users[j].name == p.0;
        assert JoinedAt(auth, users, |auth| - 1, j, p);
      }
      init + last
  }

  /** A user named `n` has an auth row. */
  ghost predicate HasAuth(db: Db, n: string) {
    exists i, j :: 0 <= i < |db.auth| && JoinedAt(db.auth, db.users, i, j, (n, db.auth[i].browser))
  }

  /**
   * `get_initialized_user_requests`: each user name with an auth row, to the
   * browser of its first auth row; later ones are skipped.
   */
  function GetInitializedUserRequests(db: Db): (m: map<string, string>)
    ensures forall n :: n in m <==> HasAuth(db, n)
  {
    var rows := AuthJoin(db.auth, db.users);
    var m := Dicts.MapOf(Dicts.FirstWins(rows));
    forall n | n in Dicts.KeySet(rows) ensures HasAuth(db, n) {
      var k :| 0 <= k < |rows| && rows[k].0 == n;
      assert rows[k] in rows;
      var i, j :| JoinedAt(db.auth, db.users, i, j, rows[k]);
    }
    forall n | HasAuth(db, n) ensures n in Dicts.KeySet(rows) {
      var i, j :| 0 <= i < |db.auth| && JoinedAt(db.auth, db.users, i, j, (n, db.auth[i].browser));
      var p := (n, db.auth[i].browser);
      assert p in rows;
      var k :| 0 <= k < |rows| && rows[k] == p;
    }
    m
  }

  /** The browser kept for a name is that of the first joined row with the name. */
  lemma InitializedRequestIsFirst(db: Db, k: int)
    requires Dicts.FirstWithKey(AuthJoin(db.auth, db.users), k)
    ensures var p := AuthJoin(db.auth, db.users)[k];
      p.0 in GetInitializedUserRequests(db) && GetInitializedUserRequests(db)[p.0] == p.1
  {
    Dicts.FirstWinsValue(AuthJoin(db.auth, db.users), k);
  }
}
