/**
 * Start-up of init.py: the process-wide constant variables, the seeding of
 * a fresh store with the configured metrics and reviewers together with the
 * id maps derived from it, and the one-time check that either creates,
 * overwrites or resumes the store.
 */
module Init {
  import opened Base
  import Dicts
  import Initials
  import Config
  import ShippedMetrics
  import Store
  import Identity

  /**
   * A value of `st.const_vars`: one of the texts `'True'`, `'False'`, `''`
   * and `"{}"`, the `browser_reviewer` bindings, or the initialization
   * choices (kept as `str` of a dict and read back with `eval`, which is
   * the identity here).
   */
  datatype ConstValue =
    | Text(text: string)
    | BindingsValue(bindings: Identity.Bindings)
    | ChoicesValue(userIds: map<string, int>, metricIds: map<string, int>)

  type ConstVars = map<string, ConstValue>

  const DbVerified := "db_verified"
  const InitializedFromDb := "initialized_from_db"
  const BrowserReviewer := "browser_reviewer"
  const InitializationChoices := "initialization_choices"

  /** The hard-coded answer to the overwrite question. */
  const Accept := "y"

  /**
   * `initialize_const_vars`: `const_vars` is created empty when it does not
   * exist yet (`None`), then `setdefault(key, value)`.
   */
  function InitializeConstVars<V>(vars: Option<map<string, V>>, key: string, value: V): (r: map<string, V>)
    ensures r.Keys == (if vars.Some? then vars.value.Keys else {}) + {key}
    ensures vars.Some? ==> forall k :: k in vars.value ==> r[k] == vars.value[k]
    ensures vars.None? || key !in vars.value ==> r[key] == value
  {
    var current := if vars.Some? then vars.value else map[];
    if key in current then current else current[key := value]
  }

  /** A second initialization of any key, with any value, changes nothing. */
  lemma InitializeConstVarsSettles<V>(vars: Option<map<string, V>>, key: string, value: V, key': string, value': V)
    requires key' in InitializeConstVars(vars, key, value)
    ensures var r := InitializeConstVars(vars, key, value);
      InitializeConstVars(Some(r), key', value') == r
  {
  }

  /** `get_initialization_choices`: the two id maps, when the choices hold a dict that has them. */
  function GetInitializationChoices(vars: ConstVars): (r: Option<(map<string, int>, map<string, int>)>)
    ensures r.Some? <==> InitializationChoices in vars && vars[InitializationChoices].ChoicesValue?
    ensures r.Some? ==> vars[InitializationChoices] == ChoicesValue(r.value.0, r.value.1)
  {
    if InitializationChoices in vars && vars[InitializationChoices].ChoicesValue? then
      Some((vars[InitializationChoices].userIds, vars[InitializationChoices].metricIds))
    else None
  }

  // ---------------------------------------------------------------------------
  // The id maps

  /**
   * `{fetch_initials(k): v for k, v in items}`, before the dict is built:
   * each item's key replaced by its initials, in order; the first title
   * whose initials fail raises. The id maps take the initials function as a
   * parameter, `fetch_initials` at every use, so that what is proved about
   * them holds for any title-to-shorthand function.
   */
  function ShorthandItems(items: seq<(string, int)>, initials: string -> Result<string, Initials.InitialsError>): (r: Result<seq<(string, int)>, Initials.InitialsError>)
    ensures r.Ok? <==> forall i :: 0 <= i < |items| ==> initials(items[i].0).Ok?
    ensures r.Ok? ==> |r.value| == |items| && forall i :: 0 <= i < |items| ==>
      r.value[i] == (initials(items[i].0).value, items[i].1)
  {
    if |items| == 0 then Ok([])
    else
      match initials(items[0].0)
      case Err(e) => Err(e)
      case Ok(s) =>
        var rest := ShorthandItems(items[1..], initials);
        assert forall i :: 1 <= i < |items| ==> items[1..][i - 1] == items[i];
        if rest.Err? then rest else Ok([(s, items[0].1)] + rest.value)
  }

  /**
   * `metric_id_mapping`: metric shorthand to metric id, over the items of
   * `get_metric_to_id_map()`; among titles with the same initials the later
   * one wins.
   */
  function MetricIdMapping(db: Store.Db, initials: string -> Result<string, Initials.InitialsError>): (r: Result<map<string, int>, Initials.InitialsError>)
    ensures var items := Dicts.DictOf(Store.MetricNameRows(db.metrics));
      && (r.Ok? <==> ShorthandItems(items, initials).Ok?)
      && (r.Ok? ==> r.value.Keys == Dicts.KeySet(ShorthandItems(items, initials).value))
    ensures var items := Dicts.DictOf(Store.MetricNameRows(db.metrics));
      r.Ok? ==> forall i :: LastWithInitials(items, initials, i) ==>
        r.value[initials(items[i].0).value] == items[i].1
  {
    var items := Dicts.DictOf(Store.MetricNameRows(db.metrics));
    match ShorthandItems(items, initials)
    case Err(e) => Err(e)
    case Ok(s) =>
      forall i | LastWithInitials(items, initials, i)
        ensures s[i].0 in Dicts.MapOf(s) && Dicts.MapOf(s)[s[i].0] == s[i].1
      {
        assert Dicts.LastWithKey(s, i);
        Dicts.MapOfLast(s, i);
      }
      Ok(Dicts.MapOf(s))
  }

  /** Item `i` is the last of `items` whose title has its initials. */
  predicate LastWithInitials(items: seq<(string, int)>, initials: string -> Result<string, Initials.InitialsError>, i: int) {
    && 0 <= i < |items| && initials(items[i].0).Ok?
    && forall j :: i < j < |items| ==> initials(items[j].0) != initials(items[i].0)
  }

  /**
   * The mapping has one entry per metric item exactly when no two titles
   * share their initials; otherwise entries are lost.
   */
  lemma MetricIdMappingSize(items: seq<(string, int)>, initials: string -> Result<string, Initials.InitialsError>)
    requires ShorthandItems(items, initials).Ok?
    ensures |Dicts.MapOf(ShorthandItems(items, initials).value)| <= |items|
    ensures |Dicts.MapOf(ShorthandItems(items, initials).value)| == |items| <==>
      forall i, j :: 0 <= i < j < |items| ==> initials(items[i].0) != initials(items[j].0)
  {
    var s := ShorthandItems(items, initials).value;
    Dicts.KeyCount(s);
    assert |Dicts.MapOf(s)| == |Dicts.MapOf(s).Keys|;
    assert Dicts.DistinctKeys(s) <==> forall i, j :: 0 <= i < j < |items| ==> initials(items[i].0) != initials(items[j].0);
  }

  // ---------------------------------------------------------------------------
  // Seeding

  datatype InitError = Integrity | Initials(error: Initials.InitialsError)

  type InitialsFn = string -> Result<string, Initials.InitialsError>

  /** The store after the metric batch of the seeding was committed. */
  function MetricsSeeded(db: Store.Db, metricData: seq<(string, string)>): Store.Db {
    db.(metrics := db.metrics + Store.NumberMetrics(db.metricSeq, metricData), metricSeq := db.metricSeq + |metricData|)
  }

  /** The store after the user batch of the seeding was committed. */
  function UsersSeeded(db: Store.Db, userData: seq<(string, string)>): Store.Db {
    db.(users := db.users + Store.NumberUsers(db.userSeq, userData), userSeq := db.userSeq + |userData|)
  }

  /**
   * The store side of `insert_into_db`, with the configuration as
   * parameters: the metrics and then the users are inserted in two separate
   * batches, and the result is the choices holding the username and
   * shorthand id maps of the store. Each batch commits on its own, so a
   * refused user batch leaves the metrics written, and a title without
   * initials leaves both batches written.
   */
  function SeedStore(db: Store.Db, metricData: seq<(string, string)>, userData: seq<(string, string)>,
                     initials: InitialsFn): (r: (Store.Db, Result<(map<string, int>, map<string, int>), InitError>))
    ensures r.1.Ok? ==>
      && r.0.metrics == db.metrics + Store.NumberMetrics(db.metricSeq, metricData)
      && r.0.users == db.users + Store.NumberUsers(db.userSeq, userData)
      && r.0.ratings == db.ratings && r.0.auth == db.auth
      && MetricIdMapping(r.0, initials).Ok?
      && r.1.value == (Store.GetUserToIdMap(r.0), MetricIdMapping(r.0, initials).value)
    ensures r.1 == Err(Integrity) ==> r.0 == db || r.0 == MetricsSeeded(db, metricData)
    ensures r.1.Err? && r.1.error.Initials? ==>
      && r.0 == UsersSeeded(MetricsSeeded(db, metricData), userData)
      && MetricIdMapping(r.0, initials) == Err(r.1.error.error)
  {
    var (db1, res1) := Store.InsertAllData(db, [], metricData, [], None);
    if res1.Err? then (db1, Err(Integrity))
    else
      Store.MetricsOnly(db, metricData);
      var (db2, res2) := Store.InsertAllData(db1, userData, [], [], None);
      if res2.Err? then (db2, Err(Integrity))
      else
        Store.UsersOnly(db1, userData);
        match MetricIdMapping(db2, initials)
        case Err(e) => (db2, Err(Initials(e)))
        case Ok(metricIds) => (db2, Ok((Store.GetUserToIdMap(db2), metricIds)))
  }

  /**
   * `insert_into_db`: the choices are cleared while the store is seeded, and
   * hold the id maps once it is.
   */
  function Seed(vars: ConstVars, db: Store.Db, metricData: seq<(string, string)>, userData: seq<(string, string)>,
                initials: InitialsFn): (r: (ConstVars, Store.Db, Result<(), InitError>))
    ensures InitializationChoices in r.0
    ensures forall k :: k in vars && k != InitializationChoices ==> k in r.0 && r.0[k] == vars[k]
    ensures r.2.Ok? <==> r.0[InitializationChoices].ChoicesValue?
    ensures r.2.Err? ==> r.0[InitializationChoices] == Text("")
    ensures var (db', res) := SeedStore(db, metricData, userData, initials);
      && r.1 == db' && (r.2.Ok? <==> res.Ok?)
      && (res.Ok? ==> r.0[InitializationChoices] == ChoicesValue(res.value.0, res.value.1))
      && (r.2.Err? ==> r.2.error == res.error)
  {
    var (db', res) := SeedStore(db, metricData, userData, initials);
    if res.Ok? then (vars[InitializationChoices := ChoicesValue(res.value.0, res.value.1)], db', Ok(()))
    else (vars[InitializationChoices := Text("")], db', Err(res.error))
  }

  /** `insert_into_db`: the seeding with the configured metrics and roster. */
  function InsertIntoDb(vars: ConstVars, db: Store.Db): (r: (ConstVars, Store.Db, Result<(), InitError>))
    ensures InitializationChoices in r.0
    ensures forall k :: k in vars && k != InitializationChoices ==> k in r.0 && r.0[k] == vars[k]
    ensures r.2.Err? ==> r.0[InitializationChoices] == Text("")
    ensures r.2.Ok? ==>
      && r.1.metrics == db.metrics + Store.NumberMetrics(db.metricSeq, Config.MetricDescriptive)
      && r.1.users == db.users + Store.NumberUsers(db.userSeq, Config.ReviewersShorthand)
      && r.1.ratings == db.ratings && r.1.auth == db.auth
      && MetricIdMapping(r.1, Initials.FetchInitials).Ok?
      && r.0[InitializationChoices]
         == ChoicesValue(Store.GetUserToIdMap(r.1), MetricIdMapping(r.1, Initials.FetchInitials).value)
    ensures r.2 == Err(Integrity) ==> r.1 == db || r.1 == MetricsSeeded(db, Config.MetricDescriptive)
    ensures r.2.Err? && r.2.error.Initials? ==>
      r.1 == UsersSeeded(MetricsSeeded(db, Config.MetricDescriptive), Config.ReviewersShorthand)
  {
    Seed(vars, db, Config.MetricDescriptive, Config.ReviewersShorthand, Initials.FetchInitials)
  }

  /** Every title has initials, and no two titles share them. */
  predicate InitialsUnique(metricData: seq<(string, string)>, initials: InitialsFn) {
    && (forall i :: 0 <= i < |metricData| ==> initials(metricData[i].0).Ok?)
    && (forall i, j :: 0 <= i < j < |metricData| ==> initials(metricData[i].0) != initials(metricData[j].0))
  }

  /** Titles with distinct initials are distinct titles. */
  lemma TitlesDistinct(metricData: seq<(string, string)>, initials: InitialsFn)
    requires InitialsUnique(metricData, initials)
    ensures Dicts.DistinctKeys(metricData)
  {
    forall i, j | 0 <= i < j < |metricData| ensures metricData[i].0 != metricData[j].0 {
      assert initials(metricData[i].0) != initials(metricData[j].0);
    }
  }

  /** Both batches of a seeding of the empty store are accepted. */
  lemma SeedBatchesFit(metricData: seq<(string, string)>, userData: seq<(string, string)>)
    requires Dicts.DistinctKeys(metricData) && Dicts.DistinctKeys(userData) && Dicts.DistinctValues(userData)
    ensures Store.InsertAllData(Store.EmptyDb, [], metricData, [], None).1.Ok?
    ensures var db1 := Store.InsertAllData(Store.EmptyDb, [], metricData, [], None).0;
      Store.InsertAllData(db1, userData, [], [], None).1.Ok?
  {
    var ms := Store.NumberMetrics(0, metricData);
    forall i | 0 <= i < |ms| ensures Store.MetricFits(Store.EmptyDb.metrics + ms[..i], ms[i]) {
      forall j | 0 <= j < i ensures ms[j].id != ms[i].id && ms[j].name != ms[i].name {
        assert metricData[j].0 != metricData[i].0;
      }
    }
    assert Store.UserBatchFits(Store.EmptyDb, []) && Store.RatingBatchFits(Store.EmptyDb, []) && Store.AuthRowFits(Store.EmptyDb, None);
    var db1 := Store.InsertAllData(Store.EmptyDb, [], metricData, [], None).0;
    var us := Store.NumberUsers(0, userData);
    forall i | 0 <= i < |us| ensures Store.UserFits(db1.users + us[..i], us[i]) {
      forall j | 0 <= j < i ensures us[j].id != us[i].id && us[j].username != us[i].username && us[j].name != us[i].name {
        assert userData[j].0 != userData[i].0 && userData[j].1 != userData[i].1;
      }
    }
    assert Store.MetricBatchFits(db1, []) && Store.RatingBatchFits(db1, []) && Store.AuthRowFits(db1, None);
  }

  /** The username map of users numbered from 1 in roster order. */
  lemma SeedUserIds(db: Store.Db, userData: seq<(string, string)>)
    requires Dicts.DistinctValues(userData) && db.users == Store.NumberUsers(0, userData)
    ensures |Store.GetUserToIdMap(db)| == |userData|
    ensures forall i :: 0 <= i < |userData| ==>
      userData[i].1 in Store.GetUserToIdMap(db) && Store.GetUserToIdMap(db)[userData[i].1] == i + 1
  {
    var rows := Store.UsernameRows(db.users);
    assert Dicts.DistinctKeys(rows) by {
      forall i, j | 0 <= i < j < |rows| ensures rows[i].0 != rows[j].0 {
        assert userData[i].1 != userData[j].1;
      }
    }
    Dicts.KeyCount(rows);
    assert |Store.GetUserToIdMap(db)| == |Store.GetUserToIdMap(db).Keys|;
    forall i | 0 <= i < |userData|
      ensures userData[i].1 in Store.GetUserToIdMap(db) && Store.GetUserToIdMap(db)[userData[i].1] == i + 1
    {
      Dicts.MapOfDistinct(rows, i);
    }
  }

  /** The shorthand map of metrics numbered from 1 with unique initials. */
  lemma SeedMetricIds(db: Store.Db, metricData: seq<(string, string)>, initials: InitialsFn)
    requires db.metrics == Store.NumberMetrics(0, metricData) && InitialsUnique(metricData, initials)
    ensures MetricIdMapping(db, initials).Ok?
    ensures |MetricIdMapping(db, initials).value| == |metricData|
    ensures forall i :: 0 <= i < |metricData| ==>
      var m := MetricIdMapping(db, initials).value;
      initials(metricData[i].0).value in m && m[initials(metricData[i].0).value] == i + 1
  {
    var rows := Store.MetricNameRows(db.metrics);
    TitlesDistinct(metricData, initials);
    assert Dicts.DistinctKeys(rows) by {
      forall i, j | 0 <= i < j < |rows| ensures rows[i].0 != rows[j].0 {
        assert metricData[i].0 != metricData[j].0;
      }
    }
    Dicts.DictOfDistinct(rows);
    var s := ShorthandItems(rows, initials).value;
    MetricIdMappingSize(rows, initials);
    assert Dicts.DistinctKeys(s) by {
      forall a, b | 0 <= a < b < |s| ensures s[a].0 != s[b].0 {
        assert initials(metricData[a].0) != initials(metricData[b].0);
      }
    }
    forall i | 0 <= i < |metricData|
      ensures var m := MetricIdMapping(db, initials).value;
        initials(metricData[i].0).value in m && m[initials(metricData[i].0).value] == i + 1
    {
      Dicts.MapOfDistinct(s, i);
    }
  }

  /**
   * The id maps of a store seeded with `metricData` and `userData`: every
   * username and every title's initials map to the position counted from 1,
   * and nothing else is in them.
   */
  predicate IdsNumbered(metricData: seq<(string, string)>, userData: seq<(string, string)>, initials: InitialsFn,
                        userIds: map<string, int>, metricIds: map<string, int>) {
    && |userIds| == |userData| && |metricIds| == |metricData|
    && (forall i :: 0 <= i < |userData| ==> userData[i].1 in userIds && userIds[userData[i].1] == i + 1)
    && (forall i :: 0 <= i < |metricData| ==>
          initials(metricData[i].0).Ok?
          && initials(metricData[i].0).value in metricIds && metricIds[initials(metricData[i].0).value] == i + 1)
  }

  /**
   * Seeding the empty store succeeds, numbers metrics and users from 1 in
   * configuration order, and the choices map every username and every
   * metric's initials to that number, with nothing else in them.
   */
  lemma SeedEmptyStore(metricData: seq<(string, string)>, userData: seq<(string, string)>, initials: InitialsFn)
    requires InitialsUnique(metricData, initials) && Dicts.DistinctKeys(userData) && Dicts.DistinctValues(userData)
    ensures var (db, res) := SeedStore(Store.EmptyDb, metricData, userData, initials);
      && res.Ok?
      && db.metrics == Store.NumberMetrics(0, metricData)
      && db.users == Store.NumberUsers(0, userData)
      && IdsNumbered(metricData, userData, initials, res.value.0, res.value.1)
  {
    TitlesDistinct(metricData, initials);
    SeedBatchesFit(metricData, userData);
    var db1 := Store.InsertAllData(Store.EmptyDb, [], metricData, [], None).0;
    var db2 := Store.InsertAllData(db1, userData, [], [], None).0;
    assert db2.metrics == Store.NumberMetrics(0, metricData);
    assert db2.users == Store.NumberUsers(0, userData);
    SeedUserIds(db2, userData);
    SeedMetricIds(db2, metricData, initials);
  }

  /** The shipped configuration has unique initials, names and usernames. */
  lemma ShippedSeedable()
    ensures InitialsUnique(Config.MetricDescriptive, Initials.FetchInitials)
    ensures Dicts.DistinctKeys(Config.ReviewersShorthand) && Dicts.DistinctValues(Config.ReviewersShorthand)
  {
    ShippedMetrics.ShippedShorthandsDistinct();
    Config.ShippedRosterUnique();
    var titles := Config.Metric;
    assert forall i :: 0 <= i < |Config.MetricDescriptive| ==> Config.MetricDescriptive[i].0 == titles[i];
  }

  /** Seeding the empty store with the shipped configuration succeeds. */
  lemma ShippedSeedSucceeds(vars: ConstVars)
    ensures InsertIntoDb(vars, Store.EmptyDb).2.Ok?
  {
    ShippedSeedable();
    SeedEmptyStore(Config.MetricDescriptive, Config.ReviewersShorthand, Initials.FetchInitials);
  }

  /**
   * Seeding the empty store with the shipped configuration gives ten
   * metrics and eight reviewers, and maps each shipped shorthand to its
   * position in the metric list, counted from 1.
   */
  lemma ShippedSeed(vars: ConstVars)
    ensures var (vars', db, res) := InsertIntoDb(vars, Store.EmptyDb);
      && res.Ok? && |db.metrics| == 10 && |db.users| == 8
      && var choices := vars'[InitializationChoices];
      && |choices.metricIds| == 10
      && forall i :: 0 <= i < 10 ==>
           ShippedMetrics.Shorthands[i] in choices.metricIds && choices.metricIds[ShippedMetrics.Shorthands[i]] == i + 1
  {
    ShippedSeedable();
    ShippedMetrics.MetricCount();
    SeedEmptyStore(Config.MetricDescriptive, Config.ReviewersShorthand, Initials.FetchInitials);
    var titles := Config.Metric;
    forall i | 0 <= i < 10 ensures Initials.FetchInitials(Config.MetricDescriptive[i].0).value == ShippedMetrics.Shorthands[i] {
      assert Config.MetricDescriptive[i].0 == titles[i];
      ShippedMetrics.ShippedMetricShorthand(i);
    }
  }

  // ---------------------------------------------------------------------------
  // The start-up check

  /** What the process holds across runs: the constant variables, the access info and the store, `None` when its file is missing. */
  datatype Startup = Startup(vars: ConstVars, access: Option<Identity.AccessInfo>, db: Option<Store.Db>)

  datatype Outcome = AlreadyVerified | Created | Overwritten | Resumed | Stopped

  /** `st.const_vars.get('db_verified', 'False') == 'True'`. */
  predicate Verified(vars: ConstVars) {
    DbVerified in vars && vars[DbVerified] == Text("True")
  }

  /** The reset that precedes the answer to the overwrite question. */
  function ResetVars(vars: ConstVars): ConstVars {
    vars[InitializedFromDb := Text("False")][BrowserReviewer := BindingsValue(map[])][InitializationChoices := Text("{}")]
  }

  /** The `(name, browser)` items of `get_initialized_user_requests()`, in dict order. */
  function RequestItems(db: Store.Db): (items: seq<(string, string)>)
    ensures Dicts.DistinctKeys(items)
    ensures Dicts.MapOf(items) == Store.GetInitializedUserRequests(db)
  {
    Dicts.FirstWins(Store.AuthJoin(db.auth, db.users))
  }

  /** `{k: {v: set()} for k, v in requests.items()}`. */
  function ResumedAccess(requests: map<string, string>): (access: Identity.AccessInfo)
    ensures access.Keys == requests.Keys
    ensures forall n :: n in requests ==> access[n] == map[requests[n] := {}]
  {
    map n | n in requests :: map[requests[n] := {}]
  }

  /**
   * The maps a resume rebuilds agree with the store's first browser per
   * name: every name with an auth row has exactly that browser with no
   * refresh ids, every such browser is bound, and a bound browser's name is
   * one whose first browser it is.
   */
  predicate ResumedMaps(requests: map<string, string>, access: Identity.AccessInfo, bindings: Identity.Bindings) {
    && access.Keys == requests.Keys
    && (forall n :: n in requests ==> access[n] == map[requests[n] := {}] && requests[n] in bindings)
    && (forall b :: b in bindings ==> bindings[b] in requests && requests[bindings[b]] == b)
  }

  /** Inverting the first-browser items and seeding the access info from them gives agreeing maps. */
  lemma ResumedMapsAgree(db: Store.Db)
    ensures var items := RequestItems(db);
      ResumedMaps(Store.GetInitializedUserRequests(db), ResumedAccess(Dicts.MapOf(items)), Dicts.Invert(items))
  {
    var items := RequestItems(db);
    var bindings := Dicts.Invert(items);
    forall n | n in Dicts.MapOf(items) ensures Dicts.MapOf(items)[n] in bindings {
      var i := Dicts.MapOfSource(items, n);
    }
    forall b | b in bindings ensures bindings[b] in Dicts.MapOf(items) && Dicts.MapOf(items)[bindings[b]] == b {
      var i := Dicts.InvertSource(items, b);
      Dicts.MapOfDistinct(items, i);
    }
  }

  /**
   * The resume branch: both id maps rebuilt from the store, every name with
   * an auth row given its first browser with no refresh ids, and
   * `browser_reviewer` the inversion of that name-to-browser dict. A title
   * without initials raises, and nothing is set.
   */
  function Resume(vars: ConstVars, db: Store.Db, initials: InitialsFn): (r: (ConstVars, Identity.AccessInfo, Result<Outcome, InitError>))
    ensures r.2.Ok? <==> MetricIdMapping(db, initials).Ok?
    ensures r.2.Err? ==> r.0 == vars && r.1 == map[]
    ensures r.2.Ok? ==>
      && r.2.value == Resumed
      && InitializationChoices in r.0 && InitializedFromDb in r.0 && BrowserReviewer in r.0
      && r.0[InitializationChoices] == ChoicesValue(Store.GetUserToIdMap(db), MetricIdMapping(db, initials).value)
      && r.0[InitializedFromDb] == Text("True")
      && r.0[BrowserReviewer].BindingsValue?
      && ResumedMaps(Store.GetInitializedUserRequests(db), r.1, r.0[BrowserReviewer].bindings)
  {
    match MetricIdMapping(db, initials)
    case Err(e) => (vars, map[], Err(Initials(e)))
    case Ok(metricIds) =>
      var vars1 := vars[InitializationChoices := ChoicesValue(Store.GetUserToIdMap(db), metricIds)];
      var items := RequestItems(db);
      ResumedMapsAgree(db);
      var access := ResumedAccess(Dicts.MapOf(items));
      (vars1[BrowserReviewer := BindingsValue(Dicts.Invert(items))][InitializedFromDb := Text("True")], access, Ok(Resumed))
  }

  /**
   * `initiated_request_verif` with the answer `accept`. Unless already
   * verified, the access info is emptied; a missing store is created and
   * seeded; an existing one is reset and then overwritten ('y'/'Y'),
   * resumed ('n'/'N') or left with a stop. `db_verified` becomes 'True' on
   * every path, failures included.
   */
  function InitiatedRequestVerif(s: Startup, accept: string): (r: (Startup, Result<Outcome, InitError>))
    ensures Verified(r.0.vars)
    ensures Verified(s.vars) ==> r == (s, Ok(AlreadyVerified))
    ensures !Verified(s.vars) ==> r.0.db.Some? && r.0.access.Some?
    ensures !Verified(s.vars) && r.1.Ok? ==> r.1.value != AlreadyVerified
    ensures r.1 == Ok(Stopped) <==> !Verified(s.vars) && s.db.Some? && accept !in ["y", "Y", "n", "N"]
    ensures r.1 == Ok(Stopped) ==> r.0.db == s.db && r.0.access == Some(map[])
    ensures !Verified(s.vars) && s.db.None? ==>
      var (vars, db, res) := InsertIntoDb(s.vars, Store.EmptyDb);
      && r.0 == Startup(vars[DbVerified := Text("True")], Some(map[]), Some(db))
      && r.1 == (if res.Ok? then Ok(Created) else Err(res.error))
    ensures !Verified(s.vars) && s.db.Some? && accept in ["y", "Y"] ==>
      var (vars, db, res) := InsertIntoDb(ResetVars(s.vars), Store.DeleteAllData(s.db.value));
      && r.0 == Startup(vars[DbVerified := Text("True")], Some(map[]), Some(db))
      && r.1 == (if res.Ok? then Ok(Overwritten) else Err(res.error))
  {
    if Verified(s.vars) then (s, Ok(AlreadyVerified))
    else
      var access: Identity.AccessInfo := map[];
      if s.db.None? then
        var (vars, db, res) := InsertIntoDb(s.vars, Store.EmptyDb);
        (Startup(vars[DbVerified := Text("True")], Some(access), Some(db)), if res.Ok? then Ok(Created) else Err(res.error))
      else
        var vars := ResetVars(s.vars);
        if accept in ["y", "Y"] then
          var (vars1, db, res) := InsertIntoDb(vars, Store.DeleteAllData(s.db.value));
          (Startup(vars1[DbVerified := Text("True")], Some(access), Some(db)), if res.Ok? then Ok(Overwritten) else Err(res.error))
        else if accept in ["n", "N"] then
          var (vars1, access1, res) := Resume(vars, s.db.value, Initials.FetchInitials);
          (Startup(vars1[DbVerified := Text("True")], Some(access1), s.db), res)
        else
          (Startup(vars[DbVerified := Text("True")], Some(access), s.db), Ok(Stopped))
  }

  /**
   * Answering 'n' or 'N' over an existing store resumes it: the store is
   * kept, and the choices, bindings and access info are those `Resume`
   * rebuilds from it, with `db_verified` set.
   */
  lemma ResumeBranch(s: Startup, accept: string)
    requires !Verified(s.vars) && s.db.Some? && accept in ["n", "N"]
    ensures var r := InitiatedRequestVerif(s, accept);
      var resumed := Resume(ResetVars(s.vars), s.db.value, Initials.FetchInitials);
      && r.0 == Startup(resumed.0[DbVerified := Text("True")], Some(resumed.1), s.db)
      && r.1 == resumed.2
  {
    assert accept !in ["y", "Y"];
  }

  /** A second start-up check does nothing, whatever the first one did and whatever the answer. */
  lemma VerifiedOnce(s: Startup, accept: string, accept': string)
    ensures var after := InitiatedRequestVerif(s, accept).0;
      InitiatedRequestVerif(after, accept') == (after, Ok(AlreadyVerified))
  {
  }

  /**
   * With the hard-coded answer, an existing store is always wiped: the
   * check ends with exactly the store, choices and access info it would
   * have produced had there been no store at all, and no browser bound.
   */
  lemma ExistingStoreWiped(s: Startup)
    requires !Verified(s.vars) && s.db.Some?
    ensures var r := InitiatedRequestVerif(s, Accept);
      var seeded := InitiatedRequestVerif(s.(db := None), Accept);
      && r.0.db == seeded.0.db && r.0.access == seeded.0.access
      && r.0.vars[InitializationChoices] == seeded.0.vars[InitializationChoices]
      && r.0.vars[BrowserReviewer] == BindingsValue(map[])
      && r.0.vars[InitializedFromDb] == Text("False")
      && (r.1.Ok? <==> seeded.1.Ok?)
  {
    assert Store.DeleteAllData(s.db.value) == Store.EmptyDb;
    var reset := ResetVars(s.vars);
    assert reset[BrowserReviewer] == BindingsValue(map[]) && reset[InitializedFromDb] == Text("False");
    assert BrowserReviewer != InitializationChoices && InitializedFromDb != InitializationChoices;
    assert BrowserReviewer != DbVerified && InitializedFromDb != DbVerified && InitializationChoices != DbVerified;
  }

  /**
   * On a machine without a store, the shipped start-up creates it and seeds
   * it, and the choices are those of the seeding (see `ShippedSeed`).
   */
  lemma MissingStoreSeeded(s: Startup, accept: string)
    requires !Verified(s.vars) && s.db.None?
    ensures var r := InitiatedRequestVerif(s, accept);
      && r.1 == Ok(Created)
      && r.0.db == Some(InsertIntoDb(s.vars, Store.EmptyDb).1)
      && r.0.vars[InitializationChoices] == InsertIntoDb(s.vars, Store.EmptyDb).0[InitializationChoices]
  {
    ShippedSeedSucceeds(s.vars);
  }

  // ---------------------------------------------------------------------------
  // Resuming

  /** The resumed bindings never give one name two browsers. */
  lemma ResumedBindingsInjective(vars: ConstVars, db: Store.Db, initials: InitialsFn)
    requires MetricIdMapping(db, initials).Ok?
    ensures var vars' := Resume(vars, db, initials).0;
      vars'[BrowserReviewer].BindingsValue? && Identity.Injective(vars'[BrowserReviewer].bindings)
  {
  }

  /**
   * The first page load of a resumed browser counts as a refresh: its name
   * has a record that knows the browser, but not the new refresh id.
   */
  lemma ResumedBrowserRefreshes(vars: ConstVars, db: Store.Db, initials: InitialsFn,
                                browser: Identity.BrowserId, refresh: Identity.RefreshId)
    requires MetricIdMapping(db, initials).Ok?
    requires var vars' := Resume(vars, db, initials).0;
      vars'[BrowserReviewer].BindingsValue? && browser in vars'[BrowserReviewer].bindings
    ensures var (vars', access, _) := Resume(vars, db, initials);
      var r := Identity.PageHasRefreshed(vars'[BrowserReviewer].bindings, Some(access), browser, refresh);
      r.Ok? && r.value.0 == Identity.Refreshed
  {
    var r := Resume(vars, db, initials);
    Identity.BlankRecordRefreshes(r.0[BrowserReviewer].bindings, r.1, browser, refresh);
  }
}
