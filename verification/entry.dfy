/**
 * The rating form of ui.py: which columns it shows and in which order, the
 * key of every input field, the value a field is restored with, the
 * validation of a typed score, the set of ratees whose fields hold errors,
 * and the gate in front of the confirmation dialog.
 */
module Entry {
  import opened Base
  import Dicts
  import Initials
  import Store
  import Reports
  import Identity

  // ---------------------------------------------------------------------------
  // Validation

  const FloatMessage := "Input should be a floating point"
  const RangeMessage := "Range should be 1 to 10"

  /**
   * `validate_input` on the value of a field; `asFloat` is Python's
   * `float()`, `None` where it raises `ValueError`. No message means the value
   * is accepted; both bounds are inclusive.
   */
  function ValidateInput(value: string, asFloat: string -> Option<real>): (msg: Option<string>)
    ensures msg.None? <==> (asFloat(value).Some? && 1.0 <= asFloat(value).value <= 10.0)
    ensures asFloat(value).None? ==> msg == Some(FloatMessage)
    ensures asFloat(value).Some? && !(1.0 <= asFloat(value).value <= 10.0) ==> msg == Some(RangeMessage)
  {
    match asFloat(value)
    case None => Some(FloatMessage)
    case Some(v) => if v < 1.0 || v > 10.0 then Some(RangeMessage) else None
  }

  // ---------------------------------------------------------------------------
  // Columns and field keys

  /** The value of the first item with key `k`: `d.get(k)` on a dict. */
  function Get(d: seq<(string, string)>, k: string): (r: Option<string>)
    ensures r.Some? <==> k in Dicts.KeySet(d)
    ensures r.Some? ==> exists i :: Dicts.FirstWithKey(d, i) && d[i] == (k, r.value)
  {
    if |d| == 0 then None
    else if d[0].0 == k then
      assert Dicts.FirstWithKey(d, 0);
      Some(d[0].1)
    else
      var r := Get(d[1..], k);
      assert forall i :: 0 <= i < |d| - 1 ==> d[1..][i] == d[i + 1];
      assert k in Dicts.KeySet(d) ==> k in Dicts.KeySet(d[1..]) by {
        if k in Dicts.KeySet(d) {
          var i :| 0 <= i < |d| && d[i].0 == k;
          assert d[1..][i - 1].0 == k;
        }
      }
      assert r.Some? ==> exists i :: Dicts.FirstWithKey(d, i) && d[i] == (k, r.value) by {
        if r.Some? {
          var i :| Dicts.FirstWithKey(d[1..], i) && d[1..][i] == (k, r.value);
          assert Dicts.FirstWithKey(d, i + 1);
        }
      }
      r
  }

  /** The shorthands of everybody but `reviewer`, in roster order. */
  function Others(roster: seq<(string, string)>, reviewer: string): (us: seq<string>)
    ensures |us| <= |roster|
  {
    if |roster| == 0 then []
    else if roster[0].0 == reviewer then Others(roster[1..], reviewer)
    else [roster[0].1] + Others(roster[1..], reviewer)
  }

  /**
   * The ratee of every column of the form (ui.py `create_metric_mapping`):
   * the others in roster order, then the reviewer's own shorthand last. A
   * reviewer outside the roster gets every shorthand. A reviewer whose
   * shorthand is empty (falsy) leaves one column without a ratee, which
   * raises `IndexError`.
   */
  function Columns(roster: seq<(string, string)>, reviewer: string): (cols: Option<seq<string>>)
    requires Dicts.DistinctKeys(roster)
    ensures cols.None? <==> Get(roster, reviewer) == Some("")
    ensures cols.Some? ==> |cols.value| == |roster|
    ensures cols.Some? ==> multiset(cols.value) == multiset(Reports.Values(roster))
    ensures Get(roster, reviewer).None? ==> cols == Some(Reports.Values(roster))
    ensures cols.Some? && Get(roster, reviewer).Some? ==>
      cols.value == Others(roster, reviewer) + [Get(roster, reviewer).value]
  {
    var self := Get(roster, reviewer);
    var others := Others(roster, reviewer);
    OthersAndSelf(roster, reviewer);
    if self.None? then
      Some(others)
    else if self.value == "" then None
    else
      Some(others + [self.value])
  }

  /**
   * Popping the reviewer's entry off the roster leaves the others with the
   * popped shorthand making up the whole list of shorthands.
   */
  lemma {:induction false} OthersAndSelf(roster: seq<(string, string)>, reviewer: string)
    requires Dicts.DistinctKeys(roster)
    ensures var self := Get(roster, reviewer);
      multiset(Others(roster, reviewer)) + (if self.Some? then multiset{self.value} else multiset{})
        == multiset(Reports.Values(roster))
    ensures Get(roster, reviewer).None? ==> Others(roster, reviewer) == Reports.Values(roster)
  {
    if |roster| > 0 {
      var rest := roster[1..];
      TailDistinct(roster);
      assert Reports.Values(roster) == [roster[0].1] + Reports.Values(rest);
      OthersAndSelf(rest, reviewer);
      if roster[0].0 == reviewer {
        assert Get(roster, reviewer) == Some(roster[0].1);
        assert Others(roster, reviewer) == Reports.Values(rest);
      } else {
        assert Get(roster, reviewer) == Get(rest, reviewer);
        assert Others(roster, reviewer) == [roster[0].1] + Others(rest, reviewer);
      }
    }
  }

  /** The tail of a roster with distinct keys has distinct keys, none of them the head's. */
  lemma TailDistinct(roster: seq<(string, string)>)
    requires Dicts.DistinctKeys(roster) && |roster| > 0
    ensures Dicts.DistinctKeys(roster[1..]) && roster[0].0 !in Dicts.KeySet(roster[1..])
  {
    var rest := roster[1..];
    forall i, j | 0 <= i < j < |rest| ensures rest[i].0 != rest[j].0 {
      assert rest[i] == roster[i + 1] && rest[j] == roster[j + 1];
    }
    forall i | 0 <= i < |rest| ensures rest[i].0 != roster[0].0 {
      assert rest[i] == roster[i + 1];
    }
  }

  /** `f"{user_name}_{metric_shorthand}"`: the key of one input field. */
  function FieldKey(user: string, metric: string): (key: string)
    ensures |key| == |user| + 1 + |metric|
    ensures key[..|user|] == user && key[|user|] == '_' && key[|user| + 1..] == metric
  {
    user + "_" + metric
  }

  /**
   * Two fields share a key only if they belong to the same ratee and metric,
   * given that no ratee shorthand holds `_`.
   */
  lemma FieldKeyInjective(u1: string, m1: string, u2: string, m2: string)
    requires '_' !in u1 && '_' !in u2
    requires FieldKey(u1, m1) == FieldKey(u2, m2)
    ensures u1 == u2 && m1 == m2
  {
    var key := FieldKey(u1, m1);
    if |u1| < |u2| {
      assert false;
    } else if |u2| < |u1| {
      assert false;
    }
  }

  // ---------------------------------------------------------------------------
  // Restoring and validating the fields

  /**
   * One reviewer's entry of `input_save`: the shorthands it has submitted
   * (`finalised`) and the field values persisted from its session.
   */
  datatype SaveVars = SaveVars(finalised: set<string>, values: map<string, string>)

  /**
   * The value a field is drawn with, and whether it is disabled: `*` and
   * disabled for a submitted ratee; otherwise empty for a key never saved,
   * the saved value after a refresh when there is one, and the session's
   * value (empty by default) in every other case.
   */
  function RestoreValue(save: SaveVars, session: map<string, string>, refreshed: Identity.Refresh,
                        user: string, key: string): (r: (string, bool))
    ensures r.1 <==> user in save.finalised
    ensures r.1 ==> r.0 == "*"
    ensures !r.1 && key !in save.values ==> r.0 == ""
    ensures !r.1 && key in save.values ==> r.0 in {save.values[key], if key in session then session[key] else ""}
    ensures !r.1 && key in save.values && refreshed == Identity.Refreshed && save.values[key] != "" ==> r.0 == save.values[key]
    ensures !r.1 && key in save.values && refreshed != Identity.Refreshed ==> r.0 == (if key in session then session[key] else "")
  {
    if user in save.finalised then ("*", true)
    else if key !in save.values then ("", false)
    else if refreshed == Identity.Refreshed && save.values[key] != "" then (save.values[key], false)
    else (if key in session then session[key] else "", false)
  }

  /** `reviewer_save_vars.update(st.session_state.to_dict())`: the session's values win. */
  function Persist(save: SaveVars, session: map<string, string>): (r: SaveVars)
    ensures r.finalised == save.finalised
    ensures r.values.Keys == save.values.Keys + session.Keys
    ensures forall k :: k in session ==> r.values[k] == session[k]
    ensures forall k :: k in save.values && k !in session ==> r.values[k] == save.values[k]
  {
    SaveVars(save.finalised, save.values + session)
  }

  /**
   * What the persistence buys: after a refresh (a new, empty session) a
   * field comes back with the non-empty value it held when last persisted,
   * and on an ordinary rerun it keeps the session's value.
   */
  lemma RestoreAfterPersist(save: SaveVars, session: map<string, string>, user: string, key: string)
    requires user !in save.finalised && key in session
    ensures session[key] != "" ==> RestoreValue(Persist(save, session), map[], Identity.Refreshed, user, key).0 == session[key]
    ensures RestoreValue(Persist(save, session), session, Identity.NotRefreshed, user, key).0 == session[key]
  {
  }

  /** A field value that draws an error: non-empty, not `*`, and refused by `validate_input`. */
  predicate Flagged(value: string, asFloat: string -> Option<real>) {
    value != "" && value != "*" && ValidateInput(value, asFloat).Some?
  }

  /** The value the field of `user` and metric `m` is drawn with. */
  function Shown(save: SaveVars, session: map<string, string>, refreshed: Identity.Refresh,
                 user: string, m: string): string {
    RestoreValue(save, session, refreshed, user, FieldKey(user, m)).0
  }

  /** The ratees with a field of some metric that draws an error. */
  function ErrorSet(cols: seq<string>, metrics: seq<string>, save: SaveVars, session: map<string, string>,
                    refreshed: Identity.Refresh, asFloat: string -> Option<real>): set<string> {
    set u | u in cols && exists m :: m in metrics && Flagged(Shown(save, session, refreshed, u, m), asFloat)
  }

  /** The ratees among `cols` whose field of metric `m` draws an error. */
  function RowErrors(cols: seq<string>, m: string, save: SaveVars, session: map<string, string>,
                     refreshed: Identity.Refresh, asFloat: string -> Option<real>): set<string> {
    set u | u in cols && Flagged(Shown(save, session, refreshed, u, m), asFloat)
  }

  /** One more column of a metric row adds that column's ratee exactly when its field draws an error. */
  lemma RowErrorsStep(cols: seq<string>, j: int, m: string, save: SaveVars, session: map<string, string>,
                      refreshed: Identity.Refresh, asFloat: string -> Option<real>)
    requires 0 <= j < |cols|
    ensures RowErrors(cols[..j + 1], m, save, session, refreshed, asFloat)
      == RowErrors(cols[..j], m, save, session, refreshed, asFloat)
         + (if Flagged(Shown(save, session, refreshed, cols[j], m), asFloat) then {cols[j]} else {})
  {
    assert cols[..j + 1] == cols[..j] + [cols[j]];
  }

  /** One more metric row adds the ratees flagged in that row. */
  lemma ErrorSetStep(cols: seq<string>, metrics: seq<string>, i: int, save: SaveVars, session: map<string, string>,
                     refreshed: Identity.Refresh, asFloat: string -> Option<real>)
    requires 0 <= i < |metrics|
    ensures ErrorSet(cols, metrics[..i + 1], save, session, refreshed, asFloat)
      == ErrorSet(cols, metrics[..i], save, session, refreshed, asFloat)
         + RowErrors(cols, metrics[i], save, session, refreshed, asFloat)
  {
    assert metrics[..i + 1] == metrics[..i] + [metrics[i]];
  }

  /** A submitted ratee's fields are drawn as `*` and never flagged. */
  lemma ErrorSetUnsubmitted(cols: seq<string>, metrics: seq<string>, save: SaveVars, session: map<string, string>,
                            refreshed: Identity.Refresh, asFloat: string -> Option<real>)
    ensures ErrorSet(cols, metrics, save, session, refreshed, asFloat) !! save.finalised
  {
  }

  /**
   * The error set `create_txt_entries` builds, metric row by metric row and
   * column by column: exactly the ratees with an erroneous field, and never a
   * submitted ratee, whose fields are drawn as `*` and not validated.
   */
  method CreateTxtEntries(cols: seq<string>, metrics: seq<string>, save: SaveVars, session: map<string, string>,
                          refreshed: Identity.Refresh, asFloat: string -> Option<real>) returns (errors: set<string>)
    ensures errors == ErrorSet(cols, metrics, save, session, refreshed, asFloat)
    ensures errors !! save.finalised
  {
    errors := {};
    for i := 0 to |metrics|
      invariant errors == ErrorSet(cols, metrics[..i], save, session, refreshed, asFloat)
    {
      var m := metrics[i];
      for j := 0 to |cols|
        invariant errors == ErrorSet(cols, metrics[..i], save, session, refreshed, asFloat)
          + RowErrors(cols[..j], m, save, session, refreshed, asFloat)
      {
        var u := cols[j];
        var (value, disabled) := RestoreValue(save, session, refreshed, u, FieldKey(u, m));
        if value != "" && value != "*" {
          var msg := ValidateInput(value, asFloat);
          if msg.Some? {
            errors := errors + {u};
          }
        }
        RowErrorsStep(cols, j, m, save, session, refreshed, asFloat);
      }
      assert cols[..|cols|] == cols;
      ErrorSetStep(cols, metrics, i, save, session, refreshed, asFloat);
    }
    assert metrics[..|metrics|] == metrics;
    ErrorSetUnsubmitted(cols, metrics, save, session, refreshed, asFloat);
  }

  // ---------------------------------------------------------------------------
  // The confirmation gate

  /** The three outcomes of `confirm_rating`. */
  datatype Gate = AlreadySubmitted | ResolveErrors | OpenDialog

  /** `KeyError`s of the lookups of the reviewer and of its saved inputs. */
  datatype EntryError = UnboundBrowser | NoSavedInputs | UnknownUser | UnknownRoster

  /**
   * `confirm_rating` for `ratee` from the browser `browser`: a ratee already
   * submitted is refused before the error set is consulted; one with errors
   * is refused next; otherwise the dialog opens.
   */
  function ConfirmRating(bindings: Identity.Bindings, saves: map<string, SaveVars>, browser: Identity.BrowserId,
                         ratee: string, errors: set<string>): (r: Result<Gate, EntryError>)
    ensures r.Ok? <==> (browser in bindings && bindings[browser] in saves)
    ensures r.Ok? ==> (r.value == AlreadySubmitted <==> ratee in saves[bindings[browser]].finalised)
    ensures r.Ok? ==> (r.value == OpenDialog <==> ratee !in saves[bindings[browser]].finalised && ratee !in errors)
  {
    if browser !in bindings then Err(UnboundBrowser)
    else if bindings[browser] !in saves then Err(NoSavedInputs)
    else if ratee in saves[bindings[browser]].finalised then Ok(AlreadySubmitted)
    else if ratee in errors then Ok(ResolveErrors)
    else Ok(OpenDialog)
  }

  /**
   * The saved inputs of a reviewer seen for the first time: a roster member
   * starts with the columns it has already submitted according to the store,
   * anybody else with none. An existing entry is kept.
   */
  function SeedInputSave(saves: map<string, SaveVars>, reviewer: string, roster: seq<(string, string)>,
                         userToId: map<string, int>, db: Store.Db): (r: Result<map<string, SaveVars>, EntryError>)
    ensures reviewer in saves ==> r == Ok(saves)
    ensures r.Ok? ==> reviewer in r.value && forall n :: n in saves ==> n in r.value && r.value[n] == saves[n]
    ensures r.Ok? ==> r.value.Keys == saves.Keys + {reviewer}
    ensures r.Ok? && reviewer !in saves ==> r.value[reviewer].values == map[]
    ensures r.Ok? && reviewer !in saves && reviewer in Dicts.KeySet(roster) ==>
      var sh := Dicts.MapOf(roster)[reviewer];
      sh in userToId && Reports.GetReviewersFinalisedCols(db, roster, userToId[sh]) == Some(r.value[reviewer].finalised)
    ensures reviewer !in saves && reviewer !in Dicts.KeySet(roster) ==> r == Ok(saves[reviewer := SaveVars({}, map[])])
  {
    if reviewer in saves then Ok(saves)
    else if reviewer in Dicts.KeySet(roster) then
      var sh := Dicts.MapOf(roster)[reviewer];
      if sh !in userToId then Err(UnknownUser)
      else
        match Reports.GetReviewersFinalisedCols(db, roster, userToId[sh])
        case None => Err(UnknownRoster)
        case Some(f) => Ok(saves[reviewer := SaveVars(f, map[])])
    else Ok(saves[reviewer := SaveVars({}, map[])])
  }

  /**
   * `get_all_metric_initials`: every metric title to its shorthand; a title
   * that `fetch_initials` rejects raises.
   */
  function AllMetricInitials(metrics: seq<string>): (r: Option<map<string, string>>)
    ensures r.Some? <==> forall i :: 0 <= i < |metrics| ==> Initials.FetchInitials(metrics[i]).Ok?
    ensures r.Some? ==> r.value.Keys == set i | 0 <= i < |metrics| :: metrics[i]
    ensures r.Some? ==> forall i :: 0 <= i < |metrics| ==> r.value[metrics[i]] == Initials.FetchInitials(metrics[i]).value
  {
    if forall i :: 0 <= i < |metrics| ==> Initials.FetchInitials(metrics[i]).Ok? then
      Some(map t | t in (set i | 0 <= i < |metrics| :: metrics[i]) :: Initials.FetchInitials(t).value)
    else None
  }
}
