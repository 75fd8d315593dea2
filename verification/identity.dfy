/**
 * Who is at the keyboard: the browser-to-reviewer bindings made by
 * `store_selection` (metric_review.py), and the refresh detection of
 * `page_has_refreshed` (metric_utils.py), which keeps, per reviewer, the
 * browsers seen and the websocket keys each has used.
 */
module Identity {
  import opened Base

  /** The `ajs_anonymous_id` cookie: stable for one browser profile. */
  type BrowserId = string
  /** The `Sec-Websocket-Key` header: new on every page load. */
  type RefreshId = string

  /** `browser_reviewer`: browser to the reviewer name chosen in it. */
  type Bindings = map<BrowserId, string>
  /** One reviewer's entry of `browser_access_info`: browser to the refresh ids it has used. */
  type AccessRecord = map<BrowserId, set<RefreshId>>
  /** `browser_access_info`: reviewer name to access record. */
  type AccessInfo = map<string, AccessRecord>

  /** The request as far as identification reads it. */
  datatype Request = Request(cookies: map<string, string>, headers: map<string, string>)

  datatype IdentityError =
    | PrivateWindow          // the browser cookie is missing: a private tab needs one reload
    | MissingWebsocketKey    // the header lookup raises `KeyError`
    | UnboundBrowser(browser: BrowserId)
    | NoAccessRecord(reviewer: string)

  const BrowserCookie := "ajs_anonymous_id"
  const RefreshHeader := "Sec-Websocket-Key"

  /** `get_refresh_browser_ids`: the browser id and the refresh id of a request. */
  function GetRefreshBrowserIds(req: Request): (r: Result<(BrowserId, RefreshId), IdentityError>)
    ensures r.Ok? <==> BrowserCookie in req.cookies && RefreshHeader in req.headers
    ensures r.Ok? ==> r.value == (req.cookies[BrowserCookie], req.headers[RefreshHeader])
    ensures BrowserCookie !in req.cookies ==> r == Err(PrivateWindow)
  {
    if BrowserCookie !in req.cookies then Err(PrivateWindow)
    else if RefreshHeader !in req.headers then Err(MissingWebsocketKey)
    else Ok((req.cookies[BrowserCookie], req.headers[RefreshHeader]))
  }

  // ---------------------------------------------------------------------------
  // Refresh detection

  /** The three answers of `page_has_refreshed`: `None`, `True` and `False`. */
  datatype Refresh = NewBrowser | Refreshed | NotRefreshed

  /**
   * `page_has_refreshed`, as a transition of the access info. `access` is
   * `None` when `st` has no `browser_access_info` attribute yet. A browser
   * that has no binding, or a reviewer without an access record, raises
   * `KeyError`.
   */
  function PageHasRefreshed(bindings: Bindings, access: Option<AccessInfo>, browser: BrowserId, refresh: RefreshId)
    : (r: Result<(Refresh, Option<AccessInfo>), IdentityError>)
    ensures |bindings| == 0 || access.None? ==> r == Ok((NotRefreshed, access))
    ensures r.Err? <==> (|bindings| > 0 && access.Some?
      && (browser !in bindings || bindings[browser] !in access.value))
  {
    if |bindings| == 0 then Ok((NotRefreshed, access))
    else if access.None? then Ok((NotRefreshed, access))
    else if browser !in bindings then Err(UnboundBrowser(browser))
    else
      var reviewer := bindings[browser];
      var info := access.value;
      if reviewer !in info then Err(NoAccessRecord(reviewer))
      else
        var record := info[reviewer];
        if |record| == 0 then
          Ok((NewBrowser, Some(info[reviewer := map[browser := {refresh}]])))
        else if browser !in record then Ok((NewBrowser, access))
        else if refresh in record[browser] then Ok((NotRefreshed, access))
        else Ok((Refreshed, Some(info[reviewer := record[browser := record[browser] + {refresh}]])))
  }

  /**
   * The branches of `page_has_refreshed` once the browser is bound and its
   * reviewer has a record: an empty record becomes exactly `{browser: {refresh}}`
   * (answer `None`); an unknown browser gives `None`, a seen refresh id `False`,
   * both with nothing changed; a new refresh id is added to that browser's set
   * alone (answer `True`).
   */
  lemma RefreshCases(bindings: Bindings, info: AccessInfo, browser: BrowserId, refresh: RefreshId)
    requires browser in bindings && bindings[browser] in info
    ensures var reviewer := bindings[browser];
      var record := info[reviewer];
      var r := PageHasRefreshed(bindings, Some(info), browser, refresh);
      && r.Ok?
      && (|record| == 0 ==> r.value == (NewBrowser, Some(info[reviewer := map[browser := {refresh}]])))
      && (|record| > 0 && browser !in record ==> r.value == (NewBrowser, Some(info)))
      && (|record| > 0 && browser in record && refresh in record[browser] ==> r.value == (NotRefreshed, Some(info)))
      && (|record| > 0 && browser in record && refresh !in record[browser] ==>
            r.value.0 == Refreshed
            && r.value.1.Some? && r.value.1.value.Keys == info.Keys
            && r.value.1.value[reviewer].Keys == record.Keys
            && r.value.1.value[reviewer][browser] == record[browser] + {refresh}
            && (forall b :: b in record && b != browser ==> r.value.1.value[reviewer][b] == record[b])
            && (forall n :: n in info && n != reviewer ==> r.value.1.value[n] == info[n]))
  {
  }

  /** A record that knows the browser but none of its refresh ids makes the next load a refresh. */
  lemma BlankRecordRefreshes(bindings: Bindings, info: AccessInfo, browser: BrowserId, refresh: RefreshId)
    requires browser in bindings && bindings[browser] in info
    requires info[bindings[browser]] == map[browser := {}]
    ensures var r := PageHasRefreshed(bindings, Some(info), browser, refresh);
      r.Ok? && r.value.0 == Refreshed
  {
    RefreshCases(bindings, info, browser, refresh);
  }

  /** Every refresh id once recorded stays recorded: the access info only grows. */
  predicate Extends(info: AccessInfo, info': AccessInfo) {
    && info.Keys <= info'.Keys
    && forall n :: n in info ==>
         forall b :: b in info[n] ==> b in info'[n] && info[n][b] <= info'[n][b]
  }

  lemma RefreshOnlyGrows(bindings: Bindings, info: AccessInfo, browser: BrowserId, refresh: RefreshId)
    requires PageHasRefreshed(bindings, Some(info), browser, refresh).Ok?
    ensures var after := PageHasRefreshed(bindings, Some(info), browser, refresh).value.1;
      after.Some? && Extends(info, after.value)
  {
  }

  /**
   * A repeated call with the same ids reports no refresh and changes nothing,
   * unless the browser is not among the reviewer's registered browsers, which
   * gives `None` every time.
   */
  lemma RefreshIdempotent(bindings: Bindings, access: Option<AccessInfo>, browser: BrowserId, refresh: RefreshId)
    requires PageHasRefreshed(bindings, access, browser, refresh).Ok?
    ensures var (answer, after) := PageHasRefreshed(bindings, access, browser, refresh).value;
      var again := PageHasRefreshed(bindings, after, browser, refresh);
      && again.Ok?
      && (again.value == (NotRefreshed, after) || again.value == (NewBrowser, after))
      && (answer != NewBrowser || after != access ==> again.value == (NotRefreshed, after))
  {
    if |bindings| > 0 && access.Some? {
      var reviewer := bindings[browser];
      var record := access.value[reviewer];
      if |record| == 0 {
        var after := access.value[reviewer := map[browser := {refresh}]];
        assert browser in after[reviewer];
      }
    }
  }

  // ---------------------------------------------------------------------------
  // Binding a browser to a reviewer

  /** No reviewer name is bound to two browsers. */
  predicate Injective(bindings: Bindings) {
    forall b1, b2 :: b1 in bindings && b2 in bindings && b1 != b2 ==> bindings[b1] != bindings[b2]
  }

  /** A name some browser is bound to. */
  predicate NameBound(bindings: Bindings, name: string) {
    exists b :: b in bindings && bindings[b] == name
  }

  /** The four outcomes of `store_selection`: two warnings, nothing, or a new binding. */
  datatype Selection = AlreadyLoggedIn | AlreadyRegistered | NoSelection | Bound

  /**
   * `store_selection` for the current browser and the chosen name (`None` when
   * nothing is chosen). A missing `browser_reviewer` is the empty map.
   */
  function StoreSelection(bindings: Bindings, browser: BrowserId, selection: Option<string>): (r: (Selection, Bindings))
    ensures r.0 == Bound <==> (browser !in bindings && selection.Some? && selection.value != ""
      && !NameBound(bindings, selection.value))
    ensures r.0 == Bound ==> r.1 == bindings[browser := selection.value]
    ensures r.0 != Bound ==> r.1 == bindings
    ensures browser in bindings ==> r.0 == AlreadyLoggedIn
    ensures browser !in bindings && selection.Some? && NameBound(bindings, selection.value) ==> r.0 == AlreadyRegistered
  {
    if browser in bindings then (AlreadyLoggedIn, bindings)
    else if selection.Some? && selection.value in bindings.Values then (AlreadyRegistered, bindings)
    else if selection.None? || selection.value == "" then (NoSelection, bindings)
    else (Bound, bindings[browser := selection.value])
  }

  /** Binding keeps every name on at most one browser. */
  lemma StoreSelectionKeepsInjective(bindings: Bindings, browser: BrowserId, selection: Option<string>)
    requires Injective(bindings)
    ensures Injective(StoreSelection(bindings, browser, selection).1)
  {
    var (outcome, after) := StoreSelection(bindings, browser, selection);
    if outcome == Bound {
      forall b1, b2 | b1 in after && b2 in after && b1 != b2
        ensures after[b1] != after[b2]
      {
        if b1 == browser {
          assert !NameBound(bindings, selection.value);
          assert b2 in bindings;
        } else if b2 == browser {
          assert !NameBound(bindings, selection.value);
          assert b1 in bindings;
        }
      }
    }
  }

  /**
   * Access seeding at start-up (metric_review.py): every configured choice
   * gets an empty record unless it already has one.
   */
  function SeedAccessInfo(info: AccessInfo, choices: seq<string>): (r: AccessInfo)
    ensures forall n :: n in r <==> n in info || n in choices
    ensures forall n :: n in info ==> r[n] == info[n]
    ensures forall n :: n in r && n !in info ==> r[n] == map[]
  {
    if |choices| == 0 then info
    else
      var prev := SeedAccessInfo(info, choices[1..]);
      assert forall n :: n in choices <==> n == choices[0] || n in choices[1..];
      if choices[0] in prev then prev else prev[choices[0] := map[]]
  }
}
