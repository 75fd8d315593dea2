/**
 * The read-side queries behind the progress and results pages
 * (db_storage/db_queries.py): which columns a reviewer has already
 * submitted, how many rating rows each reviewer has written, whom each
 * reviewer is expected to rate, who has not started, who is pending and
 * who is done, and the average scores per ratee.
 */
module Reports {
  import opened Base
  import Dicts
  import opened Store

  // ---------------------------------------------------------------------------
  // Submitted columns

  /** The distinct names of the users `reviewer` has a rating row about (the `ratings JOIN users` rows). */
  function RatedNames(db: Db, reviewer: int): (ns: set<string>)
    ensures forall n :: n in ns <==>
      exists i, j :: 0 <= i < |db.ratings| && 0 <= j < |db.users| &&
        db.ratings[i].user == reviewer && db.ratings[i].ratee == db.users[j].id && db.users[j].name == n
  {
    set i, j | 0 <= i < |db.ratings| && 0 <= j < |db.users|
      && db.ratings[i].user == reviewer && db.ratings[i].ratee == db.users[j].id :: db.users[j].name
  }

  /**
   * `get_reviewers_finalised_cols`: the shorthands of everyone the reviewer
   * has rated; a rated name missing from the roster raises `KeyError`.
   */
  function GetReviewersFinalisedCols(db: Db, roster: seq<(string, string)>, reviewer: int): (r: Option<set<string>>)
    ensures r.Some? <==> RatedNames(db, reviewer) <= Dicts.KeySet(roster)
    ensures r.Some? ==> forall n :: n in RatedNames(db, reviewer) ==> Dicts.MapOf(roster)[n] in r.value
    ensures r.Some? ==> forall s :: s in r.value ==> exists n :: n in RatedNames(db, reviewer) && Dicts.MapOf(roster)[n] == s
  {
    var names := RatedNames(db, reviewer);
    if names <= Dicts.KeySet(roster) then
      var short := Dicts.MapOf(roster);
      Some(set n | n in names :: short[n])
    else None
  }

  /**
   * Once a reviewer's rating rows about a ratee are committed, the ratee's
   * shorthand is among the reviewer's submitted columns for good: later
   * commits never take it out.
   */
  lemma FinalisedColumnStays(db: Db, roster: seq<(string, string)>, reviewer: int,
                             userData: seq<(string, string)>, metricData: seq<(string, string)>,
                             ratingData: seq<Rating>, authData: Option<Auth>, n: string)
    requires n in RatedNames(db, reviewer)
    ensures n in RatedNames(InsertAllData(db, userData, metricData, ratingData, authData).0, reviewer)
  {
    var after := InsertAllData(db, userData, metricData, ratingData, authData).0;
    var i, j :| 0 <= i < |db.ratings| && 0 <= j < |db.users|
      && db.ratings[i].user == reviewer && db.ratings[i].ratee == db.users[j].id && db.users[j].name == n;
    assert after.ratings[i] == db.ratings[i] && after.users[j] == db.users[j];
  }

  /** A committed rating row of `reviewer` about user row `j` puts that user's name among the rated names. */
  lemma SubmittedRateeRated(db: Db, ratingData: seq<Rating>, reviewer: int, j: int, k: int)
    requires 0 <= j < |db.users| && 0 <= k < |ratingData|
    requires ratingData[k].user == reviewer && ratingData[k].ratee == db.users[j].id
    requires InsertAllData(db, [], [], ratingData, None).1.Ok?
    ensures db.users[j].name in RatedNames(InsertAllData(db, [], [], ratingData, None).0, reviewer)
  {
    var after := InsertAllData(db, [], [], ratingData, None).0;
    assert after.ratings[|db.ratings| + k] == ratingData[k];
    assert after.users[j] == db.users[j];
  }

  // ---------------------------------------------------------------------------
  // Rows per reviewer

  /** The reviewer of every rating row, in row order. */
  function Reviewers(ratings: seq<Rating>): (us: seq<int>)
    ensures |us| == |ratings|
    ensures forall i :: 0 <= i < |ratings| ==> us[i] == ratings[i].user
  {
    seq(|ratings|, i requires 0 <= i < |ratings| => ratings[i].user)
  }

  /**
   * `fetch_the_count_on_ids`: every reviewer with at least one rating row, to
   * the number of its rows (`COUNT(ratee_id)`; the ratee is never `NULL` here).
   */
  function FetchTheCountOnIds(ratings: seq<Rating>): (m: map<int, nat>)
    ensures forall u :: u in m <==> u in multiset(Reviewers(ratings))
    ensures forall u :: u in m ==> m[u] == multiset(Reviewers(ratings))[u]
  {
    if |ratings| == 0 then map[]
    else
      var init := ratings[..|ratings| - 1];
      var u := ratings[|ratings| - 1].user;
      var m := FetchTheCountOnIds(init);
      assert Reviewers(ratings) == Reviewers(init) + [u];
      m[u := if u in m then m[u] + 1 else 1]
  }

  /** Committing a batch adds its rows to each reviewer's count and to nobody else's. */
  lemma CountAfterInsert(ratings: seq<Rating>, batch: seq<Rating>, u: int)
    ensures var before := FetchTheCountOnIds(ratings);
      var after := FetchTheCountOnIds(ratings + batch);
      var added := multiset(Reviewers(batch))[u];
      (if u in after then after[u] else 0) == (if u in before then before[u] else 0) + added
  {
    assert Reviewers(ratings + batch) == Reviewers(ratings) + Reviewers(batch);
  }

  // ---------------------------------------------------------------------------
  // Who rates whom

  /** The ids of `names`, when every one of them has an id. */
  function IdsOf(userToId: map<string, int>, names: seq<string>): (ids: seq<int>)
    requires forall k :: 0 <= k < |names| ==> names[k] in userToId
    ensures |ids| == |names|
    ensures forall k :: 0 <= k < |names| ==> ids[k] == userToId[names[k]]
  {
    seq(|names|, k requires 0 <= k < |names| => userToId[names[k]])
  }

  /** Every shorthand of the roster, every selective reviewer and every assignee has an id. */
  predicate AllKnown(userToId: map<string, int>, roster: seq<(string, string)>, selective: seq<(string, seq<string>)>) {
    && (forall k :: 0 <= k < |roster| ==> roster[k].1 in userToId)
    && (forall k :: 0 <= k < |selective| ==> selective[k].0 in userToId)
    && (forall k, a :: 0 <= k < |selective| && a in selective[k].1 ==> a in userToId)
  }

  /** Each selective reviewer's id with the ids of its assignees, in order. */
  function SelectivePairs(userToId: map<string, int>, selective: seq<(string, seq<string>)>): (ps: seq<(int, seq<int>)>)
    requires forall k :: 0 <= k < |selective| ==> selective[k].0 in userToId
    requires forall k, a :: 0 <= k < |selective| && a in selective[k].1 ==> a in userToId
    ensures |ps| == |selective|
    ensures forall k :: 0 <= k < |selective| ==> ps[k] == (userToId[selective[k].0], IdsOf(userToId, selective[k].1))
  {
    seq(|selective|, k requires 0 <= k < |selective| => (userToId[selective[k].0], IdsOf(userToId, selective[k].1)))
  }

  /** An id belongs to the ids of the roster exactly when some roster member has it. */
  lemma RosterIds(userToId: map<string, int>, roster: seq<(string, string)>)
    requires forall k :: 0 <= k < |roster| ==> roster[k].1 in userToId
    ensures var all := IdsOf(userToId, Values(roster));
      forall id :: id in all <==> exists k :: 0 <= k < |roster| && userToId[roster[k].1] == id
  {
    var all := IdsOf(userToId, Values(roster));
    forall id | id in all ensures exists k :: 0 <= k < |roster| && userToId[roster[k].1] == id {
      var k :| 0 <= k < |all| && all[k] == id;
    }
    forall k | 0 <= k < |roster| ensures userToId[roster[k].1] in all {
      assert all[k] == userToId[roster[k].1];
    }
  }

  /**
   * `count_permissible_by_users`: every roster member's id to the ids of the
   * whole roster (themselves included), then each selective reviewer's id
   * to its assignees' ids alone; with the selective reviewers' ids in order.
   * A name without an id raises `KeyError`.
   */
  function CountPermissibleByUsers(userToId: map<string, int>, roster: seq<(string, string)>,
                                   selective: seq<(string, seq<string>)>): (r: Option<(map<int, seq<int>>, seq<int>)>)
    ensures r.Some? <==> AllKnown(userToId, roster, selective)
    ensures r.Some? ==> (|r.value.1| == |selective|
      && forall k :: 0 <= k < |selective| ==> r.value.1[k] == userToId[selective[k].0])
    ensures r.Some? ==> forall id :: id in r.value.0 <==>
      ((exists k :: 0 <= k < |roster| && userToId[roster[k].1] == id) || id in r.value.1)
    ensures r.Some? ==> forall id :: id in r.value.0 && id !in r.value.1 ==>
      r.value.0[id] == IdsOf(userToId, Values(roster))
    ensures r.Some? ==> forall k :: 0 <= k < |selective| && (forall k' :: k < k' < |selective| ==> r.value.1[k'] != r.value.1[k]) ==>
      r.value.0[r.value.1[k]] == IdsOf(userToId, selective[k].1)
  {
    if AllKnown(userToId, roster, selective) then
      var all := IdsOf(userToId, Values(roster));
      var base := map k | k in all :: all;
      var pairs := SelectivePairs(userToId, selective);
      var selIds := Dicts.Keys(pairs);
      var m := base + Dicts.MapOf(pairs);
      RosterIds(userToId, roster);
      Dicts.KeysListed(pairs);
      forall k | 0 <= k < |selective| && (forall k' :: k < k' < |selective| ==> selIds[k'] != selIds[k])
        ensures m[selIds[k]] == IdsOf(userToId, selective[k].1)
      {
        Dicts.MapOfLast(pairs, k);
      }
      Some((m, selIds))
    else None
  }

  /** The shorthands of the roster, in order: `list(REVIEWERS_SHORTHAND.values())`. */
  function Values(roster: seq<(string, string)>): (vs: seq<string>)
    ensures |vs| == |roster|
    ensures forall k :: 0 <= k < |roster| ==> vs[k] == roster[k].1
  {
    seq(|roster|, k requires 0 <= k < |roster| => roster[k].1)
  }

  // ---------------------------------------------------------------------------
  // Progress: not started, pending, completed

  /** Reviewer ids that have not started, pending ones with the ratees they have left, and completed ones. */
  datatype Progress = Progress(notStarted: set<int>, pending: map<int, int>, completed: set<int>)

  /** The three groups of a progress report split `ids` between them. */
  predicate Partitions(p: Progress, ids: set<int>) {
    && p.notStarted + p.pending.Keys + p.completed == ids
    && p.notStarted !! p.pending.Keys && p.notStarted !! p.completed && p.pending.Keys !! p.completed
  }

  /**
   * The completion test of `get_counts_of_reviewed` as written: a selective
   * reviewer is done at `L * M` rows, and anybody at `(L - S) * M` rows,
   * where `L` is the length of the reviewer's list of ratees, `M` the number
   * of metrics and `S` the number of selective reviewers.
   */
  predicate CompletedAsWritten(ratees: nat, selective: bool, count: int, metrics: nat, selCount: nat) {
    (selective && count == ratees * metrics) || count == ratees * metrics - selCount * metrics
  }

  /** The ratees left as written: `(L * M - count) // M - S`. */
  function RemainingAsWritten(ratees: nat, count: int, metrics: nat, selCount: nat): (left: int)
    requires metrics > 0
    ensures left * metrics + selCount * metrics <= ratees * metrics - count < left * metrics + selCount * metrics + metrics
  {
    var q := (ratees * metrics - count) / metrics;
    DivBounds(ratees * metrics - count, metrics);
    q - selCount
  }

  /** Floor division: `q * m <= x < q * m + m`. */
  lemma DivBounds(x: int, m: int)
    requires m > 0
    ensures (x / m) * m <= x < (x / m) * m + m
  {
  }

  /**
   * `get_counts_of_reviewed` as written, over the outputs of
   * `count_permissible_by_users` and `fetch_the_count_on_ids`. `None` is the
   * `KeyError` of a counted reviewer without a list of ratees, or the
   * `ZeroDivisionError` of a pending reviewer when there are no metrics.
   */
  function GetCountsOfReviewed(mapping: map<int, seq<int>>, selIds: seq<int>, counts: map<int, nat>,
                               metrics: nat, selCount: nat): (r: Option<Progress>)
    ensures r.Some? <==> (counts.Keys <= mapping.Keys
      && (metrics == 0 ==> forall id :: id in counts ==>
            CompletedAsWritten(|mapping[id]|, id in selIds, counts[id], metrics, selCount)))
    ensures r.Some? ==> Partitions(r.value, mapping.Keys) && r.value.notStarted == mapping.Keys - counts.Keys
    ensures r.Some? ==> forall id :: id in counts ==>
      (id in r.value.completed <==> CompletedAsWritten(|mapping[id]|, id in selIds, counts[id], metrics, selCount))
    ensures r.Some? ==> forall id :: id in r.value.pending ==>
      metrics > 0 && r.value.pending[id] == RemainingAsWritten(|mapping[id]|, counts[id], metrics, selCount)
  {
    if counts.Keys <= mapping.Keys
      && (metrics == 0 ==> forall id :: id in counts ==>
            CompletedAsWritten(|mapping[id]|, id in selIds, counts[id], metrics, selCount))
    then
      var done := set id | id in counts && CompletedAsWritten(|mapping[id]|, id in selIds, counts[id], metrics, selCount);
      var pending := map id | id in counts && id !in done :: RemainingAsWritten(|mapping[id]|, counts[id], metrics, selCount);
      Some(Progress(mapping.Keys - counts.Keys, pending, done))
    else None
  }

  /**
   * The rows a reviewer owes: every metric for each ratee on its list, less
   * the selective reviewers for an ordinary reviewer, since nobody rates
   * those.
   */
  function ExpectedRows(ratees: nat, selective: bool, metrics: nat, selCount: nat): int {
    if selective then ratees * metrics else (ratees - selCount) * metrics
  }

  /** The ratees left, rounded down, against the rows actually owed. */
  function RemainingFixed(ratees: nat, selective: bool, count: int, metrics: nat, selCount: nat): (left: int)
    requires metrics > 0
    ensures left * metrics <= ExpectedRows(ratees, selective, metrics, selCount) - count < left * metrics + metrics
  {
    DivBounds(ExpectedRows(ratees, selective, metrics, selCount) - count, metrics);
    (ExpectedRows(ratees, selective, metrics, selCount) - count) / metrics
  }

  /**
   * `get_counts_of_reviewed` as intended: a reviewer is done exactly when it
   * has written the rows it owes, and otherwise has the rest of them left.
   */
  function GetCountsOfReviewedFixed(mapping: map<int, seq<int>>, selIds: seq<int>, counts: map<int, nat>,
                                    metrics: nat, selCount: nat): (r: Option<Progress>)
    ensures r.Some? <==> (counts.Keys <= mapping.Keys
      && (metrics == 0 ==> forall id :: id in counts ==>
            counts[id] == ExpectedRows(|mapping[id]|, id in selIds, metrics, selCount)))
    ensures r.Some? ==> Partitions(r.value, mapping.Keys) && r.value.notStarted == mapping.Keys - counts.Keys
    ensures r.Some? ==> forall id :: id in counts ==>
      (id in r.value.completed <==> counts[id] == ExpectedRows(|mapping[id]|, id in selIds, metrics, selCount))
    ensures r.Some? ==> forall id :: id in r.value.pending ==>
      metrics > 0 && r.value.pending[id] == RemainingFixed(|mapping[id]|, id in selIds, counts[id], metrics, selCount)
  {
    if counts.Keys <= mapping.Keys
      && (metrics == 0 ==> forall id :: id in counts ==>
            counts[id] == ExpectedRows(|mapping[id]|, id in selIds, metrics, selCount))
    then
      var done := set id | id in counts && counts[id] == ExpectedRows(|mapping[id]|, id in selIds, metrics, selCount);
      var pending := map id | id in counts && id !in done ::
        RemainingFixed(|mapping[id]|, id in selIds, counts[id], metrics, selCount);
      Some(Progress(mapping.Keys - counts.Keys, pending, done))
    else None
  }

  lemma MulLe(a: int, b: int, m: int)
    requires a <= b && m >= 0
    ensures a * m <= b * m
  {
    assert b * m - a * m == (b - a) * m;
  }

  /** `(x + k * m) / m == x / m + k` for floor division. */
  lemma DivAddMultiple(x: int, k: int, m: int)
    requires m > 0
    ensures (x + k * m) / m == x / m + k
  {
    var q := x / m;
    var q' := (x + k * m) / m;
    DivBounds(x, m);
    DivBounds(x + k * m, m);
    assert (q + k) * m == q * m + k * m;
    if q' > q + k {
      assert (q + k + 1) * m == (q + k) * m + m;
      MulLe(q + k + 1, q', m);
    } else if q' < q + k {
      assert (q' + 1) * m == q' * m + m;
      MulLe(q' + 1, q + k, m);
    }
  }

  /**
   * For a reviewer who is not selective the two definitions agree: the same
   * completion test and the same number of ratees left.
   */
  lemma FixedAgreesOffSelective(ratees: nat, count: int, metrics: nat, selCount: nat)
    requires metrics > 0
    ensures CompletedAsWritten(ratees, false, count, metrics, selCount) <==> count == ExpectedRows(ratees, false, metrics, selCount)
    ensures RemainingAsWritten(ratees, count, metrics, selCount) == RemainingFixed(ratees, false, count, metrics, selCount)
  {
    assert ratees * metrics - selCount * metrics == (ratees - selCount) * metrics;
    DivAddMultiple((ratees - selCount) * metrics - count, selCount, metrics);
    assert (ratees - selCount) * metrics - count + selCount * metrics == ratees * metrics - count;
  }

  /** With no counted reviewer among the selective ones, both reports are the same. */
  lemma CountsAgreeWithoutSelective(mapping: map<int, seq<int>>, selIds: seq<int>, counts: map<int, nat>,
                                    metrics: nat, selCount: nat)
    requires metrics > 0
    requires forall id :: id in counts ==> id !in selIds
    ensures GetCountsOfReviewed(mapping, selIds, counts, metrics, selCount)
         == GetCountsOfReviewedFixed(mapping, selIds, counts, metrics, selCount)
  {
    var a := GetCountsOfReviewed(mapping, selIds, counts, metrics, selCount);
    var b := GetCountsOfReviewedFixed(mapping, selIds, counts, metrics, selCount);
    forall id | id in counts && id in mapping
      ensures CompletedAsWritten(|mapping[id]|, id in selIds, counts[id], metrics, selCount)
          <==> counts[id] == ExpectedRows(|mapping[id]|, id in selIds, metrics, selCount)
      ensures RemainingAsWritten(|mapping[id]|, counts[id], metrics, selCount)
          == RemainingFixed(|mapping[id]|, id in selIds, counts[id], metrics, selCount)
    {
      FixedAgreesOffSelective(|mapping[id]|, counts[id], metrics, selCount);
    }
    if a.Some? {
      assert a.value.completed == b.value.completed;
      assert a.value.pending == b.value.pending;
    }
  }

  /**
   * The selective branch as written: a selective reviewer with two ratees
   * who has rated one of them for all ten metrics is reported completed;
   * the intended report has one ratee left.
   */
  lemma SelectiveMislabelled()
    ensures var asWritten := GetCountsOfReviewed(map[7 := [1, 2]], [7], map[7 := 10], 10, 1);
      asWritten.Some? && 7 in asWritten.value.completed
  {
    assert CompletedAsWritten(2, true, 10, 10, 1);
  }

  lemma SelectiveMislabelledFixed()
    ensures var fixed := GetCountsOfReviewedFixed(map[7 := [1, 2]], [7], map[7 := 10], 10, 1);
      fixed.Some? && 7 in fixed.value.pending && fixed.value.pending[7] == 1
  {
    assert 10 != ExpectedRows(2, true, 10, 1);
    assert RemainingFixed(2, true, 10, 10, 1) == 1;
  }

  /**
   * With the one ratee of the shipped configuration and five of ten metrics
   * rated, the selective reviewer is pending with -1 ratees left as written,
   * and with 0 (rounded down) as intended.
   */
  lemma SelectiveNegative()
    ensures var asWritten := GetCountsOfReviewed(map[7 := [1]], [7], map[7 := 5], 10, 1);
      asWritten.Some? && 7 in asWritten.value.pending && asWritten.value.pending[7] == -1
  {
    assert !CompletedAsWritten(1, true, 5, 10, 1);
    assert RemainingAsWritten(1, 5, 10, 1) == -1;
  }

  lemma SelectiveNegativeFixed()
    ensures var fixed := GetCountsOfReviewedFixed(map[7 := [1]], [7], map[7 := 5], 10, 1);
      fixed.Some? && 7 in fixed.value.pending && fixed.value.pending[7] == 0
  {
    assert 5 != ExpectedRows(1, true, 10, 1);
    assert RemainingFixed(1, true, 5, 10, 1) == 0;
  }

  // ---------------------------------------------------------------------------
  // Average scores

  /** Row `i` is about `ratee` and metric id `metric`, by the ratee itself when `own` holds and by someone else otherwise. */
  predicate RowOf(ratings: seq<Rating>, i: int, ratee: int, metric: int, own: bool) {
    0 <= i < |ratings| && ratings[i].ratee == ratee && ratings[i].metric == metric && (ratings[i].user == ratee) == own
  }

  /** The scores of the rows `RowOf` selects, in row order. */
  function ScoresOf(ratings: seq<Rating>, ratee: int, metric: int, own: bool): (ss: seq<Option<real>>)
    ensures forall s :: s in ss <==> exists i :: RowOf(ratings, i, ratee, metric, own) && ratings[i].score == s
  {
    if |ratings| == 0 then []
    else
      var init := ratings[..|ratings| - 1];
      var x := ratings[|ratings| - 1];
      assert forall i :: RowOf(init, i, ratee, metric, own) ==> RowOf(ratings, i, ratee, metric, own) && init[i] == ratings[i];
      assert forall i :: RowOf(ratings, i, ratee, metric, own) && i < |init| ==> RowOf(init, i, ratee, metric, own);
      ScoresOf(init, ratee, metric, own)
        + (if x.ratee == ratee && x.metric == metric && (x.user == ratee) == own then [x.score] else [])
  }

  /** The scores that are not `NULL`. */
  function Present(ss: seq<Option<real>>): (xs: seq<real>)
    ensures |xs| <= |ss|
    ensures forall x :: x in xs <==> Some(x) in ss
  {
    if |ss| == 0 then []
    else
      var rest := Present(ss[1..]);
      assert forall s :: s in ss <==> s == ss[0] || s in ss[1..];
      if ss[0].Some? then [ss[0].value] + rest else rest
  }

  function Sum(xs: seq<real>): real {
    if |xs| == 0 then 0.0 else xs[0] + Sum(xs[1..])
  }

  /** A sum of values in `lo..hi` lies in `n * lo .. n * hi`. */
  lemma {:induction false} SumBounds(xs: seq<real>, lo: real, hi: real)
    requires forall x :: x in xs ==> lo <= x <= hi
    ensures (|xs| as real) * lo <= Sum(xs) <= (|xs| as real) * hi
  {
    if |xs| > 0 {
      assert forall x :: x in xs[1..] ==> x in xs;
      SumBounds(xs[1..], lo, hi);
      assert xs[0] in xs;
      BoundsStep(|xs[1..]| as real, xs[0], Sum(xs[1..]), lo, hi);
    }
  }

  lemma BoundsStep(n: real, x: real, s: real, lo: real, hi: real)
    requires lo <= x <= hi && n * lo <= s <= n * hi
    ensures (n + 1.0) * lo <= x + s <= (n + 1.0) * hi
  {
  }

  /** SQL `AVG`: the mean of the scores that are not `NULL`, `NULL` when there are none. */
  function Avg(ss: seq<Option<real>>): (a: Option<real>)
    ensures a.Some? <==> exists s :: s in ss && s.Some?
  {
    var xs := Present(ss);
    if |xs| == 0 then None
    else
      assert Some(xs[0]) in ss;
      Some(Sum(xs) / (|xs| as real))
  }

  /** An average of scores in `lo..hi` is in `lo..hi`. */
  lemma AvgBounds(ss: seq<Option<real>>, lo: real, hi: real)
    requires forall s :: s in ss && s.Some? ==> lo <= s.value <= hi
    requires Avg(ss).Some?
    ensures lo <= Avg(ss).value <= hi
  {
    var xs := Present(ss);
    forall x | x in xs ensures lo <= x <= hi {
      assert Some(x) in ss;
    }
    MeanBounds(xs, lo, hi);
  }

  /** The mean of values in `lo..hi` is in `lo..hi`. */
  lemma MeanBounds(xs: seq<real>, lo: real, hi: real)
    requires |xs| > 0 && forall x :: x in xs ==> lo <= x <= hi
    ensures lo <= Sum(xs) / (|xs| as real) <= hi
  {
    SumBounds(xs, lo, hi);
    MeanBetween(Sum(xs), |xs| as real, lo, hi);
  }

  lemma MeanBetween(sum: real, n: real, lo: real, hi: real)
    requires n > 0.0 && n * lo <= sum <= n * hi
    ensures lo <= sum / n <= hi
  {
    assert (sum / n) * n == sum;
  }

  /** The value of a metric's group: the others' average, or the ratee's own score of its first row. */
  function GroupValue(ratings: seq<Rating>, ratee: int, metric: int, own: bool): Option<real> {
    var ss := ScoresOf(ratings, ratee, metric, own);
    if own then (if |ss| > 0 then ss[0] else None) else Avg(ss)
  }

  /** Metric row `i` has a group: some row `RowOf` selects. */
  predicate HasGroup(metrics: seq<MetricRow>, ratings: seq<Rating>, ratee: int, own: bool, i: int) {
    0 <= i < |metrics| && |ScoresOf(ratings, ratee, metrics[i].id, own)| > 0
  }

  /** The groups of the metrics after the first are the groups of all of them but the first, shifted by one. */
  lemma HasGroupShift(metrics: seq<MetricRow>, ratings: seq<Rating>, ratee: int, own: bool)
    requires |metrics| > 0
    ensures forall i :: HasGroup(metrics[1..], ratings, ratee, own, i) ==>
      HasGroup(metrics, ratings, ratee, own, i + 1) && metrics[1..][i] == metrics[i + 1]
    ensures forall i :: HasGroup(metrics, ratings, ratee, own, i) && i > 0 ==>
      HasGroup(metrics[1..], ratings, ratee, own, i - 1) && metrics[1..][i - 1] == metrics[i]
  {
  }

  /**
   * One `(metrics.name, value)` row per metric that has rows about `ratee`
   * (the `GROUP BY ratings.metric_id` of the join), in metric order.
   */
  function Grouped(metrics: seq<MetricRow>, ratings: seq<Rating>, ratee: int, own: bool)
    : (ps: seq<(string, Option<real>)>)
    ensures forall p :: p in ps <==>
      exists i :: HasGroup(metrics, ratings, ratee, own, i) &&
        p == (metrics[i].name, GroupValue(ratings, ratee, metrics[i].id, own))
  {
    if |metrics| == 0 then []
    else
      var m := metrics[0];
      var rest := Grouped(metrics[1..], ratings, ratee, own);
      HasGroupShift(metrics, ratings, ratee, own);
      if |ScoresOf(ratings, ratee, m.id, own)| > 0 then [(m.name, GroupValue(ratings, ratee, m.id, own))] + rest
      else rest
  }

  /** Distinct metric names give distinct group names. */
  lemma {:induction false} GroupedDistinct(metrics: seq<MetricRow>, ratings: seq<Rating>, ratee: int, own: bool)
    requires forall i, j :: 0 <= i < j < |metrics| ==> metrics[i].name != metrics[j].name
    ensures Dicts.DistinctKeys(Grouped(metrics, ratings, ratee, own))
  {
    if |metrics| > 0 {
      var rest := Grouped(metrics[1..], ratings, ratee, own);
      GroupedDistinct(metrics[1..], ratings, ratee, own);
      forall k | 0 <= k < |rest| ensures rest[k].0 != metrics[0].name {
        assert rest[k] in rest;
        var i :| HasGroup(metrics[1..], ratings, ratee, own, i) &&
          rest[k] == (metrics[1..][i].name, GroupValue(ratings, ratee, metrics[1..][i].id, own));
        assert metrics[1..][i] == metrics[i + 1];
      }
      var ps := Grouped(metrics, ratings, ratee, own);
      if |ScoresOf(ratings, ratee, metrics[0].id, own)| > 0 {
        assert ps == [(metrics[0].name, GroupValue(ratings, ratee, metrics[0].id, own))] + rest;
        assert forall k :: 1 <= k < |ps| ==> ps[k] == rest[k - 1];
      } else {
        assert ps == rest;
      }
    }
  }

  /** What `get_average_scores` reports for one ratee. */
  datatype Averages = Averages(ratings: map<string, Option<real>>, selfRating: map<string, Option<real>>)

  /** The report for one ratee: `dict(rows)` of both queries. */
  function AveragesOf(db: Db, ratee: int): (a: Averages)
    ensures a.ratings.Keys == Dicts.KeySet(Grouped(db.metrics, db.ratings, ratee, false))
    ensures a.selfRating.Keys == Dicts.KeySet(Grouped(db.metrics, db.ratings, ratee, true))
  {
    Averages(Dicts.MapOf(Grouped(db.metrics, db.ratings, ratee, false)),
             Dicts.MapOf(Grouped(db.metrics, db.ratings, ratee, true)))
  }

  /** `get_average_scores`: the report of every id of the list. */
  function GetAverageScores(db: Db, ids: seq<int>): (r: map<int, Averages>)
    ensures r.Keys == set i | 0 <= i < |ids| :: ids[i]
    ensures forall id :: id in r ==> r[id] == AveragesOf(db, id)
  {
    map id | id in (set i | 0 <= i < |ids| :: ids[i]) :: AveragesOf(db, id)
  }

  /**
   * In a valid store a metric with rows from other reviewers shows, under
   * its name, the average of those reviewers' scores; one with the ratee's
   * own row shows that row's score; and metrics without rows are absent.
   */
  lemma AveragesExact(db: Db, ratee: int, i: int)
    requires MetricsValid(db.metrics, db.metricSeq) && 0 <= i < |db.metrics|
    ensures var a := AveragesOf(db, ratee);
      var m := db.metrics[i];
      && (m.name in a.ratings <==> |ScoresOf(db.ratings, ratee, m.id, false)| > 0)
      && (m.name in a.ratings ==> a.ratings[m.name] == Avg(ScoresOf(db.ratings, ratee, m.id, false)))
      && (m.name in a.selfRating <==> |ScoresOf(db.ratings, ratee, m.id, true)| > 0)
      && (m.name in a.selfRating ==> a.selfRating[m.name] == ScoresOf(db.ratings, ratee, m.id, true)[0])
  {
    var ms := db.metrics;
    assert forall a, b :: 0 <= a < b < |ms| ==> ms[a].name != ms[b].name by {
      forall a, b | 0 <= a < b < |ms| ensures ms[a].name != ms[b].name {
        assert ms[..b][a] == ms[a];
      }
    }
    GroupExact(db, ratee, i, false);
    GroupExact(db, ratee, i, true);
  }

  lemma GroupExact(db: Db, ratee: int, i: int, own: bool)
    requires 0 <= i < |db.metrics|
    requires forall a, b :: 0 <= a < b < |db.metrics| ==> db.metrics[a].name != db.metrics[b].name
    ensures var ps := Grouped(db.metrics, db.ratings, ratee, own);
      var m := db.metrics[i];
      && (m.name in Dicts.MapOf(ps) <==> |ScoresOf(db.ratings, ratee, m.id, own)| > 0)
      && (m.name in Dicts.MapOf(ps) ==> Dicts.MapOf(ps)[m.name] == GroupValue(db.ratings, ratee, m.id, own))
  {
    var ps := Grouped(db.metrics, db.ratings, ratee, own);
    var m := db.metrics[i];
    GroupedDistinct(db.metrics, db.ratings, ratee, own);
    if m.name in Dicts.MapOf(ps) {
      var k :| 0 <= k < |ps| && ps[k].0 == m.name;
      assert ps[k] in ps;
      var j :| HasGroup(db.metrics, db.ratings, ratee, own, j) &&
        ps[k] == (db.metrics[j].name, GroupValue(db.ratings, ratee, db.metrics[j].id, own));
      assert j == i;
      Dicts.MapOfDistinct(ps, k);
    }
    if |ScoresOf(db.ratings, ratee, m.id, own)| > 0 {
      var p := (m.name, GroupValue(db.ratings, ratee, m.id, own));
      assert HasGroup(db.metrics, db.ratings, ratee, own, i);
      assert p in ps;
      var k :| 0 <= k < |ps| && ps[k] == p;
    }
  }

  /** A rating row about oneself never moves the others' averages. */
  lemma OwnRowIgnored(ratings: seq<Rating>, x: Rating, ratee: int, metric: int)
    requires x.user == x.ratee
    ensures ScoresOf(ratings + [x], ratee, metric, false) == ScoresOf(ratings, ratee, metric, false)
  {
    assert (ratings + [x])[..|ratings|] == ratings;
  }

  /** Every average and own score in a store whose scores pass the CHECK constraint lies in 1..10. */
  lemma AveragesInRange(db: Db, ratee: int, metric: int, own: bool)
    requires RatingsValid(db.ratings)
    requires GroupValue(db.ratings, ratee, metric, own).Some?
    ensures 1.0 <= GroupValue(db.ratings, ratee, metric, own).value <= 10.0
  {
    var ss := ScoresOf(db.ratings, ratee, metric, own);
    forall s | s in ss && s.Some? ensures 1.0 <= s.value <= 10.0 {
      var i :| RowOf(db.ratings, i, ratee, metric, own) && db.ratings[i].score == s;
      assert RatingFits(db.ratings[..i], db.ratings[i]);
    }
    if own {
      assert ss[0] in ss;
    } else {
      AvgBounds(ss, 1.0, 10.0);
    }
  }
}
