/**
 * The shipped configuration of config.py: the metric list, the reviewer
 * roster with its inversion, the selective-reviewer overrides, and the check
 * that runs when the module is loaded.
 */
module Config {
  import opened Base
  import Dicts
  import Initials

  /** Metric title to description, in declaration order. */
  const MetricDescriptive: seq<(string, string)> := [
    ("• Code Quality Metrics", ""),
    ("• Development Efficiency", ""),
    ("• Collaboration & Communication", ""),
    ("• Learning and Growth", ""),
    ("• Task and Time Management", ""),
    ("• Customer/End-User Focus", ""),
    ("• Innovation and Initiative", ""),
    ("• Consistency and Reliability", ""),
    ("• Team Support & Mentorship", ""),
    ("• Work-Life Balance", "")
  ]

  /** The metric titles, in declaration order. */
  const Metric: seq<string> := Dicts.Keys(MetricDescriptive)

  /** Display name to shorthand; names and shorthands must each be unique. */
  const ReviewersShorthand: seq<(string, string)> := [
    ("Biltu Dey", "biltu"),
    ("Hardik Singh", "hardik"),
    ("Laxman Gaikwad", "laxman"),
    ("Prateek Kumar", "prateek"),
    ("Rohan Chinchkar", "rohan"),
    ("Tanish Goyal", "tanish"),
    ("Nischey Badyal", "nischey"),
    ("Vivek Tripathi", "vivek")
  ]

  /** Shorthand back to display name. */
  const ReviewersShorthandRev: map<string, string> := Dicts.Invert(ReviewersShorthand)

  /** Reviewers who rate only the listed colleagues, and are themselves rated by nobody. */
  const SelectiveReviewers: seq<(string, seq<string>)> := [("nischey", ["rohan"])]

  /** The two exceptions of the load-time check. */
  datatype ConfigError =
    | UnknownSelectiveReviewer(rev: string)
    | UnknownAssignee(rev: string, assignee: string)

  /** An override entry that names only known shorthands. */
  predicate EntryKnown(e: (string, seq<string>), rev: map<string, string>) {
    e.0 in rev && forall a :: a in e.1 ==> a in rev
  }

  /** Position `j` holds the first name of `names` that is not a known shorthand. */
  predicate FirstUnknown(names: seq<string>, rev: map<string, string>, j: int) {
    0 <= j < |names| && names[j] !in rev && forall k :: 0 <= k < j ==> names[k] in rev
  }

  /** `err` is what the check raises for the entry `e`: its reviewer if unknown, else its first unknown assignee. */
  predicate Blames(err: ConfigError, e: (string, seq<string>), rev: map<string, string>) {
    match err
    case UnknownSelectiveReviewer(r) => r == e.0 && r !in rev
    case UnknownAssignee(r, a) =>
      r == e.0 && r in rev && exists j :: 0 <= j < |e.1| && FirstUnknown(e.1, rev, j) && e.1[j] == a
  }

  /** The inner loop over one reviewer's assignees. */
  function CheckAssignees(r: string, names: seq<string>, rev: map<string, string>): (res: Result<(), ConfigError>)
    ensures res.Ok? <==> forall a :: a in names ==> a in rev
    ensures res.Err? ==> res.error.UnknownAssignee? && res.error.rev == r
    ensures res.Err? ==> exists j :: FirstUnknown(names, rev, j) && names[j] == res.error.assignee
  {
    if |names| == 0 then Ok(())
    else if names[0] !in rev then
      assert FirstUnknown(names, rev, 0);
      Err(UnknownAssignee(r, names[0]))
    else
      var res := CheckAssignees(r, names[1..], rev);
      assert forall a :: a in names ==> a == names[0] || a in names[1..];
      if res.Err? then
        var j :| FirstUnknown(names[1..], rev, j) && names[1..][j] == res.error.assignee;
        assert FirstUnknown(names, rev, j + 1);
        res
      else
        res
  }

  /**
   * The load-time loop over the overrides: accepted exactly when every
   * selective reviewer and every assignee is a known shorthand; otherwise the
   * exception names the first offending entry in order.
   */
  function ValidateSelective(sel: seq<(string, seq<string>)>, rev: map<string, string>): (r: Result<(), ConfigError>)
    ensures r.Ok? <==> forall i :: 0 <= i < |sel| ==> EntryKnown(sel[i], rev)
    ensures r.Err? ==> exists i :: (0 <= i < |sel| && Blames(r.error, sel[i], rev)
      && forall j :: 0 <= j < i ==> EntryKnown(sel[j], rev))
  {
    if |sel| == 0 then Ok(())
    else if sel[0].0 !in rev then Err(UnknownSelectiveReviewer(sel[0].0))
    else
      match CheckAssignees(sel[0].0, sel[0].1, rev)
      case Err(e) => Err(e)
      case Ok(_) =>
        var r := ValidateSelective(sel[1..], rev);
        if r.Err? then
          var i :| 0 <= i < |sel[1..]| && Blames(r.error, sel[1..][i], rev)
            && forall j :: 0 <= j < i ==> EntryKnown(sel[1..][j], rev);
          assert forall j :: 0 <= j < i + 1 ==> EntryKnown(sel[j], rev) by {
            forall j | 0 <= j < i + 1 ensures EntryKnown(sel[j], rev) {
              if j > 0 { assert sel[j] == sel[1..][j - 1]; }
            }
          }
          r
        else
          assert forall i :: 0 <= i < |sel| ==> EntryKnown(sel[i], rev) by {
            forall i | 0 <= i < |sel| ensures EntryKnown(sel[i], rev) {
              if i > 0 { assert sel[i] == sel[1..][i - 1]; }
            }
          }
          r
  }

  /** Neither two display names nor two shorthands of the shipped roster coincide. */
  lemma ShippedRosterUnique()
    ensures Dicts.DistinctKeys(ReviewersShorthand)
    ensures Dicts.DistinctValues(ReviewersShorthand)
  {
    ShippedNamesDistinct();
    ShippedShorthandsUnique();
  }

  lemma ShippedNamesDistinct()
    ensures Dicts.DistinctKeys(ReviewersShorthand)
  {
  }

  lemma ShippedShorthandsUnique()
    ensures Dicts.DistinctValues(ReviewersShorthand)
  {
  }

  /** The inversion undoes the roster: `REV[SHORTHAND[n]] == n` for every display name `n`. */
  lemma RevUndoesRoster(i: int)
    requires 0 <= i < |ReviewersShorthand|
    ensures ReviewersShorthandRev[ReviewersShorthand[i].1] == ReviewersShorthand[i].0
  {
    ShippedRosterUnique();
    Dicts.InvertUndoes(ReviewersShorthand, i);
  }

  /** The shipped override `{"nischey": ["rohan"]}` passes the load-time check. */
  lemma ShippedOverridesValid()
    ensures ValidateSelective(SelectiveReviewers, ReviewersShorthandRev) == Ok(())
  {
    RevUndoesRoster(4);
    RevUndoesRoster(6);
    assert forall a :: a in SelectiveReviewers[0].1 ==> a == "rohan";
  }
}
