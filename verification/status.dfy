/** The status record `get_git_status` builds for one repository, and the
    dashboard's classification of it (fleet_ops.py:95-133, 200-211). Every
    GitPython call is replaced by the fact it would have reported. */
module Status {
  import opened Wrappers
  import Text

  /** What the two `iter_commits` counts produced once a tracking branch was
      found; None where counting raised. */
  datatype Tracking = Tracking(behindCount: Option<nat>, aheadCount: Option<nat>)

  /** The repository as GitPython would report it. */
  datatype RepoFacts = RepoFacts(
    opens: bool,                   // `Repo(path)` succeeds
    activeBranch: Option<string>,  // None when `active_branch` raises (detached HEAD)
    dirty: Option<bool>,           // `is_dirty(untracked_files=True)`; None when it raises
    fetched: bool,                 // `remotes.origin` exists and `fetch()` succeeds
    tracking: Option<Tracking>)    // `tracking_branch()`; None when there is none

  datatype RepoStatus = RepoStatus(
    path: string,
    name: string,
    branch: string,
    dirty: bool,
    ahead: nat,
    behind: nat)

  const Detached: string := "DETACHED"
  const UnknownBranch: string := "unknown"

  /** The sync block reaches the commit counts only when the fetch worked, the
      branch is not detached and a tracking branch exists. */
  predicate Tracked(facts: RepoFacts) {
    facts.fetched && facts.activeBranch.Some? && facts.tracking.Some?
  }

  /** The counts of the sync block: `behind` is assigned before `ahead` is
      counted, so a failure while counting `ahead` keeps `behind`. */
  function WithCounts(s: RepoStatus, facts: RepoFacts): (r: RepoStatus)
    requires s.ahead == 0 && s.behind == 0
    ensures r.path == s.path && r.name == s.name && r.branch == s.branch && r.dirty == s.dirty
    ensures (r.ahead > 0 || r.behind > 0) ==> Tracked(facts)
    ensures Tracked(facts) ==>
              var t := facts.tracking.value;
              r.behind == t.behindCount.GetOr(0) &&
              r.ahead == (if t.behindCount.Some? then t.aheadCount.GetOr(0) else 0)
  {
    if !Tracked(facts) then s
    else
      match facts.tracking.value.behindCount
      case None => s
      case Some(b) =>
        match facts.tracking.value.aheadCount
        case None => s.(behind := b)
        case Some(a) => s.(behind := b, ahead := a)
  }

  /** `get_git_status(path)`: None when the repository cannot be opened or the
      dirty check raises; otherwise a record whose defaults are overwritten
      step by step, each step failing on its own. */
  function GetGitStatus(path: string, facts: RepoFacts): (r: Option<RepoStatus>)
    ensures r.None? <==> !facts.opens || facts.dirty.None?
    ensures r.Some? ==> r.value.path == path && r.value.name == Text.Basename(path)
    ensures r.Some? ==> r.value.branch == facts.activeBranch.GetOr(Detached)
    ensures r.Some? ==> r.value.dirty == facts.dirty.value
    ensures r.Some? && (r.value.ahead > 0 || r.value.behind > 0) ==> Tracked(facts)
    ensures r.Some? && Tracked(facts) ==>
              var t := facts.tracking.value;
              r.value.behind == t.behindCount.GetOr(0) &&
              r.value.ahead == (if t.behindCount.Some? then t.aheadCount.GetOr(0) else 0)
  {
    if !facts.opens then None
    else
      var initial := RepoStatus(path, Text.Basename(path), UnknownBranch, false, 0, 0);
      var branched := initial.(branch := facts.activeBranch.GetOr(Detached));
      match facts.dirty
      case None => None
      case Some(d) =>
        var checked := if d then branched.(dirty := true) else branched;
        Some(WithCounts(checked, facts))
  }

  /** Without a tracking branch (or with a failed fetch) a repository reports
      zero ahead and zero behind, the same as one in step with its remote. */
  lemma UntrackedReadsAsSynced(path: string, facts: RepoFacts)
    requires facts.opens && facts.dirty == Some(false)
    requires !Tracked(facts)
    ensures GetGitStatus(path, facts).Some?
    ensures Classify(GetGitStatus(path, facts).value) == Synced
  {
  }

  // ---------------------------------------------------------------------------
  // Classification shown on each dashboard line
  // ---------------------------------------------------------------------------

  datatype Label = UnsavedWork | Ahead(count: nat) | Behind(count: nat) | Synced

  /** Priority: dirty over ahead over behind over synced. */
  function Classify(s: RepoStatus): (l: Label)
    ensures l == UnsavedWork <==> s.dirty
    ensures l.Ahead? <==> !s.dirty && s.ahead > 0
    ensures l.Behind? <==> !s.dirty && s.ahead == 0 && s.behind > 0
    ensures l == Synced <==> !s.dirty && s.ahead == 0 && s.behind == 0
    ensures l.Ahead? ==> l.count == s.ahead
    ensures l.Behind? ==> l.count == s.behind
    ensures (l.Ahead? || l.Behind?) ==> l.count > 0
  {
    if s.dirty then UnsavedWork
    else if s.ahead > 0 then Ahead(s.ahead)
    else if s.behind > 0 then Behind(s.behind)
    else Synced
  }

  /** The message text next to the icon: each label is recognisable from the
      start of its text, and the ahead and behind messages carry the count in
      parentheses. */
  function LabelText(l: Label): (r: string)
    ensures l == UnsavedWork <==> r == "Unsaved Work"
    ensures l == Synced <==> r == "Synced"
    ensures l.Ahead? <==> Text.StartsWith(r, "Ahead (+")
    ensures l.Behind? <==> Text.StartsWith(r, "Behind (-")
    ensures l.Ahead? || l.Behind? ==>
              var k := if l.Ahead? then 8 else 9;
              k < |r| - 1 && r[|r| - 1] == ')' &&
              Text.IsDigits(r[k..|r| - 1]) && Text.DigitsValue(r[k..|r| - 1]) == l.count
  {
    match l
    case UnsavedWork =>
      var t := "Unsaved Work";
      assert t[0] == 'U';
      t
    case Ahead(n) =>
      var t := "Ahead (+" + Text.DecimalString(n) + ")";
      assert t[..8] == "Ahead (+" && t[0] == 'A';
      assert t[8..|t| - 1] == Text.DecimalString(n);
      Text.DigitsValueOfDecimal(n);
      t
    case Behind(n) =>
      var t := "Behind (-" + Text.DecimalString(n) + ")";
      assert t[..9] == "Behind (-" && t[0] == 'B';
      assert t[9..|t| - 1] == Text.DecimalString(n);
      Text.DigitsValueOfDecimal(n);
      t
    case Synced => "Synced"
  }

  /** Different labels never print the same text, so the text alone tells the
      state and the count. */
  lemma LabelTextInjective(a: Label, b: Label)
    requires LabelText(a) == LabelText(b)
    ensures a == b
  {
    var t := LabelText(a);
    assert t[0] == LabelText(b)[0];
    if a.Ahead? && b.Ahead? {
      CountFromText("Ahead (+", a.count, b.count);
    } else if a.Behind? && b.Behind? {
      CountFromText("Behind (-", a.count, b.count);
    }
  }

  lemma CountFromText(prefix: string, m: nat, n: nat)
    requires prefix + Text.DecimalString(m) + ")" == prefix + Text.DecimalString(n) + ")"
    ensures m == n
  {
    var x := prefix + Text.DecimalString(m) + ")";
    var y := prefix + Text.DecimalString(n) + ")";
    assert Text.DecimalString(m) == x[|prefix|..|x| - 1];
    assert Text.DecimalString(n) == y[|prefix|..|y| - 1];
    Text.DecimalStringInjective(m, n);
  }
}
