/** `sync_repo` (fleet_ops.py:149-175) as the ordered list of actions it issues,
    and the batch "sync all" loop (fleet_ops.py:246-249). Whether the remote
    steps raise is an input. */
module Sync {
  import opened Wrappers
  import opened Status

  /** Which remote step raised inside the `try`. */
  datatype Failure = NoOrigin | PullFailed | PushFailed

  datatype Action =
    | AddAll                 // `repo.git.add(all=True)`
    | Commit(message: string)
    | Pull
    | Push
    | ReportClean            // "Already clean."
    | ReportError(cause: Failure)

  /** How the remote behaves when `sync_repo` talks to it. */
  datatype RemoteEnv = RemoteEnv(hasOrigin: bool, pullFails: bool, pushFails: bool)

  predicate IsRemote(a: Action) {
    a.Pull? || a.Push?
  }

  predicate PullWanted(s: RepoStatus) {
    s.behind > 0
  }

  predicate PushWanted(s: RepoStatus) {
    s.dirty || s.ahead > 0
  }

  predicate IsClean(s: RepoStatus) {
    !s.dirty && s.ahead == 0 && s.behind == 0
  }

  /** The remote step that raises first, if any. */
  function FirstFailure(s: RepoStatus, env: RemoteEnv): Option<Failure> {
    if !env.hasOrigin then Some(NoOrigin)
    else if PullWanted(s) && env.pullFails then Some(PullFailed)
    else if PushWanted(s) && env.pushFails then Some(PushFailed)
    else None
  }

  /** The body of the `try`: each step runs in order and the first one that
      raises ends the block with the error report. */
  function RemotePhase(s: RepoStatus, env: RemoteEnv): (r: seq<Action>)
    ensures forall k :: 0 <= k < |r| ==> r[k] != AddAll && !r[k].Commit?
    ensures Pull in r ==> r[0] == Pull
    ensures forall i, j :: 0 <= i < j < |r| ==> r[i] != r[j]
    ensures FirstFailure(s, env).Some? ==> |r| > 0 && r[|r| - 1] == ReportError(FirstFailure(s, env).value)
    ensures forall k :: 0 <= k < |r| && r[k].ReportError? ==> k == |r| - 1 && FirstFailure(s, env).Some?
  {
    if !env.hasOrigin then [ReportError(NoOrigin)]
    else
      var pulled := if PullWanted(s) then [Pull] else [];
      if PullWanted(s) && env.pullFails then pulled + [ReportError(PullFailed)]
      else
        var pushed := pulled + (if PushWanted(s) then [Push] else []);
        if PushWanted(s) && env.pushFails then pushed + [ReportError(PushFailed)]
        else pushed + (if IsClean(s) then [ReportClean] else [])
  }

  /** `sync_repo(s, message)`: the local commit happens outside the `try`,
      then the remote phase. */
  function SyncRepo(s: RepoStatus, message: string, env: RemoteEnv): (plan: seq<Action>)
    // the commit comes first and no remote failure can undo it
    ensures s.dirty ==> |plan| >= 2 && plan[0] == AddAll && plan[1] == Commit(message)
    // a pull exactly when behind, a push exactly when dirty or ahead, unless an earlier step raised
    ensures Pull in plan <==> env.hasOrigin && PullWanted(s)
    ensures Push in plan <==> env.hasOrigin && PushWanted(s) && !(PullWanted(s) && env.pullFails)
    ensures ReportClean in plan <==> env.hasOrigin && IsClean(s)
  {
    (if s.dirty then [AddAll, Commit(message)] else []) + RemotePhase(s, env)
  }

  /** Staging and committing happen before any pull or push; a clean
      repository is never committed. */
  lemma CommitPrecedesRemote(s: RepoStatus, message: string, env: RemoteEnv)
    ensures var plan := SyncRepo(s, message, env);
              forall i, j :: 0 <= i < |plan| && 0 <= j < |plan| && (plan[i] == AddAll || plan[i].Commit?) && IsRemote(plan[j]) ==> i < j
    ensures var plan := SyncRepo(s, message, env);
              !s.dirty ==> forall i :: 0 <= i < |plan| ==> plan[i] != AddAll && !plan[i].Commit?
  {
  }

  /** When both happen, the pull comes before the push. */
  lemma PullPrecedesPush(s: RepoStatus, message: string, env: RemoteEnv)
    ensures var plan := SyncRepo(s, message, env);
              forall i, j :: 0 <= i < |plan| && 0 <= j < |plan| && plan[i] == Pull && plan[j] == Push ==> i < j
  {
  }

  /** A raised remote step is reported once, as the last thing `sync_repo`
      does: the steps after it, and the clean report, are skipped. Every step
      appears at most once. */
  lemma FailureEndsPlan(s: RepoStatus, message: string, env: RemoteEnv)
    ensures var plan := SyncRepo(s, message, env);
              (exists i :: 0 <= i < |plan| && plan[i].ReportError?) <==> FirstFailure(s, env).Some?
    ensures var plan := SyncRepo(s, message, env);
              forall i :: 0 <= i < |plan| && plan[i].ReportError? ==>
                i == |plan| - 1 && plan[i] == ReportError(FirstFailure(s, env).value)
    ensures var plan := SyncRepo(s, message, env);
              forall i, j :: 0 <= i < j < |plan| ==> plan[i] != plan[j]
  {
    var local := if s.dirty then [AddAll, Commit(message)] else [];
    var remote := RemotePhase(s, env);
    var plan := SyncRepo(s, message, env);
    assert plan == local + remote;
    forall i | 0 <= i < |plan| && plan[i].ReportError?
      ensures i == |plan| - 1 && plan[i] == ReportError(FirstFailure(s, env).value)
    {
      assert plan[i] == remote[i - |local|];
    }
    if FirstFailure(s, env).Some? {
      assert plan[|plan| - 1].ReportError?;
    }
    forall i, j | 0 <= i < j < |plan|
      ensures plan[i] != plan[j]
    {
      if i >= |local| {
        assert plan[i] == remote[i - |local|] && plan[j] == remote[j - |local|];
      } else if j >= |local| {
        assert plan[j] == remote[j - |local|];
      }
    }
  }

  /** Nothing pending: no commit, pull or push, only the "Already clean"
      report (or the error when there is no origin to talk to). */
  lemma CleanRepoPlan(s: RepoStatus, message: string, env: RemoteEnv)
    requires IsClean(s)
    ensures SyncRepo(s, message, env) == if env.hasOrigin then [ReportClean] else [ReportError(NoOrigin)]
  {
  }

  /** With a working remote the plan is fixed by the status alone. */
  lemma WorkingRemotePlan(s: RepoStatus, message: string)
    ensures SyncRepo(s, message, RemoteEnv(true, false, false)) ==
              (if s.dirty then [AddAll, Commit(message)] else []) +
              (if s.behind > 0 then [Pull] else []) +
              (if s.dirty || s.ahead > 0 then [Push] else []) +
              (if IsClean(s) then [ReportClean] else [])
  {
  }

  /** Untracked files in a repository that is otherwise level with its
      remote: the status says dirty, and the sync commits and pushes without
      pulling. */
  lemma DirtyLevelRepoCommitsAndPushes(path: string, branch: string, message: string)
    ensures var facts := RepoFacts(true, Some(branch), Some(true), true,
                                   Some(Tracking(Some(0), Some(0))));
            var st := GetGitStatus(path, facts);
            st.Some? && st.value.dirty && st.value.ahead == 0 && st.value.behind == 0 &&
            SyncRepo(st.value, message, RemoteEnv(true, false, false)) == [AddAll, Commit(message), Push]
  {
    var facts := RepoFacts(true, Some(branch), Some(true), true,
                           Some(Tracking(Some(0), Some(0))));
    var st := GetGitStatus(path, facts).value;
    assert st.dirty && st.ahead == 0 && st.behind == 0;
    WorkingRemotePlan(st, message);
  }

  /** A clean repository three commits behind: the sync only pulls. */
  lemma BehindRepoOnlyPulls(path: string, branch: string, message: string)
    ensures var facts := RepoFacts(true, Some(branch), Some(false), true,
                                   Some(Tracking(Some(3), Some(0))));
            var st := GetGitStatus(path, facts);
            st.Some? && !st.value.dirty && st.value.ahead == 0 && st.value.behind == 3 &&
            SyncRepo(st.value, message, RemoteEnv(true, false, false)) == [Pull]
  {
    var facts := RepoFacts(true, Some(branch), Some(false), true,
                           Some(Tracking(Some(3), Some(0))));
    var st := GetGitStatus(path, facts).value;
    assert !st.dirty && st.ahead == 0 && st.behind == 3;
    WorkingRemotePlan(st, message);
  }

  /** The dashboard's "Synced" label is shown exactly for the repositories a
      sync would leave untouched; "Unsaved Work" exactly for those it would
      commit; an "Ahead" label means a push without a pull. */
  lemma LabelPredictsPlan(s: RepoStatus, message: string, env: RemoteEnv)
    requires env.hasOrigin
    ensures Classify(s) == Synced <==> SyncRepo(s, message, env) == [ReportClean]
    ensures Classify(s) == UnsavedWork <==> Commit(message) in SyncRepo(s, message, env)
    ensures Classify(s).Ahead? && s.behind == 0 ==>
              Pull !in SyncRepo(s, message, env) && Push in SyncRepo(s, message, env)
  {
  }

  // ---------------------------------------------------------------------------
  // Batch sync
  // ---------------------------------------------------------------------------

  datatype Event = Processing(name: string) | Did(action: Action)

  function Lift(plan: seq<Action>): (events: seq<Event>)
    ensures |events| == |plan|
    ensures forall i :: 0 <= i < |plan| ==> events[i] == Did(plan[i])
  {
    seq(|plan|, i requires 0 <= i < |plan| => Did(plan[i]))
  }

  /** One repository inside the batch: announced by name, then its plan. */
  function RepoTrace(s: RepoStatus, message: string, env: RemoteEnv): (trace: seq<Event>)
    ensures |trace| > 0 && trace[0] == Processing(s.name)
    ensures |trace| == |SyncRepo(s, message, env)| + 1
    ensures forall i :: 1 <= i < |trace| ==> trace[i] == Did(SyncRepo(s, message, env)[i - 1])
    ensures Processed(trace) == [s.name]
  {
    var plan := SyncRepo(s, message, env);
    ProcessedAppend([Processing(s.name)], Lift(plan));
    ProcessedLift(plan);
    [Processing(s.name)] + Lift(plan)
  }

  function Names(repos: seq<RepoStatus>): (names: seq<string>)
    ensures |names| == |repos|
    ensures forall i :: 0 <= i < |repos| ==> names[i] == repos[i].name
  {
    seq(|repos|, i requires 0 <= i < |repos| => repos[i].name)
  }

  lemma NamesCons(repos: seq<RepoStatus>)
    requires |repos| > 0
    ensures Names(repos) == [repos[0].name] + Names(repos[1..])
  {
  }

  /** The repositories announced by a trace, in order. */
  function Processed(trace: seq<Event>): seq<string> {
    if |trace| == 0 then []
    else (if trace[0].Processing? then [trace[0].name] else []) + Processed(trace[1..])
  }

  lemma {:induction false} ProcessedAppend(a: seq<Event>, b: seq<Event>)
    ensures Processed(a + b) == Processed(a) + Processed(b)
    decreases |a|
  {
    if |a| > 0 {
      assert (a + b)[0] == a[0];
      assert (a + b)[1..] == a[1..] + b;
      ProcessedAppend(a[1..], b);
    } else {
      assert a + b == b;
    }
  }

  lemma {:induction false} ProcessedLift(plan: seq<Action>)
    ensures Processed(Lift(plan)) == []
    decreases |plan|
  {
    if |plan| > 0 {
      assert Lift(plan)[1..] == Lift(plan[1..]);
      ProcessedLift(plan[1..]);
    }
  }

  /** The batch syncs each found repository in turn. `sync_repo` catches
      every remote failure, so one repository's error never stops the batch:
      every repository is announced, once, in list order. */
  function BatchSync(repos: seq<RepoStatus>, envs: seq<RemoteEnv>, message: string): (trace: seq<Event>)
    requires |envs| == |repos|
    ensures Processed(trace) == Names(repos)
    decreases |repos|
  {
    if |repos| == 0 then []
    else
      var first := RepoTrace(repos[0], message, envs[0]);
      var rest := BatchSync(repos[1..], envs[1..], message);
      ProcessedAppend(first, rest);
      NamesCons(repos);
      first + rest
  }

  lemma {:induction false} BatchSyncAppend(a: seq<RepoStatus>, ea: seq<RemoteEnv>,
                                           b: seq<RepoStatus>, eb: seq<RemoteEnv>, message: string)
    requires |ea| == |a| && |eb| == |b|
    ensures BatchSync(a + b, ea + eb, message) == BatchSync(a, ea, message) + BatchSync(b, eb, message)
    decreases |a|
  {
    if |a| > 0 {
      assert (a + b)[1..] == a[1..] + b;
      assert (ea + eb)[1..] == ea[1..] + eb;
      BatchSyncAppend(a[1..], ea[1..], b, eb, message);
    } else {
      assert a + b == b && ea + eb == eb;
    }
  }

  /** The i-th repository gets exactly the sync it would get on its own,
      between the traces of the ones before it and the ones after it. */
  lemma BatchSyncSplit(repos: seq<RepoStatus>, envs: seq<RemoteEnv>, message: string, i: nat)
    requires |envs| == |repos| && i < |repos|
    ensures BatchSync(repos, envs, message) ==
              BatchSync(repos[..i], envs[..i], message) +
              RepoTrace(repos[i], message, envs[i]) +
              BatchSync(repos[i + 1..], envs[i + 1..], message)
  {
    assert repos == repos[..i] + repos[i..];
    assert envs == envs[..i] + envs[i..];
    BatchSyncAppend(repos[..i], envs[..i], repos[i..], envs[i..], message);
    assert repos[i..][1..] == repos[i + 1..];
    assert envs[i..][1..] == envs[i + 1..];
  }
}
