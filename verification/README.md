# Fleet Commander — a Dafny model of its decision logic

Fleet Commander is a small interactive script that looks at every Git
repository directly under one root folder. It shows whether each one is
synced, has unsaved work, or is ahead of or behind its remote. On command it
commits, pulls and pushes them. All of the Git work goes through GitPython.
This project models what the script itself decides, as pure functions over
immutable data:

- **Status builder** (`Status.GetGitStatus`): turns what Git reports about
  one folder into the status record. The branch falls back to `DETACHED`,
  and ahead/behind stay 0 unless the fetch worked and a tracking branch
  exists. A repository that cannot be opened, or whose dirty check fails,
  gives no record.
- **Classifier** (`Status.Classify`, `Status.LabelText`): the
  dirty > ahead > behind > synced priority and its labels.
- **Sync planner** (`Sync.SyncRepo`): the ordered actions `sync_repo` issues
  for one status record. These are staging and committing outside the `try`,
  then pull, push and the "Already clean" report inside it. A raising remote
  step ends the `try` with an error report. The batch `Sync.BatchSync` runs
  the planner on every repository in list order.
- **Scanner** (`Scan.ScanRoot`, `Scan.Rows`): sorts the listing by name and
  keeps the folders that hold a `.git` directory and inspect cleanly. It
  numbers the kept repositories 1..n.
- **Dashboard** (`Dashboard.CheckPermissions`, `Dashboard.Dispatch`,
  `Dashboard.Loop`, `Dashboard.Session`): the start-up directory check, the
  one-command dispatch to an abstract outcome, and the loop as a trace of
  outcomes.
- **Text** (`Text`): the Python string behaviour these rely on. That is
  `lower()`, `isdigit()`, `int()`, `str(n)`, `os.path.join`,
  `os.path.basename`, substring `in`, and the string order `sorted()` uses.

Every GitPython call is an input. `Status.RepoFacts` carries what inspection
would report. `Sync.RemoteEnv` says whether `origin` exists and whether pull
or push raises. `Scan.Entry` gives a listed name with its directory tests.
`Dashboard.Round` gives the console replies of one round.

Three behaviours of the code that are easy to misread:

- An inspection step does not always fail on its own. If `is_dirty` raises,
  the whole status is dropped (fleet_ops.py:116, 132-133). If counting
  `ahead` raises after `behind` was counted, `behind` keeps its count
  (fleet_ops.py:127-129).
- With no `origin` remote, a clean repository reports an error, not
  "Already clean". The origin lookup and the clean report are both inside the
  `try` (fleet_ops.py:162-175).
- The `"unknown"` branch default is always overwritten, by the active branch
  name or by `DETACHED` (fleet_ops.py:110-113).

## Model

| member | source | states |
|---|---|---|
| Status.GetGitStatus | fleet_ops.py:95-133 | No record exactly when the repository cannot be opened or the dirty check raises. Otherwise the record has the path and its basename, the active branch or `DETACHED`, and the dirty flag. Ahead and behind are 0 unless the fetch worked, the branch is attached and a tracking branch exists. When they exist, `behind` is the behind count (0 if counting raised) and `ahead` is the ahead count (0 if either count raised), so `behind` survives a failed `ahead` count. |
| Status.WithCounts | fleet_ops.py:119-130 | The sync block changes only the counts. Non-zero counts imply a successful fetch, an attached branch and a tracking branch. With those, `behind` equals the behind count or stays 0 when counting it raised, and `ahead` equals the ahead count only when both counts succeeded, else it stays 0. |
| Status.UntrackedReadsAsSynced | fleet_ops.py:119-130 | A clean repository with no tracking branch or a failed fetch reads exactly like a synced one. |
| Status.Classify | fleet_ops.py:200-211 | Unsaved work iff dirty. Ahead(n) iff clean with n = ahead > 0. Behind(n) iff clean, not ahead, with n = behind > 0. Synced iff nothing pending. |
| Status.LabelText | fleet_ops.py:202-211 | Each label's message is recognisable: "Unsaved Work" and "Synced" are printed for exactly those labels, and the text starts with "Ahead (+" or "Behind (-" exactly for the ahead and behind labels. Those two messages end with the count as a digit string and a closing parenthesis, so "Ahead (+n)" shows n = ahead and "Behind (-n)" shows n = behind. |
| Status.LabelTextInjective | fleet_ops.py:201-211 | Distinct labels never print the same message, so the text determines the state and its count. |
| Sync.RemotePhase | fleet_ops.py:162-175 | The `try` block never stages or commits. A pull, if issued, is its first step. No step repeats. Any error report is last and carries the first step that raised. |
| Sync.SyncRepo | fleet_ops.py:149-175 | A dirty repository starts with stage-all then commit with the given message, whatever the remote does. A pull is issued iff origin exists and behind > 0. A push is issued iff origin exists, the repository is dirty or ahead, and no pull failed before it. "Already clean" is reported iff origin exists and nothing is pending. |
| Sync.CommitPrecedesRemote | fleet_ops.py:155-169 | Staging and commit come before every pull and push. A clean repository is never staged or committed. |
| Sync.PullPrecedesPush | fleet_ops.py:164-169 | When both are issued, the pull comes before the push. |
| Sync.FailureEndsPlan | fleet_ops.py:162-175 | An error is reported iff some remote step raised. It is the last action and names that step, so later steps and the clean report are skipped. No action appears twice. |
| Sync.CleanRepoPlan | fleet_ops.py:155-172 | With nothing pending, the plan is just "Already clean", or just the error when there is no origin. There is no commit, pull or push. |
| Sync.WorkingRemotePlan | fleet_ops.py:155-172 | With a working remote the plan is: commit if dirty, then pull if behind, then push if dirty or ahead, then the clean report if nothing was pending. |
| Sync.DirtyLevelRepoCommitsAndPushes | fleet_ops.py:116-117 | A dirty repository level with its remote inspects as dirty 0/0. Its sync is stage, commit, push, with no pull. |
| Sync.BehindRepoOnlyPulls | fleet_ops.py:126-128 | A clean repository three commits behind inspects as behind 3. Its sync is a single pull. |
| Sync.LabelPredictsPlan | fleet_ops.py:201-211 | With an origin, "Synced" is shown iff a sync would only report clean. "Unsaved Work" is shown iff a sync would commit. "Ahead" with nothing behind means push without pull. |
| Sync.RepoTrace | fleet_ops.py:149-175 | Inside the batch a repository is announced by name first, and the rest of its trace is exactly its `sync_repo` plan, action for action. So it contributes exactly its own name to the announcements. |
| Sync.BatchSync | fleet_ops.py:246-249 | The batch announces every repository exactly once, in list order. A failure in one repository stops nothing. |
| Sync.BatchSyncSplit | fleet_ops.py:248-249 | Inside the batch, the i-th repository gets exactly the trace it would get alone. It sits between the traces of the repositories before and after it. |
| Scan.Inspect | fleet_ops.py:194-196 | A folder is inspected iff it is a directory holding a `.git` directory, and then its status is `get_git_status` of the root joined with its name. The status name is the listed folder name, since basename undoes the path join. |
| Scan.SortByName | fleet_ops.py:192 | `sorted(os.listdir(...))`: the result is a permutation of the listing, in non-decreasing string order. |
| Scan.InsertSorted | fleet_ops.py:192 | Inserting an entry into a name-sorted listing keeps it sorted. |
| Scan.KeptSortPermutes | fleet_ops.py:192-198 | Sorting before filtering changes only the order of the kept statuses, not which are kept or how many times. |
| Scan.KeptMembers | fleet_ops.py:193-198 | A status is kept iff some listed entry qualifies and inspects to it. |
| Scan.KeptSorted | fleet_ops.py:192-198 | Filtering a name-sorted listing yields statuses in name order. |
| Scan.ScanRoot | fleet_ops.py:189-198 | The found repositories are the statuses of the qualifying, cleanly inspected folders, with multiplicity. They are in alphabetical order of folder name. |
| Scan.Rows | fleet_ops.py:198-213 | Row i carries number i+1 (numbers 1..n with no gaps), the repository's name, its branch and its classification. |
| Text.Lower | fleet_ops.py:226 | `.lower()` keeps the length and lowers each character on its own. |
| Text.IntOfDigits | fleet_ops.py:251-252 | A reply `isdigit()` accepts is read by `int()` as its digit value when it has at most 4300 digits (CPython's default limit), so the dashboard's index is `int(choice) - 1`. Past the limit `int()` rejects it. |
| Text.JoinPath | fleet_ops.py:194 | `os.path.join(root, name)` ends with the name; an absolute name replaces the root; otherwise the root is a prefix, and the length shows that exactly one '/' is added between them when the root is non-empty and does not end in one, and none otherwise. |
| Text.Basename | fleet_ops.py:101 | `os.path.basename` returns a suffix of the path with no '/', preceded by a '/' whenever it is shorter than the path. |
| Text.LexLeTotal | fleet_ops.py:192 | Any two folder names are comparable in the order `sorted()` uses. |
| Text.LexLeTransitive | fleet_ops.py:192 | That order is transitive. |
| Text.LexLeAntisymmetric | fleet_ops.py:192 | Two names that each sort no later than the other are equal. |
| Text.LowerIsLetter | fleet_ops.py:226 | After `.lower()` a command equals a given letter iff it was typed in either case. |
| Text.DecimalString | fleet_ops.py:208 | `str(n)` is a non-empty digit string without leading zeros. |
| Text.DigitsValueOfDecimal | fleet_ops.py:251-252 | `int(str(n)) == n` for the digit-only path. |
| Text.DecimalOfDigitsValue | fleet_ops.py:251-252 | A canonical digit string is `str` of its own value. |
| Text.ParseInt | fleet_ops.py:241 | `int()` accepts only replies that contain a digit. The definition also rejects numerals of more than 4300 digits. |
| Text.ParseIntOfDecimal | fleet_ops.py:241 | `int()` reads back a printed number of at most 4300 digits, with surrounding whitespace too. |
| Text.BasenameOfJoin | fleet_ops.py:101 | The basename of root joined with a listed name is that name. |
| Dashboard.CheckPermissions | fleet_ops.py:48-57 | The check passes iff the root exists. The two storage hints are given iff it fails and the device name contains "Mobile". |
| Dashboard.SetupMenu | fleet_ops.py:232-244 | Choice 1 installs the alias. Choice 2 writes a `.gitignore` for repository n when `Text.ParseInt` reads n in 1..count. It is an uncaught input error when the ASCII-only `Text.ParseInt` rejects the reply, including a numeral of more than 4300 digits. Anything else does nothing. |
| Dashboard.Dispatch | fleet_ops.py:226-261 | `q`/`Q` exits and `r`/`R` rescans. `a`/`A` syncs all with "Auto-sync via Fleet Commander". `s`/`S` opens the setup menu. A digit string n of at most 4300 digits syncs one repository iff 1 <= n <= count and the reply is y/Y. That sync uses the typed message, or "Update via Fleet Commander" when it is empty. A longer digit string makes `int()` raise outside any `try`, an input error that ends the program, as does a rejected setup number. |
| Dashboard.ShownNumberSelects | fleet_ops.py:251-261 | Typing the number printed beside repository i and confirming syncs that repository, for any listing short enough that the number is within `int()`'s 4300-digit limit. |
| Dashboard.ShownNumberPicksGitignore | fleet_ops.py:240-243 | The same number given to setup option 2 picks that repository. |
| Dashboard.RoundRepos | fleet_ops.py:187-198 | A round whose listing failed finds no repositories. Otherwise it finds exactly the cleanly inspected Git folders, each as many times as the listing holds it (equal as a multiset to the in-order filter), in name order. |
| Dashboard.Play | fleet_ops.py:187-261 | One round exits iff the command is `q`/`Q`. A repository it selects for a sync or a `.gitignore` is one the round's own scan found, so a failed listing selects nothing. |
| Dashboard.Loop | fleet_ops.py:182-263 | Round k's outcome is what one round does with round k's input. In a session that is a fresh scan followed by the dispatch of the command. The trace stops right after the first exit or input error and never sooner. |
| Dashboard.Session | fleet_ops.py:177-182 | With the root missing the loop is never entered. Otherwise the session is the loop, where every round rescans and then dispatches. |
| Dashboard.QuitEndsSession | fleet_ops.py:226-229 | The first `q` ends the session at that round, unless an earlier round crashed. |

## Left out

- GitPython itself is left out: opening repositories, `is_dirty`, `fetch`, commit counting, `add`, `commit`, `pull` and `push`. Their results are inputs (`RepoFacts`, `RemoteEnv`) and their effects are named actions.
- Sync.SyncRepo: staging and committing are assumed to succeed. In the script they sit outside the `try`, so a raise there would leave `sync_repo` and end the batch and the program. That path is not modelled.
- Terminal output is left out: `os.system('clear')`, icons, padding, the warning texts of `check_permissions`, the "Press Enter" pauses and `show_file_details`. This is presentation.
- `setup_alias` and `create_gitignore` write files. They appear only as the outcomes `InstallAlias` and `WriteGitignore`.
- The device and root detection from `PREFIX` and the GitPython import guard are left out. The device name, root and root existence are parameters.
- `show_git_log` is never called and is left out.
- Text.Lower, Text.IsDigits and Text.ParseInt cover ASCII only. Python's `lower()` and `isdigit()` also act on non-ASCII letters and digits, and `int()` also accepts Unicode digits and whitespace and `_` between digits. None of these can turn a non-ASCII reply into one of the command letters.
- Dashboard.SetupMenu: `int()` also accepts `_` between digits ("1_0" reads 10), non-ASCII digits ("٣" reads 3) and non-ASCII whitespace such as a no-break space around the number. At fleet_ops.py:241 such a reply picks a repository or does nothing, and the loop goes on. The model's ASCII-only `Text.ParseInt` rejects it, so it becomes the input error that ends the session.
- Dashboard.Dispatch: Python's `isdigit()` also accepts non-ASCII digits. A command such as "٣" would select repository 3, and one such as "²" passes `isdigit()` but makes `int()` raise at fleet_ops.py:252, outside any `try`, which ends the program. The model treats both as ignored commands, because its digit tests are ASCII only.
- Console end-of-file (`EOFError` from `input()`) is not modelled. The trace simply ends when the rounds run out.
- Status records do not carry the GitPython `Repo` object. The sync takes the remote's behaviour as an input instead.
- Text.ParseInt: its contract states only that an accepted reply contains a digit. The full grammar (whitespace, sign, digits) is its definition, and Text.ParseIntOfDecimal states the read-back.
