/** The dashboard (fleet_ops.py:48-57, 177-263): the start-up directory check,
    then a loop that rescans, reads one command and dispatches it. Console
    input is given as data; the effects of a command are named, not
    performed. */
module Dashboard {
  import opened Wrappers
  import Text
  import opened Status
  import Scan

  const BatchMessage: string := "Auto-sync via Fleet Commander"
  const SingleMessage: string := "Update via Fleet Commander"

  /** What `check_permissions` decides, and the two hints it adds on the
      phone. */
  datatype PermissionReport = PermissionReport(ok: bool, hints: seq<string>)

  const MobileHints: seq<string> := ["1. Check if the folder exists.", "2. Run: termux-setup-storage"]

  function CheckPermissions(rootExists: bool, deviceName: string): (r: PermissionReport)
    ensures r.ok <==> rootExists
    ensures r.hints == (if !rootExists && Text.Contains(deviceName, "Mobile") then MobileHints else [])
  {
    if !rootExists then
      PermissionReport(false, if Text.Contains(deviceName, "Mobile") then MobileHints else [])
    else PermissionReport(true, [])
  }

  /** The answers to the follow-up prompts a command may ask; each is read
      only on the path that asks for it. */
  datatype Replies = Replies(
    setupChoice: string,  // "Select >>" in the setup menu
    repoNumber: string,   // "Repo Number (1-n):" after setup choice 2
    confirm: string,      // "Sync this repo? (y/n):"
    message: string)      // "Enter commit message (or Enter for auto):"

  datatype Outcome =
    | Exit                          // 'q': leave the loop
    | Rescan                        // 'r': straight back to the scan
    | SyncAll(message: string)      // 'a': `sync_repo` on every listed repository
    | SyncOne(index: nat, message: string)
    | InstallAlias                  // setup choice 1: `setup_alias()`
    | WriteGitignore(index: nat)    // setup choice 2: `create_gitignore(...)`
    | InputError                    // setup choice 2 with a reply `int()` rejects: uncaught
    | Ignore                        // anything else: back to the scan

  /** The loop stops at 'q' and at the uncaught ValueError. */
  predicate Ends(o: Outcome) {
    o == Exit || o == InputError
  }

  predicate IsCommand(command: string, letter: char)
    requires 'a' <= letter <= 'z'
  {
    command == [letter] || command == [(letter as int - 32) as char]
  }

  /** The setup submenu: its reply is not lowered, and the repository number
      goes through an unguarded `int()`. */
  function SetupMenu(replies: Replies, count: nat): (o: Outcome)
    ensures o == InstallAlias <==> replies.setupChoice == "1"
    ensures o == InputError <==> replies.setupChoice == "2" && Text.ParseInt(replies.repoNumber).None?
    ensures o.WriteGitignore? <==>
              replies.setupChoice == "2" && Text.ParseInt(replies.repoNumber).Some? &&
              1 <= Text.ParseInt(replies.repoNumber).value <= count
    ensures o.WriteGitignore? ==> o.index < count && o.index + 1 == Text.ParseInt(replies.repoNumber).value
    ensures o in {InstallAlias, InputError, Ignore} || o.WriteGitignore?
  {
    if replies.setupChoice == "1" then InstallAlias
    else if replies.setupChoice == "2" then
      match Text.ParseInt(replies.repoNumber)
      case None => InputError
      case Some(n) =>
        var idx := n - 1;
        if 0 <= idx < count then WriteGitignore(idx) else Ignore
    else Ignore
  }

  /** One pass of the command dispatch on the repositories just scanned. */
  function Dispatch(command: string, replies: Replies, repos: seq<RepoStatus>): (o: Outcome)
    ensures o == Exit <==> IsCommand(command, 'q')
    ensures o == Rescan <==> IsCommand(command, 'r')
    ensures o.SyncAll? <==> IsCommand(command, 'a')
    ensures o.SyncAll? ==> o.message == BatchMessage
    ensures o == InputError <==>
              (IsCommand(command, 's') && SetupMenu(replies, |repos|) == InputError) ||
              (Text.IsDigits(command) && |command| > Text.MaxIntDigits)
    ensures o.SyncOne? <==>
              Text.IsDigits(command) && |command| <= Text.MaxIntDigits &&
              1 <= Text.DigitsValue(command) <= |repos| &&
              Text.Lower(replies.confirm) == "y"
    ensures o.SyncOne? ==>
              o.index < |repos| && o.index + 1 == Text.DigitsValue(command) &&
              o.message == (if replies.message == "" then SingleMessage else replies.message) &&
              o.message != ""
    ensures (o == InstallAlias || o.WriteGitignore?) ==> IsCommand(command, 's')
    ensures IsCommand(command, 's') ==> o == SetupMenu(replies, |repos|)
  {
    Text.LowerIsLetter(command, 'q');
    Text.LowerIsLetter(command, 'r');
    Text.LowerIsLetter(command, 's');
    Text.LowerIsLetter(command, 'a');
    Text.LowerOfDigits(command);
    var choice := Text.Lower(command);
    if choice == "q" then Exit
    else if choice == "r" then Rescan
    else if choice == "s" then SetupMenu(replies, |repos|)
    else if choice == "a" then SyncAll(BatchMessage)
    else if Text.IsDigits(choice) && |choice| > Text.MaxIntDigits then InputError
    else if Text.IsDigits(choice) then
      var idx := Text.DigitsValue(choice) - 1;
      if 0 <= idx < |repos| then
        if Text.Lower(replies.confirm) == "y" then
          SyncOne(idx, if replies.message == "" then SingleMessage else replies.message)
        else Ignore
      else Ignore
    else Ignore
  }

  /** Typing the number printed in front of a repository, and confirming,
      syncs that repository. */
  lemma ShownNumberSelects(repos: seq<RepoStatus>, i: nat, replies: Replies)
    requires i < |repos| && Text.Lower(replies.confirm) == "y"
    requires |Text.DecimalString(i + 1)| <= Text.MaxIntDigits
    ensures Scan.Rows(repos)[i].number == i + 1
    ensures Dispatch(Text.DecimalString(i + 1), replies, repos) ==
              SyncOne(i, if replies.message == "" then SingleMessage else replies.message)
  {
    var numeral := Text.DecimalString(i + 1);
    Text.DigitsValueOfDecimal(i + 1);
    assert Text.IsDigit(numeral[0]);
    var o := Dispatch(numeral, replies, repos);
    assert o.SyncOne?;
  }

  /** The same number given to the setup menu's second option picks that
      repository for the `.gitignore` helper. */
  lemma ShownNumberPicksGitignore(repos: seq<RepoStatus>, i: nat, replies: Replies)
    requires i < |repos| && |Text.DecimalString(i + 1)| <= Text.MaxIntDigits
    ensures Dispatch("s", replies.(setupChoice := "2", repoNumber := Text.DecimalString(i + 1)), repos) ==
              WriteGitignore(i)
  {
    var asked := replies.(setupChoice := "2", repoNumber := Text.DecimalString(i + 1));
    SetupNumberPicks(asked, |repos|, i);
    assert IsCommand("s", 's');
  }

  lemma SetupNumberPicks(replies: Replies, count: nat, i: nat)
    requires i < count && |Text.DecimalString(i + 1)| <= Text.MaxIntDigits
    requires replies.setupChoice == "2" && replies.repoNumber == Text.DecimalString(i + 1)
    ensures SetupMenu(replies, count) == WriteGitignore(i)
  {
    Text.ParseIntOfNumeral(i + 1);
    var o := SetupMenu(replies, count);
    assert o.WriteGitignore? && o.index + 1 == i + 1;
  }

  // ---------------------------------------------------------------------------
  // The loop
  // ---------------------------------------------------------------------------

  /** One trip round the loop: what `os.listdir` gave (None when the root has
      gone or listing raised OSError), the command typed, and the replies. */
  datatype Round = Round(listing: Option<seq<Scan.Entry>>, command: string, replies: Replies)

  /** The repositories a round's scan finds: none when the listing failed,
      otherwise the cleanly inspected Git folders in name order. */
  function RoundRepos(root: string, listing: Option<seq<Scan.Entry>>): (repos: seq<RepoStatus>)
    ensures listing.None? ==> repos == []
    ensures listing.Some? ==> multiset(repos) == multiset(Scan.Kept(Scan.InspectUnder(root), listing.value))
    ensures listing.Some? ==>
              forall s :: s in repos <==> exists e :: e in listing.value && Scan.Inspect(root, e) == Some(s)
    ensures listing.Some? && Scan.ListedNames(listing.value) ==> Scan.StatusesSorted(repos)
  {
    match listing
    case None => []
    case Some(entries) => Scan.ScanRoot(root, entries)
  }

  /** One round: rescan, then dispatch the command on what was found. */
  function Play(root: string, round: Round): (o: Outcome)
    ensures o == Exit <==> IsCommand(round.command, 'q')
    ensures o.SyncOne? ==> o.index < |RoundRepos(root, round.listing)|
    ensures o.WriteGitignore? ==> o.index < |RoundRepos(root, round.listing)|
    ensures round.listing.None? ==> !o.SyncOne? && !o.WriteGitignore?
  {
    Dispatch(round.command, round.replies, RoundRepos(root, round.listing))
  }

  function PlayUnder(root: string): Round -> Outcome {
    round => Play(root, round)
  }

  /** The outcomes of successive rounds, up to and including the one that
      ends the loop; `play` is what one round does. */
  function Loop(play: Round -> Outcome, rounds: seq<Round>): (trace: seq<Outcome>)
    ensures |trace| <= |rounds|
    ensures forall k :: 0 <= k < |trace| ==> trace[k] == play(rounds[k])
    ensures forall k :: 0 <= k < |trace| - 1 ==> !Ends(trace[k])
    ensures |trace| < |rounds| ==> |trace| > 0 && Ends(trace[|trace| - 1])
    decreases |rounds|
  {
    if |rounds| == 0 then []
    else
      var o := play(rounds[0]);
      if Ends(o) then [o]
      else
        var rest := Loop(play, rounds[1..]);
        assert forall k :: 0 < k <= |rest| ==> rounds[1..][k - 1] == rounds[k];
        [o] + rest
  }

  /** `main_dashboard()`: without the root directory the loop is never
      entered. */
  function Session(rootExists: bool, deviceName: string, root: string, rounds: seq<Round>): (trace: seq<Outcome>)
    ensures !rootExists ==> trace == []
    ensures rootExists ==> trace == Loop(PlayUnder(root), rounds)
  {
    if !CheckPermissions(rootExists, deviceName).ok then [] else Loop(PlayUnder(root), rounds)
  }

  /** The first 'q' (when no earlier setup reply crashed the loop) is the
      last round played. */
  lemma QuitEndsSession(root: string, rounds: seq<Round>, k: nat)
    requires k < |rounds| && IsCommand(rounds[k].command, 'q')
    requires forall m :: 0 <= m < k ==> !Ends(Play(root, rounds[m]))
    ensures |Loop(PlayUnder(root), rounds)| == k + 1
    ensures Loop(PlayUnder(root), rounds)[k] == Exit
  {
    assert Play(root, rounds[k]) == Exit;
    FirstEndStops(PlayUnder(root), rounds, k);
  }

  lemma FirstEndStops(play: Round -> Outcome, rounds: seq<Round>, k: nat)
    requires k < |rounds| && Ends(play(rounds[k]))
    requires forall m :: 0 <= m < k ==> !Ends(play(rounds[m]))
    ensures |Loop(play, rounds)| == k + 1
    ensures Loop(play, rounds)[k] == play(rounds[k])
  {
  }
}
