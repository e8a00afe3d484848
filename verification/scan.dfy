/** The scan at the top of the dashboard loop (fleet_ops.py:189-213): list the
    root, sort the names, keep the folders that hold a `.git` directory and
    inspect cleanly, and number them for display. */
module Scan {
  import opened Wrappers
  import Text
  import opened Status

  /** One name from `os.listdir(ROOT_DIR)` with what the filesystem and Git
      would say about it. */
  datatype Entry = Entry(name: string, isDir: bool, hasGitDir: bool, facts: RepoFacts)

  /** Names returned by `os.listdir` never contain a path separator. */
  predicate ListedNames(es: seq<Entry>) {
    forall i :: 0 <= i < |es| ==> '/' !in es[i].name
  }

  /** The status `get_git_status` gives a folder, if it is inspected at all. */
  function Inspect(root: string, e: Entry): (r: Option<RepoStatus>)
    ensures r.Some? ==> e.isDir && e.hasGitDir
    ensures e.isDir && e.hasGitDir ==> r == GetGitStatus(Text.JoinPath(root, e.name), e.facts)
    ensures r.Some? && '/' !in e.name ==> r.value.name == e.name
  {
    if e.isDir && e.hasGitDir then
      var path := Text.JoinPath(root, e.name);
      assert '/' !in e.name ==> Text.Basename(path) == e.name by {
        if '/' !in e.name {
          Text.BasenameOfJoin(root, e.name);
        }
      }
      GetGitStatus(path, e.facts)
    else None
  }

  // ---------------------------------------------------------------------------
  // sorted(os.listdir(...))
  // ---------------------------------------------------------------------------

  predicate SortedByName(es: seq<Entry>) {
    forall i, j :: 0 <= i < j < |es| ==> Text.LexLe(es[i].name, es[j].name)
  }

  function Insert(e: Entry, es: seq<Entry>): (r: seq<Entry>)
    ensures multiset(r) == multiset(es) + multiset{e}
    decreases |es|
  {
    if |es| == 0 || Text.LexLe(e.name, es[0].name) then [e] + es
    else
      assert es == [es[0]] + es[1..];
      [es[0]] + Insert(e, es[1..])
  }

  /** Inserting into a sorted listing keeps it sorted. */
  lemma {:induction false} InsertSorted(e: Entry, es: seq<Entry>)
    requires SortedByName(es)
    ensures SortedByName(Insert(e, es))
    decreases |es|
  {
    var r := Insert(e, es);
    if |es| == 0 {
    } else if Text.LexLe(e.name, es[0].name) {
      forall j | 1 < j < |r|
        ensures Text.LexLe(e.name, r[j].name)
      {
        Text.LexLeTransitive(e.name, es[0].name, es[j - 1].name);
      }
    } else {
      var tail := Insert(e, es[1..]);
      InsertSorted(e, es[1..]);
      Text.LexLeTotal(e.name, es[0].name);
      forall j | 0 <= j < |tail|
        ensures Text.LexLe(es[0].name, tail[j].name)
      {
        assert tail[j] in multiset(tail);
        if tail[j] != e {
          assert tail[j] in multiset(es[1..]);
          var k :| 0 <= k < |es[1..]| && es[1..][k] == tail[j];
          assert es[k + 1] == tail[j];
        }
      }
    }
  }

  /** `sorted(names)`: an insertion sort by name. */
  function SortByName(es: seq<Entry>): (r: seq<Entry>)
    ensures multiset(r) == multiset(es)
    ensures SortedByName(r)
    decreases |es|
  {
    if |es| == 0 then []
    else
      assert es == [es[0]] + es[1..];
      var rest := SortByName(es[1..]);
      InsertSorted(es[0], rest);
      Insert(es[0], rest)
  }

  // ---------------------------------------------------------------------------
  // The filter and the statuses it keeps
  // ---------------------------------------------------------------------------

  /** An inspection of listed entries; the scan uses `e => Inspect(root, e)`.
      The filter lemmas hold for any inspection. */
  type Inspection = Entry -> Option<RepoStatus>

  /** The statuses of the entries the inspection accepts, in the order given:
      the reference the scan is measured against. */
  function Kept(inspect: Inspection, es: seq<Entry>): seq<RepoStatus>
    decreases |es|
  {
    if |es| == 0 then [] else KeptOne(inspect, es[0]) + Kept(inspect, es[1..])
  }

  function KeptOne(inspect: Inspection, e: Entry): seq<RepoStatus> {
    match inspect(e)
    case Some(s) => [s]
    case None => []
  }

  lemma {:induction false} KeptAppend(inspect: Inspection, a: seq<Entry>, b: seq<Entry>)
    ensures Kept(inspect, a + b) == Kept(inspect, a) + Kept(inspect, b)
    decreases |a|
  {
    if |a| > 0 {
      assert (a + b)[0] == a[0];
      assert (a + b)[1..] == a[1..] + b;
      KeptAppend(inspect, a[1..], b);
    } else {
      assert a + b == b;
    }
  }

  lemma {:induction false} KeptInsert(inspect: Inspection, e: Entry, es: seq<Entry>)
    ensures multiset(Kept(inspect, Insert(e, es))) == multiset(Kept(inspect, [e])) + multiset(Kept(inspect, es))
    decreases |es|
  {
    if |es| == 0 || Text.LexLe(e.name, es[0].name) {
      KeptAppend(inspect, [e], es);
    } else {
      KeptAppend(inspect, [es[0]], Insert(e, es[1..]));
      KeptAppend(inspect, [es[0]], es[1..]);
      assert es == [es[0]] + es[1..];
      KeptInsert(inspect, e, es[1..]);
    }
  }

  /** Sorting the listing changes the order of the kept statuses, never which
      ones are kept or how often. */
  lemma {:induction false} KeptSortPermutes(inspect: Inspection, es: seq<Entry>)
    ensures multiset(Kept(inspect, SortByName(es))) == multiset(Kept(inspect, es))
    decreases |es|
  {
    if |es| > 0 {
      KeptSortPermutes(inspect, es[1..]);
      KeptInsert(inspect, es[0], SortByName(es[1..]));
      KeptAppend(inspect, [es[0]], es[1..]);
      assert es == [es[0]] + es[1..];
    }
  }

  /** A status is kept exactly when some listed entry inspects to it. */
  lemma {:induction false} KeptMembers(inspect: Inspection, es: seq<Entry>)
    ensures forall s :: s in Kept(inspect, es) <==> exists e :: e in es && inspect(e) == Some(s)
    decreases |es|
  {
    if |es| > 0 {
      KeptMembers(inspect, es[1..]);
      assert es == [es[0]] + es[1..];
      forall s | exists e :: e in es && inspect(e) == Some(s)
        ensures s in Kept(inspect, es)
      {
        var e :| e in es && inspect(e) == Some(s);
        if e != es[0] {
          assert e in es[1..];
        }
      }
    }
  }

  predicate StatusesSorted(rs: seq<RepoStatus>) {
    forall i, j :: 0 <= i < j < |rs| ==> Text.LexLe(rs[i].name, rs[j].name)
  }

  /** The inspection keeps the listed name of every entry it accepts. */
  predicate KeepsNames(inspect: Inspection, es: seq<Entry>) {
    forall i :: 0 <= i < |es| && inspect(es[i]).Some? ==> inspect(es[i]).value.name == es[i].name
  }

  lemma {:induction false} KeptNamesAbove(inspect: Inspection, es: seq<Entry>, low: string)
    requires KeepsNames(inspect, es)
    requires forall i :: 0 <= i < |es| ==> Text.LexLe(low, es[i].name)
    ensures forall r :: r in Kept(inspect, es) ==> Text.LexLe(low, r.name)
    decreases |es|
  {
    if |es| > 0 {
      KeptNamesAbove(inspect, es[1..], low);
    }
  }

  lemma ConsSorted(first: RepoStatus, rest: seq<RepoStatus>)
    requires StatusesSorted(rest)
    requires forall r :: r in rest ==> Text.LexLe(first.name, r.name)
    ensures StatusesSorted([first] + rest)
  {
  }

  /** Filtering a name-sorted listing keeps the statuses in name order. */
  lemma {:induction false} KeptSorted(inspect: Inspection, es: seq<Entry>)
    requires SortedByName(es) && KeepsNames(inspect, es)
    ensures StatusesSorted(Kept(inspect, es))
    decreases |es|
  {
    if |es| > 0 {
      var tail := es[1..];
      assert SortedByName(tail) && KeepsNames(inspect, tail);
      KeptSorted(inspect, tail);
      var rest := Kept(inspect, tail);
      match inspect(es[0])
      case None =>
        assert Kept(inspect, es) == rest;
      case Some(first) =>
        assert Kept(inspect, es) == [first] + rest;
        forall i | 0 <= i < |tail|
          ensures Text.LexLe(es[0].name, tail[i].name)
        {
          assert tail[i] == es[i + 1];
        }
        KeptNamesAbove(inspect, tail, es[0].name);
        ConsSorted(first, rest);
    }
  }

  /** The scan's inspection of entries under `root`. */
  function InspectUnder(root: string): Inspection {
    e => Inspect(root, e)
  }

  lemma ScanMembers(root: string, listing: seq<Entry>)
    ensures var repos := Kept(InspectUnder(root), SortByName(listing));
            forall s :: s in repos <==> exists e :: e in listing && Inspect(root, e) == Some(s)
  {
    var inspect := InspectUnder(root);
    var sorted := SortByName(listing);
    KeptMembers(inspect, sorted);
    forall e | e in sorted
      ensures e in listing
    {
      assert e in multiset(sorted);
    }
    forall e | e in listing
      ensures e in sorted
    {
      assert e in multiset(listing);
    }
  }

  lemma ScanSorted(root: string, listing: seq<Entry>)
    requires ListedNames(listing)
    ensures StatusesSorted(Kept(InspectUnder(root), SortByName(listing)))
  {
    var sorted := SortByName(listing);
    forall i | 0 <= i < |sorted|
      ensures '/' !in sorted[i].name
    {
      assert sorted[i] in multiset(listing);
    }
    assert KeepsNames(InspectUnder(root), sorted);
    KeptSorted(InspectUnder(root), sorted);
  }

  /** `repos_found`: the statuses of the qualifying folders, in name order.
      Folders that are not directories, have no `.git` directory, or fail
      inspection are left out; the rest are kept, each once. */
  function ScanRoot(root: string, listing: seq<Entry>): (repos: seq<RepoStatus>)
    ensures multiset(repos) == multiset(Kept(InspectUnder(root), listing))
    ensures forall s :: s in repos <==> exists e :: e in listing && Inspect(root, e) == Some(s)
    ensures ListedNames(listing) ==> StatusesSorted(repos)
  {
    KeptSortPermutes(InspectUnder(root), listing);
    ScanMembers(root, listing);
    if ListedNames(listing) then
      ScanSorted(root, listing);
      Kept(InspectUnder(root), SortByName(listing))
    else
      Kept(InspectUnder(root), SortByName(listing))
  }

  // ---------------------------------------------------------------------------
  // Display numbering
  // ---------------------------------------------------------------------------

  /** One dashboard line: number, name, branch and the classified state. */
  datatype Row = Row(number: nat, name: string, branch: string, state: Label)

  /** Each kept repository is printed with `len(repos_found)` just after it
      was appended, so the numbers run 1..n with no gaps. */
  function Rows(repos: seq<RepoStatus>): (rows: seq<Row>)
    ensures |rows| == |repos|
    ensures forall i :: 0 <= i < |rows| ==>
              rows[i].number == i + 1 && rows[i].name == repos[i].name &&
              rows[i].branch == repos[i].branch && rows[i].state == Classify(repos[i])
    decreases |repos|
  {
    if |repos| == 0 then []
    else
      var earlier := Rows(repos[..|repos| - 1]);
      var s := repos[|repos| - 1];
      earlier + [Row(|earlier| + 1, s.name, s.branch, Classify(s))]
  }
}
