/** Commits merged into logical change groups for co-change mining. */
module ChangeGroups {
  import opened Text

  const MERGE_SAME_AUTHOR_GAP_SECONDS: int := 45 * 60
  const MERGE_TICKET_GAP_SECONDS: int := 24 * 60 * 60

  /** `tickets` are the ticket tokens of the subject line. */
  datatype Commit = Commit(timestamp: int, author: string, tickets: set<string>, files: set<string>, isRelease: bool)

  datatype ChangeGroup = ChangeGroup(files: set<string>, timestamp: int, commitCount: nat)

  predicate ShouldMerge(prev: Commit, commit: Commit) {
    var gap := commit.timestamp - prev.timestamp;
    if commit.author == prev.author && gap <= MERGE_SAME_AUTHOR_GAP_SECONDS then true
    else if gap > MERGE_TICKET_GAP_SECONDS then false
    else commit.tickets * prev.tickets != {}
  }

  /** Same author within 45 minutes, or a shared ticket token within 24 hours. */
  lemma MergesAsDocumented(prev: Commit, commit: Commit)
    ensures ShouldMerge(prev, commit) <==>
      || (commit.author == prev.author && commit.timestamp <= prev.timestamp + 2700)
      || (commit.timestamp <= prev.timestamp + 86400 && exists t :: t in commit.tickets && t in prev.tickets)
  {
    if t :| t in commit.tickets && t in prev.tickets {
      assert t in commit.tickets * prev.tickets;
    }
    if commit.tickets * prev.tickets != {} {
      var t :| t in commit.tickets * prev.tickets;
    }
  }

  /** Release commits and commits without files take no part. */
  lemma {:induction false} QualifyingExactly(commits: seq<Commit>, c: Commit)
    ensures c in Qualifying(commits) <==> c in commits && !c.isRelease && exists f :: f in c.files
  {
    if commits != [] {
      var n := |commits| - 1;
      QualifyingExactly(commits[..n], c);
      assert commits == commits[..n] + [commits[n]];
      if c.files != {} {
        var f :| f in c.files;
      }
    }
  }

  predicate Qualifies(c: Commit) { !c.isRelease && c.files != {} }

  function Qualifying(commits: seq<Commit>): seq<Commit> {
    if commits == [] then []
    else
      var n := |commits| - 1;
      Qualifying(commits[..n]) + if Qualifies(commits[n]) then [commits[n]] else []
  }

  // --- Runs ---

  function WithLast(runs: seq<seq<Commit>>, c: Commit): seq<seq<Commit>>
    requires runs != []
  {
    runs[..|runs| - 1] + [runs[|runs| - 1] + [c]]
  }

  /** The commits cut exactly where neighbours do not merge. */
  function RunsOf(commits: seq<Commit>): (runs: seq<seq<Commit>>)
    ensures runs != [] <==> commits != []
  {
    if commits == [] then []
    else
      var n := |commits| - 1;
      var before, c := RunsOf(commits[..n]), commits[n];
      if n > 0 && ShouldMerge(commits[n - 1], c) then WithLast(before, c) else before + [[c]]
  }

  function Flatten(runs: seq<seq<Commit>>): seq<Commit> {
    if runs == [] then [] else Flatten(runs[..|runs| - 1]) + runs[|runs| - 1]
  }

  ghost predicate IsRun(run: seq<Commit>) {
    run != [] && forall i :: 0 < i < |run| ==> ShouldMerge(run[i - 1], run[i])
  }

  /** Two consecutive runs are kept apart by their neighbouring commits. */
  ghost predicate Apart(runs: seq<seq<Commit>>, r: nat)
    requires 0 < r < |runs|
  {
    runs[r - 1] != [] && runs[r] != [] && !ShouldMerge(runs[r - 1][|runs[r - 1]| - 1], runs[r][0])
  }

  function Files(run: seq<Commit>): set<string> { set c, f | c in run && f in c.files :: f }

  ghost predicate IsLatest(run: seq<Commit>, t: int) {
    (exists i :: 0 <= i < |run| && run[i].timestamp == t) && forall i :: 0 <= i < |run| ==> run[i].timestamp <= t
  }

  ghost predicate Summarizes(run: seq<Commit>, g: ChangeGroup) {
    g.files == Files(run) && g.commitCount == |run| && IsLatest(run, g.timestamp)
  }

  /** Group by group, the runs of the qualifying commits. */
  ghost predicate AreGroups(runs: seq<seq<Commit>>, groups: seq<ChangeGroup>) {
    |groups| == |runs| && forall r :: 0 <= r < |runs| ==> Summarizes(runs[r], groups[r])
  }

  function Max(a: int, b: int): int { if a < b then b else a }

  function Extended(g: ChangeGroup, c: Commit): ChangeGroup {
    ChangeGroup(g.files + c.files, Max(g.timestamp, c.timestamp), g.commitCount + 1)
  }

  function Opened(c: Commit): ChangeGroup { ChangeGroup(c.files, c.timestamp, 1) }

  lemma ExtendSummary(run: seq<Commit>, g: ChangeGroup, c: Commit)
    requires Summarizes(run, g)
    ensures Summarizes(run + [c], Extended(g, c))
  {
    var all := run + [c];
    assert Files(all) == g.files + c.files;
    var i :| 0 <= i < |run| && run[i].timestamp == g.timestamp;
    assert all[i].timestamp == g.timestamp && all[|run|].timestamp == c.timestamp;
  }

  lemma OpenSummary(c: Commit)
    ensures Summarizes([c], Opened(c))
  {
    assert Files([c]) == c.files;
    assert [c][0].timestamp == c.timestamp;
  }

  function Closed(groups: seq<ChangeGroup>, current: Option<ChangeGroup>): seq<ChangeGroup> {
    if current.Some? then groups + [current.value] else groups
  }

  lemma JoinGroup(runs: seq<seq<Commit>>, groups: seq<ChangeGroup>, g: ChangeGroup, c: Commit)
    requires AreGroups(runs, groups + [g])
    ensures AreGroups(WithLast(runs, c), groups + [Extended(g, c)])
  {
    var n := |groups|;
    assert (groups + [g])[n] == g;
    ExtendSummary(runs[n], g, c);
    forall r | 0 <= r < n
      ensures Summarizes(runs[r], groups[r])
    {
      assert (groups + [g])[r] == groups[r];
    }
  }

  lemma OpenGroup(runs: seq<seq<Commit>>, groups: seq<ChangeGroup>, c: Commit)
    requires AreGroups(runs, groups)
    ensures AreGroups(runs + [[c]], groups + [Opened(c)])
  {
    OpenSummary(c);
  }

  lemma RunsStep(seen: seq<Commit>, c: Commit)
    ensures RunsOf(seen + [c]) ==
      if seen != [] && ShouldMerge(seen[|seen| - 1], c) then WithLast(RunsOf(seen), c) else RunsOf(seen) + [[c]]
  {
    assert (seen + [c])[..|seen|] == seen;
  }

  /** The state of the loop once `seen` has qualified. */
  ghost predicate Grouping(seen: seq<Commit>, groups: seq<ChangeGroup>, current: Option<ChangeGroup>,
                           prev: Option<Commit>)
  {
    && AreGroups(RunsOf(seen), Closed(groups, current))
    && (current.Some? <==> seen != []) && (seen == [] ==> groups == [])
    && prev == if seen == [] then None else Some(seen[|seen| - 1])
  }

  method BuildChangeGroups(commits: seq<Commit>) returns (groups: seq<ChangeGroup>)
    ensures AreGroups(RunsOf(Qualifying(commits)), groups)
  {
    groups := [];
    var current: Option<ChangeGroup>, prev: Option<Commit> := None, None;
    ghost var seen: seq<Commit> := [];
    for n := 0 to |commits|
      invariant seen == Qualifying(commits[..n])
      invariant Grouping(seen, groups, current, prev)
    {
      var commit := commits[n];
      assert commits[..n + 1][..n] == commits[..n];
      if !commit.isRelease && commit.files != {} {
        RunsStep(seen, commit);
        if current.Some? && prev.Some? && ShouldMerge(prev.value, commit) {
          JoinGroup(RunsOf(seen), groups, current.value, commit);
          current := Some(Extended(current.value, commit));
        } else {
          OpenGroup(RunsOf(seen), Closed(groups, current), commit);
          groups := Closed(groups, current);
          current := Some(Opened(commit));
        }
        prev, seen := Some(commit), seen + [commit];
      }
    }
    assert commits[..|commits|] == commits;
    groups := Closed(groups, current);
  }

  // --- What the runs are ---

  lemma FlattenSnoc(runs: seq<seq<Commit>>, run: seq<Commit>)
    ensures Flatten(runs + [run]) == Flatten(runs) + run
  {
    assert (runs + [run])[..|runs|] == runs;
  }

  /** The runs cut the commits, in order; inside a run neighbours merge, and
      between two runs they do not. */
  ghost predicate Partitions(commits: seq<Commit>, runs: seq<seq<Commit>>) {
    && Flatten(runs) == commits
    && (forall r :: 0 <= r < |runs| ==> IsRun(runs[r]))
    && (forall r :: 0 < r < |runs| ==> Apart(runs, r))
  }

  lemma LastOfRuns(commits: seq<Commit>, runs: seq<seq<Commit>>)
    requires Partitions(commits, runs) && commits != []
    ensures runs != [] && runs[|runs| - 1] != []
    ensures commits[|commits| - 1] == runs[|runs| - 1][|runs[|runs| - 1]| - 1]
  {
    assert IsRun(runs[|runs| - 1]);
  }

  lemma MergeLast(commits: seq<Commit>, runs: seq<seq<Commit>>, c: Commit)
    requires Partitions(commits, runs) && commits != [] && ShouldMerge(commits[|commits| - 1], c)
    ensures runs != [] && Partitions(commits + [c], WithLast(runs, c))
  {
    LastOfRuns(commits, runs);
    var n, after := |runs| - 1, WithLast(runs, c);
    FlattenSnoc(runs[..n], runs[n] + [c]);
    assert Flatten(runs) == Flatten(runs[..n]) + runs[n];
    assert IsRun(runs[n]);
    forall r | 0 < r < |after|
      ensures Apart(after, r)
    {
      assert Apart(runs, r);
    }
  }

  lemma StartApart(runs: seq<seq<Commit>>, c: Commit, r: nat)
    requires 0 < r <= |runs|
    requires r < |runs| ==> Apart(runs, r)
    requires r == |runs| ==> runs[r - 1] != [] && !ShouldMerge(runs[r - 1][|runs[r - 1]| - 1], c)
    ensures Apart(runs + [[c]], r)
  {
    var after := runs + [[c]];
    assert after[r - 1] == runs[r - 1];
    assert after[r] == if r < |runs| then runs[r] else [c];
  }

  lemma StartLast(commits: seq<Commit>, runs: seq<seq<Commit>>, c: Commit)
    requires Partitions(commits, runs) && (commits != [] ==> !ShouldMerge(commits[|commits| - 1], c))
    requires runs == [] <==> commits == []
    ensures Partitions(commits + [c], runs + [[c]])
  {
    var after := runs + [[c]];
    FlattenSnoc(runs, [c]);
    if commits != [] {
      LastOfRuns(commits, runs);
    }
    forall r | 0 <= r < |after|
      ensures IsRun(after[r])
    {
      assert after[r] == if r < |runs| then runs[r] else [c];
    }
    forall r | 0 < r < |after|
      ensures Apart(after, r)
    {
      StartApart(runs, c, r);
    }
  }

  lemma {:induction false} RunsPartition(commits: seq<Commit>)
    ensures Partitions(commits, RunsOf(commits))
  {
    if commits != [] {
      var front, c := commits[..|commits| - 1], commits[|commits| - 1];
      RunsPartition(front);
      assert commits == front + [c];
      if front != [] && ShouldMerge(front[|front| - 1], c) {
        MergeLast(front, RunsOf(front), c);
      } else {
        StartLast(front, RunsOf(front), c);
      }
    }
  }

  // --- Conservation ---

  function Counted(groups: seq<ChangeGroup>): nat {
    if groups == [] then 0 else Counted(groups[..|groups| - 1]) + groups[|groups| - 1].commitCount
  }

  lemma {:induction false} RunsCounted(runs: seq<seq<Commit>>, groups: seq<ChangeGroup>)
    requires AreGroups(runs, groups)
    ensures Counted(groups) == |Flatten(runs)|
  {
    if runs != [] {
      RunsCounted(runs[..|runs| - 1], groups[..|runs| - 1]);
    }
  }

  /** Every qualifying commit is counted in exactly one group. */
  lemma GroupsConserveCommits(commits: seq<Commit>, groups: seq<ChangeGroup>)
    requires AreGroups(RunsOf(Qualifying(commits)), groups)
    ensures Counted(groups) == |Qualifying(commits)|
  {
    RunsPartition(Qualifying(commits));
    RunsCounted(RunsOf(Qualifying(commits)), groups);
  }
}
