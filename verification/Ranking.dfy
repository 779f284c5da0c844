/** Merging, ranking and pruning of co-change candidates. */
module Ranking {
  import opened Text
  import opened Sorting
  import opened Scoring

  const DOC_ONLY_DAMPER: real := 0.78
  const SUBSET_KEEP_RATIO: real := 0.75
  const DOC_BACKED_SIGNALS: set<string> := {"commit-messages", "sync-comments"}

  /** A candidate's locations count by the set of their paths. */
  datatype Candidate = Candidate(paths: set<string>, score: real, signal: string)

  datatype Group = Group(paths: set<string>, members: seq<Candidate>)

  datatype Ranked = Ranked(paths: set<string>, score: real, signals: set<string>, best: Candidate)

  /** Locale comparison of signal names, and of joined path lists, is left open:
      any total preorders will do. */
  datatype Orders = Orders(signalLe: (string, string) -> bool, pathsLe: (set<string>, set<string>) -> bool)

  /** The grouping key of the original: the sorted distinct paths, joined by NUL. */
  function PathKey(paths: seq<string>): string { Join(paths, '\0') }

  /** Paths hold no NUL, so the key stands for the set of paths. */
  lemma PathKeyIsSet(a: seq<string>, b: seq<string>, lt: (string, string) -> bool)
    requires Asymmetric(lt) && StrictlyAscending(a, lt) && StrictlyAscending(b, lt) && a != [] && b != []
    requires (forall i :: 0 <= i < |a| ==> '\0' !in a[i]) && (forall i :: 0 <= i < |b| ==> '\0' !in b[i])
    ensures PathKey(a) == PathKey(b) <==> forall path :: path in a <==> path in b
  {
    if PathKey(a) == PathKey(b) {
      JoinInjective(a, b, '\0');
    }
    if forall path :: path in a <==> path in b {
      StrictlyAscendingUnique(a, b, lt);
    }
  }

  predicate IsExcluded(path: string, exclude: seq<string>) {
    exists i :: 0 <= i < |exclude| && (path == exclude[i] || exclude[i] + "/" <= path)
  }

  ghost predicate NamesExcluded(c: Candidate, exclude: seq<string>) {
    exists path :: path in c.paths && IsExcluded(path, exclude)
  }

  /** A prefix excludes itself and everything below it. */
  lemma ExcludedExactly(path: string, exclude: seq<string>)
    ensures IsExcluded(path, exclude) <==>
      exists prefix :: prefix in exclude && (path == prefix || exists rest :: path == prefix + "/" + rest)
  {
    if IsExcluded(path, exclude) {
      var i :| 0 <= i < |exclude| && (path == exclude[i] || exclude[i] + "/" <= path);
      if path != exclude[i] {
        assert path == exclude[i] + "/" + path[|exclude[i]| + 1..];
      }
    }
    if prefix :| prefix in exclude && (path == prefix || exists rest :: path == prefix + "/" + rest) {
      var i :| 0 <= i < |exclude| && exclude[i] == prefix;
      if path != prefix {
        var rest :| path == prefix + "/" + rest;
        assert exclude[i] + "/" <= path;
      }
    }
  }

  // --- Grouping by path set ---

  /** The members of a path set, in order of occurrence. */
  function Members(candidates: seq<Candidate>, n: nat, paths: set<string>): seq<Candidate>
    requires n <= |candidates|
  {
    if n == 0 then []
    else Members(candidates, n - 1, paths) + if candidates[n - 1].paths == paths then [candidates[n - 1]] else []
  }

  ghost predicate HasGroup(groups: seq<Group>, paths: set<string>) {
    exists g :: 0 <= g < |groups| && groups[g].paths == paths
  }

  /** One group for each set of two or more paths, with all its candidates. */
  ghost predicate Groups(candidates: seq<Candidate>, n: nat, groups: seq<Group>)
    requires n <= |candidates|
  {
    && (forall g, h :: 0 <= g < h < |groups| ==> groups[g].paths != groups[h].paths)
    && (forall g :: 0 <= g < |groups| ==>
      groups[g].members == Members(candidates, n, groups[g].paths) && groups[g].members != [])
    && (forall paths :: HasGroup(groups, paths) <==> |paths| >= 2 && Members(candidates, n, paths) != [])
  }

  method FindGroup(groups: seq<Group>, paths: set<string>) returns (g: nat)
    ensures g <= |groups| && forall h :: 0 <= h < g ==> groups[h].paths != paths
    ensures g < |groups| ==> groups[g].paths == paths
  {
    g := 0;
    while g < |groups| && groups[g].paths != paths
      invariant g <= |groups| && forall h :: 0 <= h < g ==> groups[h].paths != paths
      decreases |groups| - g
    {
      g := g + 1;
    }
  }

  lemma GroupJoined(candidates: seq<Candidate>, n: nat, groups: seq<Group>, g: nat)
    requires n < |candidates| && Groups(candidates, n, groups) && g < |groups| && groups[g].paths == candidates[n].paths
    ensures Groups(candidates, n + 1, groups[g := Group(groups[g].paths, groups[g].members + [candidates[n]])])
  {
    var after := groups[g := Group(groups[g].paths, groups[g].members + [candidates[n]])];
    assert HasGroup(groups, candidates[n].paths);
    forall paths
      ensures HasGroup(after, paths) <==> |paths| >= 2 && Members(candidates, n + 1, paths) != []
    {
      assert HasGroup(groups, paths) <==> HasGroup(after, paths) by {
        SamePaths(groups, after, paths);
        SamePaths(after, groups, paths);
      }
    }
  }

  lemma SamePaths(a: seq<Group>, b: seq<Group>, paths: set<string>)
    requires |a| == |b| && forall g :: 0 <= g < |a| ==> a[g].paths == b[g].paths
    ensures HasGroup(a, paths) ==> HasGroup(b, paths)
  {
    if HasGroup(a, paths) {
      var g :| 0 <= g < |a| && a[g].paths == paths;
      assert b[g].paths == paths;
    }
  }

  lemma HasGroupAppended(groups: seq<Group>, g: Group, paths: set<string>)
    ensures HasGroup(groups + [g], paths) <==> HasGroup(groups, paths) || paths == g.paths
  {
    if HasGroup(groups, paths) {
      var h :| 0 <= h < |groups| && groups[h].paths == paths;
      assert (groups + [g])[h].paths == paths;
    }
    assert (groups + [g])[|groups|].paths == g.paths;
  }

  lemma GroupOpened(candidates: seq<Candidate>, n: nat, groups: seq<Group>)
    requires n < |candidates| && Groups(candidates, n, groups)
    requires |candidates[n].paths| >= 2 && !HasGroup(groups, candidates[n].paths)
    ensures Groups(candidates, n + 1, groups + [Group(candidates[n].paths, [candidates[n]])])
  {
    var c := candidates[n];
    var after := groups + [Group(c.paths, [c])];
    assert Members(candidates, n, c.paths) == [];
    forall paths
      ensures HasGroup(after, paths) <==> HasGroup(groups, paths) || paths == c.paths
    {
      HasGroupAppended(groups, Group(c.paths, [c]), paths);
    }
    forall g | 0 <= g < |groups|
      ensures groups[g].paths != c.paths
    {
    }
  }

  lemma GroupSkipped(candidates: seq<Candidate>, n: nat, groups: seq<Group>)
    requires n < |candidates| && Groups(candidates, n, groups) && |candidates[n].paths| < 2
    ensures Groups(candidates, n + 1, groups)
  {
    forall g | 0 <= g < |groups|
      ensures groups[g].paths != candidates[n].paths
    {
      assert HasGroup(groups, groups[g].paths);
    }
  }

  /** One more candidate joins its group, opens one, or names too few paths. */
  method AddToGroups(candidates: seq<Candidate>, n: nat, groups: seq<Group>) returns (after: seq<Group>)
    requires n < |candidates| && Groups(candidates, n, groups)
    ensures Groups(candidates, n + 1, after)
  {
    var c := candidates[n];
    if |c.paths| < 2 {
      GroupSkipped(candidates, n, groups);
      return groups;
    }
    var g := FindGroup(groups, c.paths);
    if g < |groups| {
      GroupJoined(candidates, n, groups, g);
      after := groups[g := Group(groups[g].paths, groups[g].members + [c])];
    } else {
      GroupOpened(candidates, n, groups);
      after := groups + [Group(c.paths, [c])];
    }
  }

  /** An excluded path is a signal bug and fails the whole merge. */
  method GroupByPaths(candidates: seq<Candidate>, exclude: seq<string>) returns (r: Option<seq<Group>>)
    ensures r.None? <==> exists i :: 0 <= i < |candidates| && NamesExcluded(candidates[i], exclude)
    ensures r.Some? ==> Groups(candidates, |candidates|, r.value)
  {
    var groups: seq<Group> := [];
    for n := 0 to |candidates|
      invariant forall i :: 0 <= i < n ==> !NamesExcluded(candidates[i], exclude)
      invariant Groups(candidates, n, groups)
    {
      var bad := AnyExcluded(candidates[n], exclude);
      if bad {
        return None;
      }
      groups := AddToGroups(candidates, n, groups);
    }
    r := Some(groups);
  }

  method AnyExcluded(c: Candidate, exclude: seq<string>) returns (bad: bool)
    ensures bad <==> NamesExcluded(c, exclude)
  {
    var rest := c.paths;
    while rest != {}
      invariant rest <= c.paths
      invariant forall path :: path in c.paths && path !in rest ==> !IsExcluded(path, exclude)
      decreases rest
    {
      var path :| path in rest;
      if IsExcluded(path, exclude) {
        return true;
      }
      rest := rest - {path};
    }
    bad := false;
  }

  // --- Scoring a group ---

  function MemberLe(o: Orders): (Candidate, Candidate) -> bool {
    (a: Candidate, b: Candidate) => a.score > b.score || (a.score == b.score && o.signalLe(a.signal, b.signal))
  }

  function Scores(members: seq<Candidate>): (s: seq<real>)
    ensures |s| == |members| && forall i :: 0 <= i < |members| ==> s[i] == members[i].score
  {
    seq(|members|, i requires 0 <= i < |members| => members[i].score)
  }

  predicate EndsWith(path: string, suffix: string) { |suffix| <= |path| && path[|path| - |suffix|..] == suffix }

  predicate DocOnly(paths: set<string>) {
    forall path :: path in paths ==> EndsWith(path, ".md") || EndsWith(path, ".mdx")
  }

  function Damped(score: real, paths: set<string>, signals: set<string>): real {
    if DocOnly(paths) && signals * DOC_BACKED_SIGNALS == {} then score * DOC_ONLY_DAMPER else score
  }

  function Signals(members: seq<Candidate>): set<string> { set m | m in members :: m.signal }

  function Undamped(g: Group, o: Orders): real { Capped(NoisyOr(Scores(Sort(g.members, MemberLe(o))))) }

  function RankedGroup(g: Group, o: Orders): Ranked
    requires g.members != []
  {
    SortPermutes(g.members, MemberLe(o));
    Ranked(g.paths, Damped(Undamped(g, o), g.paths, Signals(g.members)), Signals(g.members),
      Sort(g.members, MemberLe(o))[0])
  }

  /** A file of prose: it is named something dot `md` or dot `mdx`. */
  ghost predicate IsDoc(path: string) { exists stem :: path == stem + ".md" || path == stem + ".mdx" }

  lemma DocEnds(path: string)
    ensures IsDoc(path) <==> EndsWith(path, ".md") || EndsWith(path, ".mdx")
  {
    if EndsWith(path, ".md") {
      assert path == path[..|path| - 3] + ".md";
    }
    if EndsWith(path, ".mdx") {
      assert path == path[..|path| - 4] + ".mdx";
    }
    if stem :| path == stem + ".md" || path == stem + ".mdx" {
      assert path[|stem|..] == ".md" || path[|stem|..] == ".mdx";
    }
  }

  /** A group of documents alone, without backing from commit messages or sync
      comments, counts for 78 percent; its leading member is the strongest. */
  lemma RankedExactly(g: Group, o: Orders)
    requires Lawful(o) && g.members != []
    ensures var x := RankedGroup(g, o);
      && x.paths == g.paths
      && (forall signal :: signal in x.signals <==> exists m :: m in g.members && m.signal == signal)
      && x.best in g.members && (forall m :: m in g.members ==> x.best.score >= m.score)
      && (forall m :: m in g.members && m.score == x.best.score ==> o.signalLe(x.best.signal, m.signal))
      && x.score == Undamped(g, o) *
           if (forall path :: path in g.paths ==> IsDoc(path)) &&
              forall m :: m in g.members ==> m.signal != "commit-messages" && m.signal != "sync-comments"
           then 0.78 else 1.0
  {
    var ms := Sort(g.members, MemberLe(o));
    SortPermutes(g.members, MemberLe(o));
    MemberLePreorder(o);
    SortSorted(g.members, MemberLe(o));
    assert ms[0] in ms;
    forall m | m in g.members
      ensures MemberLe(o)(ms[0], m)
    {
      var i :| 0 <= i < |ms| && ms[i] == m;
      assert i > 0 ==> MemberLe(o)(ms[0], ms[i]);
      assert MemberLe(o)(m, m);
    }
    DampedExactly(Undamped(g, o), g.paths, g.members);
  }

  lemma DampedExactly(score: real, paths: set<string>, members: seq<Candidate>)
    ensures Damped(score, paths, Signals(members)) == score *
      if (forall path :: path in paths ==> IsDoc(path)) &&
         forall m :: m in members ==> m.signal != "commit-messages" && m.signal != "sync-comments"
      then 0.78 else 1.0
  {
    forall path
      ensures IsDoc(path) <==> EndsWith(path, ".md") || EndsWith(path, ".mdx")
    {
      DocEnds(path);
    }
    var signals := Signals(members);
    if m :| m in members && (m.signal == "commit-messages" || m.signal == "sync-comments") {
      assert m.signal in signals * DOC_BACKED_SIGNALS;
    } else {
      assert signals * DOC_BACKED_SIGNALS == {};
    }
  }

  ghost predicate Lawful(o: Orders) { TotalPreorder(o.signalLe) && TotalPreorder(o.pathsLe) }

  lemma MemberLePreorder(o: Orders)
    requires Lawful(o)
    ensures TotalPreorder(MemberLe(o))
  {
    var le, on := MemberLe(o), o.signalLe;
    forall a, b
      ensures le(a, b) || le(b, a)
    {
      assert on(a.signal, b.signal) || on(b.signal, a.signal);
    }
    forall a, b, c | le(a, b) && le(b, c)
      ensures le(a, c)
    {
      assert on(a.signal, b.signal) && on(b.signal, c.signal) ==> on(a.signal, c.signal);
    }
  }

  lemma ScoresConcat(x: seq<Candidate>, y: seq<Candidate>)
    ensures Scores(x + y) == Scores(x) + Scores(y)
  {
  }

  lemma RemoveMember<T>(b: seq<T>, i: nat, rest: seq<T>)
    requires i < |b| && rest == b[..i] + b[i + 1..]
    ensures multiset(b) == multiset(rest) + multiset{b[i]} && multiset(rest) == multiset(b) - multiset{b[i]}
  {
    assert b == b[..i] + [b[i]] + b[i + 1..];
    assert multiset(b) == multiset(b[..i]) + multiset{b[i]} + multiset(b[i + 1..]);
  }

  lemma RemoveScore(b: seq<Candidate>, i: nat, rest: seq<Candidate>)
    requires i < |b| && rest == b[..i] + b[i + 1..]
    ensures multiset(Scores(b)) == multiset(Scores(rest)) + multiset{b[i].score}
  {
    ScoresConcat(b[..i], b[i + 1..]);
    assert Scores(b)[..i] == Scores(b[..i]) && Scores(b)[i + 1..] == Scores(b[i + 1..]);
    RemoveMember(Scores(b), i, Scores(rest));
  }

  lemma {:induction false} ScoresPermute(a: seq<Candidate>, b: seq<Candidate>)
    requires multiset(a) == multiset(b)
    ensures multiset(Scores(a)) == multiset(Scores(b))
    decreases |a|
  {
    assert |a| == |multiset(a)| == |multiset(b)| == |b|;
    if a != [] {
      assert a[0] in multiset(b);
      var i :| 0 <= i < |b| && b[i] == a[0];
      var s, t := a[..0] + a[1..], b[..i] + b[i + 1..];
      RemoveMember(a, 0, s);
      RemoveMember(b, i, t);
      ScoresPermute(s, t);
      RemoveScore(a, 0, s);
      RemoveScore(b, i, t);
    } else {
      assert Scores(a) == Scores(b);
    }
  }

  ghost predicate ScoredMembers(members: seq<Candidate>) {
    forall i :: 0 <= i < |members| ==> 0.0 <= members[i].score <= 1.0
  }

  lemma SortedScores(g: Group, o: Orders)
    requires Lawful(o) && ScoredMembers(g.members)
    ensures var s := Scores(Sort(g.members, MemberLe(o)));
      AreScores(s) && Sorted(s, Ge) && multiset(s) == multiset(Scores(g.members))
  {
    var ms := Sort(g.members, MemberLe(o));
    MemberLePreorder(o);
    SortSorted(g.members, MemberLe(o));
    SortPermutes(g.members, MemberLe(o));
    ScoresPermute(ms, g.members);
    forall i | 0 <= i < |ms|
      ensures 0.0 <= ms[i].score <= 1.0
    {
      assert ms[i] in g.members;
    }
    forall i, j | 0 <= i < j < |ms|
      ensures ms[i].score >= ms[j].score
    {
      assert MemberLe(o)(ms[i], ms[j]);
    }
  }

  /** A group scores at least what each of its members scores, up to the ceiling. */
  lemma GroupScoreBounds(g: Group, o: Orders, i: nat)
    requires Lawful(o) && ScoredMembers(g.members) && i < |g.members|
    ensures Capped(g.members[i].score) <= Undamped(g, o) <= MAX_MERGED_SCORE
  {
    var ms := Sort(g.members, MemberLe(o));
    SortedScores(g, o);
    SortPermutes(g.members, MemberLe(o));
    assert g.members[i] in ms;
    var j :| 0 <= j < |ms| && ms[j] == g.members[i];
    assert j > 0 ==> Ge(Scores(ms)[0], Scores(ms)[j]);
    ScoreBounds(Scores(ms));
  }

  lemma RankedNonNegative(g: Group, o: Orders)
    requires Lawful(o) && ScoredMembers(g.members) && g.members != []
    ensures 0.0 <= RankedGroup(g, o).score <= MAX_MERGED_SCORE
  {
    GroupScoreBounds(g, o, 0);
  }

  /** Taking the members strongest first gives the highest score of any order. */
  lemma StrongestFirstIsBest(g: Group, o: Orders, other: seq<Candidate>)
    requires Lawful(o) && ScoredMembers(g.members) && multiset(other) == multiset(g.members)
    ensures NoisyOr(Scores(other)) <= NoisyOr(Scores(Sort(g.members, MemberLe(o))))
  {
    SortedScores(g, o);
    ScoresPermute(other, g.members);
    forall i | 0 <= i < |other|
      ensures 0.0 <= other[i].score <= 1.0
    {
      assert other[i] in multiset(g.members);
    }
    DescendingIsBest(Scores(Sort(g.members, MemberLe(o))), Scores(other));
  }

  predicate AtMost98(s: real, total: real) { s == if total > 0.98 then 0.98 else total }

  /** The score before damping is the best any arrangement of the members earns, cut
      off at 98 percent. */
  lemma UndampedExactly(g: Group, o: Orders, s: real)
    requires Lawful(o) && ScoredMembers(g.members)
    ensures Undamped(g, o) == s <==> exists order: seq<Candidate> ::
      && multiset(order) == multiset(g.members) && AtMost98(s, NoisyOr(Scores(order)))
      && forall other: seq<Candidate> :: multiset(other) == multiset(g.members) ==>
           NoisyOr(Scores(other)) <= NoisyOr(Scores(order))
  {
    hide NoisyOr;
    var ms := Sort(g.members, MemberLe(o));
    SortPermutes(g.members, MemberLe(o));
    forall other: seq<Candidate> | multiset(other) == multiset(g.members)
      ensures NoisyOr(Scores(other)) <= NoisyOr(Scores(ms))
    {
      StrongestFirstIsBest(g, o, other);
    }
    assert AtMost98(Undamped(g, o), NoisyOr(Scores(ms)));
  }

  // --- Ranking and pruning ---

  function RankedLe(o: Orders): (Ranked, Ranked) -> bool {
    (a: Ranked, b: Ranked) => a.score > b.score || (a.score == b.score && o.pathsLe(a.paths, b.paths))
  }

  lemma RankedLePreorder(o: Orders)
    requires Lawful(o)
    ensures TotalPreorder(RankedLe(o))
  {
    var le, on := RankedLe(o), o.pathsLe;
    forall a, b
      ensures le(a, b) || le(b, a)
    {
      assert on(a.paths, b.paths) || on(b.paths, a.paths);
    }
    forall a, b, c | le(a, b) && le(b, c)
      ensures le(a, c)
    {
      assert on(a.paths, b.paths) && on(b.paths, c.paths) ==> on(a.paths, c.paths);
    }
  }

  ghost predicate Descending(s: seq<Ranked>) {
    forall i, j :: 0 <= i < j < |s| ==> s[i].score >= s[j].score
  }

  lemma RankedDescends(s: seq<Ranked>, o: Orders)
    requires Lawful(o)
    ensures Descending(Sort(s, RankedLe(o)))
  {
    var r := Sort(s, RankedLe(o));
    RankedLePreorder(o);
    SortSorted(s, RankedLe(o));
    forall i, j | 0 <= i < j < |r|
      ensures r[i].score >= r[j].score
    {
      assert RankedLe(o)(r[i], r[j]);
    }
  }

  predicate Related(a: Ranked, b: Ranked) { a.paths <= b.paths || b.paths <= a.paths }

  /** `a` is a weak duplicate of the stronger `b`. */
  predicate Overshadowed(a: Ranked, b: Ranked) { Related(a, b) && a.score < SUBSET_KEEP_RATIO * b.score }

  predicate Dropped(c: Ranked, kept: seq<Ranked>) {
    exists k :: 0 <= k < |kept| && Overshadowed(c, kept[k])
  }

  function Prune(s: seq<Ranked>, n: nat): seq<Ranked>
    requires n <= |s|
  {
    if n == 0 then []
    else
      var kept := Prune(s, n - 1);
      if Dropped(s[n - 1], kept) then kept else kept + [s[n - 1]]
  }

  function AtLeast(s: seq<Ranked>, n: nat, minScore: real): seq<Ranked>
    requires n <= |s|
  {
    if n == 0 then [] else AtLeast(s, n - 1, minScore) + if s[n - 1].score >= minScore then [s[n - 1]] else []
  }

  function Take(s: seq<Ranked>, n: nat): seq<Ranked> { if |s| <= n then s else s[..n] }

  method IsDropped(c: Ranked, kept: seq<Ranked>) returns (drop: bool)
    ensures drop <==> Dropped(c, kept)
  {
    for k := 0 to |kept|
      invariant forall j :: 0 <= j < k ==> !Overshadowed(c, kept[j])
    {
      if (c.paths <= kept[k].paths || kept[k].paths <= c.paths) && c.score < SUBSET_KEEP_RATIO * kept[k].score {
        return true;
      }
    }
    drop := false;
  }

  method PruneRanked(merged: seq<Ranked>) returns (kept: seq<Ranked>)
    ensures kept == Prune(merged, |merged|)
  {
    kept := [];
    for n := 0 to |merged|
      invariant kept == Prune(merged, n)
    {
      var drop := IsDropped(merged[n], kept);
      if !drop {
        kept := kept + [merged[n]];
      }
    }
  }

  function RankAll(groups: seq<Group>, n: nat, o: Orders): seq<Ranked>
    requires n <= |groups| && forall g :: 0 <= g < n ==> groups[g].members != []
  {
    if n == 0 then [] else RankAll(groups, n - 1, o) + [RankedGroup(groups[n - 1], o)]
  }

  method ScoreGroups(groups: seq<Group>, o: Orders) returns (merged: seq<Ranked>)
    requires forall g :: 0 <= g < |groups| ==> groups[g].members != []
    ensures merged == RankAll(groups, |groups|, o)
  {
    merged := [];
    for n := 0 to |groups|
      invariant merged == RankAll(groups, n, o)
    {
      var g := groups[n];
      var members := Sort(g.members, MemberLe(o));
      var score := Combine(Scores(members));
      SortPermutes(g.members, MemberLe(o));
      merged := merged + [Ranked(g.paths, Damped(score, g.paths, Signals(g.members)), Signals(g.members), members[0])];
    }
  }

  function Final(groups: seq<Group>, o: Orders, minScore: real, maxCandidates: nat): seq<Ranked>
    requires forall g :: 0 <= g < |groups| ==> groups[g].members != []
  {
    var merged := Sort(RankAll(groups, |groups|, o), RankedLe(o));
    var kept := Prune(merged, |merged|);
    Take(AtLeast(kept, |kept|, minScore), maxCandidates)
  }

  /** `None` when a candidate names an excluded path. */
  method MergeCandidates(candidates: seq<Candidate>, exclude: seq<string>, o: Orders, minScore: real,
                         maxCandidates: nat)
    returns (r: Option<seq<Ranked>>, ghost groups: seq<Group>)
    ensures r.None? <==> exists i :: 0 <= i < |candidates| && NamesExcluded(candidates[i], exclude)
    ensures r.Some? ==> Groups(candidates, |candidates|, groups)
    ensures r.Some? ==> r.value == Final(groups, o, minScore, maxCandidates)
    ensures r.Some? && Lawful(o) && ScoredMembers(candidates) ==>
      Presentable(r.value, minScore, maxCandidates) && Accounted(groups, o, r.value, minScore, maxCandidates)
  {
    groups := [];
    var found := GroupByPaths(candidates, exclude);
    if found.None? {
      return None, [];
    }
    groups := found.value;
    var merged := ScoreGroups(found.value, o);
    merged := Sort(merged, RankedLe(o));
    var kept := PruneRanked(merged);
    r := Some(Take(AtLeast(kept, |kept|, minScore), maxCandidates));
    if Lawful(o) && ScoredMembers(candidates) {
      GroupsScored(candidates, groups);
      FinalIsPresentable(groups, o, minScore, maxCandidates);
    }
  }

  // --- What pruning does ---

  lemma {:induction false} PruneKeepsEarlier(s: seq<Ranked>, m: nat, n: nat)
    requires m <= n <= |s|
    ensures Prune(s, m) <= Prune(s, n)
  {
    if m < n {
      PruneKeepsEarlier(s, m, n - 1);
    }
  }

  lemma {:induction false} PruneMember(s: seq<Ranked>, n: nat, k: nat) returns (i: nat)
    requires n <= |s| && k < |Prune(s, n)|
    ensures i < n && s[i] == Prune(s, n)[k] && !Dropped(s[i], Prune(s, i)) && |Prune(s, i)| == k
  {
    if k < |Prune(s, n - 1)| {
      i := PruneMember(s, n - 1, k);
      PruneKeepsEarlier(s, n - 1, n);
    } else {
      i := n - 1;
    }
  }

  lemma KeptUnlessDropped(s: seq<Ranked>, i: nat)
    requires i < |s| && !Dropped(s[i], Prune(s, i))
    ensures s[i] in Prune(s, |s|)
  {
    PruneKeepsEarlier(s, i + 1, |s|);
    var k := |Prune(s, i)|;
    assert Prune(s, i + 1)[k] == s[i];
    assert Prune(s, |s|)[k] == s[i];
  }

  lemma {:induction false} RankAllNonNegative(groups: seq<Group>, n: nat, o: Orders)
    requires n <= |groups| && Lawful(o)
    requires forall g :: 0 <= g < |groups| ==> groups[g].members != [] && ScoredMembers(groups[g].members)
    ensures forall r :: r in RankAll(groups, n, o) ==> 0.0 <= r.score <= MAX_MERGED_SCORE
  {
    if n > 0 {
      RankAllNonNegative(groups, n - 1, o);
      RankedNonNegative(groups[n - 1], o);
    }
  }

  /** The ranked list meets what the pruning laws ask of it. */
  lemma RankedListIsPrunable(groups: seq<Group>, o: Orders)
    requires Lawful(o)
    requires forall g :: 0 <= g < |groups| ==> groups[g].members != [] && ScoredMembers(groups[g].members)
    ensures var s := Sort(RankAll(groups, |groups|, o), RankedLe(o));
      Descending(s) && forall i :: 0 <= i < |s| ==> s[i].score >= 0.0
  {
    var all := RankAll(groups, |groups|, o);
    RankedDescends(all, o);
    RankAllNonNegative(groups, |groups|, o);
    SortPermutes(all, RankedLe(o));
  }

  /** Every group that is pruned has a kept, stronger subset or superset beating
      it by the ratio. */
  lemma PrunedHasReason(s: seq<Ranked>, i: nat) returns (k: nat)
    requires i < |s| && s[i] !in Prune(s, |s|)
    ensures k < |Prune(s, |s|)| && Overshadowed(s[i], Prune(s, |s|)[k])
  {
    if !Dropped(s[i], Prune(s, i)) {
      KeptUnlessDropped(s, i);
    }
    PruneKeepsEarlier(s, i, |s|);
    k :| 0 <= k < |Prune(s, i)| && Overshadowed(s[i], Prune(s, i)[k]);
  }

  /** Among the kept groups no one overshadows another. */
  lemma KeptAreApart(s: seq<Ranked>, a: nat, b: nat)
    requires Descending(s) && forall i :: 0 <= i < |s| ==> s[i].score >= 0.0
    requires a < |Prune(s, |s|)| && b < |Prune(s, |s|)|
    ensures !Overshadowed(Prune(s, |s|)[b], Prune(s, |s|)[a])
  {
    var i := PruneMember(s, |s|, a);
    var j := PruneMember(s, |s|, b);
    if a < b {
      PruneKeepsEarlier(s, j, |s|);
      assert Prune(s, j)[a] == Prune(s, |s|)[a];
    } else {
      KeptInOrder(s, j, i);
      assert s[j].score >= s[i].score;
    }
  }

  lemma KeptInOrder(s: seq<Ranked>, j: nat, i: nat)
    requires i < |s| && j < |s| && |Prune(s, j)| <= |Prune(s, i)| && !Dropped(s[i], Prune(s, i))
    ensures j <= i
  {
    if i < j {
      PruneKeepsEarlier(s, i + 1, j);
    }
  }

  /** In a descending list the score floor cuts a tail off. */
  lemma {:induction false} FloorIsPrefix(s: seq<Ranked>, n: nat, minScore: real) returns (c: nat)
    requires n <= |s| && Descending(s)
    ensures c <= n && AtLeast(s, n, minScore) == s[..c]
    ensures forall i :: 0 <= i < n ==> (s[i].score >= minScore <==> i < c)
  {
    if n == 0 {
      c := 0;
    } else {
      c := FloorIsPrefix(s, n - 1, minScore);
      if s[n - 1].score >= minScore {
        assert forall i :: 0 <= i < n - 1 ==> s[i].score >= minScore;
        c := n;
      }
    }
  }

  lemma {:induction false} PrunePrefix(s: seq<Ranked>, c: nat, n: nat)
    requires n <= c <= |s|
    ensures Prune(s[..c], n) == Prune(s, n)
  {
    if n > 0 {
      PrunePrefix(s, c, n - 1);
    }
  }

  function Floor(s: seq<Ranked>, minScore: real): seq<Ranked> { AtLeast(s, |s|, minScore) }

  lemma {:induction false} FloorAppend(s: seq<Ranked>, n: nat, x: Ranked, minScore: real)
    requires n <= |s|
    ensures AtLeast(s + [x], n, minScore) == AtLeast(s, n, minScore)
  {
    if n > 0 {
      FloorAppend(s, n - 1, x, minScore);
    }
  }

  lemma FloorSnoc(s: seq<Ranked>, x: Ranked, minScore: real)
    ensures Floor(s + [x], minScore) == Floor(s, minScore) + if x.score >= minScore then [x] else []
  {
    FloorAppend(s, |s|, x, minScore);
  }

  lemma {:induction false} PruneThenFloor(s: seq<Ranked>, c: nat, n: nat, minScore: real)
    requires c <= |s| && n <= |s|
    requires forall i :: 0 <= i < |s| ==> (s[i].score >= minScore <==> i < c)
    ensures Floor(Prune(s, n), minScore) == Prune(s, if n < c then n else c)
  {
    if n > 0 {
      PruneThenFloor(s, c, n - 1, minScore);
      FloorSnoc(Prune(s, n - 1), s[n - 1], minScore);
    }
  }

  /** The score floor can be applied before or after pruning. */
  lemma FloorCommutesWithPruning(s: seq<Ranked>, minScore: real)
    requires Descending(s)
    ensures Floor(Prune(s, |s|), minScore) == Prune(Floor(s, minScore), |Floor(s, minScore)|)
  {
    var c := FloorIsPrefix(s, |s|, minScore);
    PruneThenFloor(s, c, |s|, minScore);
    PrunePrefix(s, c, c);
  }

  // --- The returned list ---

  predicate Nested(a: set<string>, b: set<string>) { (forall x :: x in a ==> x in b) || forall x :: x in b ==> x in a }

  lemma NestedIsRelated(a: Ranked, b: Ranked)
    ensures Nested(a.paths, b.paths) <==> Related(a, b)
  {
  }

  /** Best first, no longer than asked, at or above the floor, and of two entries
      one of which holds the other's paths neither is below three quarters of the other. */
  ghost predicate Presentable(r: seq<Ranked>, minScore: real, maxCandidates: nat) {
    && (forall i, j :: 0 <= i < j < |r| ==> r[i].score >= r[j].score) && |r| <= maxCandidates
    && (forall i :: 0 <= i < |r| ==> r[i].score >= minScore)
    && forall i, j :: 0 <= i < |r| && 0 <= j < |r| && Nested(r[i].paths, r[j].paths) ==>
      4.0 * r[i].score >= 3.0 * r[j].score
  }

  /** `x` is returned, or it is too weak, or below three quarters of a returned
      group that holds its paths or is held by it, or the list is full. */
  ghost predicate HasPlace(x: Ranked, r: seq<Ranked>, minScore: real, maxCandidates: nat) {
    || x in r || x.score < minScore || |r| == maxCandidates
    || exists k :: 0 <= k < |r| && Nested(x.paths, r[k].paths) && 4.0 * x.score < 3.0 * r[k].score
  }

  /** Nothing is missing without a reason and nothing is made up. */
  ghost predicate Accounted(groups: seq<Group>, o: Orders, r: seq<Ranked>, minScore: real, maxCandidates: nat) {
    && (forall g :: 0 <= g < |groups| && groups[g].members != [] ==>
         HasPlace(RankedGroup(groups[g], o), r, minScore, maxCandidates))
    && forall x :: x in r ==> exists g :: 0 <= g < |groups| && groups[g].members != [] && x == RankedGroup(groups[g], o)
  }

  lemma {:induction false} MembersAreCandidates(candidates: seq<Candidate>, n: nat, paths: set<string>)
    requires n <= |candidates|
    ensures forall m :: m in Members(candidates, n, paths) ==> m in candidates
  {
    if n > 0 {
      MembersAreCandidates(candidates, n - 1, paths);
    }
  }

  ghost predicate GroupsAreScored(groups: seq<Group>) {
    forall g :: 0 <= g < |groups| ==> groups[g].members != [] && ScoredMembers(groups[g].members)
  }

  lemma GroupsScored(candidates: seq<Candidate>, groups: seq<Group>)
    requires Groups(candidates, |candidates|, groups) && ScoredMembers(candidates)
    ensures GroupsAreScored(groups)
  {
    forall g | 0 <= g < |groups|
      ensures groups[g].members != [] && ScoredMembers(groups[g].members)
    {
      MembersAreCandidates(candidates, |candidates|, groups[g].paths);
      forall i | 0 <= i < |groups[g].members|
        ensures 0.0 <= groups[g].members[i].score <= 1.0
      {
        assert groups[g].members[i] in candidates;
      }
    }
  }

  lemma {:induction false} RankAllIndex(groups: seq<Group>, n: nat, o: Orders)
    requires n <= |groups| && forall g :: 0 <= g < n ==> groups[g].members != []
    ensures |RankAll(groups, n, o)| == n
    ensures forall g :: 0 <= g < n ==> RankAll(groups, n, o)[g] == RankedGroup(groups[g], o)
  {
    hide RankedGroup;
    if n > 0 {
      RankAllIndex(groups, n - 1, o);
    }
  }

  lemma PruneDescends(s: seq<Ranked>)
    requires Descending(s)
    ensures Descending(Prune(s, |s|))
  {
    hide Dropped, Prune;
    var kept := Prune(s, |s|);
    forall a, b | 0 <= a < b < |kept|
      ensures kept[a].score >= kept[b].score
    {
      var i := PruneMember(s, |s|, a);
      var j := PruneMember(s, |s|, b);
      KeptInOrder(s, i, j);
      assert i != j;
    }
  }

  /** What is returned is the front of the pruned list. */
  lemma FinalIsFront(s: seq<Ranked>, minScore: real, maxCandidates: nat) returns (d: nat)
    requires Descending(s)
    ensures d <= |Prune(s, |s|)| && d <= maxCandidates
    ensures Take(Floor(Prune(s, |s|), minScore), maxCandidates) == Prune(s, |s|)[..d]
    ensures forall i :: 0 <= i < |Prune(s, |s|)| ==>
      if i < d then Prune(s, |s|)[i].score >= minScore else d == maxCandidates || Prune(s, |s|)[i].score < minScore
  {
    var kept := Prune(s, |s|);
    PruneDescends(s);
    var c := FloorIsPrefix(kept, |kept|, minScore);
    d := if c <= maxCandidates then c else maxCandidates;
  }

  lemma FrontIsPresentable(s: seq<Ranked>, d: nat, minScore: real, maxCandidates: nat)
    requires Descending(s) && forall i :: 0 <= i < |s| ==> s[i].score >= 0.0
    requires d <= |Prune(s, |s|)| && d <= maxCandidates
    requires forall i :: 0 <= i < d ==> Prune(s, |s|)[i].score >= minScore
    ensures Presentable(Prune(s, |s|)[..d], minScore, maxCandidates)
  {
    PruneDescends(s);
    forall i, j | 0 <= i < d && 0 <= j < d
      ensures Nested(Prune(s, |s|)[i].paths, Prune(s, |s|)[j].paths) ==>
        4.0 * Prune(s, |s|)[i].score >= 3.0 * Prune(s, |s|)[j].score
    {
      KeptAreApart(s, j, i);
      NestedIsRelated(Prune(s, |s|)[i], Prune(s, |s|)[j]);
    }
  }

  lemma FrontHasPlaces(s: seq<Ranked>, d: nat, x: Ranked, minScore: real, maxCandidates: nat)
    requires Descending(s) && x in s && forall i :: 0 <= i < |s| ==> s[i].score >= 0.0
    requires d <= |Prune(s, |s|)| && d <= maxCandidates
    requires forall i :: d <= i < |Prune(s, |s|)| ==> d == maxCandidates || Prune(s, |s|)[i].score < minScore
    ensures HasPlace(x, Prune(s, |s|)[..d], minScore, maxCandidates)
  {
    var kept := Prune(s, |s|);
    if x in kept {
      var k :| 0 <= k < |kept| && kept[k] == x;
      assert k < d ==> kept[..d][k] == x;
    } else {
      var i :| 0 <= i < |s| && s[i] == x;
      var k := PrunedHasReason(s, i);
      NestedIsRelated(x, kept[k]);
      assert k < d ==> kept[..d][k] == kept[k];
    }
  }

  lemma FinalIsPresentable(groups: seq<Group>, o: Orders, minScore: real, maxCandidates: nat)
    requires Lawful(o) && GroupsAreScored(groups)
    ensures var r := Final(groups, o, minScore, maxCandidates);
      Presentable(r, minScore, maxCandidates) && Accounted(groups, o, r, minScore, maxCandidates)
  {
    hide RankedGroup, Presentable, HasPlace, Prune;
    var all := RankAll(groups, |groups|, o);
    var s := Sort(all, RankedLe(o));
    RankedListIsPrunable(groups, o);
    SortPermutes(all, RankedLe(o));
    RankAllIndex(groups, |groups|, o);
    var d := FinalIsFront(s, minScore, maxCandidates);
    var r := Prune(s, |s|)[..d];
    FrontIsPresentable(s, d, minScore, maxCandidates);
    forall g | 0 <= g < |groups|
      ensures HasPlace(RankedGroup(groups[g], o), r, minScore, maxCandidates)
    {
      assert all[g] in s;
      FrontHasPlaces(s, d, all[g], minScore, maxCandidates);
    }
    forall x | x in r
      ensures exists g :: 0 <= g < |groups| && groups[g].members != [] && x == RankedGroup(groups[g], o)
    {
      PruneOf(s, |s|, x);
      assert x in all;
      var g :| 0 <= g < |all| && all[g] == x;
      assert groups[g].members != [];
    }
  }

  lemma {:induction false} PruneOf(s: seq<Ranked>, n: nat, x: Ranked)
    requires n <= |s| && x in Prune(s, n)
    ensures x in s
  {
    if x !in Prune(s, n - 1) {
      assert x == s[n - 1];
    } else {
      PruneOf(s, n - 1, x);
    }
  }
}
