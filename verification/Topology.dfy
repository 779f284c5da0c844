/** The refusal of replaced or grafted history: a worklist walk from HEAD. */
module Topology {
  import opened Text

  type Oid = string

  /** Readable commits and their recorded parents. */
  type CommitGraph = map<Oid, seq<Oid>>

  /** One non-comment line of `info/grafts`. `parents` is `None` when one of them
      is not an object id. */
  datatype GraftLine = Malformed | Graft(original: Oid, parents: Option<seq<Oid>>)

  datatype Head = Unborn | Unresolvable | At(id: Oid)

  datatype Verdict = Safe | Replaced(id: Oid) | Grafted(id: Oid) | Unreadable(id: Oid)
                   | BoundExceeded | GraftProblem | NoHead

  const MAX_COMMITS: nat := 1_000_000

  // --- Reachability ---

  ghost predicate IsPath(g: CommitGraph, p: seq<Oid>) {
    && p != []
    && forall i :: 0 <= i < |p| - 1 ==> p[i] in g && p[i + 1] in g[p[i]]
  }

  ghost predicate Reachable(g: CommitGraph, from: Oid, to: Oid) {
    exists p :: IsPath(g, p) && p[0] == from && p[|p| - 1] == to
  }

  lemma ReachesItself(g: CommitGraph, id: Oid)
    ensures Reachable(g, id, id)
  {
    assert IsPath(g, [id]);
  }

  lemma ReachesParent(g: CommitGraph, from: Oid, id: Oid, parent: Oid)
    requires Reachable(g, from, id) && id in g && parent in g[id]
    ensures Reachable(g, from, parent)
  {
    var p :| IsPath(g, p) && p[0] == from && p[|p| - 1] == id;
    assert IsPath(g, p + [parent]);
  }

  /** A set that holds the start and every parent of a member holds all that is
      reachable. */
  lemma {:induction false} ClosedHoldsPath(g: CommitGraph, closed: set<Oid>, p: seq<Oid>)
    requires IsPath(g, p) && p[0] in closed
    requires forall x, y :: x in closed && x in g && y in g[x] ==> y in closed
    ensures p[|p| - 1] in closed
  {
    if |p| > 1 {
      var tail := p[1..];
      assert p[1] in g[p[0]];
      forall i | 0 <= i < |tail| - 1
        ensures tail[i] in g && tail[i + 1] in g[tail[i]]
      {
        assert p[i + 1] in g && p[i + 2] in g[p[i + 1]];
      }
      ClosedHoldsPath(g, closed, tail);
    }
  }

  lemma ClosedHoldsReachable(g: CommitGraph, closed: set<Oid>, from: Oid, to: Oid)
    requires from in closed && Reachable(g, from, to)
    requires forall x, y :: x in closed && x in g && y in g[x] ==> y in closed
    ensures to in closed
  {
    var p :| IsPath(g, p) && p[0] == from && p[|p| - 1] == to;
    ClosedHoldsPath(g, closed, p);
  }

  // --- Metadata ---

  /** Every line is a graft Git would accept, and no commit has two. */
  ghost predicate WellFormedGrafts(lines: seq<GraftLine>) {
    && (forall i :: 0 <= i < |lines| ==> lines[i].Graft? && lines[i].parents.Some?)
    && (forall i, j :: 0 <= i < j < |lines| ==> lines[i].original != lines[j].original)
  }

  predicate ChangesParents(g: CommitGraph, l: GraftLine)
    requires l.Graft? && l.parents.Some?
  {
    l.original !in g || g[l.original] != l.parents.value
  }

  ghost predicate IsGraftTarget(g: CommitGraph, lines: seq<GraftLine>, id: Oid) {
    exists i :: 0 <= i < |lines| && lines[i].Graft? && lines[i].parents.Some? && lines[i].original == id &&
      ChangesParents(g, lines[i])
  }

  /** The commits whose grafts matter, and whether some line cannot be trusted. */
  method ClassifyGrafts(g: CommitGraph, lines: seq<GraftLine>) returns (targets: set<Oid>, problem: bool)
    ensures !problem <==> WellFormedGrafts(lines)
    ensures forall id :: id in targets ==> IsGraftTarget(g, lines, id)
    ensures !problem ==> forall id :: IsGraftTarget(g, lines, id) ==> id in targets
  {
    targets, problem := {}, false;
    var originals: set<Oid> := {};
    for n := 0 to |lines|
      invariant !problem <==> WellFormedGrafts(lines[..n])
      invariant forall id :: id in originals <==> exists i :: 0 <= i < n && lines[i].Graft? && lines[i].original == id
      invariant forall id :: id in targets ==> IsGraftTarget(g, lines, id)
      invariant !problem ==> forall i :: 0 <= i < n && ChangesParents(g, lines[i]) ==> lines[i].original in targets
    {
      ghost var before := lines[..n];
      assert lines[..n + 1] == before + [lines[n]];
      match lines[n] {
        case Malformed =>
          problem := true;
          assert lines[..n + 1][n].Malformed?;
        case Graft(original, parents) =>
          if original in originals {
            ghost var i :| 0 <= i < n && lines[i].Graft? && lines[i].original == original;
            assert lines[..n + 1][i] == lines[i] && lines[..n + 1][n] == lines[n];
            problem := true;
          } else {
            originals := originals + {original};
            if parents.None? {
              problem := true;
              assert lines[..n + 1][n].parents.None?;
            } else if ChangesParents(g, lines[n]) {
              targets := targets + {original};
            }
          }
      }
    }
    assert lines[..|lines|] == lines;
  }

  // --- The walk ---

  /** Nothing reachable from `head` is replaced, grafted or unreadable. */
  ghost predicate Clean(g: CommitGraph, replaced: set<Oid>, grafted: set<Oid>, head: Oid) {
    forall id :: Reachable(g, head, id) ==> id in g && id !in replaced && id !in grafted
  }

  /** What the worklist knows: everything on it is reachable, and everything
      behind it is clean with its parents on it. */
  ghost predicate Walking(g: CommitGraph, replaced: set<Oid>, grafted: set<Oid>, head: Oid, pending: seq<Oid>,
                          seen: set<Oid>)
  {
    && (head in seen || head in pending)
    && (forall id :: id in seen || id in pending ==> Reachable(g, head, id))
    && (forall id :: id in seen ==> id in g && id !in replaced && id !in grafted)
    && (forall id, p :: id in seen && id in g && p in g[id] ==> p in seen || p in pending)
  }

  lemma WalkDone(g: CommitGraph, replaced: set<Oid>, grafted: set<Oid>, head: Oid, seen: set<Oid>)
    requires Walking(g, replaced, grafted, head, [], seen)
    ensures Clean(g, replaced, grafted, head)
    ensures forall id :: Reachable(g, head, id) <==> id in seen
  {
    forall id | Reachable(g, head, id)
      ensures id in seen
    {
      ClosedHoldsReachable(g, seen, head, id);
    }
  }

  lemma Popped(pending: seq<Oid>, x: Oid)
    requires pending != []
    ensures x in pending <==> x in pending[..|pending| - 1] || x == pending[|pending| - 1]
  {
    assert pending == pending[..|pending| - 1] + [pending[|pending| - 1]];
  }

  lemma WalkSkip(g: CommitGraph, replaced: set<Oid>, grafted: set<Oid>, head: Oid, pending: seq<Oid>, seen: set<Oid>)
    requires Walking(g, replaced, grafted, head, pending, seen) && pending != [] && pending[|pending| - 1] in seen
    ensures Walking(g, replaced, grafted, head, pending[..|pending| - 1], seen)
  {
    forall x {
      Popped(pending, x);
    }
  }

  lemma WalkVisit(g: CommitGraph, replaced: set<Oid>, grafted: set<Oid>, head: Oid, pending: seq<Oid>,
                  seen: set<Oid>, id: Oid)
    requires Walking(g, replaced, grafted, head, pending, seen) && pending != [] && pending[|pending| - 1] == id
    requires id in g && id !in replaced && id !in grafted
    ensures Walking(g, replaced, grafted, head, pending[..|pending| - 1] + g[id], seen + {id})
  {
    forall x {
      Popped(pending, x);
    }
    forall x | x in g[id]
      ensures Reachable(g, head, x)
    {
      ReachesParent(g, head, id, x);
    }
  }

  /** The check ran out of time, or really met that many commits. */
  ghost predicate OverBound(g: CommitGraph, expired: nat -> bool, head: Oid) {
    (exists k :: expired(k)) || exists s: set<Oid> :: |s| >= MAX_COMMITS && forall id :: id in s ==>
      Reachable(g, head, id)
  }

  ghost predicate Justified(g: CommitGraph, replaced: set<Oid>, grafted: set<Oid>, expired: nat -> bool, head: Oid,
                            v: Verdict)
  {
    match v
    case Safe => Clean(g, replaced, grafted, head)
    case Replaced(id) => Reachable(g, head, id) && id in replaced
    case Grafted(id) => Reachable(g, head, id) && id in grafted
    case Unreadable(id) => Reachable(g, head, id) && id !in g
    case BoundExceeded => OverBound(g, expired, head)
    case _ => false
  }

  /** The graph may be cyclic. `expired(k)` says whether the clock has run out
      when the `k`-th commit is popped. */
  method Walk(g: CommitGraph, replaced: set<Oid>, grafted: set<Oid>, head: Oid, expired: nat -> bool)
    returns (v: Verdict)
    ensures Justified(g, replaced, grafted, expired, head, v)
  {
    var pending, seen: set<Oid>, pops := [head], {}, 0;
    ReachesItself(g, head);
    while pending != []
      invariant Walking(g, replaced, grafted, head, pending, seen)
      decreases g.Keys - seen, |pending|
    {
      var id := pending[|pending| - 1];
      if expired(pops) || |seen| >= MAX_COMMITS {
        return BoundExceeded;
      }
      pops := pops + 1;
      assert id in pending;
      if id in seen {
        WalkSkip(g, replaced, grafted, head, pending, seen);
        pending := pending[..|pending| - 1];
      } else if id in replaced {
        return Replaced(id);
      } else if id in grafted {
        return Grafted(id);
      } else if id !in g {
        return Unreadable(id);
      } else {
        WalkVisit(g, replaced, grafted, head, pending, seen, id);
        pending, seen := pending[..|pending| - 1] + g[id], seen + {id};
      }
    }
    WalkDone(g, replaced, grafted, head, seen);
    v := Safe;
  }

  ghost predicate NoTargets(g: CommitGraph, replacements: map<Oid, Oid>, lines: seq<GraftLine>) {
    replacements == map[] && forall id :: !IsGraftTarget(g, lines, id)
  }

  /** No commit reachable from `head` is a target. */
  ghost predicate Intact(g: CommitGraph, replacements: map<Oid, Oid>, lines: seq<GraftLine>, head: Oid) {
    forall id :: Reachable(g, head, id) ==> id !in replacements && !IsGraftTarget(g, lines, id)
  }

  /** The metadata cannot change any history the command will look at. */
  ghost predicate Acceptable(g: CommitGraph, replacements: map<Oid, Oid>, lines: seq<GraftLine>, head: Head) {
    && WellFormedGrafts(lines)
    && (head.At? ==> Intact(g, replacements, lines, head.id))
    && (NoTargets(g, replacements, lines)
        || head.Unborn?
        || (head.At? && forall id :: Reachable(g, head.id, id) ==> id in g))
  }

  /** The whole check. `replacements` maps an original to a different object. */
  method RejectReplacementTopology(g: CommitGraph, replacements: map<Oid, Oid>, lines: seq<GraftLine>, head: Head,
                                   expired: nat -> bool)
    returns (v: Verdict)
    ensures v == Safe ==> Acceptable(g, replacements, lines, head)
    ensures Acceptable(g, replacements, lines, head) ==> v == Safe || v == BoundExceeded
    ensures v == BoundExceeded ==> head.At? && OverBound(g, expired, head.id)
    ensures v == GraftProblem ==> !WellFormedGrafts(lines)
    ensures v == NoHead <==> head == Unresolvable && !(WellFormedGrafts(lines) && NoTargets(g, replacements, lines))
    ensures v.Replaced? ==> head.At? && Reachable(g, head.id, v.id) && v.id in replacements
    ensures v.Grafted? ==> head.At? && Reachable(g, head.id, v.id) && IsGraftTarget(g, lines, v.id)
    ensures v.Unreadable? ==> head.At? && Reachable(g, head.id, v.id) && v.id !in g
  {
    var grafted, problem := ClassifyGrafts(g, lines);
    if replacements == map[] && grafted == {} && !problem {
      return Safe;
    }
    match head {
      case Unresolvable =>
        return NoHead;
      case Unborn =>
        return if problem then GraftProblem else Safe;
      case At(id) =>
        v := Walk(g, replacements.Keys, grafted, id, expired);
        if v == Safe && problem {
          v := GraftProblem;
        }
    }
  }

  predicate RepeatsGraft(a: GraftLine, b: GraftLine) { a.Graft? && b.Graft? && a.original == b.original }

  /** Two grafts for one commit, or a line that is no graft, are never accepted. */
  lemma UntrustedIsRefused(g: CommitGraph, replacements: map<Oid, Oid>, lines: seq<GraftLine>, head: Head)
    ensures (exists i, j :: 0 <= i < j < |lines| && RepeatsGraft(lines[i], lines[j])) ==>
      !Acceptable(g, replacements, lines, head)
    ensures Malformed in lines ==> !Acceptable(g, replacements, lines, head)
    ensures (exists id :: Graft(id, None) in lines) ==> !Acceptable(g, replacements, lines, head)
  {
  }

  /** Nor is a graft of a reachable commit that changes its recorded parents. */
  lemma GraftedIsRefused(g: CommitGraph, replacements: map<Oid, Oid>, lines: seq<GraftLine>, head: Oid, id: Oid,
                         parents: seq<Oid>)
    requires Graft(id, Some(parents)) in lines && Reachable(g, head, id) && !(id in g && g[id] == parents)
    ensures !Acceptable(g, replacements, lines, At(head))
  {
    var i :| 0 <= i < |lines| && lines[i] == Graft(id, Some(parents));
    assert IsGraftTarget(g, lines, id);
  }

  // --- Why the check suffices ---

  function Declared(lines: seq<GraftLine>, id: Oid): Option<seq<Oid>> {
    if lines == [] then None
    else if lines[0].Graft? && lines[0].parents.Some? && lines[0].original == id then lines[0].parents
    else Declared(lines[1..], id)
  }

  /** The parents Git would use for a commit, replacements and grafts applied. */
  function Effective(g: CommitGraph, replacements: map<Oid, Oid>, lines: seq<GraftLine>, id: Oid): Option<seq<Oid>> {
    if id in replacements then
      if replacements[id] in g then Some(g[replacements[id]]) else None
    else if id !in g then None
    else if Declared(lines, id).Some? then Declared(lines, id)
    else Some(g[id])
  }

  function EffectiveGraph(g: CommitGraph, replacements: map<Oid, Oid>, lines: seq<GraftLine>): CommitGraph {
    map id | id in g.Keys + replacements.Keys && Effective(g, replacements, lines, id).Some? ::
      Effective(g, replacements, lines, id).value
  }

  lemma {:induction false} DeclaredLine(lines: seq<GraftLine>, id: Oid)
    requires Declared(lines, id).Some?
    ensures exists i :: 0 <= i < |lines| && lines[i] == Graft(id, Declared(lines, id))
  {
    if lines[0].Graft? && lines[0].parents.Some? && lines[0].original == id {
      assert lines[0] == Graft(id, Declared(lines, id));
    } else {
      DeclaredLine(lines[1..], id);
      var i :| 0 <= i < |lines[1..]| && lines[1..][i] == Graft(id, Declared(lines, id));
      assert lines[i + 1] == Graft(id, Declared(lines, id));
    }
  }

  lemma IntactCommit(g: CommitGraph, replacements: map<Oid, Oid>, lines: seq<GraftLine>, head: Oid, id: Oid)
    requires Intact(g, replacements, lines, head) && Reachable(g, head, id)
    ensures id in EffectiveGraph(g, replacements, lines) <==> id in g
    ensures id in g ==> EffectiveGraph(g, replacements, lines)[id] == g[id]
  {
    if Declared(lines, id).Some? {
      DeclaredLine(lines, id);
      var i :| 0 <= i < |lines| && lines[i] == Graft(id, Declared(lines, id));
      assert !ChangesParents(g, lines[i]);
    }
  }

  lemma {:induction false} EffectivePathIsRaw(g: CommitGraph, replacements: map<Oid, Oid>, lines: seq<GraftLine>,
                                              head: Oid, p: seq<Oid>)
    requires Intact(g, replacements, lines, head)
    requires IsPath(EffectiveGraph(g, replacements, lines), p) && p[0] == head
    ensures Reachable(g, head, p[|p| - 1])
  {
    if |p| == 1 {
      ReachesItself(g, head);
    } else {
      var front, last := p[..|p| - 1], |p| - 2;
      EffectivePathIsRaw(g, replacements, lines, head, front);
      IntactCommit(g, replacements, lines, head, p[last]);
      ReachesParent(g, head, p[last], p[last + 1]);
    }
  }

  lemma {:induction false} RawPathIsEffective(g: CommitGraph, replacements: map<Oid, Oid>, lines: seq<GraftLine>,
                                              head: Oid, p: seq<Oid>)
    requires Intact(g, replacements, lines, head)
    requires IsPath(g, p) && p[0] == head
    ensures Reachable(EffectiveGraph(g, replacements, lines), head, p[|p| - 1])
  {
    var e := EffectiveGraph(g, replacements, lines);
    if |p| == 1 {
      ReachesItself(e, head);
    } else {
      var front, last := p[..|p| - 1], |p| - 2;
      RawPathIsEffective(g, replacements, lines, head, front);
      assert IsPath(g, front) && front[|front| - 1] == p[last];
      IntactCommit(g, replacements, lines, head, p[last]);
      ReachesParent(e, head, p[last], p[last + 1]);
    }
  }

  /** When the check accepts, the history Git shows is the recorded one: the same
      commits are reachable and each keeps its recorded parents. */
  lemma AcceptedHistoryIsRaw(g: CommitGraph, replacements: map<Oid, Oid>, lines: seq<GraftLine>, head: Oid, id: Oid)
    requires Acceptable(g, replacements, lines, At(head))
    ensures Reachable(EffectiveGraph(g, replacements, lines), head, id) <==> Reachable(g, head, id)
    ensures Reachable(g, head, id) && id in g ==> Effective(g, replacements, lines, id) == Some(g[id])
  {
    var e := EffectiveGraph(g, replacements, lines);
    if Reachable(e, head, id) {
      var p :| IsPath(e, p) && p[0] == head && p[|p| - 1] == id;
      EffectivePathIsRaw(g, replacements, lines, head, p);
    }
    if Reachable(g, head, id) {
      var p :| IsPath(g, p) && p[0] == head && p[|p| - 1] == id;
      RawPathIsEffective(g, replacements, lines, head, p);
      IntactCommit(g, replacements, lines, head, id);
    }
  }
}
