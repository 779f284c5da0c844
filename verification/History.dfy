/** The first-parent history of a few paths, and why it suffices to know them. */
module History {
  import opened Text

  type Oid = string

  datatype Kind = Blob | Executable | Symlink | Directory | Gitlink
  datatype Entry = Entry(kind: Kind, oid: Oid)

  /** A tree as the entry found at each full path. */
  type Tree = map<string, Entry>

  /** `tree` is `None` when the tree object cannot be read. */
  datatype Commit = Commit(parents: seq<Oid>, tree: Option<Tree>)

  type Repo = map<Oid, Commit>

  datatype Change = Change(hash: Oid, changedPaths: set<string>)

  datatype Result = Ok(log: seq<Change>) | Err(unreadable: Option<Oid>)

  const EMPTY_TREE: Tree := map[]

  /** A directory or a submodule at the path is no blob. */
  function BlobAt(tree: Tree, path: string): Option<Oid> {
    if path in tree && tree[path].kind in {Blob, Executable, Symlink} then Some(tree[path].oid) else None
  }

  predicate Readable(g: Repo, id: Oid) { id in g && g[id].tree.Some? }

  /** A commit whose tree cannot be read stands for the empty tree. */
  function TreeOf(g: Repo, id: Oid): Tree { if Readable(g, id) then g[id].tree.value else EMPTY_TREE }

  function ParentTree(g: Repo, id: Oid): Tree
    requires id in g
  {
    if g[id].parents == [] then EMPTY_TREE else TreeOf(g, g[id].parents[0])
  }

  function FirstParent(g: Repo, id: Oid): Option<Oid>
    requires id in g
  {
    if g[id].parents == [] then None else Some(g[id].parents[0])
  }

  // --- The first-parent chain ---

  /** `chain[i..]` is what the walk from `next` reads: first parents, one after the other. */
  ghost predicate PathFrom(g: Repo, next: Option<Oid>, chain: seq<Oid>, i: nat)
    requires i <= |chain|
    decreases |chain| - i
  {
    i < |chain| ==>
      next == Some(chain[i]) && Readable(g, chain[i]) && PathFrom(g, FirstParent(g, chain[i]), chain, i + 1)
  }

  /** Where the walk stands after `chain[i..]`. */
  ghost function EndOf(g: Repo, next: Option<Oid>, chain: seq<Oid>, i: nat): Option<Oid>
    requires i <= |chain| && PathFrom(g, next, chain, i)
    decreases |chain| - i
  {
    if i == |chain| then next else EndOf(g, FirstParent(g, chain[i]), chain, i + 1)
  }

  /** A root was passed, or a commit cannot be read. */
  ghost predicate Ended(g: Repo, next: Option<Oid>) { next.None? || !Readable(g, next.value) }

  /** The walk from `next` reads `chain[i..]` and ends there: the chain is acyclic. */
  ghost predicate ChainFrom(g: Repo, next: Option<Oid>, chain: seq<Oid>, i: nat)
    requires i <= |chain|
  {
    PathFrom(g, next, chain, i) && Ended(g, EndOf(g, next, chain, i))
  }

  function Changed(g: Repo, id: Oid, seeds: seq<string>): set<string>
    requires id in g
  {
    set path | path in seeds && BlobAt(TreeOf(g, id), path) != BlobAt(ParentTree(g, id), path)
  }

  /** What one commit adds to the log: nothing when it moved no seed path. */
  function Entries(g: Repo, id: Oid, seeds: seq<string>): seq<Change>
    requires id in g
  {
    var changed := Changed(g, id, seeds);
    if changed == {} then [] else [Change(id, changed)]
  }

  /** The unlimited log of `chain[i..]`. */
  function Log(g: Repo, seeds: seq<string>, chain: seq<Oid>, i: nat): seq<Change>
    requires i <= |chain| && forall k :: i <= k < |chain| ==> chain[k] in g
    decreases |chain| - i
  {
    if i == |chain| then [] else Entries(g, chain[i], seeds) + Log(g, seeds, chain, i + 1)
  }

  lemma {:induction false} PathReadable(g: Repo, next: Option<Oid>, chain: seq<Oid>, i: nat)
    requires i <= |chain| && PathFrom(g, next, chain, i)
    ensures forall k :: i <= k < |chain| ==> Readable(g, chain[k])
    decreases |chain| - i
  {
    if i < |chain| {
      PathReadable(g, FirstParent(g, chain[i]), chain, i + 1);
    }
  }

  /** The seed paths at which a commit differs from its first parent. */
  method ChangedPaths(g: Repo, id: Oid, seeds: seq<string>) returns (changed: set<string>)
    requires Readable(g, id)
    ensures changed == Changed(g, id, seeds)
  {
    var newTree, oldTree := g[id].tree.value, ParentTree(g, id);
    changed := {};
    for k := 0 to |seeds|
      invariant forall path :: path in changed <==> path in seeds[..k] && BlobAt(newTree, path) != BlobAt(oldTree, path)
    {
      assert seeds[..k + 1] == seeds[..k] + [seeds[k]];
      if BlobAt(newTree, seeds[k]) != BlobAt(oldTree, seeds[k]) {
        changed := changed + {seeds[k]};
      }
    }
    assert seeds[..|seeds|] == seeds;
  }

  /** The walk from `head` comes to a stop within `chain`: it ends there, or has
      found the `n` commits asked for. On any other walk the original never returns. */
  ghost predicate Stops(g: Repo, n: nat, seeds: seq<string>, head: Option<Oid>, chain: seq<Oid>) {
    && PathFrom(g, head, chain, 0)
    && (PathReadable(g, head, chain, 0); Ended(g, EndOf(g, head, chain, 0)) || n <= |Log(g, seeds, chain, 0)|)
  }

  /** What a log limited to `n` commits returns. Short of `n` commits, the commit
      that ended the walk decides: a root, or the one that could not be read. */
  ghost predicate IsLog(g: Repo, n: nat, seeds: seq<string>, head: Option<Oid>, chain: seq<Oid>, r: Result)
    requires PathFrom(g, head, chain, 0)
  {
    PathReadable(g, head, chain, 0);
    var all, end := Log(g, seeds, chain, 0), EndOf(g, head, chain, 0);
    if n == 0 || seeds == [] then r == Ok([])
    else if head.None? then r == Err(None)
    else if n <= |all| then r == Ok(all[..n])
    else if end.None? then r == Ok(all)
    else r == Err(end)
  }

  /** `out` is the log of `chain[..i]`, and `next` is where the walk stands. */
  ghost predicate Walked(g: Repo, seeds: seq<string>, head: Option<Oid>, chain: seq<Oid>, next: Option<Oid>, i: nat,
                         out: seq<Change>)
  {
    && i <= |chain|
    && (forall k :: 0 <= k < |chain| ==> chain[k] in g)
    && PathFrom(g, head, chain, 0) && PathFrom(g, next, chain, i)
    && EndOf(g, next, chain, i) == EndOf(g, head, chain, 0)
    && out + Log(g, seeds, chain, i) == Log(g, seeds, chain, 0)
  }

  lemma WalkStep(g: Repo, seeds: seq<string>, head: Option<Oid>, chain: seq<Oid>, id: Oid, i: nat, out: seq<Change>,
                 changed: set<string>)
    requires Walked(g, seeds, head, chain, Some(id), i, out) && Readable(g, id) && changed == Changed(g, id, seeds)
    requires i < |chain|
    ensures Walked(g, seeds, head, chain, FirstParent(g, id), i + 1,
                   if changed == {} then out else out + [Change(id, changed)])
  {
    var after := if changed == {} then out else out + [Change(id, changed)];
    assert chain[i] == id;
    assert after + Log(g, seeds, chain, i + 1) == out + Log(g, seeds, chain, i);
  }

  lemma WalkStarts(g: Repo, n: nat, seeds: seq<string>, head: Option<Oid>, chain: seq<Oid>)
    requires Stops(g, n, seeds, head, chain)
    ensures Walked(g, seeds, head, chain, head, 0, [])
  {
    PathReadable(g, head, chain, 0);
  }

  lemma WalkGoesOn(g: Repo, n: nat, seeds: seq<string>, head: Option<Oid>, chain: seq<Oid>, id: Oid, i: nat,
                   out: seq<Change>)
    requires Stops(g, n, seeds, head, chain) && Walked(g, seeds, head, chain, Some(id), i, out)
    requires |out| < n && Readable(g, id)
    ensures i < |chain|
  {
  }

  /** The three ways out of the loop. */
  lemma WalkReturns(g: Repo, n: nat, seeds: seq<string>, head: Option<Oid>, chain: seq<Oid>, next: Option<Oid>, i: nat,
                    out: seq<Change>, r: Result)
    requires Stops(g, n, seeds, head, chain) && Walked(g, seeds, head, chain, next, i, out)
    requires 0 < n && |out| <= n && seeds != [] && head.Some?
    requires if |out| == n || next.None? then r == Ok(out) else !Readable(g, next.value) && r == Err(next)
    ensures IsLog(g, n, seeds, head, chain, r)
  {
  }

  /** Merges are walked like any other commit, against their first parent. */
  method GitLogNameOnlyForPaths(g: Repo, n: nat, seeds: seq<string>, head: Option<Oid>, ghost chain: seq<Oid>)
    returns (r: Result)
    requires n == 0 || seeds == [] || Stops(g, n, seeds, head, chain)
    ensures n == 0 || seeds == [] ==> r == Ok([])
    ensures Stops(g, n, seeds, head, chain) ==> IsLog(g, n, seeds, head, chain, r)
  {
    if n == 0 || seeds == [] {
      return Ok([]);
    }
    if head.None? {
      return Err(None);
    }
    r := WalkFirstParents(g, n, seeds, head, chain);
  }

  method WalkFirstParents(g: Repo, n: nat, seeds: seq<string>, head: Option<Oid>, ghost chain: seq<Oid>)
    returns (r: Result)
    requires 0 < n && seeds != [] && head.Some? && Stops(g, n, seeds, head, chain)
    ensures IsLog(g, n, seeds, head, chain, r)
  {
    hide Walked, Stops, Log, Changed;
    WalkStarts(g, n, seeds, head, chain);
    var out: seq<Change>, next := [], head;
    ghost var i: nat := 0;
    while next.Some?
      invariant Walked(g, seeds, head, chain, next, i, out) && |out| <= n
      decreases |chain| - i
    {
      if |out| >= n {
        WalkReturns(g, n, seeds, head, chain, next, i, out, Ok(out));
        return Ok(out);
      }
      var id := next.value;
      if id !in g || g[id].tree.None? {
        WalkReturns(g, n, seeds, head, chain, next, i, out, Err(next));
        return Err(Some(id));
      }
      WalkGoesOn(g, n, seeds, head, chain, id, i, out);
      var changed := ChangedPaths(g, id, seeds);
      WalkStep(g, seeds, head, chain, id, i, out, changed);
      if changed != {} {
        out := out + [Change(id, changed)];
      }
      next := FirstParent(g, id);
      i := i + 1;
    }
    WalkReturns(g, n, seeds, head, chain, next, i, out, Ok(out));
    r := Ok(out);
  }

  // --- What the log is good for ---

  /** The newest logged commit that touched the path. */
  function NewestTouch(log: seq<Change>, path: string): Option<Oid> {
    if log == [] then None
    else if path in log[0].changedPaths then Some(log[0].hash)
    else NewestTouch(log[1..], path)
  }

  function BlobIn(g: Repo, id: Oid, path: string): Option<Oid> { BlobAt(TreeOf(g, id), path) }

  /** A seed path's blob at any commit of the chain is its blob at the newest
      logged commit, from that commit back, that touched it; absent if none did. */
  lemma {:induction false} LogDeterminesBlobs(g: Repo, seeds: seq<string>, next: Option<Oid>, chain: seq<Oid>,
                                              i: nat, path: string)
    requires i < |chain| && ChainFrom(g, next, chain, i) && path in seeds
    requires forall k :: i <= k < |chain| ==> chain[k] in g
    ensures BlobIn(g, chain[i], path) ==
      match NewestTouch(Log(g, seeds, chain, i), path)
      case None => None
      case Some(h) => BlobIn(g, h, path)
    decreases |chain| - i
  {
    var id, rest := chain[i], Log(g, seeds, chain, i + 1);
    var changed := Changed(g, id, seeds);
    var log := Log(g, seeds, chain, i);
    assert changed != {} ==> log[1..] == rest;
    assert changed == {} ==> log == rest;
    if path !in changed {
      assert NewestTouch(log, path) == NewestTouch(rest, path);
      assert BlobIn(g, id, path) == BlobAt(ParentTree(g, id), path);
      assert EndOf(g, next, chain, i) == EndOf(g, FirstParent(g, id), chain, i + 1);
      if i + 1 < |chain| {
        assert ChainFrom(g, FirstParent(g, id), chain, i + 1);
        LogDeterminesBlobs(g, seeds, FirstParent(g, id), chain, i + 1, path);
      }
    }
  }

  /** Between two logged commits nothing happens to any seed path. */
  lemma {:induction false} NewestLoggedHasBlobs(g: Repo, seeds: seq<string>, next: Option<Oid>, chain: seq<Oid>,
                                                i: nat, path: string)
    requires i < |chain| && ChainFrom(g, next, chain, i) && path in seeds
    requires forall k :: i <= k < |chain| ==> chain[k] in g
    ensures var log := Log(g, seeds, chain, i);
      BlobIn(g, chain[i], path) == if log == [] then None else BlobIn(g, log[0].hash, path)
    decreases |chain| - i
  {
    var id := chain[i];
    if Changed(g, id, seeds) == {} {
      assert path !in Changed(g, id, seeds);
      assert BlobIn(g, id, path) == BlobAt(ParentTree(g, id), path);
      assert EndOf(g, next, chain, i) == EndOf(g, FirstParent(g, id), chain, i + 1);
      if i + 1 < |chain| {
        assert ChainFrom(g, FirstParent(g, id), chain, i + 1);
        NewestLoggedHasBlobs(g, seeds, FirstParent(g, id), chain, i + 1, path);
      }
    }
  }

  /** Every logged commit is on the chain and really moved each listed path. */
  lemma {:induction false} LoggedCommitsMoved(g: Repo, seeds: seq<string>, chain: seq<Oid>, i: nat, c: Change)
    requires i <= |chain| && forall k :: i <= k < |chain| ==> chain[k] in g
    requires c in Log(g, seeds, chain, i)
    ensures c.hash in chain[i..] && c.hash in g && c.changedPaths != {}
    ensures forall path :: path in c.changedPaths <==>
      path in seeds && BlobIn(g, c.hash, path) != BlobAt(ParentTree(g, c.hash), path)
    decreases |chain| - i
  {
    var changed := Changed(g, chain[i], seeds);
    assert chain[i..] == [chain[i]] + chain[i + 1..];
    if changed == {} || c != Change(chain[i], changed) {
      LoggedCommitsMoved(g, seeds, chain, i + 1, c);
    }
  }

  /** The commit has a file with this object at the path: any entry there that is
      neither a directory nor a submodule. */
  predicate HasFile(g: Repo, id: Oid, path: string, oid: Oid) {
    && id in g && g[id].tree.Some? && path in g[id].tree.value
    && var entry := g[id].tree.value[path];
    entry.oid == oid && entry.kind != Directory && entry.kind != Gitlink
  }

  /** Some object is the file at the path on one side of the first-parent step only. */
  ghost predicate FileMoved(g: Repo, id: Oid, path: string)
    requires id in g
  {
    exists oid :: HasFile(g, id, path, oid) != (g[id].parents != [] && HasFile(g, g[id].parents[0], path, oid))
  }

  ghost predicate LoggedAt(log: seq<Change>, id: Oid, path: string) {
    exists k :: 0 <= k < |log| && log[k].hash == id && path in log[k].changedPaths
  }

  lemma BlobIsFile(g: Repo, id: Oid, path: string, oid: Oid)
    ensures BlobIn(g, id, path) == Some(oid) <==> HasFile(g, id, path, oid)
  {
  }

  lemma MovedIsChanged(g: Repo, seeds: seq<string>, id: Oid, path: string)
    requires id in g
    ensures path in Changed(g, id, seeds) <==> path in seeds && FileMoved(g, id, path)
  {
    var here, there := BlobIn(g, id, path), BlobAt(ParentTree(g, id), path);
    forall oid
      ensures (here == Some(oid)) == HasFile(g, id, path, oid)
      ensures (there == Some(oid)) == (g[id].parents != [] && HasFile(g, g[id].parents[0], path, oid))
    {
      BlobIsFile(g, id, path, oid);
      if g[id].parents != [] {
        BlobIsFile(g, g[id].parents[0], path, oid);
      }
    }
    if here != there {
      var oid := if here.Some? then here.value else there.value;
      assert HasFile(g, id, path, oid) != (g[id].parents != [] && HasFile(g, g[id].parents[0], path, oid));
    }
  }

  /** A seed path is logged at a commit of the walk exactly when it is a file on one
      side of the step only, or a different one. */
  lemma {:induction false} LoggedExactly(g: Repo, seeds: seq<string>, chain: seq<Oid>, i: nat, id: Oid, path: string)
    requires i <= |chain| && forall k :: i <= k < |chain| ==> chain[k] in g
    ensures LoggedAt(Log(g, seeds, chain, i), id, path) <==>
      id in chain[i..] && path in seeds && FileMoved(g, id, path)
    decreases |chain| - i
  {
    hide FileMoved, Changed;
    if i < |chain| {
      var here, rest := Entries(g, chain[i], seeds), Log(g, seeds, chain, i + 1);
      assert chain[i..] == [chain[i]] + chain[i + 1..];
      MovedIsChanged(g, seeds, chain[i], path);
      EntriesLog(g, chain[i], seeds, id, path);
      LoggedConcat(here, rest, id, path);
      LoggedExactly(g, seeds, chain, i + 1, id, path);
    }
  }

  lemma EntriesLog(g: Repo, at: Oid, seeds: seq<string>, id: Oid, path: string)
    requires at in g
    ensures LoggedAt(Entries(g, at, seeds), id, path) <==> id == at && path in Changed(g, at, seeds)
  {
    if id == at && path in Changed(g, at, seeds) {
      assert Entries(g, at, seeds)[0] == Change(at, Changed(g, at, seeds));
    }
  }

  lemma LoggedConcat(a: seq<Change>, b: seq<Change>, id: Oid, path: string)
    ensures LoggedAt(a + b, id, path) <==> LoggedAt(a, id, path) || LoggedAt(b, id, path)
  {
    if LoggedAt(a, id, path) {
      var k :| 0 <= k < |a| && a[k].hash == id && path in a[k].changedPaths;
      assert (a + b)[k] == a[k];
    }
    if LoggedAt(b, id, path) {
      var k :| 0 <= k < |b| && b[k].hash == id && path in b[k].changedPaths;
      assert (a + b)[|a| + k] == b[k];
    }
    if LoggedAt(a + b, id, path) {
      var k :| 0 <= k < |a + b| && (a + b)[k].hash == id && path in (a + b)[k].changedPaths;
      assert (a + b)[k] == if k < |a| then a[k] else b[k - |a|];
    }
  }

  // --- One walk, however far it is followed ---

  lemma {:induction false} PathsAgree(g: Repo, next: Option<Oid>, a: seq<Oid>, b: seq<Oid>, i: nat)
    requires i <= |a| <= |b| && PathFrom(g, next, a, i) && PathFrom(g, next, b, i)
    ensures forall k :: i <= k < |a| ==> a[k] == b[k]
    ensures Ended(g, EndOf(g, next, a, i)) ==> |a| == |b|
    ensures |a| == |b| ==> EndOf(g, next, a, i) == EndOf(g, next, b, i)
    decreases |a| - i
  {
    if i < |a| {
      PathsAgree(g, FirstParent(g, a[i]), a, b, i + 1);
    }
  }

  lemma PrefixBehind<T>(x: seq<T>, p: seq<T>, q: seq<T>)
    requires p <= q
    ensures x + p <= x + q
  {
  }

  lemma {:induction false} LogsAgree(g: Repo, seeds: seq<string>, a: seq<Oid>, b: seq<Oid>, i: nat)
    requires i <= |a| <= |b| && (forall k :: i <= k < |b| ==> b[k] in g) && forall k :: i <= k < |a| ==> a[k] == b[k]
    ensures Log(g, seeds, a, i) <= Log(g, seeds, b, i)
    ensures |a| == |b| ==> Log(g, seeds, a, i) == Log(g, seeds, b, i)
    decreases |a| - i
  {
    hide Entries;
    if i < |a| {
      LogsAgree(g, seeds, a, b, i + 1);
      PrefixBehind(Entries(g, a[i], seeds), Log(g, seeds, a, i + 1), Log(g, seeds, b, i + 1));
    }
  }

  /** Two readings of one walk: the shorter is the front of the longer, and so is
      its log; one that ended cannot be shorter. */
  lemma WalksNest(g: Repo, seeds: seq<string>, head: Option<Oid>, a: seq<Oid>, b: seq<Oid>)
    requires PathFrom(g, head, a, 0) && PathFrom(g, head, b, 0) && |a| <= |b|
    ensures Ended(g, EndOf(g, head, a, 0)) ==> |a| == |b|
    ensures |a| == |b| ==> EndOf(g, head, a, 0) == EndOf(g, head, b, 0)
    ensures (forall k :: 0 <= k < |a| ==> a[k] in g) && (forall k :: 0 <= k < |b| ==> b[k] in g)
    ensures Log(g, seeds, a, 0) <= Log(g, seeds, b, 0)
    ensures |a| == |b| ==> Log(g, seeds, a, 0) == Log(g, seeds, b, 0)
  {
    PathReadable(g, head, a, 0);
    PathReadable(g, head, b, 0);
    PathsAgree(g, head, a, b, 0);
    LogsAgree(g, seeds, a, b, 0);
  }

  /** A limited log is the front of a longer one, however far either run follows
      the chain, until the longer one meets a commit it cannot read; then the
      limited one fails alike or stopped before. At one limit there is one result. */
  lemma LimitedIsPrefix(g: Repo, n: nat, big: nat, seeds: seq<string>, head: Option<Oid>, short: seq<Oid>,
                        long: seq<Oid>, some: Result, all: Result)
    requires n <= big && Stops(g, n, seeds, head, short) && Stops(g, big, seeds, head, long)
    requires IsLog(g, n, seeds, head, short, some) && IsLog(g, big, seeds, head, long, all)
    ensures all.Ok? ==> some.Ok? && some.log == if n <= |all.log| then all.log[..n] else all.log
    ensures all.Err? ==> some == all || (some.Ok? && |some.log| == n)
    ensures n == big ==> some == all
  {
    if |short| <= |long| {
      WalksNest(g, seeds, head, short, long);
    } else {
      WalksNest(g, seeds, head, long, short);
    }
  }
}
