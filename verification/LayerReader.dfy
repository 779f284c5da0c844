/** The reader and its per-run snapshot: both layers captured lazily, once. */
module LayerReader {
  import opened Text
  import opened TreeBuild
  import opened LayerViews

  /** Merged view of the entries at one path: the first one's blob, and whether
      any of them is at a conflict stage. */
  datatype PathEntry = PathEntry(unmerged: bool, oid: Oid)

  datatype Capture<T> = Complete(value: T) | Degraded

  type IndexTable = map<string, PathEntry>
  type LeafMap = map<string, Oid>

  function Get<K, V>(m: map<K, V>, k: K): Option<V> { if k in m then Some(m[k]) else None }

  // --- The index capture ---

  /** `t` folds `es`. */
  ghost predicate Folds(es: seq<IndexEntry>, t: IndexTable) {
    forall path :: Get(t, path) == if FirstAt(es, path).None? then None
      else Some(PathEntry(UnmergedAt(es, path), FirstAt(es, path).value))
  }

  lemma {:induction false} FirstAtSnoc(es: seq<IndexEntry>, e: IndexEntry, path: string)
    ensures FirstAt(es + [e], path) ==
      if FirstAt(es, path).Some? then FirstAt(es, path) else if e.path == path then Some(e.oid) else None
  {
    if es != [] {
      assert (es + [e])[1..] == es[1..] + [e];
      FirstAtSnoc(es[1..], e, path);
    }
  }

  lemma UnmergedAtSnoc(es: seq<IndexEntry>, e: IndexEntry, path: string)
    ensures UnmergedAt(es + [e], path) <==> UnmergedAt(es, path) || (e.path == path && e.stage != Unconflicted)
  {
    var all := es + [e];
    if UnmergedAt(es, path) {
      var i :| 0 <= i < |es| && es[i].path == path && es[i].stage != Unconflicted;
      assert all[i].path == path && all[i].stage != Unconflicted;
    }
    if e.path == path && e.stage != Unconflicted {
      assert all[|es|].path == path && all[|es|].stage != Unconflicted;
    }
  }

  lemma {:induction false} UnmergedHasFirst(es: seq<IndexEntry>, path: string)
    requires UnmergedAt(es, path)
    ensures FirstAt(es, path).Some?
  {
    var i :| 0 <= i < |es| && es[i].path == path && es[i].stage != Unconflicted;
    if es[0].path != path {
      assert es[1..][i - 1] == es[i];
      UnmergedHasFirst(es[1..], path);
    }
  }

  function FoldEntry(t: IndexTable, e: IndexEntry): IndexTable {
    var slot := if e.path in t then t[e.path] else PathEntry(false, e.oid);
    t[e.path := PathEntry(slot.unmerged || e.stage != Unconflicted, slot.oid)]
  }

  lemma FoldStep(es: seq<IndexEntry>, t: IndexTable, e: IndexEntry)
    requires Folds(es, t)
    ensures Folds(es + [e], FoldEntry(t, e))
  {
    forall path
      ensures Get(FoldEntry(t, e), path) == if FirstAt(es + [e], path).None? then None
        else Some(PathEntry(UnmergedAt(es + [e], path), FirstAt(es + [e], path).value))
    {
      FirstAtSnoc(es, e, path);
      UnmergedAtSnoc(es, e, path);
      assert Get(t, path) == if FirstAt(es, path).None? then None
        else Some(PathEntry(UnmergedAt(es, path), FirstAt(es, path).value));
      if UnmergedAt(es, path) {
        UnmergedHasFirst(es, path);
      }
    }
  }

  method BuildIndexTable(es: seq<IndexEntry>) returns (t: IndexTable)
    ensures Folds(es, t)
  {
    t := map[];
    for n := 0 to |es|
      invariant Folds(es[..n], t)
    {
      FoldStep(es[..n], t, es[n]);
      assert es[..n + 1] == es[..n] + [es[n]];
      t := FoldEntry(t, es[n]);
    }
    assert es[..|es|] == es;
  }

  ghost predicate IsIndexCapture(repo: Repo, c: Capture<IndexTable>) {
    && (c.Complete? <==> repo.index.Some?)
    && (c.Complete? ==> Folds(ValidEntries(repo.index.value), c.value))
  }

  // --- The HEAD capture ---

  /** The path `p` seen from the directory `at`. */
  function Below(at: seq<string>, p: seq<string>): seq<string> { if at <= p then p[|at|..] else [] }

  /** A leaf of `t` whose first component is among `visited`. */
  function LeafIn(t: CommittedTree, visited: set<string>, p: seq<string>): Option<Oid> {
    if p != [] && p[0] in visited then LeafAt(t, p) else None
  }

  function Or(a: Option<Oid>, b: Option<Oid>): Option<Oid> { if a.Some? then a else b }

  /** `after` is `before` plus the leaves of `t` (through `visited`) under `at`. */
  ghost predicate Adds(t: CommittedTree, visited: set<string>, at: seq<string>, before: LeafMap, after: LeafMap) {
    forall name :: Get(after, name) == Or(LeafIn(t, visited, Below(at, Split(name))), Get(before, name))
  }

  ghost predicate PlainParts(parts: seq<string>) {
    forall i :: 0 <= i < |parts| ==> parts[i] != "" && '/' !in parts[i]
  }

  lemma SplitJoin(parts: seq<string>)
    requires PlainParts(parts) && parts != []
    ensures Split(Join(parts, '/')) == parts
    ensures Join(parts, '/') != ""
  {
    JoinFields(parts, '/');
    if |parts| > 1 {
      JoinMore(parts, '/');
    }
  }

  /** How the original spells a child's path. */
  function Rel(prefix: string, name: string): string { if prefix == "" then name else prefix + "/" + name }

  lemma RelIsJoin(at: seq<string>, name: string)
    requires PlainParts(at)
    ensures Rel(Join(at, '/'), name) == Join(at + [name], '/')
  {
    JoinSnoc(at, name, '/');
    if at != [] {
      SplitJoin(at);
    }
  }

  lemma SameName(name: string, parts: seq<string>)
    requires PlainParts(parts) && parts != []
    ensures Split(name) == parts <==> name == Join(parts, '/')
  {
    SplitJoin(parts);
    JoinSplit(name);
  }

  lemma BelowChild(at: seq<string>, k: string, p: seq<string>)
    ensures Below(at + [k], p) == if Below(at, p) != [] && Below(at, p)[0] == k then Below(at, p)[1..] else []
  {
    if at <= p && |p| > |at| && p[|at|] == k {
      assert at + [k] == p[..|at| + 1];
    }
    if at + [k] <= p {
      assert p[|at|] == k && at == p[..|at|];
      assert Below(at, p) == [k] + Below(at + [k], p);
    }
  }

  lemma AddBlob(t: CommittedTree, visited: set<string>, at: seq<string>, before: LeafMap, after: LeafMap, k: string)
    requires Adds(t, visited, at, before, after) && PlainParts(at + [k]) && k in t.items && t.items[k].Blob? &&
      k !in visited
    ensures Adds(t, visited + {k}, at, before, after[Join(at + [k], '/') := t.items[k].oid])
  {
    var here := after[Join(at + [k], '/') := t.items[k].oid];
    forall name
      ensures Get(here, name) == Or(LeafIn(t, visited + {k}, Below(at, Split(name))), Get(before, name))
    {
      var p := Below(at, Split(name));
      SameName(name, at + [k]);
      assert Split(name) == at + [k] ==> p == [k];
      assert p == [k] ==> Split(name) == at + [k];
      assert p != [] && p[0] == k && p != [k] ==> LeafAt(t, p) == None;
    }
  }

  lemma AddSubtree(t: CommittedTree, visited: set<string>, at: seq<string>, before: LeafMap, mid: LeafMap,
                   after: LeafMap, k: string)
    requires Adds(t, visited, at, before, mid) && k in t.items && k !in visited
    requires t.items[k].Subtree? && t.items[k].tree.Some?
    requires Adds(t.items[k].tree.value, t.items[k].tree.value.items.Keys, at + [k], mid, after)
    ensures Adds(t, visited + {k}, at, before, after)
  {
    var sub := t.items[k].tree.value;
    forall name
      ensures Get(after, name) == Or(LeafIn(t, visited + {k}, Below(at, Split(name))), Get(before, name))
    {
      var p := Below(at, Split(name));
      BelowChild(at, k, Split(name));
      assert Get(after, name) == Or(LeafIn(sub, sub.items.Keys, Below(at + [k], Split(name))), Get(mid, name));
      assert Get(mid, name) == Or(LeafIn(t, visited, p), Get(before, name));
      if p != [] && p[0] == k {
        assert LeafAt(t, p) == LeafAt(sub, p[1..]);
        assert LeafIn(sub, sub.items.Keys, p[1..]) == LeafAt(sub, p[1..]);
      }
    }
  }

  /** `None` as soon as one subtree cannot be read. */
  method CollectTreeLeafOids(t: CommittedTree, prefix: string, leaves: LeafMap, ghost at: seq<string>)
    returns (r: Option<LeafMap>)
    requires PlainNames(t) && PlainParts(at) && prefix == Join(at, '/')
    ensures r.Some? <==> AllReadable(t)
    ensures r.Some? ==> Adds(t, t.items.Keys, at, leaves, r.value)
    decreases t
  {
    var out, rest := leaves, t.items.Keys;
    ghost var visited: set<string> := {};
    while rest != {}
      invariant rest !! visited && rest + visited == t.items.Keys
      invariant Adds(t, visited, at, leaves, out)
      invariant forall k :: k in visited && t.items[k].Subtree? ==>
        t.items[k].tree.Some? && AllReadable(t.items[k].tree.value)
      decreases rest
    {
      var k :| k in rest;
      RelIsJoin(at, k);
      var rel := Rel(prefix, k);
      match t.items[k] {
        case Blob(oid) =>
          AddBlob(t, visited, at, leaves, out, k);
          out := out[rel := oid];
        case Subtree(_, sub) =>
          if sub.None? {
            return None;
          }
          var inner := CollectTreeLeafOids(sub.value, rel, out, at + [k]);
          if inner.None? {
            return None;
          }
          AddSubtree(t, visited, at, leaves, out, inner.value, k);
          out := inner.value;
      }
      rest, visited := rest - {k}, visited + {k};
    }
    r := Some(out);
  }

  ghost predicate IsHeadCapture(head: Head, c: Capture<LeafMap>) {
    && (c.Complete? <==> HeadCaptured(head))
    && (c.Complete? ==> forall name :: Get(c.value, name) == Captured(head, name))
  }

  ghost predicate PlainHead(head: Head) {
    head.RootTree? && head.tree.Some? ==> PlainNames(head.tree.value)
  }

  method BuildHeadCapture(head: Head) returns (c: Capture<LeafMap>)
    requires PlainHead(head)
    ensures IsHeadCapture(head, c)
  {
    match head
    case Unborn => c := Complete(map[]);
    case RootAbsent => c := Complete(map[]);
    case RootTree(_, tree) =>
      if tree.None? {
        return Degraded;
      }
      var leaves := CollectTreeLeafOids(tree.value, "", map[], []);
      c := if leaves.Some? then Complete(leaves.value) else Degraded;
    case _ => c := Degraded;
  }

  // --- The reader ---

  /** A layer below that has the name makes the absence above it a deletion. */
  function Hides(below: Outcome<bool>): Outcome<Span> {
    match below
    case Failed(failure) => Failed(failure)
    case Done(_) => Done(None)
  }

  /** Both captures start empty and are filled by the first probe that asks. */
  class LayerSnapshot {
    var index: Option<Capture<IndexTable>>
    var head: Option<Capture<LeafMap>>

    constructor ()
      ensures index == None && head == None
    {
      index, head := None, None;
    }

    ghost predicate Valid(repo: Repo)
      reads this
    {
      && (index.Some? ==> IsIndexCapture(repo, index.value))
      && (head.Some? ==> IsHeadCapture(repo.head, head.value))
    }
  }

  function ViewOf(layers: LayerSnapshot?): View { if layers == null then Probes else Snapshot }

  /** Both captures complete, so no probe goes back to git. */
  predicate Capturable(repo: Repo) { repo.index.Some? && HeadCaptured(repo.head) }

  class Reader {
    const repo: Repo
    /** Index materializations and HEAD walks performed so far. */
    var indexLoads: nat
    var headWalks: nat

    constructor (source: Repo)
      ensures repo == source && indexLoads == headWalks == 0
    {
      repo, indexLoads, headWalks := source, 0, 0;
    }

    /** What the run has spent or may still spend on a layer. */
    ghost function IndexBudget(layers: LayerSnapshot): nat
      reads this, layers
    {
      indexLoads + if layers.index.None? then 1 else 0
    }

    ghost function HeadBudget(layers: LayerSnapshot): nat
      reads this, layers
    {
      headWalks + if layers.head.None? then 1 else 0
    }

    ghost predicate Ready(layers: LayerSnapshot?)
      reads layers
    {
      PlainHead(repo.head) && (layers != null ==> layers.Valid(repo))
    }

    /** No probe exceeds the one fold and the one walk of its snapshot. */
    twostate predicate Thrifty(layers: LayerSnapshot?)
      reads this, layers
    {
      layers != null && Capturable(repo) ==>
        IndexBudget(layers) <= old(IndexBudget(layers)) && HeadBudget(layers) <= old(HeadBudget(layers))
    }

    method IndexTableOf(layers: LayerSnapshot?) returns (t: Option<IndexTable>)
      requires Ready(layers)
      modifies this`indexLoads, layers
      ensures Ready(layers) && Thrifty(layers)
      ensures t.Some? <==> layers != null && repo.index.Some?
      ensures t.Some? ==> Folds(ValidEntries(repo.index.value), t.value)
    {
      if layers == null {
        return None;
      }
      if layers.index == None {
        indexLoads := indexLoads + 1;
        if repo.index.None? {
          layers.index := Some(Degraded);
        } else {
          var table := BuildIndexTable(ValidEntries(repo.index.value));
          layers.index := Some(Complete(table));
        }
      }
      match layers.index.value {
        case Complete(table) => t := Some(table);
        case Degraded => t := None;
      }
    }

    method HeadNamesOf(layers: LayerSnapshot?) returns (names: Option<LeafMap>)
      requires Ready(layers)
      modifies this`headWalks, layers
      ensures Ready(layers) && Thrifty(layers)
      ensures names.Some? <==> layers != null && HeadCaptured(repo.head)
      ensures names.Some? ==> forall name :: Get(names.value, name) == Captured(repo.head, name)
    {
      if layers == null {
        return None;
      }
      if layers.head == None {
        headWalks := headWalks + 1;
        var capture := BuildHeadCapture(repo.head);
        layers.head := Some(capture);
      }
      match layers.head.value {
        case Complete(leaves) => names := Some(leaves);
        case Degraded => names := None;
      }
    }

    method IsUnmergedInIndex(layers: LayerSnapshot?, name: string) returns (r: bool)
      requires Ready(layers)
      modifies this`indexLoads, layers
      ensures Ready(layers) && Thrifty(layers)
      ensures r == IsUnmerged(repo, name)
    {
      var path := SpanPath(repo, name);
      var table := IndexTableOf(layers);
      if table.Some? {
        assert Get(table.value, path) == if FirstAt(ValidEntries(repo.index.value), path).None? then None
          else Some(PathEntry(UnmergedAt(ValidEntries(repo.index.value), path),
            FirstAt(ValidEntries(repo.index.value), path).value));
        if UnmergedAt(ValidEntries(repo.index.value), path) {
          UnmergedHasFirst(ValidEntries(repo.index.value), path);
        }
        return path in table.value && table.value[path].unmerged;
      }
      indexLoads := indexLoads + 1;
      r := repo.index.Some? && UnmergedAt(ValidEntries(repo.index.value), path);
    }

    method ExistsInIndex(layers: LayerSnapshot?, name: string) returns (r: Outcome<bool>)
      requires Ready(layers)
      modifies this`indexLoads, layers
      ensures Ready(layers) && Thrifty(layers)
      ensures r == InIndex(repo, ViewOf(layers), name)
    {
      var path := SpanPath(repo, name);
      var table := IndexTableOf(layers);
      if table.Some? {
        assert Get(table.value, path).Some? <==> FirstAt(ValidEntries(repo.index.value), path).Some?;
        return Done(path in table.value);
      }
      indexLoads := indexLoads + 1;
      r := if repo.index.None? then Failed(IndexLoad) else Done(FirstAt(repo.index.value, path).Some?);
    }

    method ReadStagedLayers(layers: LayerSnapshot?, name: string) returns (r: Outcome<Span>)
      requires Ready(layers)
      modifies this`indexLoads, layers
      ensures Ready(layers) && Thrifty(layers)
      ensures r == ReadStaged(repo, ViewOf(layers), name)
    {
      var path := SpanPath(repo, name);
      var table := IndexTableOf(layers);
      if table.Some? {
        assert Get(table.value, path).Some? <==> FirstAt(ValidEntries(repo.index.value), path).Some?;
        return if path in table.value then ReadBlob(repo, table.value[path].oid) else Done(None);
      }
      indexLoads := indexLoads + 1;
      r := if repo.index.None? then Failed(IndexLoad) else ReadFirst(repo, FirstAt(repo.index.value, path));
    }

    method ExistsInHead(layers: LayerSnapshot?, name: string) returns (r: Outcome<bool>)
      requires Ready(layers)
      modifies this`headWalks, layers
      ensures Ready(layers) && Thrifty(layers)
      ensures r == InHead(repo, ViewOf(layers), name)
    {
      var names := HeadNamesOf(layers);
      if names.Some? {
        assert Get(names.value, name) == Captured(repo.head, name);
        return Done(name in names.value);
      }
      headWalks := headWalks + 1;
      var found := Probe(repo, name);
      r := if found.Failed? then Failed(HeadRead) else Done(found.value.Some?);
    }

    method ReadHeadLayers(layers: LayerSnapshot?, name: string) returns (r: Outcome<Span>)
      requires Ready(layers)
      modifies this`headWalks, layers
      ensures Ready(layers) && Thrifty(layers)
      ensures r == ReadHead(repo, ViewOf(layers), name)
    {
      var names := HeadNamesOf(layers);
      if names.Some? {
        assert Get(names.value, name) == Captured(repo.head, name);
        return if name in names.value then ReadBlob(repo, names.value[name]) else Done(None);
      }
      headWalks := headWalks + 1;
      var found := Probe(repo, name);
      if found.Failed? {
        return Failed(HeadRead);
      }
      r := if found.value.None? then Done(None) else ReadBlob(repo, found.value.value.oid);
    }

    method ReadEffectiveLayers(layers: LayerSnapshot?, name: string) returns (r: Outcome<Span>)
      requires Ready(layers)
      modifies this`indexLoads, this`headWalks, layers
      ensures Ready(layers) && Thrifty(layers)
      ensures r == Effective(repo, ViewOf(layers), name)
    {
      var unmerged := IsUnmergedInIndex(layers, name);
      if unmerged {
        return Failed(UnmergedIndex);
      }
      var work := ReadWorktree(repo, name);
      if work != Done(None) {
        return work;
      }
      var inIndex := ExistsInIndex(layers, name);
      if inIndex != Done(false) {
        return Hides(inIndex);
      }
      var inHead := ExistsInHead(layers, name);
      if inHead != Done(false) {
        return Hides(inHead);
      }
      var staged := ReadStagedLayers(layers, name);
      if staged != Done(None) {
        return staged;
      }
      var again := ExistsInHead(layers, name);
      if again != Done(false) {
        return Hides(again);
      }
      r := ReadHeadLayers(layers, name);
    }

    /** A corpus read through one snapshot: every answer is the effective view,
        for one index fold and one HEAD walk in all. */
    method ReadCorpus(names: seq<string>) returns (rs: seq<Outcome<Span>>)
      requires PlainHead(repo.head)
      modifies this`indexLoads, this`headWalks
      ensures |rs| == |names| && forall i :: 0 <= i < |names| ==> rs[i] == Effective(repo, Snapshot, names[i])
      ensures Capturable(repo) ==> indexLoads <= old(indexLoads) + 1 && headWalks <= old(headWalks) + 1
    {
      var layers := new LayerSnapshot();
      rs := [];
      for n := 0 to |names|
        invariant Ready(layers) && fresh(layers)
        invariant |rs| == n && forall i :: 0 <= i < n ==> rs[i] == Effective(repo, Snapshot, names[i])
        invariant Capturable(repo) ==>
          IndexBudget(layers) <= old(indexLoads) + 1 && HeadBudget(layers) <= old(headWalks) + 1
      {
        var r := ReadEffectiveLayers(layers, names[n]);
        rs := rs + [r];
      }
    }
  }
}
