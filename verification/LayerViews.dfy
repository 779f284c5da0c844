/** What the layered reader sees of the index and of HEAD: probe by probe, or
    through a snapshot captured once. */
module LayerViews {
  import opened Text
  import SpanFormat
  import opened TreeBuild

  datatype Stage = Unconflicted | BaseStage | OursStage | TheirsStage

  /** `validMode` is false for an entry the snapshot's enumeration skips. */
  datatype IndexEntry = IndexEntry(path: string, stage: Stage, oid: Oid, validMode: bool)

  /** A committed tree; `None` marks a subtree object that cannot be read. */
  datatype Item = Blob(oid: Oid) | Subtree(oid: Oid, tree: Option<CommittedTree>)
  datatype CommittedTree = CommittedTree(items: map<string, Item>)

  /** HEAD, resolved as far as the span root. */
  datatype Head = Unborn | Unreadable | RootAbsent | RootUnresolved | RootBlob(oid: Oid)
                | RootTree(oid: Oid, tree: Option<CommittedTree>)

  datatype WorkFile = Text(text: string) | NotReadable

  /** `index` is `None` when loading it fails. A worktree path that is absent or
      a directory is not in `worktree`. */
  datatype Repo = Repo(root: string, index: Option<seq<IndexEntry>>, head: Head, worktree: map<string, WorkFile>,
                       blobs: map<Oid, string>)

  datatype Failure = UnmergedIndex | Malformed(error: SpanFormat.Error) | WorktreeIo | IndexLoad | HeadRead
                   | BlobRead(oid: Oid)

  datatype Outcome<+T> = Done(value: T) | Failed(failure: Failure)

  type Span = Option<SpanFormat.SpanFile>

  /** Ask git each time, or consult a snapshot. */
  datatype View = Probes | Snapshot

  function SpanPath(repo: Repo, name: string): string { repo.root + "/" + name }

  function ParseNamed(text: string): Outcome<Span> {
    match SpanFormat.Parse(text)
    case Ok(file) => Done(Some(file))
    case Err(error) => Failed(Malformed(error))
  }

  function ReadBlob(repo: Repo, oid: Oid): Outcome<Span> {
    if oid in repo.blobs then ParseNamed(repo.blobs[oid]) else Failed(BlobRead(oid))
  }

  function ReadWorktree(repo: Repo, name: string): Outcome<Span> {
    if name !in repo.worktree then Done(None)
    else if repo.worktree[name].NotReadable? then Failed(WorktreeIo)
    else ParseNamed(repo.worktree[name].text)
  }

  // --- The index ---

  function ValidEntries(es: seq<IndexEntry>): seq<IndexEntry> {
    if es == [] then [] else (if es[0].validMode then [es[0]] else []) + ValidEntries(es[1..])
  }

  function FirstAt(es: seq<IndexEntry>, path: string): Option<Oid> {
    if es == [] then None else if es[0].path == path then Some(es[0].oid) else FirstAt(es[1..], path)
  }

  predicate UnmergedAt(es: seq<IndexEntry>, path: string) {
    exists i :: 0 <= i < |es| && es[i].path == path && es[i].stage != Unconflicted
  }

  function ReadFirst(repo: Repo, found: Option<Oid>): Outcome<Span> {
    if found.None? then Done(None) else ReadBlob(repo, found.value)
  }

  /** A failed load is not a conflict. */
  function IsUnmerged(repo: Repo, name: string): bool {
    repo.index.Some? && UnmergedAt(ValidEntries(repo.index.value), SpanPath(repo, name))
  }

  /** The entries a view looks at. */
  function Visible(v: View, es: seq<IndexEntry>): seq<IndexEntry> { if v.Snapshot? then ValidEntries(es) else es }

  function InIndex(repo: Repo, v: View, name: string): Outcome<bool> {
    if repo.index.None? then Failed(IndexLoad)
    else Done(FirstAt(Visible(v, repo.index.value), SpanPath(repo, name)).Some?)
  }

  function ReadStaged(repo: Repo, v: View, name: string): Outcome<Span> {
    if repo.index.None? then Failed(IndexLoad)
    else ReadFirst(repo, FirstAt(Visible(v, repo.index.value), SpanPath(repo, name)))
  }

  // --- HEAD ---

  /** Components of a path as `std::path` sees them. */
  function Normal(parts: seq<string>): seq<string> {
    if parts == [] then []
    else (if parts[0] == "" || parts[0] == "." then [] else [parts[0]]) + Normal(parts[1..])
  }

  /** One lookup, descending through readable subtrees only. */
  function Walk(t: CommittedTree, parts: seq<string>): Outcome<Option<Item>>
    requires parts != []
    decreases |parts|
  {
    if parts[0] !in t.items then Done(None)
    else
      var item := t.items[parts[0]];
      if |parts| == 1 then Done(Some(item))
      else
        match item
        case Blob(_) => Done(None)
        case Subtree(_, tree) => if tree.None? then Failed(HeadRead) else Walk(tree.value, parts[1..])
  }

  /** `tree_entry_at(HEAD, <root>/<name>)`. */
  function Probe(repo: Repo, name: string): Outcome<Option<Item>> {
    var parts := Normal(Split(name));
    match repo.head
    case Unborn => Done(None)
    case Unreadable => Failed(HeadRead)
    case RootAbsent => Done(None)
    case RootUnresolved => Failed(HeadRead)
    case RootBlob(oid) => Done(if parts == [] then Some(Blob(oid)) else None)
    case RootTree(oid, tree) =>
      if parts == [] then Done(Some(Subtree(oid, tree)))
      else if tree.None? then Failed(HeadRead)
      else Walk(tree.value, parts)
  }

  /** Every subtree object below can be read. */
  predicate AllReadable(t: CommittedTree) {
    forall k :: k in t.items && t.items[k].Subtree? ==> t.items[k].tree.Some? && AllReadable(t.items[k].tree.value)
  }

  /** A blob reached through readable subtrees. */
  function LeafAt(t: CommittedTree, parts: seq<string>): Option<Oid>
    decreases |parts|
  {
    if parts == [] || parts[0] !in t.items then None
    else
      match t.items[parts[0]]
      case Blob(oid) => if |parts| == 1 then Some(oid) else None
      case Subtree(_, tree) => if tree.Some? then LeafAt(tree.value, parts[1..]) else None
  }

  /** The HEAD capture completes. */
  predicate HeadCaptured(head: Head) {
    head.Unborn? || head.RootAbsent? || (head.RootTree? && head.tree.Some? && AllReadable(head.tree.value))
  }

  /** What a completed capture maps a name to. */
  function Captured(head: Head, name: string): Option<Oid> {
    if head.RootTree? && head.tree.Some? then LeafAt(head.tree.value, Split(name)) else None
  }

  function InHead(repo: Repo, v: View, name: string): Outcome<bool> {
    if v.Snapshot? && HeadCaptured(repo.head) then Done(Captured(repo.head, name).Some?)
    else if Probe(repo, name).Failed? then Failed(HeadRead)
    else Done(Probe(repo, name).value.Some?)
  }

  function ReadHead(repo: Repo, v: View, name: string): Outcome<Span> {
    if v.Snapshot? && HeadCaptured(repo.head) then ReadFirst(repo, Captured(repo.head, name))
    else
      var found := Probe(repo, name);
      if found.Failed? then Failed(HeadRead)
      else if found.value.None? then Done(None)
      else ReadBlob(repo, found.value.value.oid)
  }

  // --- The effective view ---

  /** Worktree over index over HEAD, where absence in a layer hides what is below. */
  function Effective(repo: Repo, v: View, name: string): Outcome<Span> {
    var work, inIndex, inHead, staged := ReadWorktree(repo, name), InIndex(repo, v, name), InHead(repo, v, name),
      ReadStaged(repo, v, name);
    if IsUnmerged(repo, name) then Failed(UnmergedIndex)
    else if work != Done(None) then work
    else if inIndex.Failed? then Failed(inIndex.failure)
    else if inIndex.value then Done(None)
    else if inHead.Failed? then Failed(inHead.failure)
    else if inHead.value then Done(None)
    else if staged != Done(None) then staged
    else ReadHead(repo, v, name)
  }

  lemma {:induction false} WalkSucceeds(t: CommittedTree, parts: seq<string>)
    requires AllReadable(t) && parts != []
    ensures Walk(t, parts).Done?
    decreases |parts|
  {
    if |parts| > 1 && parts[0] in t.items && t.items[parts[0]].Subtree? {
      WalkSucceeds(t.items[parts[0]].tree.value, parts[1..]);
    }
  }

  /** Whatever a completed capture stands for, no probe would have failed. */
  lemma CaptureMeansProbesSucceed(repo: Repo, name: string)
    requires HeadCaptured(repo.head)
    ensures Probe(repo, name).Done?
  {
    var parts := Normal(Split(name));
    if repo.head.RootTree? && parts != [] {
      WalkSucceeds(repo.head.tree.value, parts);
    }
  }

  /** With the worktree file absent and nothing failing, the answer is "absent"
      whatever the lower layers hold: content always comes from the worktree. */
  lemma ContentOnlyFromWorktree(repo: Repo, v: View, name: string)
    ensures var r := Effective(repo, v, name);
      r.Done? && r.value.Some? ==>
        name in repo.worktree && repo.worktree[name].Text? && r == ParseNamed(repo.worktree[name].text)
    ensures ReadWorktree(repo, name) == Done(None) && !IsUnmerged(repo, name) ==>
      Effective(repo, v, name) ==
        if InIndex(repo, v, name).Failed? then Failed(IndexLoad)
        else if !InIndex(repo, v, name).value && InHead(repo, v, name).Failed? then Failed(HeadRead)
        else Done(None)
  {
  }

  lemma {:induction false} ValidHolds(es: seq<IndexEntry>, e: IndexEntry)
    ensures e in ValidEntries(es) <==> e in es && e.validMode
  {
    if es != [] {
      ValidHolds(es[1..], e);
      assert es == [es[0]] + es[1..];
    }
  }

  /** A valid entry at the name is at a conflict stage. */
  ghost predicate InConflict(repo: Repo, name: string) {
    && repo.index.Some?
    && exists e :: e in repo.index.value && e.validMode && e.path == repo.root + "/" + name && e.stage != Unconflicted
  }

  /** The read fails as unmerged exactly then, whatever the worktree holds. */
  lemma UnmergedFails(repo: Repo, v: View, name: string)
    ensures Effective(repo, v, name) == Failed(UnmergedIndex) <==> InConflict(repo, name)
  {
    ContentOnlyFromWorktree(repo, v, name);
    if repo.index.Some? {
      var es := repo.index.value;
      var valid := ValidEntries(es);
      forall e
        ensures e in valid <==> e in es && e.validMode
      {
        ValidHolds(es, e);
      }
      if InConflict(repo, name) {
        var e :| e in es && e.validMode && e.path == repo.root + "/" + name && e.stage != Unconflicted;
        assert e in valid;
      }
    }
  }

  /** Out of conflict the worktree file decides alone when there is one; when there
      is none the read succeeds as absent or fails to read the index or HEAD. */
  lemma EffectiveTable(repo: Repo, v: View, name: string)
    requires !InConflict(repo, name)
    ensures name in repo.worktree ==>
      Effective(repo, v, name) ==
        match repo.worktree[name]
        case NotReadable => Failed(WorktreeIo)
        case Text(text) =>
          match SpanFormat.Parse(text)
          case Ok(file) => Done(Some(file))
          case Err(error) => Failed(Malformed(error))
    ensures name !in repo.worktree ==> Effective(repo, v, name) in {Done(None), Failed(IndexLoad), Failed(HeadRead)}
    ensures name !in repo.worktree ==> (Effective(repo, v, name) == Failed(IndexLoad) <==> repo.index.None?)
  {
    UnmergedFails(repo, v, name);
    ContentOnlyFromWorktree(repo, v, name);
  }

  /** An entry is at the name, but only with modes the enumeration skips. */
  predicate Hidden(repo: Repo, name: string) {
    && repo.index.Some?
    && FirstAt(repo.index.value, SpanPath(repo, name)).Some?
    && FirstAt(ValidEntries(repo.index.value), SpanPath(repo, name)).None?
  }

  lemma {:induction false} ValidFirst(es: seq<IndexEntry>, path: string)
    ensures FirstAt(ValidEntries(es), path).Some? ==> FirstAt(es, path).Some?
    ensures (forall i :: 0 <= i < |es| ==> es[i].validMode) ==> ValidEntries(es) == es
  {
    if es != [] {
      ValidFirst(es[1..], path);
      assert es == [es[0]] + es[1..];
      assert es[0].validMode ==> ValidEntries(es)[1..] == ValidEntries(es[1..]);
      assert !es[0].validMode ==> ValidEntries(es) == ValidEntries(es[1..]);
    }
  }

  /** The snapshot answers every name as the probes do, completed or degraded,
      except where a skipped index entry is all that stood between an absent
      worktree file and a HEAD that cannot be read. */
  lemma SnapshotRefinesProbes(repo: Repo, name: string)
    ensures Effective(repo, Snapshot, name) == Effective(repo, Probes, name) <==>
      !(Hidden(repo, name) && ReadWorktree(repo, name) == Done(None) && !IsUnmerged(repo, name) &&
        Probe(repo, name).Failed?)
  {
    ContentOnlyFromWorktree(repo, Snapshot, name);
    ContentOnlyFromWorktree(repo, Probes, name);
    if HeadCaptured(repo.head) {
      CaptureMeansProbesSucceed(repo, name);
    }
    if repo.index.Some? {
      ValidFirst(repo.index.value, SpanPath(repo, name));
    }
  }

  /** With valid modes only, as Git writes them, there is no exception. */
  lemma SnapshotAgreesOnValidIndex(repo: Repo, name: string)
    requires repo.index.Some? ==> forall i :: 0 <= i < |repo.index.value| ==> repo.index.value[i].validMode
    ensures Effective(repo, Snapshot, name) == Effective(repo, Probes, name)
    ensures InIndex(repo, Snapshot, name) == InIndex(repo, Probes, name)
    ensures ReadStaged(repo, Snapshot, name) == ReadStaged(repo, Probes, name)
  {
    SnapshotRefinesProbes(repo, name);
    if repo.index.Some? {
      ValidFirst(repo.index.value, SpanPath(repo, name));
    }
  }

  // --- Where the two views of HEAD differ ---

  /** Names in a Git tree are non-empty, slash-free, and not a dot. */
  ghost predicate PlainNames(t: CommittedTree) {
    forall k :: k in t.items ==>
      k != "" && k != "." && '/' !in k &&
        (t.items[k].Subtree? && t.items[k].tree.Some? ==> PlainNames(t.items[k].tree.value))
  }

  predicate IsNormal(name: string) { Normal(Split(name)) == Split(name) }

  lemma {:induction false} NormalParts(parts: seq<string>)
    ensures |Normal(parts)| <= |parts|
    ensures Normal(parts) == parts <==> forall i :: 0 <= i < |parts| ==> parts[i] != "" && parts[i] != "."
  {
    if parts != [] {
      NormalParts(parts[1..]);
      if parts[0] != "" && parts[0] != "." {
        assert Normal(parts)[1..] == Normal(parts[1..]);
        assert parts == [parts[0]] + parts[1..];
      }
    }
  }

  lemma {:induction false} LeafIsWalk(t: CommittedTree, parts: seq<string>, oid: Oid)
    requires AllReadable(t) && parts != []
    ensures LeafAt(t, parts) == Some(oid) <==> Walk(t, parts) == Done(Some(Blob(oid)))
    decreases |parts|
  {
    if |parts| > 1 && parts[0] in t.items && t.items[parts[0]].Subtree? {
      LeafIsWalk(t.items[parts[0]].tree.value, parts[1..], oid);
    }
  }

  lemma {:induction false} LeafPartsPlain(t: CommittedTree, parts: seq<string>)
    requires PlainNames(t) && LeafAt(t, parts).Some?
    ensures forall i :: 0 <= i < |parts| ==> parts[i] != "" && parts[i] != "."
    decreases |parts|
  {
    if |parts| > 1 {
      LeafPartsPlain(t.items[parts[0]].tree.value, parts[1..]);
      assert parts == [parts[0]] + parts[1..];
    }
  }

  /** A completed capture holds exactly the names whose probe finds a blob, in
      their normal spelling. On directories and odd spellings `read_head` differs:
      the snapshot says absent where the probe finds an entry. */
  lemma CaptureHoldsBlobs(repo: Repo, name: string, oid: Oid)
    requires repo.head.RootTree? && HeadCaptured(repo.head) && PlainNames(repo.head.tree.value)
    ensures Captured(repo.head, name) == Some(oid) <==> IsNormal(name) && Probe(repo, name) == Done(Some(Blob(oid)))
  {
    var t, parts := repo.head.tree.value, Split(name);
    NormalParts(parts);
    if IsNormal(name) {
      LeafIsWalk(t, parts, oid);
    } else if LeafAt(t, parts).Some? {
      LeafPartsPlain(t, parts);
    }
  }

  /** HEAD has an entry at the name, but not as a blob in its normal spelling. */
  predicate Missed(repo: Repo, name: string) {
    && Probe(repo, name).Done? && Probe(repo, name).value.Some?
    && !(IsNormal(name) && Probe(repo, name).value.value.Blob?)
  }

  /** The views of HEAD alone agree on a name exactly unless a completed capture
      missed the entry the probe finds there: the snapshot then says absent. */
  lemma HeadViewsAgree(repo: Repo, name: string)
    requires repo.head.RootTree? && repo.head.tree.Some? ==> PlainNames(repo.head.tree.value)
    ensures ReadHead(repo, Snapshot, name) == ReadHead(repo, Probes, name) <==>
      !(HeadCaptured(repo.head) && Missed(repo, name))
    ensures InHead(repo, Snapshot, name) == InHead(repo, Probes, name) <==>
      !(HeadCaptured(repo.head) && Missed(repo, name))
    ensures HeadCaptured(repo.head) && Missed(repo, name) ==> ReadHead(repo, Snapshot, name) == Done(None)
  {
    if HeadCaptured(repo.head) {
      CaptureMeansProbesSucceed(repo, name);
      if repo.head.RootTree? {
        var found := Captured(repo.head, name);
        if found.Some? {
          CaptureHoldsBlobs(repo, name, found.value);
        } else if Probe(repo, name).value.Some? && Probe(repo, name).value.value.Blob? {
          CaptureHoldsBlobs(repo, name, Probe(repo, name).value.value.oid);
        }
      }
    }
  }

  /** On a directory the probe hands a tree object to the blob reader and fails. */
  lemma ReadHeadOfDirectory(repo: Repo, name: string)
    requires repo.head.RootTree? && HeadCaptured(repo.head) && PlainNames(repo.head.tree.value)
    requires Probe(repo, name).Done? && Probe(repo, name).value.Some? && Probe(repo, name).value.value.Subtree?
    requires Probe(repo, name).value.value.oid !in repo.blobs
    ensures ReadHead(repo, Snapshot, name) == Done(None)
    ensures ReadHead(repo, Probes, name) == Failed(BlobRead(Probe(repo, name).value.value.oid))
  {
    HeadViewsAgree(repo, name);
  }

  /** On an odd spelling the probe finds the blob that the capture lists by its
      normal name only. */
  lemma ReadHeadOfOddSpelling(text: string)
    ensures var tree := CommittedTree(map["a" := Blob("x")]);
      var repo := Repo(".span", None, RootTree("t", Some(tree)), map[], map["x" := text]);
      ReadHead(repo, Snapshot, "./a") == Done(None) && ReadHead(repo, Probes, "./a") == ParseNamed(text)
  {
    var tree := CommittedTree(map["a" := Blob("x")]);
    var repo := Repo(".span", None, RootTree("t", Some(tree)), map[], map["x" := text]);
    assert "./a"[..1] == "." && "./a"[2..] == "a";
    assert NextBreak("./a", 0, '/') == 1 && NextBreak("a", 0, '/') == 1;
    assert Split("./a") == [".", "a"];
    assert [".", "a"][1..] == ["a"];
    assert Normal([".", "a"]) == ["a"];
    HeadViewsAgree(repo, "./a");
  }

  /** Why valid modes are assumed: a submodule-like entry with an unknown mode,
      an absent worktree file, and an unreadable HEAD. */
  lemma HiddenEntryShows()
    ensures var repo := Repo(".span", Some([IndexEntry(".span/a", Unconflicted, "x", false)]), Unreadable, map[],
      map[]);
      Effective(repo, Probes, "a") == Done(None) && Effective(repo, Snapshot, "a") == Failed(HeadRead)
  {
    var repo := Repo(".span", Some([IndexEntry(".span/a", Unconflicted, "x", false)]), Unreadable, map[], map[]);
    assert SpanPath(repo, "a") == ".span/a";
    assert repo.index.value[1..] == [];
    assert ValidEntries(repo.index.value) == [];
  }
}
