/** The three-way structural merge of span files. The original walks hash maps,
    so the loops below pick keys in arbitrary order. */
module SpanMerge {
  import opened Text
  import opened Fingerprint
  import opened LineIndexing
  import opened Sorting
  import opened SpanFormat
  import opened IdentityOrder
  import opened SpanCollapse
  import opened SpanResolve
  import Hex

  datatype Source = Source(path: string, bytes: seq<byte>)

  /** Same identity on both sides, different tokens, no source to settle it. */
  datatype Unresolved = Unresolved(id: Identity, ours: Anchor, theirs: Anchor)

  datatype Conflicts = Conflicts(why: bool, resolved: bool, config: bool)

  datatype MergeResult = MergeResult(merged: SpanFile, unresolved: seq<Unresolved>, conflicts: Conflicts,
                                     collapsed: seq<(Side, Collapsed)>, preserved: seq<Identity>)

  const UNRESOLVED_ID: Unresolved -> Identity := (u: Unresolved) => u.id

  /** The first source of a path wins. */
  function FirstSource(sources: seq<Source>, path: string): Option<seq<byte>> {
    if sources == [] then None
    else if sources[0].path == path then Some(sources[0].bytes)
    else FirstSource(sources[1..], path)
  }

  function ExtentOf(a: Anchor): AnchorExtent {
    if a.startLine == 0 && a.endLine == 0 then WholeFile else LineRange(a.startLine, a.endLine)
  }

  function Rehash(a: Anchor, source: seq<byte>): Anchor {
    a.(algorithm := RK64, contentHash := Hex.Rk64ToHex(Fp(Canonical(source, ExtentOf(a)))))
  }

  method RehashAnchor(a: Anchor, source: seq<byte>) returns (r: Anchor)
    ensures r == Rehash(a, source)
  {
    var fp := CheapFingerprintWithExtent(source, ExtentOf(a));
    r := Anchor(a.path, a.startLine, a.endLine, RK64, Hex.Rk64ToHex(fp));
  }

  // --- One identity ---

  datatype Outcome = Absent | Kept(anchor: Anchor) | Open(ours: Anchor, theirs: Anchor)

  function KeepOneSide(a: Anchor, src: Option<seq<byte>>): Anchor {
    if CarriedSentinel(a) || src.None? then a else Rehash(a, src.value)
  }

  function Settle(o: Anchor, t: Anchor, src: seq<byte>): Anchor {
    if CarriedSentinel(o) then o else if CarriedSentinel(t) then t else Rehash(o, src)
  }

  function MergeOne(o: Option<Anchor>, t: Option<Anchor>, src: Option<seq<byte>>): Outcome {
    match (o, t)
    case (None, None) => Absent
    case (Some(a), None) => Kept(KeepOneSide(a, src))
    case (None, Some(a)) => Kept(KeepOneSide(a, src))
    case (Some(a), Some(b)) =>
      if TokenOf(a) == TokenOf(b) then Kept(a)
      else if src.Some? then Kept(Settle(a, b, src.value))
      else Open(a, b)
  }

  /** A sentinel met on one side only, or against a different token. */
  predicate MeetsSentinel(o: Option<Anchor>, t: Option<Anchor>) {
    match (o, t)
    case (None, None) => false
    case (Some(a), None) => CarriedSentinel(a)
    case (None, Some(a)) => CarriedSentinel(a)
    case (Some(a), Some(b)) => TokenOf(a) != TokenOf(b) && (CarriedSentinel(a) || CarriedSentinel(b))
  }

  function KeptOf(x: Outcome): Option<Anchor> { if x.Kept? then Some(x.anchor) else None }

  function OpenOf(id: Identity, x: Outcome): Option<Unresolved> {
    if x.Open? then Some(Unresolved(id, x.ours, x.theirs)) else None
  }

  // --- The whole merge ---

  function OutcomeAt(ours: SpanFile, theirs: SpanFile, sources: seq<Source>, id: Identity): Outcome {
    MergeOne(SideRecord(ours.anchors, id), SideRecord(theirs.anchors, id), FirstSource(sources, id.path))
  }

  function AnchorAt(ours: SpanFile, theirs: SpanFile, sources: seq<Source>): Identity -> Option<Anchor> {
    id => KeptOf(OutcomeAt(ours, theirs, sources, id))
  }

  function OpenAt(ours: SpanFile, theirs: SpanFile, sources: seq<Source>): Identity -> Option<Unresolved> {
    id => OpenOf(id, OutcomeAt(ours, theirs, sources, id))
  }

  function PreservedAt(ours: SpanFile, theirs: SpanFile): Identity -> Option<Identity> {
    id => if MeetsSentinel(SideRecord(ours.anchors, id), SideRecord(theirs.anchors, id)) then Some(id) else None
  }

  function WhyOf(base: Option<SpanFile>): Option<string> { if base.Some? then Some(base.value.why) else None }

  function ConfigOf(base: Option<SpanFile>): Option<Config> { if base.Some? then Some(base.value.config) else None }

  /** What the two sides' collapses report. */
  ghost predicate Reports(ours: SpanFile, theirs: SpanFile, out: seq<(Side, Collapsed)>) {
    exists c: seq<Collapsed>, d: seq<Collapsed> ::
      IsReport(ours.anchors, c) && IsReport(theirs.anchors, d) && out == Tag(Ours, c, |c|) + Tag(Theirs, d, |d|)
  }

  ghost predicate IsMerge(base: Option<SpanFile>, ours: SpanFile, theirs: SpanFile, sources: seq<Source>,
                          r: MergeResult)
  {
    && Listing(r.merged.anchors, ID_OF, AnchorAt(ours, theirs, sources))
    && Listing(r.unresolved, UNRESOLVED_ID, OpenAt(ours, theirs, sources))
    && Listing(r.preserved, SELF, PreservedAt(ours, theirs))
    && (r.merged.why, r.conflicts.why) == ResolveField(WhyOf(base), ours.why, theirs.why)
    && (r.merged.config, r.conflicts.config) == ResolveField(ConfigOf(base), ours.config, theirs.config)
    && IsResolved(base, ours, theirs, r.merged.resolved, r.conflicts.resolved)
  }

  // --- Indices ---

  function Get<K, V>(m: map<K, V>, k: K): Option<V> { if k in m then Some(m[k]) else None }

  ghost predicate IndexesSide(s: seq<Anchor>, m: map<Identity, Anchor>) {
    forall id :: Get(m, id) == SideRecord(s, id)
  }

  method IndexAnchors(anchors: seq<Anchor>, ghost s: seq<Anchor>) returns (m: map<Identity, Anchor>)
    requires IsSide(s, anchors)
    ensures IndexesSide(s, m)
  {
    m := map[];
    for n := 0 to |anchors|
      invariant forall id :: id in m ==> IdOf(m[id]) == id && m[id] in anchors
      invariant forall k :: 0 <= k < n ==> IdOf(anchors[k]) in m
    {
      m := m[IdOf(anchors[n]) := anchors[n]];
    }
    forall id
      ensures Get(m, id) == SideRecord(s, id)
    {
      if SideRecord(s, id).Some? {
        assert SideRecord(s, id).value in anchors;
      }
    }
  }

  ghost predicate IndexesSources(sources: seq<Source>, m: map<string, seq<byte>>) {
    forall path :: Get(m, path) == FirstSource(sources, path)
  }

  lemma {:induction false} FirstSourceSnoc(sources: seq<Source>, n: nat, path: string)
    requires n < |sources|
    ensures FirstSource(sources[..n + 1], path) ==
      if FirstSource(sources[..n], path).Some? then FirstSource(sources[..n], path)
      else if sources[n].path == path then Some(sources[n].bytes)
      else None
  {
    assert sources[..n + 1][0] == sources[0];
    if n > 0 {
      assert sources[..n + 1][1..] == sources[1..][..n];
      assert sources[..n][1..] == sources[1..][..n - 1];
      FirstSourceSnoc(sources[1..], n - 1, path);
    }
  }

  lemma SourceStep(sources: seq<Source>, n: nat, m: map<string, seq<byte>>)
    requires n < |sources| && IndexesSources(sources[..n], m)
    ensures IndexesSources(sources[..n + 1], if sources[n].path in m then m else m[sources[n].path := sources[n].bytes])
  {
    var after := if sources[n].path in m then m else m[sources[n].path := sources[n].bytes];
    forall path
      ensures Get(after, path) == FirstSource(sources[..n + 1], path)
    {
      FirstSourceSnoc(sources, n, path);
      assert Get(m, path) == FirstSource(sources[..n], path);
    }
  }

  method IndexSources(sources: seq<Source>) returns (m: map<string, seq<byte>>)
    ensures IndexesSources(sources, m)
  {
    m := map[];
    for n := 0 to |sources|
      invariant IndexesSources(sources[..n], m)
    {
      SourceStep(sources, n, m);
      if sources[n].path !in m {
        m := m[sources[n].path := sources[n].bytes];
      }
    }
    assert sources[..|sources|] == sources;
  }

  // --- The loops over the maps ---

  datatype Work = Work(merged: seq<Anchor>, unresolved: seq<Unresolved>, preserved: seq<Identity>)

  /** What each identity selects for the three outputs. */
  datatype Plan = Plan(kept: Identity -> Option<Anchor>, open: Identity -> Option<Unresolved>,
    preserved: Identity -> Option<Identity>)

  ghost predicate Collected(w: Work, visited: set<Identity>, p: Plan) {
    && Gathered(w.merged, ID_OF, visited, p.kept)
    && Gathered(w.unresolved, UNRESOLVED_ID, visited, p.open)
    && Gathered(w.preserved, SELF, visited, p.preserved)
  }

  function Extended(w: Work, p: Plan, id: Identity): Work {
    Work(w.merged + Optional(p.kept(id)), w.unresolved + Optional(p.open(id)), w.preserved + Optional(p.preserved(id)))
  }

  /** Each identity selects something of that identity. */
  ghost predicate Keyed(p: Plan) {
    && (forall id :: p.kept(id).Some? ==> IdOf(p.kept(id).value) == id)
    && (forall id :: p.open(id).Some? ==> p.open(id).value.id == id)
    && (forall id :: p.preserved(id).Some? ==> p.preserved(id).value == id)
  }

  lemma CollectStep(w: Work, visited: set<Identity>, p: Plan, id: Identity)
    requires Keyed(p) && Collected(w, visited, p) && id !in visited
    ensures Collected(Extended(w, p, id), visited + {id}, p)
  {
    GatherStep(w.merged, ID_OF, visited, p.kept, id);
    GatherStep(w.unresolved, UNRESOLVED_ID, visited, p.open, id);
    GatherStep(w.preserved, SELF, visited, p.preserved, id);
  }

  /** The maps and the plan tell the same story. */
  ghost predicate Planned(o: map<Identity, Anchor>, t: map<Identity, Anchor>, src: map<string, seq<byte>>, p: Plan) {
    && Keyed(p)
    && (forall id :: KeptOf(MergeOne(Get(o, id), Get(t, id), Get(src, id.path))) == p.kept(id))
    && (forall id :: OpenOf(id, MergeOne(Get(o, id), Get(t, id), Get(src, id.path))) == p.open(id))
    && (forall id :: (if MeetsSentinel(Get(o, id), Get(t, id)) then Some(id) else None) == p.preserved(id))
  }

  method AddOneSided(a: Anchor, id: Identity, src: Option<seq<byte>>, w: Work) returns (r: Work)
    ensures r == Work(w.merged + [KeepOneSide(a, src)], w.unresolved,
                      w.preserved + if CarriedSentinel(a) then [id] else [])
  {
    if CarriedSentinel(a) {
      r := w.(preserved := w.preserved + [id], merged := w.merged + [a]);
    } else {
      var anchor := a;
      if src.Some? {
        anchor := RehashAnchor(a, src.value);
      }
      r := w.(merged := w.merged + [anchor]);
    }
  }

  method AddShared(a: Anchor, b: Anchor, id: Identity, src: Option<seq<byte>>, w: Work) returns (r: Work)
    ensures var x := MergeOne(Some(a), Some(b), src);
      r == Work(w.merged + Optional(KeptOf(x)), w.unresolved + Optional(OpenOf(id, x)),
                w.preserved + if MeetsSentinel(Some(a), Some(b)) then [id] else [])
  {
    if a.algorithm == b.algorithm && a.contentHash == b.contentHash {
      return w.(merged := w.merged + [a]);
    }
    r := w;
    if CarriedSentinel(a) || CarriedSentinel(b) {
      r := r.(preserved := r.preserved + [id]);
    }
    if src.None? {
      r := r.(unresolved := r.unresolved + [Unresolved(id, a, b)]);
    } else if CarriedSentinel(a) {
      r := r.(merged := r.merged + [a]);
    } else if CarriedSentinel(b) {
      r := r.(merged := r.merged + [b]);
    } else {
      var anchor := RehashAnchor(a, src.value);
      r := r.(merged := r.merged + [anchor]);
    }
  }

  method AddEntry(id: Identity, o: map<Identity, Anchor>, t: map<Identity, Anchor>, src: map<string, seq<byte>>,
                  w: Work, ghost p: Plan)
    returns (r: Work)
    requires id in o && Planned(o, t, src, p)
    ensures r == Extended(w, p, id)
  {
    if id in t {
      r := AddShared(o[id], t[id], id, Get(src, id.path), w);
    } else {
      r := AddOneSided(o[id], id, Get(src, id.path), w);
    }
  }

  method AddTheirEntry(id: Identity, o: map<Identity, Anchor>, t: map<Identity, Anchor>, src: map<string, seq<byte>>,
                       w: Work, ghost p: Plan)
    returns (r: Work)
    requires id in t && id !in o && Planned(o, t, src, p)
    ensures r == Extended(w, p, id)
  {
    r := AddOneSided(t[id], id, Get(src, id.path), w);
  }

  lemma CollectedStart(p: Plan)
    ensures Collected(Work([], [], []), {}, p)
  {
  }

  method MergeMaps(o: map<Identity, Anchor>, t: map<Identity, Anchor>, src: map<string, seq<byte>>, ghost p: Plan)
    returns (w: Work)
    requires Planned(o, t, src, p)
    ensures Collected(w, o.Keys + t.Keys, p)
  {
    hide Collected;
    w := Work([], [], []);
    CollectedStart(p);
    var rest := o.Keys;
    ghost var visited: set<Identity> := {};
    while rest != {}
      invariant rest !! visited && rest + visited == o.Keys
      invariant Collected(w, visited, p)
      decreases rest
    {
      var id :| id in rest;
      CollectStep(w, visited, p, id);
      w := AddEntry(id, o, t, src, w, p);
      rest, visited := rest - {id}, visited + {id};
    }
    assert visited == o.Keys;
    rest := t.Keys - o.Keys;
    while rest != {}
      invariant rest !! visited && rest + visited == o.Keys + t.Keys && rest <= t.Keys - o.Keys
      invariant Collected(w, visited, p)
      decreases rest
    {
      var id :| id in rest;
      CollectStep(w, visited, p, id);
      w := AddTheirEntry(id, o, t, src, w, p);
      rest, visited := rest - {id}, visited + {id};
    }
    assert visited == o.Keys + t.Keys;
  }

  function PlanOf(ours: SpanFile, theirs: SpanFile, sources: seq<Source>): Plan {
    Plan(AnchorAt(ours, theirs, sources), OpenAt(ours, theirs, sources), PreservedAt(ours, theirs))
  }

  lemma OutcomeKeyed(ours: SpanFile, theirs: SpanFile, sources: seq<Source>, id: Identity)
    ensures var kept := KeptOf(OutcomeAt(ours, theirs, sources, id)); kept.Some? ==> IdOf(kept.value) == id
  {
  }

  lemma IndicesPlanned(ours: SpanFile, theirs: SpanFile, sources: seq<Source>,
                       o: map<Identity, Anchor>, t: map<Identity, Anchor>, src: map<string, seq<byte>>)
    requires IndexesSide(ours.anchors, o) && IndexesSide(theirs.anchors, t) && IndexesSources(sources, src)
    ensures Planned(o, t, src, PlanOf(ours, theirs, sources))
  {
    PlanKeyed(ours, theirs, sources);
    hide MergeOne, SideRecord, OutcomeAt, IndexesSide, IndexesSources, MeetsSentinel, KeptOf, OpenOf, Keyed;
    var p := PlanOf(ours, theirs, sources);
    forall id
      ensures MergeOne(Get(o, id), Get(t, id), Get(src, id.path)) == OutcomeAt(ours, theirs, sources, id)
      ensures Get(o, id) == SideRecord(ours.anchors, id) && Get(t, id) == SideRecord(theirs.anchors, id)
    {
      OutcomeOfMaps(ours, theirs, sources, o, t, src, id);
    }
  }

  lemma PlanKeyed(ours: SpanFile, theirs: SpanFile, sources: seq<Source>)
    ensures Keyed(PlanOf(ours, theirs, sources))
  {
    hide OutcomeAt, MeetsSentinel, KeptOf;
    var p := PlanOf(ours, theirs, sources);
    forall id
      ensures p.kept(id).Some? ==> IdOf(p.kept(id).value) == id
    {
      OutcomeKeyed(ours, theirs, sources, id);
    }
  }

  lemma OutcomeOfMaps(ours: SpanFile, theirs: SpanFile, sources: seq<Source>,
                      o: map<Identity, Anchor>, t: map<Identity, Anchor>, src: map<string, seq<byte>>, id: Identity)
    requires IndexesSide(ours.anchors, o) && IndexesSide(theirs.anchors, t) && IndexesSources(sources, src)
    ensures MergeOne(Get(o, id), Get(t, id), Get(src, id.path)) == OutcomeAt(ours, theirs, sources, id)
    ensures Get(o, id) == SideRecord(ours.anchors, id) && Get(t, id) == SideRecord(theirs.anchors, id)
  {
    hide MergeOne, SideRecord;
  }

  lemma PlanWithin(o: map<Identity, Anchor>, t: map<Identity, Anchor>, src: map<string, seq<byte>>, p: Plan,
                   id: Identity)
    requires Planned(o, t, src, p)
    ensures p.kept(id).Some? || p.open(id).Some? || p.preserved(id).Some? ==> id in o.Keys + t.Keys
  {
    if id !in o.Keys + t.Keys {
      assert MergeOne(Get(o, id), Get(t, id), Get(src, id.path)) == Absent;
      assert !MeetsSentinel(Get(o, id), Get(t, id));
    }
  }

  function InCanonicalOrder(w: Work): Work {
    Work(Sort(w.merged, KeyLe(ID_OF)), Sort(w.unresolved, KeyLe(UNRESOLVED_ID)), Sort(w.preserved, KeyLe(SELF)))
  }

  lemma WorkListed(w: Work, all: set<Identity>, p: Plan)
    requires Collected(w, all, p)
    requires forall id :: p.kept(id).Some? || p.open(id).Some? || p.preserved(id).Some? ==> id in all
    ensures Listing(InCanonicalOrder(w).merged, ID_OF, p.kept)
    ensures Listing(InCanonicalOrder(w).unresolved, UNRESOLVED_ID, p.open)
    ensures Listing(InCanonicalOrder(w).preserved, SELF, p.preserved)
  {
    SortGathered(w.merged, ID_OF, all, p.kept);
    SortGathered(w.unresolved, UNRESOLVED_ID, all, p.open);
    SortGathered(w.preserved, SELF, all, p.preserved);
  }

  method CollapseSides(ours: SpanFile, theirs: SpanFile)
    returns (oursAnchors: seq<Anchor>, theirsAnchors: seq<Anchor>, collapsed: seq<(Side, Collapsed)>)
    ensures IsSide(ours.anchors, oursAnchors) && IsSide(theirs.anchors, theirsAnchors)
    ensures Reports(ours, theirs, collapsed)
  {
    hide IsSide, IsReport, Reports, Tag;
    var o, oursReports, c := CollapseSide(Ours, ours.anchors, []);
    var t, allReports, d := CollapseSide(Theirs, theirs.anchors, oursReports);
    oursAnchors, theirsAnchors, collapsed := o, t, allReports;
    ReportsBoth(ours, theirs, c, d, Tag(Ours, c, |c|), Tag(Theirs, d, |d|));
  }

  lemma ReportsBoth(ours: SpanFile, theirs: SpanFile, c: seq<Collapsed>, d: seq<Collapsed>,
                    x: seq<(Side, Collapsed)>, y: seq<(Side, Collapsed)>)
    requires IsReport(ours.anchors, c) && IsReport(theirs.anchors, d)
    requires x == Tag(Ours, c, |c|) && y == Tag(Theirs, d, |d|)
    ensures Reports(ours, theirs, [] + x + y)
  {
    hide IsReport, Tag;
    assert [] + x + y == x + y;
  }

  /** Each side's own duplicates go before the index maps are built. */
  method CollapseBoth(ours: SpanFile, theirs: SpanFile)
    returns (o: map<Identity, Anchor>, t: map<Identity, Anchor>, collapsed: seq<(Side, Collapsed)>)
    ensures IndexesSide(ours.anchors, o) && IndexesSide(theirs.anchors, t)
    ensures Reports(ours, theirs, collapsed)
  {
    var oursAnchors, theirsAnchors, reports := CollapseSides(ours, theirs);
    collapsed := reports;
    o := IndexAnchors(oursAnchors, ours.anchors);
    t := IndexAnchors(theirsAnchors, theirs.anchors);
  }

  method MergeSorted(o: map<Identity, Anchor>, t: map<Identity, Anchor>, src: map<string, seq<byte>>, ghost p: Plan)
    returns (w: Work)
    requires Planned(o, t, src, p)
    ensures Listing(w.merged, ID_OF, p.kept)
    ensures Listing(w.unresolved, UNRESOLVED_ID, p.open)
    ensures Listing(w.preserved, SELF, p.preserved)
  {
    w := MergeMaps(o, t, src, p);
    forall id
      ensures p.kept(id).Some? || p.open(id).Some? || p.preserved(id).Some? ==> id in o.Keys + t.Keys
    {
      PlanWithin(o, t, src, p, id);
    }
    WorkListed(w, o.Keys + t.Keys, p);
    w := InCanonicalOrder(w);
  }

  method MergeAnchors(ours: SpanFile, theirs: SpanFile, sources: seq<Source>)
    returns (w: Work, collapsed: seq<(Side, Collapsed)>)
    ensures Listing(w.merged, ID_OF, AnchorAt(ours, theirs, sources))
    ensures Listing(w.unresolved, UNRESOLVED_ID, OpenAt(ours, theirs, sources))
    ensures Listing(w.preserved, SELF, PreservedAt(ours, theirs))
    ensures Reports(ours, theirs, collapsed)
  {
    var src := IndexSources(sources);
    var o, t, reports := CollapseBoth(ours, theirs);
    collapsed := reports;
    IndicesPlanned(ours, theirs, sources, o, t, src);
    w := MergeSorted(o, t, src, PlanOf(ours, theirs, sources));
  }

  method MergeSpanFiles(base: Option<SpanFile>, ours: SpanFile, theirs: SpanFile, sources: seq<Source>)
    returns (r: MergeResult)
    ensures IsMerge(base, ours, theirs, sources, r)
    ensures Reports(ours, theirs, r.collapsed)
  {
    var w, collapsed := MergeAnchors(ours, theirs, sources);
    var why := ResolveField(WhyOf(base), ours.why, theirs.why);
    var resolved, resolvedConflict := ResolveResolvedSection(base, ours, theirs);
    var config := ResolveField(ConfigOf(base), ours.config, theirs.config);
    r := MergeResult(SpanFile(w.merged, why.0, resolved, config.0), w.unresolved,
                     Conflicts(why.1, resolvedConflict, config.1), collapsed, w.preserved);
  }
}
