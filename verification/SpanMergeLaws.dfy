/** What the merge promises, whatever order its hash maps are walked in. */
module SpanMergeLaws {
  import opened Text
  import opened Fingerprint
  import opened LineIndexing
  import opened Sorting
  import opened SpanFormat
  import opened IdentityOrder
  import opened SpanCollapse
  import opened SpanResolve
  import opened SpanMerge
  import Hex

  // --- Determinism ---

  /** The result is a function of the inputs. */
  lemma MergeDeterministic(base: Option<SpanFile>, ours: SpanFile, theirs: SpanFile, sources: seq<Source>,
                           r: MergeResult, q: MergeResult)
    requires IsMerge(base, ours, theirs, sources, r) && IsMerge(base, ours, theirs, sources, q)
    requires Reports(ours, theirs, r.collapsed) && Reports(ours, theirs, q.collapsed)
    ensures r == q
  {
    ListingUnique(r.merged.anchors, q.merged.anchors, ID_OF, AnchorAt(ours, theirs, sources));
    ListingUnique(r.unresolved, q.unresolved, UNRESOLVED_ID, OpenAt(ours, theirs, sources));
    ListingUnique(r.preserved, q.preserved, SELF, PreservedAt(ours, theirs));
    ResolvedDeterministic(base, ours, theirs, r.merged.resolved, r.conflicts.resolved, q.merged.resolved,
      q.conflicts.resolved);
    ReportsDeterministic(ours, theirs, r.collapsed, q.collapsed);
  }

  lemma ReportsDeterministic(ours: SpanFile, theirs: SpanFile, a: seq<(Side, Collapsed)>, b: seq<(Side, Collapsed)>)
    requires Reports(ours, theirs, a) && Reports(ours, theirs, b)
    ensures a == b
  {
    var c, d :| IsReport(ours.anchors, c) && IsReport(theirs.anchors, d) &&
      a == Tag(Ours, c, |c|) + Tag(Theirs, d, |d|);
    var c', d' :| IsReport(ours.anchors, c') && IsReport(theirs.anchors, d') &&
      b == Tag(Ours, c', |c'|) + Tag(Theirs, d', |d'|);
    ReportUnique(ours.anchors, c, c');
    ReportUnique(theirs.anchors, d, d');
  }

  // --- Conservation ---

  ghost predicate Has(anchors: seq<Anchor>, id: Identity) {
    exists i :: 0 <= i < |anchors| && IdOf(anchors[i]) == id
  }

  ghost predicate HasOpen(unresolved: seq<Unresolved>, id: Identity) {
    exists i :: 0 <= i < |unresolved| && unresolved[i].id == id
  }

  lemma HasIsGroup(s: seq<Anchor>, id: Identity)
    ensures Has(s, id) <==> SideRecord(s, id).Some?
  {
    if Has(s, id) {
      var i :| 0 <= i < |s| && IdOf(s[i]) == id;
      GroupNonempty(s, i);
    }
    if Group(s, id) != [] {
      GroupHasId(s, id, 0);
      var i :| 0 <= i < |s| && s[i] == Group(s, id)[0];
    }
  }

  lemma HasListed(base: Option<SpanFile>, ours: SpanFile, theirs: SpanFile, sources: seq<Source>, r: MergeResult,
                  id: Identity)
    requires IsMerge(base, ours, theirs, sources, r)
    ensures Has(r.merged.anchors, id) <==> AnchorAt(ours, theirs, sources)(id).Some?
    ensures HasOpen(r.unresolved, id) <==> OpenAt(ours, theirs, sources)(id).Some?
  {
    OutcomeKeyed(ours, theirs, sources, id);
    if AnchorAt(ours, theirs, sources)(id).Some? {
      var a := AnchorAt(ours, theirs, sources)(id).value;
      assert ID_OF(a) == id;
      assert a in r.merged.anchors;
    }
    if OpenAt(ours, theirs, sources)(id).Some? {
      var u := OpenAt(ours, theirs, sources)(id).value;
      assert UNRESOLVED_ID(u) == id;
      assert u in r.unresolved;
    }
    if Has(r.merged.anchors, id) {
      var i :| 0 <= i < |r.merged.anchors| && IdOf(r.merged.anchors[i]) == id;
      assert r.merged.anchors[i] in r.merged.anchors;
    }
    if HasOpen(r.unresolved, id) {
      var i :| 0 <= i < |r.unresolved| && r.unresolved[i].id == id;
      assert r.unresolved[i] in r.unresolved;
    }
  }

  /** No identity is lost, invented or printed twice: each one of either side is
      in exactly one of the two outputs, once. */
  lemma IdentitiesConserved(base: Option<SpanFile>, ours: SpanFile, theirs: SpanFile, sources: seq<Source>,
                            r: MergeResult, id: Identity)
    requires IsMerge(base, ours, theirs, sources, r)
    ensures Has(ours.anchors, id) || Has(theirs.anchors, id) <==> Has(r.merged.anchors, id) || HasOpen(r.unresolved, id)
    ensures !(Has(r.merged.anchors, id) && HasOpen(r.unresolved, id))
    ensures Ascending(r.merged.anchors, ID_OF) && Ascending(r.unresolved, UNRESOLVED_ID)
  {
    HasIsGroup(ours.anchors, id);
    HasIsGroup(theirs.anchors, id);
    HasListed(base, ours, theirs, sources, r, id);
  }

  // --- Sentinels ---

  /** The records of an identity on one side are not a verified, agreed token. */
  ghost predicate Unverified(s: seq<Anchor>, id: Identity) {
    Group(s, id) != [] && (!Agrees(Group(s, id)) || CarriedSentinel(Group(s, id)[0]))
  }

  lemma UnverifiedIsSentinel(s: seq<Anchor>, id: Identity)
    ensures Unverified(s, id) <==> SideRecord(s, id).Some? && CarriedSentinel(SideRecord(s, id).value)
  {
  }

  /** Content nobody verified is never given a hash by the merge, with sources or
      without: the identity stays a sentinel if it is merged at all. */
  lemma SentinelSticks(base: Option<SpanFile>, ours: SpanFile, theirs: SpanFile, sources: seq<Source>,
                       r: MergeResult, a: Anchor)
    requires IsMerge(base, ours, theirs, sources, r) && a in r.merged.anchors
    requires Unverified(ours.anchors, IdOf(a)) || Unverified(theirs.anchors, IdOf(a))
    ensures CarriedSentinel(a)
  {
    var id := IdOf(a);
    UnverifiedIsSentinel(ours.anchors, id);
    UnverifiedIsSentinel(theirs.anchors, id);
    assert AnchorAt(ours, theirs, sources)(ID_OF(a)) == Some(a);
    assert OutcomeAt(ours, theirs, sources, id) == Kept(a);
  }

  /** The sentinels reported are those not carried identically by both sides. */
  lemma PreservedExactly(base: Option<SpanFile>, ours: SpanFile, theirs: SpanFile, sources: seq<Source>,
                         r: MergeResult, id: Identity)
    requires IsMerge(base, ours, theirs, sources, r)
    ensures id in r.preserved <==> Unverified(ours.anchors, id) != Unverified(theirs.anchors, id)
  {
    UnverifiedIsSentinel(ours.anchors, id);
    UnverifiedIsSentinel(theirs.anchors, id);
    assert SELF(id) == id;
    assert id in r.preserved <==> PreservedAt(ours, theirs)(SELF(id)) == Some(id);
  }

  lemma {:induction false} AllOnes(v: nat, n: nat)
    requires v + 1 == Hex.Pow16(n)
    ensures forall c :: c in Hex.Digits(v, n) ==> c == 'f'
  {
    if n > 0 {
      assert v / 16 + 1 == Hex.Pow16(n - 1) && v % 16 == 15;
      AllOnes(v / 16, n - 1);
    }
  }

  lemma SentinelToken(n: nat)
    requires n == 16
    ensures Hex.Digits(WORD - 1, n) == SENTINEL_HASH
  {
    Hex.Pow16Word();
    AllOnes(WORD - 1, n);
    var s := Hex.Digits(WORD - 1, n);
    assert |s| == |SENTINEL_HASH|;
    forall i | 0 <= i < |s|
      ensures s[i] == SENTINEL_HASH[i]
    {
      assert s[i] in s;
    }
  }

  lemma TokenInjective(a: u64, b: u64)
    requires Hex.Rk64ToHex(a) == Hex.Rk64ToHex(b)
    ensures a == b
  {
    Hex.HexRoundTrip(a);
    Hex.HexRoundTrip(b);
  }

  lemma TokenIsSentinel(fp: u64)
    ensures Hex.Rk64ToHex(fp) == SENTINEL_HASH <==> fp == WORD - 1
  {
    SentinelToken(16);
    if Hex.Rk64ToHex(fp) == SENTINEL_HASH {
      TokenInjective(fp, WORD - 1);
    }
  }

  lemma RehashToken(a: Anchor, source: seq<byte>, content: seq<byte>)
    requires content == Canonical(source, ExtentOf(a))
    ensures CarriedSentinel(Rehash(a, source)) <==> Fp(content) == WORD - 1
    ensures content == [] ==> Fp(content) == 0
  {
    TokenIsSentinel(Fp(content));
  }

  /** A fresh hash reads as the sentinel only for the all-ones fingerprint, so a
      range that is gone, whose content is empty, never does. */
  lemma FreshHashIsSentinel(a: Anchor, source: seq<byte>)
    ensures CarriedSentinel(Rehash(a, source)) <==> Fp(Canonical(source, ExtentOf(a))) == WORD - 1
    ensures Canonical(source, ExtentOf(a)) == [] ==> !CarriedSentinel(Rehash(a, source))
  {
    RehashToken(a, source, Canonical(source, ExtentOf(a)));
  }

  // --- What is left open ---

  /** An identity is left open exactly when the two sides' tokens differ and no
      source can settle it; with no sources at all every merged anchor is one
      side's record, untouched. */
  lemma OpenExactly(base: Option<SpanFile>, ours: SpanFile, theirs: SpanFile, sources: seq<Source>, r: MergeResult,
                    id: Identity)
    requires IsMerge(base, ours, theirs, sources, r)
    ensures HasOpen(r.unresolved, id) <==>
      var o, t := SideRecord(ours.anchors, id), SideRecord(theirs.anchors, id);
      o.Some? && t.Some? && o != t && FirstSource(sources, id.path) == None
  {
    HasListed(base, ours, theirs, sources, r, id);
  }

  lemma NothingRehashedWithoutSources(base: Option<SpanFile>, ours: SpanFile, theirs: SpanFile, r: MergeResult,
                                      a: Anchor)
    requires IsMerge(base, ours, theirs, [], r) && a in r.merged.anchors
    ensures SideRecord(ours.anchors, IdOf(a)) == Some(a) || SideRecord(theirs.anchors, IdOf(a)) == Some(a)
  {
    assert AnchorAt(ours, theirs, [])(ID_OF(a)) == Some(a);
  }

  // --- Swapping the sides ---

  function Swapped(u: Unresolved): Unresolved { Unresolved(u.id, u.theirs, u.ours) }

  function SwapAll(us: seq<Unresolved>): (r: seq<Unresolved>)
    ensures |r| == |us| && forall i :: 0 <= i < |us| ==> r[i] == Swapped(us[i])
  {
    seq(|us|, i requires 0 <= i < |us| => Swapped(us[i]))
  }

  lemma OutcomeSwap(o: Option<Anchor>, t: Option<Anchor>, src: Option<seq<byte>>)
    requires o.Some? && t.Some? ==> IdOf(o.value) == IdOf(t.value)
    ensures KeptOf(MergeOne(o, t, src)) == KeptOf(MergeOne(t, o, src))
    ensures MergeOne(o, t, src).Open? ==> MergeOne(t, o, src) == Open(t.value, o.value)
    ensures MeetsSentinel(o, t) == MeetsSentinel(t, o)
  {
  }

  lemma OpenSwap(ours: SpanFile, theirs: SpanFile, sources: seq<Source>, u: Unresolved)
    requires OpenAt(ours, theirs, sources)(u.id) == Some(u)
    ensures OpenAt(theirs, ours, sources)(u.id) == Some(Swapped(u))
  {
    OutcomeSwap(SideRecord(ours.anchors, u.id), SideRecord(theirs.anchors, u.id), FirstSource(sources, u.id.path));
  }

  lemma SwapListing(ours: SpanFile, theirs: SpanFile, sources: seq<Source>, us: seq<Unresolved>)
    requires Listing(us, UNRESOLVED_ID, OpenAt(ours, theirs, sources))
    ensures Listing(SwapAll(us), UNRESOLVED_ID, OpenAt(theirs, ours, sources))
  {
    var f, vs := OpenAt(theirs, ours, sources), SwapAll(us);
    forall i, j | 0 <= i < j < |vs|
      ensures IdLt(UNRESOLVED_ID(vs[i]), UNRESOLVED_ID(vs[j]))
    {
      assert IdLt(UNRESOLVED_ID(us[i]), UNRESOLVED_ID(us[j]));
    }
    forall v | v in vs
      ensures f(UNRESOLVED_ID(v)) == Some(v)
    {
      var i :| 0 <= i < |vs| && vs[i] == v;
      assert us[i] in us;
      OpenSwap(ours, theirs, sources, us[i]);
    }
    forall v | f(UNRESOLVED_ID(v)) == Some(v)
      ensures v in vs
    {
      OpenSwap(theirs, ours, sources, v);
      assert UNRESOLVED_ID(Swapped(v)) == v.id;
      assert Swapped(v) in us;
      var i :| 0 <= i < |us| && us[i] == Swapped(v);
      assert vs[i] == v;
    }
  }

  lemma AnchorsSwap(ours: SpanFile, theirs: SpanFile, sources: seq<Source>)
    ensures forall id :: AnchorAt(ours, theirs, sources)(id) == AnchorAt(theirs, ours, sources)(id)
    ensures forall id :: PreservedAt(ours, theirs)(id) == PreservedAt(theirs, ours)(id)
  {
    forall id
      ensures AnchorAt(ours, theirs, sources)(id) == AnchorAt(theirs, ours, sources)(id)
      ensures PreservedAt(ours, theirs)(id) == PreservedAt(theirs, ours)(id)
    {
      OutcomeSwap(SideRecord(ours.anchors, id), SideRecord(theirs.anchors, id), FirstSource(sources, id.path));
    }
  }

  /** Swapping ours and theirs exchanges the two records of each open identity and
      changes nothing else in the anchors or the flags; a merge without conflict
      flags commutes entirely. */
  lemma MergeSwap(base: Option<SpanFile>, ours: SpanFile, theirs: SpanFile, sources: seq<Source>, r: MergeResult,
                  q: MergeResult)
    requires IsMerge(base, ours, theirs, sources, r) && IsMerge(base, theirs, ours, sources, q)
    ensures q.merged.anchors == r.merged.anchors && q.unresolved == SwapAll(r.unresolved)
    ensures q.preserved == r.preserved && q.conflicts == r.conflicts
    ensures r.conflicts == Conflicts(false, false, false) ==> q.merged == r.merged
  {
    AnchorsSwap(ours, theirs, sources);
    SameListing(r.merged.anchors, q.merged.anchors, ID_OF, AnchorAt(ours, theirs, sources),
      AnchorAt(theirs, ours, sources));
    SameListing(r.preserved, q.preserved, SELF, PreservedAt(ours, theirs), PreservedAt(theirs, ours));
    SwapListing(ours, theirs, sources, r.unresolved);
    ListingUnique(SwapAll(r.unresolved), q.unresolved, UNRESOLVED_ID, OpenAt(theirs, ours, sources));
    ResolvedSwap(base, ours, theirs, r.merged.resolved, r.conflicts.resolved, q.merged.resolved, q.conflicts.resolved);
  }

  // --- Merging a file with itself ---

  lemma GroupOfDistinct(s: seq<Anchor>, i: nat)
    requires Distinct(s, ID_OF) && i < |s|
    ensures Group(s, IdOf(s[i])) == [s[i]]
  {
    forall k | 0 <= k < |s| && k != i
      ensures IdOf(s[k]) != IdOf(s[i])
    {
      assert k < i ==> ID_OF(s[k]) != ID_OF(s[i]);
      assert i < k ==> ID_OF(s[i]) != ID_OF(s[k]);
    }
    RunIsGroup(s, i, i + 1);
  }

  lemma SideOfDistinct(s: seq<Anchor>, a: Anchor)
    requires Distinct(s, ID_OF)
    ensures a in s <==> SideRecord(s, IdOf(a)) == Some(a)
    ensures |Group(s, IdOf(a))| <= 1
  {
    if a in s {
      var i :| 0 <= i < |s| && s[i] == a;
      GroupOfDistinct(s, i);
    }
    if Group(s, IdOf(a)) != [] {
      GroupHasId(s, IdOf(a), 0);
      var i :| 0 <= i < |s| && s[i] == Group(s, IdOf(a))[0];
      GroupOfDistinct(s, i);
    }
  }

  lemma SelfOutcome(x: SpanFile, sources: seq<Source>, id: Identity)
    ensures AnchorAt(x, x, sources)(id) == SideRecord(x.anchors, id) || SideRecord(x.anchors, id) == None
    ensures SideRecord(x.anchors, id) == None ==> AnchorAt(x, x, sources)(id) == None
    ensures OpenAt(x, x, sources)(id) == None && PreservedAt(x, x)(id) == None
  {
  }

  lemma NoDuplicatesReported(x: SpanFile, c: seq<Collapsed>)
    requires Distinct(x.anchors, ID_OF) && IsReport(x.anchors, c)
    ensures c == []
  {
    var survivors :| IsCollapse(x.anchors, survivors, c);
    if c != [] {
      var id := c[0].id;
      assert c[0] in c;
      SideOfDistinct(x.anchors, Anchor(id.path, id.startLine, id.endLine, "", ""));
    }
  }

  lemma SelfReports(x: SpanFile, out: seq<(Side, Collapsed)>)
    requires Distinct(x.anchors, ID_OF) && Reports(x, x, out)
    ensures out == []
  {
    var c, d :| IsReport(x.anchors, c) && IsReport(x.anchors, d) && out == Tag(Ours, c, |c|) + Tag(Theirs, d, |d|);
    NoDuplicatesReported(x, c);
    NoDuplicatesReported(x, d);
  }

  lemma SelfAnchors(x: SpanFile, sources: seq<Source>, anchors: seq<Anchor>)
    requires Distinct(x.anchors, ID_OF) && Listing(anchors, ID_OF, AnchorAt(x, x, sources))
    ensures anchors == Sort(x.anchors, KeyLe(ID_OF))
  {
    var f, ids := AnchorAt(x, x, sources), set a | a in x.anchors :: IdOf(a);
    forall a
      ensures a in x.anchors <==> IdOf(a) in ids && f(ID_OF(a)) == Some(a)
    {
      SideOfDistinct(x.anchors, a);
      SelfOutcome(x, sources, IdOf(a));
    }
    forall id
      ensures f(id).Some? ==> id in ids
    {
      SelfOutcome(x, sources, id);
      if f(id).Some? {
        SideOfDistinct(x.anchors, f(id).value);
      }
    }
    SortGathered(x.anchors, ID_OF, ids, f);
    ListingUnique(anchors, Sort(x.anchors, KeyLe(ID_OF)), ID_OF, f);
  }

  lemma SelfLists(base: Option<SpanFile>, x: SpanFile, sources: seq<Source>, r: MergeResult)
    requires Distinct(x.anchors, ID_OF) && IsMerge(base, x, x, sources, r)
    ensures r.merged.anchors == Sort(x.anchors, KeyLe(ID_OF)) && r.unresolved == [] && r.preserved == []
  {
    SelfAnchors(x, sources, r.merged.anchors);
    if r.unresolved != [] {
      assert r.unresolved[0] in r.unresolved;
      SelfOutcome(x, sources, r.unresolved[0].id);
    }
    if r.preserved != [] {
      assert r.preserved[0] in r.preserved;
      SelfOutcome(x, sources, r.preserved[0]);
    }
  }

  /** Merging a duplicate-free file with itself, over any base and any sources,
      sorts its anchors and changes nothing else. */
  lemma SelfMerge(base: Option<SpanFile>, x: SpanFile, sources: seq<Source>, r: MergeResult)
    requires Distinct(x.anchors, ID_OF) && IsMerge(base, x, x, sources, r) && Reports(x, x, r.collapsed)
    ensures r == MergeResult(x.(anchors := Sort(x.anchors, KeyLe(ID_OF))), [], Conflicts(false, false, false), [], [])
  {
    hide Distinct, Reports, Listing, AnchorAt, OpenAt, PreservedAt;
    SelfLists(base, x, sources, r);
    SelfReports(x, r.collapsed);
  }
}
