/** Duplicate identities: one survivor per (path, start, end), and the sentinel
    planted on a survivor whose records disagreed. */
module SpanCollapse {
  import opened Text
  import opened Sorting
  import opened SpanFormat
  import opened IdentityOrder

  function IdOf(a: Anchor): Identity { Identity(a.path, a.startLine, a.endLine) }

  const ID_OF: Anchor -> Identity := (a: Anchor) => IdOf(a)

  const RK64: string := "rk64"
  const SENTINEL_HASH: string := "ffffffffffffffff"

  predicate CarriedSentinel(a: Anchor) { a.algorithm == RK64 && a.contentHash == SENTINEL_HASH }

  function PlantSentinel(a: Anchor): Anchor { a.(algorithm := RK64, contentHash := SENTINEL_HASH) }

  /** `agreed` is the common token of the group, if its records had one. */
  datatype Collapsed = Collapsed(id: Identity, recordsBefore: nat, agreed: Option<Token>)

  const COLLAPSED_ID: Collapsed -> Identity := (c: Collapsed) => c.id

  // --- Groups of records with one identity ---

  /** The records of an identity, in order of occurrence. */
  function Group(s: seq<Anchor>, id: Identity): seq<Anchor> {
    if s == [] then [] else (if IdOf(s[0]) == id then [s[0]] else []) + Group(s[1..], id)
  }

  function TokenOf(a: Anchor): Token { Token(a.algorithm, a.contentHash) }

  predicate Agrees(group: seq<Anchor>)
    requires group != []
  {
    forall i :: 0 <= i < |group| ==> TokenOf(group[i]) == TokenOf(group[0])
  }

  function Report(id: Identity, group: seq<Anchor>): Collapsed
    requires group != []
  {
    Collapsed(id, |group|, if Agrees(group) then Some(TokenOf(group[0])) else None)
  }

  lemma {:induction false} GroupHasId(s: seq<Anchor>, id: Identity, i: nat)
    requires i < |Group(s, id)|
    ensures IdOf(Group(s, id)[i]) == id && Group(s, id)[i] in s
  {
    if IdOf(s[0]) == id {
      if i > 0 {
        GroupHasId(s[1..], id, i - 1);
      }
    } else {
      GroupHasId(s[1..], id, i);
    }
  }

  lemma {:induction false} GroupNonempty(s: seq<Anchor>, i: nat)
    requires i < |s|
    ensures Group(s, IdOf(s[i])) != []
  {
    if i > 0 {
      assert s[i] == s[1..][i - 1];
      GroupNonempty(s[1..], i - 1);
    }
  }

  lemma {:induction false} GroupAppend(a: seq<Anchor>, b: seq<Anchor>, id: Identity)
    ensures Group(a + b, id) == Group(a, id) + Group(b, id)
  {
    if a == [] {
      assert a + b == b;
    } else {
      assert (a + b)[1..] == a[1..] + b;
      GroupAppend(a[1..], b, id);
    }
  }

  lemma {:induction false} GroupNone(s: seq<Anchor>, id: Identity)
    requires forall i :: 0 <= i < |s| ==> IdOf(s[i]) != id
    ensures Group(s, id) == []
  {
    if s != [] {
      GroupNone(s[1..], id);
    }
  }

  lemma {:induction false} GroupAll(s: seq<Anchor>, id: Identity)
    requires forall i :: 0 <= i < |s| ==> IdOf(s[i]) == id
    ensures Group(s, id) == s
  {
    if s != [] {
      GroupAll(s[1..], id);
    }
  }

  lemma {:induction false} GroupIsClass(s: seq<Anchor>, x: Anchor)
    ensures Class(s, x, KeyLe(ID_OF)) == Group(s, IdOf(x))
  {
    if s != [] {
      IdLeTotal(IdOf(x), IdOf(x));
      if KeyLe(ID_OF)(s[0], x) && KeyLe(ID_OF)(x, s[0]) {
        IdLeAntisymmetric(IdOf(s[0]), IdOf(x));
      }
      GroupIsClass(s[1..], x);
    }
  }

  /** Sorting by identity does not reorder a group. */
  lemma SortKeepsGroups(s: seq<Anchor>, id: Identity)
    ensures Group(Sort(s, KeyLe(ID_OF)), id) == Group(s, id)
  {
    var x := Anchor(id.path, id.startLine, id.endLine, "", "");
    KeyLePreorder(ID_OF);
    SortStable(s, x, KeyLe(ID_OF));
    GroupIsClass(s, x);
    GroupIsClass(Sort(s, KeyLe(ID_OF)), x);
  }

  // --- The collapse ---

  /** `survivors` keeps the first record of every identity of `s`, and
      `collapsed` reports exactly the identities that had several. */
  ghost predicate IsCollapse(s: seq<Anchor>, survivors: seq<Anchor>, collapsed: seq<Collapsed>) {
    && Ascending(survivors, ID_OF)
    && Ascending(collapsed, COLLAPSED_ID)
    && (forall a :: a in survivors <==> Group(s, IdOf(a)) != [] && Group(s, IdOf(a))[0] == a)
    && (forall c :: c in collapsed <==> |Group(s, c.id)| > 1 && c == Report(c.id, Group(s, c.id)))
  }

  /** `collapsed` is what collapsing `s` reports. */
  ghost predicate IsReport(s: seq<Anchor>, collapsed: seq<Collapsed>) {
    exists survivors :: IsCollapse(s, survivors, collapsed)
  }

  lemma ReportUnique(s: seq<Anchor>, c: seq<Collapsed>, d: seq<Collapsed>)
    requires IsReport(s, c) && IsReport(s, d)
    ensures c == d
  {
    var a :| IsCollapse(s, a, c);
    var b :| IsCollapse(s, b, d);
    CollapseDeterministic(s, a, c, b, d);
  }

  /** Records removed, according to the reports. */
  function Removed(collapsed: seq<Collapsed>): int {
    if collapsed == [] then 0 else Removed(collapsed[..|collapsed| - 1]) + collapsed[|collapsed| - 1].recordsBefore - 1
  }

  /** `[i, j)` is one whole group of a sequence in identity order. */
  ghost predicate IsRun(s: seq<Anchor>, i: nat, j: nat) {
    && i < j <= |s|
    && (forall k :: i <= k < j ==> IdOf(s[k]) == IdOf(s[i]))
    && (forall k :: 0 <= k < i ==> IdOf(s[k]) != IdOf(s[i]))
    && (forall k :: j <= k < |s| ==> IdOf(s[k]) != IdOf(s[i]))
  }

  lemma RunIsGroup(s: seq<Anchor>, i: nat, j: nat)
    requires IsRun(s, i, j)
    ensures Group(s, IdOf(s[i])) == s[i..j]
  {
    var id := IdOf(s[i]);
    assert s == s[..i] + s[i..j] + s[j..];
    GroupAppend(s[..i] + s[i..j], s[j..], id);
    GroupAppend(s[..i], s[i..j], id);
    GroupNone(s[..i], id);
    GroupAll(s[i..j], id);
    GroupNone(s[j..], id);
  }

  /** In identity order a group is contiguous. */
  lemma RunEnds(s: seq<Anchor>, i: nat, j: nat)
    requires Sorted(s, KeyLe(ID_OF)) && i < j <= |s|
    requires i > 0 ==> IdOf(s[i - 1]) != IdOf(s[i])
    requires forall k :: i <= k < j ==> IdOf(s[k]) == IdOf(s[i])
    requires j < |s| ==> IdOf(s[j]) != IdOf(s[i])
    ensures IsRun(s, i, j)
  {
    forall k | 0 <= k < i
      ensures IdOf(s[k]) != IdOf(s[i])
    {
      SortedBetween(s, k, i - 1, i);
    }
    forall k | j <= k < |s|
      ensures IdOf(s[k]) != IdOf(s[i])
    {
      SortedBetween(s, i, j, k);
    }
  }

  lemma SortedBetween(s: seq<Anchor>, a: nat, b: nat, c: nat)
    requires Sorted(s, KeyLe(ID_OF)) && a <= b <= c < |s|
    ensures IdOf(s[a]) == IdOf(s[c]) ==> IdOf(s[b]) == IdOf(s[a])
  {
    assert a < b ==> KeyLe(ID_OF)(s[a], s[b]);
    assert b < c ==> KeyLe(ID_OF)(s[b], s[c]);
    if IdOf(s[a]) == IdOf(s[c]) && a < b < c {
      IdLeAntisymmetric(IdOf(s[a]), IdOf(s[b]));
    }
  }

  /** What is true of the output once the groups of `s[..i]` are collapsed. */
  ghost predicate Collapsing(s: seq<Anchor>, i: nat, survivors: seq<Anchor>, collapsed: seq<Collapsed>) {
    && i <= |s|
    && (0 < i < |s| ==> IdOf(s[i - 1]) != IdOf(s[i]))
    && Ascending(survivors, ID_OF) && Ascending(collapsed, COLLAPSED_ID)
    && (forall a :: a in survivors <==> Group(s, IdOf(a)) != [] && Group(s, IdOf(a))[0] == a && SeenId(s, i, IdOf(a)))
    && (forall c :: c in collapsed <==> |Group(s, c.id)| > 1 && c == Report(c.id, Group(s, c.id)) && SeenId(s, i, c.id))
    && |survivors| + Removed(collapsed) == i
  }

  ghost predicate SeenId(s: seq<Anchor>, i: nat, id: Identity)
    requires i <= |s|
  {
    exists k :: 0 <= k < i && IdOf(s[k]) == id
  }

  lemma SeenRun(s: seq<Anchor>, i: nat, j: nat, id: Identity)
    requires IsRun(s, i, j)
    ensures SeenId(s, j, id) <==> SeenId(s, i, id) || id == IdOf(s[i])
    ensures !SeenId(s, i, IdOf(s[i]))
  {
    if id == IdOf(s[i]) {
      assert SeenId(s, j, id);
    }
    if SeenId(s, j, id) && id != IdOf(s[i]) {
      var k :| 0 <= k < j && IdOf(s[k]) == id;
      assert k < i;
    }
  }

  lemma SeenBelow(s: seq<Anchor>, i: nat, id: Identity)
    requires Sorted(s, KeyLe(ID_OF)) && i < |s| && SeenId(s, i, id) && !SeenId(s, i, IdOf(s[i]))
    ensures IdLt(id, IdOf(s[i]))
  {
    var k :| 0 <= k < i && IdOf(s[k]) == id;
    assert KeyLe(ID_OF)(s[k], s[i]);
  }

  lemma AscendingSnoc<T(!new)>(s: seq<T>, idOf: T -> Identity, x: T)
    requires Ascending(s, idOf) && forall y :: y in s ==> IdLt(idOf(y), idOf(x))
    ensures Ascending(s + [x], idOf)
  {
    forall i, j | 0 <= i < j < |s| + 1
      ensures IdLt(idOf((s + [x])[i]), idOf((s + [x])[j]))
    {
      if j == |s| {
        assert s[i] in s;
      }
    }
  }

  lemma SurvivorStep(s: seq<Anchor>, i: nat, j: nat, survivors: seq<Anchor>, collapsed: seq<Collapsed>)
    requires Sorted(s, KeyLe(ID_OF)) && Collapsing(s, i, survivors, collapsed) && IsRun(s, i, j)
    ensures Ascending(survivors + [s[i]], ID_OF)
    ensures forall a :: a in survivors + [s[i]] <==>
      Group(s, IdOf(a)) != [] && Group(s, IdOf(a))[0] == a && SeenId(s, j, IdOf(a))
  {
    RunIsGroup(s, i, j);
    SeenRun(s, i, j, IdOf(s[i]));
    forall a | a in survivors
      ensures IdLt(IdOf(a), IdOf(s[i]))
    {
      SeenBelow(s, i, IdOf(a));
    }
    AscendingSnoc(survivors, ID_OF, s[i]);
    forall a
      ensures a in survivors + [s[i]] <==>
        Group(s, IdOf(a)) != [] && Group(s, IdOf(a))[0] == a && SeenId(s, j, IdOf(a))
    {
      SeenRun(s, i, j, IdOf(a));
    }
  }

  lemma ReportStep(s: seq<Anchor>, i: nat, j: nat, survivors: seq<Anchor>, collapsed: seq<Collapsed>)
    requires Sorted(s, KeyLe(ID_OF)) && Collapsing(s, i, survivors, collapsed) && IsRun(s, i, j)
    ensures var after := if j - i > 1 then collapsed + [Report(IdOf(s[i]), s[i..j])] else collapsed;
      && Ascending(after, COLLAPSED_ID)
      && (forall c :: c in after <==> |Group(s, c.id)| > 1 && c == Report(c.id, Group(s, c.id)) && SeenId(s, j, c.id))
      && Removed(after) == Removed(collapsed) + (j - i - 1)
  {
    RunIsGroup(s, i, j);
    SeenRun(s, i, j, IdOf(s[i]));
    var report := Report(IdOf(s[i]), s[i..j]);
    forall c | c in collapsed
      ensures IdLt(c.id, IdOf(s[i]))
    {
      SeenBelow(s, i, c.id);
    }
    AscendingSnoc(collapsed, COLLAPSED_ID, report);
    assert (collapsed + [report])[..|collapsed|] == collapsed;
    forall c
      ensures SeenId(s, j, c) <==> SeenId(s, i, c) || c == IdOf(s[i])
    {
      SeenRun(s, i, j, c);
    }
  }

  lemma CollapsingStep(s: seq<Anchor>, i: nat, j: nat, survivors: seq<Anchor>, collapsed: seq<Collapsed>)
    requires Sorted(s, KeyLe(ID_OF)) && Collapsing(s, i, survivors, collapsed) && IsRun(s, i, j)
    ensures Collapsing(s, j, survivors + [s[i]], if j - i > 1 then collapsed + [Report(IdOf(s[i]), s[i..j])]
      else collapsed)
  {
    SurvivorStep(s, i, j, survivors, collapsed);
    ReportStep(s, i, j, survivors, collapsed);
  }

  method RunEnd(s: seq<Anchor>, i: nat) returns (j: nat)
    requires Sorted(s, KeyLe(ID_OF)) && i < |s| && (i > 0 ==> IdOf(s[i - 1]) != IdOf(s[i]))
    ensures IsRun(s, i, j)
  {
    j := i + 1;
    while j < |s| && IdOf(s[j]) == IdOf(s[i])
      invariant i < j <= |s|
      invariant forall k :: i <= k < j ==> IdOf(s[k]) == IdOf(s[i])
    {
      j := j + 1;
    }
    RunEnds(s, i, j);
  }

  /** Groups are found as runs of the stably sorted records. */
  method CollapseDuplicateIdentities(anchors: seq<Anchor>) returns (survivors: seq<Anchor>, collapsed: seq<Collapsed>)
    ensures IsCollapse(anchors, survivors, collapsed)
    ensures |anchors| == |survivors| + Removed(collapsed)
  {
    var s := Sort(anchors, KeyLe(ID_OF));
    KeyLePreorder(ID_OF);
    SortSorted(anchors, KeyLe(ID_OF));
    survivors, collapsed := [], [];
    var i := 0;
    while i < |s|
      invariant Collapsing(s, i, survivors, collapsed)
    {
      var j := RunEnd(s, i);
      CollapsingStep(s, i, j, survivors, collapsed);
      if j - i > 1 {
        collapsed := collapsed + [Report(IdOf(s[i]), s[i..j])];
      }
      survivors := survivors + [s[i]];
      i := j;
    }
    CollapsedAll(anchors, s, survivors, collapsed);
  }

  lemma CollapsedAll(anchors: seq<Anchor>, s: seq<Anchor>, survivors: seq<Anchor>, collapsed: seq<Collapsed>)
    requires s == Sort(anchors, KeyLe(ID_OF)) && Collapsing(s, |s|, survivors, collapsed)
    ensures IsCollapse(anchors, survivors, collapsed) && |s| == |anchors|
  {
    SortPermutes(anchors, KeyLe(ID_OF));
    forall id
      ensures Group(s, id) == Group(anchors, id)
      ensures Group(s, id) != [] ==> SeenId(s, |s|, id)
    {
      SortKeepsGroups(anchors, id);
      if Group(s, id) != [] {
        GroupHasId(s, id, 0);
        var k :| 0 <= k < |s| && s[k] == Group(s, id)[0];
      }
    }
  }

  /** The collapse is determined by its input. */
  lemma CollapseDeterministic(s: seq<Anchor>, a: seq<Anchor>, c: seq<Collapsed>, b: seq<Anchor>, d: seq<Collapsed>)
    requires IsCollapse(s, a, c) && IsCollapse(s, b, d)
    ensures a == b && c == d
  {
    AscendingUnique(a, b, ID_OF);
    AscendingUnique(c, d, COLLAPSED_ID);
  }

  // --- The merge kernel's policy on one side ---

  /** The record a side contributes for an identity. */
  function SideRecord(s: seq<Anchor>, id: Identity): (r: Option<Anchor>)
    ensures r.Some? ==> IdOf(r.value) == id
    ensures r.None? <==> Group(s, id) == []
  {
    var g := Group(s, id);
    if g == [] then None
    else
      GroupHasId(s, id, 0);
      if Agrees(g) then Some(g[0]) else Some(PlantSentinel(g[0]))
  }

  datatype Side = Ours | Theirs

  function Tag(side: Side, collapsed: seq<Collapsed>, n: nat): seq<(Side, Collapsed)>
    requires n <= |collapsed|
  {
    if n == 0 then [] else Tag(side, collapsed, n - 1) + [(side, collapsed[n - 1])]
  }

  /** One of the first `n` reports says that the records of `id` disagreed. */
  ghost predicate Diverged(collapsed: seq<Collapsed>, n: nat, id: Identity)
    requires n <= |collapsed|
  {
    exists m :: 0 <= m < n && collapsed[m].id == id && collapsed[m].agreed.None?
  }

  /** The survivors with the sentinel planted for the first `n` reports. */
  ghost predicate Planted(survivors: seq<Anchor>, collapsed: seq<Collapsed>, n: nat, r: seq<Anchor>)
    requires n <= |collapsed|
  {
    && |r| == |survivors|
    && forall k :: 0 <= k < |r| ==>
      r[k] == if Diverged(collapsed, n, IdOf(survivors[k])) then PlantSentinel(survivors[k]) else survivors[k]
  }

  /** `r` holds, in canonical order, what the side contributes for each identity. */
  ghost predicate IsSide(s: seq<Anchor>, r: seq<Anchor>) {
    && Ascending(r, ID_OF)
    && forall a :: a in r <==> SideRecord(s, IdOf(a)) == Some(a)
  }

  method FindIdentity(r: seq<Anchor>, id: Identity) returns (k: nat)
    ensures k <= |r| && forall i :: 0 <= i < k ==> IdOf(r[i]) != id
    ensures k < |r| ==> IdOf(r[k]) == id
  {
    k := 0;
    while k < |r| && IdOf(r[k]) != id
      invariant k <= |r| && forall i :: 0 <= i < k ==> IdOf(r[i]) != id
    {
      k := k + 1;
    }
  }

  lemma PlantNone(survivors: seq<Anchor>, collapsed: seq<Collapsed>, n: nat, r: seq<Anchor>)
    requires n < |collapsed| && Planted(survivors, collapsed, n, r) && collapsed[n].agreed.Some?
    ensures Planted(survivors, collapsed, n + 1, r)
  {
    forall id
      ensures Diverged(collapsed, n + 1, id) <==> Diverged(collapsed, n, id)
    {
    }
  }

  lemma PlantAt(survivors: seq<Anchor>, collapsed: seq<Collapsed>, n: nat, r: seq<Anchor>, k: nat)
    requires n < |collapsed| && Planted(survivors, collapsed, n, r) && collapsed[n].agreed.None?
    requires Ascending(survivors, ID_OF) && k < |r| && IdOf(r[k]) == collapsed[n].id
    ensures Planted(survivors, collapsed, n + 1, r[k := PlantSentinel(r[k])])
  {
    forall id
      ensures Diverged(collapsed, n + 1, id) <==> Diverged(collapsed, n, id) || id == collapsed[n].id
    {
      if id == collapsed[n].id {
        assert Diverged(collapsed, n + 1, id);
      }
    }
    forall i | 0 <= i < |r| && i != k
      ensures IdOf(survivors[i]) != collapsed[n].id
    {
      AscendingApart(survivors, ID_OF, if i < k then i else k, if i < k then k else i);
    }
  }

  lemma DivergedIsDisagreement(s: seq<Anchor>, survivors: seq<Anchor>, collapsed: seq<Collapsed>, a: Anchor)
    requires IsCollapse(s, survivors, collapsed) && a in survivors
    ensures Diverged(collapsed, |collapsed|, IdOf(a)) <==> !Agrees(Group(s, IdOf(a)))
  {
    var g := Group(s, IdOf(a));
    if Diverged(collapsed, |collapsed|, IdOf(a)) {
      var m :| 0 <= m < |collapsed| && collapsed[m].id == IdOf(a) && collapsed[m].agreed.None?;
      assert collapsed[m] in collapsed;
    }
    if !Agrees(g) {
      assert Report(IdOf(a), g) in collapsed;
    }
  }

  lemma PlantedIsSide(s: seq<Anchor>, survivors: seq<Anchor>, collapsed: seq<Collapsed>, r: seq<Anchor>)
    requires IsCollapse(s, survivors, collapsed) && Planted(survivors, collapsed, |collapsed|, r)
    ensures IsSide(s, r)
  {
    forall k | 0 <= k < |r|
      ensures SideRecord(s, IdOf(r[k])) == Some(r[k]) && IdOf(r[k]) == IdOf(survivors[k])
    {
      assert survivors[k] in survivors;
      DivergedIsDisagreement(s, survivors, collapsed, survivors[k]);
    }
    forall i, j | 0 <= i < j < |r|
      ensures IdLt(IdOf(r[i]), IdOf(r[j]))
    {
      assert IdLt(IdOf(survivors[i]), IdOf(survivors[j]));
    }
    forall a | SideRecord(s, IdOf(a)) == Some(a)
      ensures a in r
    {
      var g := Group(s, IdOf(a));
      GroupHasId(s, IdOf(a), 0);
      assert g[0] in survivors;
      var k :| 0 <= k < |survivors| && survivors[k] == g[0];
      DivergedIsDisagreement(s, survivors, collapsed, survivors[k]);
      assert r[k] == a;
    }
  }

  /** Every report has a survivor. */
  lemma SurvivorOfReport(s: seq<Anchor>, survivors: seq<Anchor>, collapsed: seq<Collapsed>, n: nat, r: seq<Anchor>)
    requires IsCollapse(s, survivors, collapsed) && n < |collapsed| && Planted(survivors, collapsed, n, r)
    ensures exists k :: 0 <= k < |r| && IdOf(r[k]) == collapsed[n].id
  {
    var id := collapsed[n].id;
    assert collapsed[n] in collapsed;
    GroupHasId(s, id, 0);
    assert Group(s, id)[0] in survivors;
    var k :| 0 <= k < |survivors| && survivors[k] == Group(s, id)[0];
    assert IdOf(r[k]) == id;
  }

  method ApplyReport(ghost s: seq<Anchor>, ghost survivors: seq<Anchor>, collapsed: seq<Collapsed>, n: nat,
                     anchors: seq<Anchor>)
    returns (r: seq<Anchor>)
    requires IsCollapse(s, survivors, collapsed) && n < |collapsed| && Planted(survivors, collapsed, n, anchors)
    ensures Planted(survivors, collapsed, n + 1, r)
  {
    r := anchors;
    if collapsed[n].agreed.None? {
      var k := FindIdentity(r, collapsed[n].id);
      SurvivorOfReport(s, survivors, collapsed, n, r);
      PlantAt(survivors, collapsed, n, r, k);
      r := r[k := PlantSentinel(r[k])];
    } else {
      PlantNone(survivors, collapsed, n, r);
    }
  }

  method PlantSentinels(side: Side, kept: seq<Anchor>, reports: seq<Collapsed>, reported: seq<(Side, Collapsed)>,
                        ghost anchors: seq<Anchor>)
    returns (r: seq<Anchor>, out: seq<(Side, Collapsed)>)
    requires IsCollapse(anchors, kept, reports)
    ensures IsSide(anchors, r)
    ensures out == reported + Tag(side, reports, |reports|)
  {
    r, out := kept, reported;
    for n := 0 to |reports|
      invariant Planted(kept, reports, n, r)
      invariant out == reported + Tag(side, reports, n)
    {
      r := ApplyReport(anchors, kept, reports, n, r);
      out := out + [(side, reports[n])];
    }
    PlantedIsSide(anchors, kept, reports, r);
  }

  /** The collapse of one side, and what it contributes for each identity. */
  method CollapseSide(side: Side, anchors: seq<Anchor>, reported: seq<(Side, Collapsed)>)
    returns (r: seq<Anchor>, out: seq<(Side, Collapsed)>, ghost collapsed: seq<Collapsed>)
    ensures IsReport(anchors, collapsed) && IsSide(anchors, r)
    ensures out == reported + Tag(side, collapsed, |collapsed|)
  {
    var kept, reports := CollapseDuplicateIdentities(anchors);
    collapsed := reports;
    r, out := PlantSentinels(side, kept, reports, reported, anchors);
  }
}
