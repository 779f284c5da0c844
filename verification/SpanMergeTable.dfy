/** The merge, told of the records themselves: which token every identity ends up
    with, and where it comes from. */
module SpanMergeTable {
  import opened Text
  import opened Fingerprint
  import opened LineIndexing
  import opened SpanFormat
  import opened SpanCollapse
  import opened SpanResolve
  import opened SpanMerge
  import Hex

  // --- The records of one side ---

  predicate IsAt(a: Anchor, id: Identity) {
    a.path == id.path && a.startLine == id.startLine && a.endLine == id.endLine
  }

  predicate SameToken(a: Anchor, b: Anchor) { a.algorithm == b.algorithm && a.contentHash == b.contentHash }

  /** `a` is the side's first record of the identity. */
  ghost predicate IsFirst(s: seq<Anchor>, id: Identity, a: Anchor) {
    exists i :: 0 <= i < |s| && s[i] == a && IsAt(a, id) && forall j :: 0 <= j < i ==> !IsAt(s[j], id)
  }

  /** Two records of the identity carry different tokens. */
  ghost predicate Disputed(s: seq<Anchor>, id: Identity) {
    exists a, b :: a in s && b in s && IsAt(a, id) && IsAt(b, id) && !SameToken(a, b)
  }

  predicate IsSentinel(a: Anchor) { a.algorithm == "rk64" && a.contentHash == "ffffffffffffffff" }

  /** What the side says of the identity: its first record, with the sentinel for
      a token when its records dispute it. */
  ghost predicate Says(s: seq<Anchor>, id: Identity, a: Anchor) {
    exists first :: IsFirst(s, id, first) &&
      a == if Disputed(s, id) then first.(algorithm := "rk64", contentHash := "ffffffffffffffff") else first
  }

  ghost predicate Silent(s: seq<Anchor>, id: Identity) { forall a :: a in s ==> !IsAt(a, id) }

  lemma {:induction false} GroupHolds(s: seq<Anchor>, id: Identity, a: Anchor)
    ensures a in Group(s, id) <==> a in s && IsAt(a, id)
  {
    if s != [] {
      GroupHolds(s[1..], id, a);
      assert s == [s[0]] + s[1..];
    }
  }

  lemma {:induction false} GroupFirst(s: seq<Anchor>, id: Identity)
    requires Group(s, id) != []
    ensures IsFirst(s, id, Group(s, id)[0])
  {
    if IsAt(s[0], id) {
      assert s[0] == Group(s, id)[0];
    } else {
      GroupFirst(s[1..], id);
      var a := Group(s, id)[0];
      var i :| 0 <= i < |s[1..]| && s[1..][i] == a && IsAt(a, id) && forall j :: 0 <= j < i ==> !IsAt(s[1..][j], id);
      assert s[i + 1] == a && forall j :: 0 <= j < i + 1 ==> !IsAt(s[j], id);
    }
  }

  lemma FirstUnique(s: seq<Anchor>, id: Identity, a: Anchor, b: Anchor)
    requires IsFirst(s, id, a) && IsFirst(s, id, b)
    ensures a == b
  {
    var i :| 0 <= i < |s| && s[i] == a && IsAt(a, id) && forall j :: 0 <= j < i ==> !IsAt(s[j], id);
    var k :| 0 <= k < |s| && s[k] == b && IsAt(b, id) && forall j :: 0 <= j < k ==> !IsAt(s[j], id);
    assert !(i < k) && !(k < i);
  }

  lemma DisputedIsDisagreement(s: seq<Anchor>, id: Identity)
    requires Group(s, id) != []
    ensures Disputed(s, id) <==> !Agrees(Group(s, id))
  {
    var g := Group(s, id);
    forall a
      ensures a in g <==> a in s && IsAt(a, id)
    {
      GroupHolds(s, id, a);
    }
    if Disputed(s, id) {
      var a, b :| a in s && b in s && IsAt(a, id) && IsAt(b, id) && !SameToken(a, b);
      assert a in g && b in g;
      assert !(TokenOf(a) == TokenOf(g[0]) && TokenOf(b) == TokenOf(g[0]));
    }
    if !Agrees(g) {
      var i :| 0 <= i < |g| && TokenOf(g[i]) != TokenOf(g[0]);
      assert g[i] in g && g[0] in g && !SameToken(g[i], g[0]);
    }
  }

  /** The side's contribution is what it says. */
  lemma SideSays(s: seq<Anchor>, id: Identity, a: Anchor)
    ensures Says(s, id, a) <==> SideRecord(s, id) == Some(a)
    ensures Silent(s, id) <==> SideRecord(s, id) == None
  {
    if Group(s, id) == [] {
      forall x | x in s
        ensures !IsAt(x, id)
      {
        GroupHolds(s, id, x);
      }
    } else {
      var first := Group(s, id)[0];
      GroupHolds(s, id, first);
      GroupFirst(s, id);
      DisputedIsDisagreement(s, id);
      if Says(s, id, a) {
        var x :| IsFirst(s, id, x) &&
          a == if Disputed(s, id) then x.(algorithm := "rk64", contentHash := "ffffffffffffffff") else x;
        FirstUnique(s, id, first, x);
      }
    }
  }

  // --- Sources and content ---

  ghost predicate HasSource(sources: seq<Source>, path: string, bytes: seq<byte>) {
    exists i :: 0 <= i < |sources| && sources[i] == Source(path, bytes) &&
      forall j :: 0 <= j < i ==> sources[j].path != path
  }

  ghost predicate NoSource(sources: seq<Source>, path: string) {
    forall i :: 0 <= i < |sources| ==> sources[i].path != path
  }

  lemma {:induction false} SourceIs(sources: seq<Source>, path: string, bytes: seq<byte>)
    ensures HasSource(sources, path, bytes) <==> FirstSource(sources, path) == Some(bytes)
    ensures NoSource(sources, path) <==> FirstSource(sources, path) == None
  {
    if sources != [] {
      var rest := sources[1..];
      SourceIs(rest, path, bytes);
      if sources[0].path != path {
        if HasSource(rest, path, bytes) {
          var i :| 0 <= i < |rest| && rest[i] == Source(path, bytes) && forall j :: 0 <= j < i ==> rest[j].path != path;
          assert sources[i + 1] == Source(path, bytes) && forall j :: 0 <= j < i + 1 ==> sources[j].path != path;
        }
        if HasSource(sources, path, bytes) {
          var i :| 0 <= i < |sources| && sources[i] == Source(path, bytes) &&
            forall j :: 0 <= j < i ==> sources[j].path != path;
          assert rest[i - 1] == Source(path, bytes) && forall j :: 0 <= j < i - 1 ==> rest[j].path != path;
        }
      }
    }
  }

  /** What an address names in a file: all of it, or its lines from `start` to
      `end`, joined, as far as there are any. */
  function Named(bytes: seq<byte>, start: nat, end: nat): seq<byte> {
    var lines := LinesOf(bytes);
    var last := if end < |lines| then end else |lines|;
    if start == 0 && end == 0 then bytes
    else if 1 <= start <= last then Join(lines[start - 1..last], LF)
    else []
  }

  /** The token is the fingerprint of what the address names in the file. */
  ghost predicate IsFresh(a: Anchor, bytes: seq<byte>) {
    a.algorithm == "rk64" && Hex.Rk64FromHex(a.contentHash) == Some(Fp(Named(bytes, a.startLine, a.endLine)))
  }

  lemma NamedIsCanonical(a: Anchor, bytes: seq<byte>)
    ensures Canonical(bytes, ExtentOf(a)) == Named(bytes, a.startLine, a.endLine)
  {
  }

  lemma RehashIsFresh(a: Anchor, bytes: seq<byte>)
    ensures IsFresh(Rehash(a, bytes), bytes)
  {
    var content := Named(bytes, a.startLine, a.endLine);
    NamedIsCanonical(a, bytes);
    Hex.HexRoundTrip(Fp(content));
  }

  // --- Every identity of the merge ---

  ghost predicate OnSide(s: seq<Anchor>, id: Identity, a: Option<Anchor>) {
    match a
    case None => Silent(s, id)
    case Some(x) => Says(s, id, x)
  }

  /** The merged anchor of an identity, given what the two sides say of it. */
  ghost predicate Merged(o: Option<Anchor>, t: Option<Anchor>, sources: seq<Source>, a: Anchor) {
    var one := if o.Some? then o.value else if t.Some? then t.value else a;
    && (o.Some? || t.Some?) && a.path == one.path && a.startLine == one.startLine && a.endLine == one.endLine
    && if o.Some? && t.Some? && SameToken(o.value, t.value) then a == o.value
       else if o.Some? && IsSentinel(o.value) then a == o.value && (t.Some? ==> !NoSource(sources, a.path))
       else if t.Some? && IsSentinel(t.value) then a == t.value && (o.Some? ==> !NoSource(sources, a.path))
       else if NoSource(sources, a.path) then (o.None? || t.None?) && a == one
       else exists bytes :: HasSource(sources, a.path, bytes) && IsFresh(a, bytes)
  }

  lemma OutcomeMerged(o: Option<Anchor>, t: Option<Anchor>, sources: seq<Source>, id: Identity, a: Anchor)
    requires (o.Some? ==> IdOf(o.value) == id) && (t.Some? ==> IdOf(t.value) == id)
    requires MergeOne(o, t, FirstSource(sources, id.path)) == Kept(a)
    ensures Merged(o, t, sources, a)
  {
    hide Rehash, IsFresh;
    var src := FirstSource(sources, id.path);
    SourceIs(sources, id.path, if src.Some? then src.value else []);
    if src.Some? {
      forall x: Anchor
        ensures IsFresh(Rehash(x, src.value), src.value) && IdOf(Rehash(x, src.value)) == IdOf(x)
      {
        RehashIsFresh(x, src.value);
        RehashKeepsIdentity(x, src.value);
      }
    }
  }

  lemma RehashKeepsIdentity(a: Anchor, bytes: seq<byte>)
    ensures IdOf(Rehash(a, bytes)) == IdOf(a)
  {
  }

  /** Where every merged token comes from. A token both sides carry is kept; else a
      sentinel stays; else the first source of the path decides, and the token is
      the fingerprint of what the address names there; without a source the record
      is on one side only and kept. */
  lemma MergedExactly(base: Option<SpanFile>, ours: SpanFile, theirs: SpanFile, sources: seq<Source>, r: MergeResult,
                      a: Anchor)
    returns (o: Option<Anchor>, t: Option<Anchor>)
    requires IsMerge(base, ours, theirs, sources, r) && a in r.merged.anchors
    ensures OnSide(ours.anchors, IdOf(a), o) && OnSide(theirs.anchors, IdOf(a), t)
    ensures Merged(o, t, sources, a)
  {
    hide Merged, Says, Silent, MergeOne, SideRecord;
    var id := IdOf(a);
    o, t := SideRecord(ours.anchors, id), SideRecord(theirs.anchors, id);
    SideSays(ours.anchors, id, if o.Some? then o.value else a);
    SideSays(theirs.anchors, id, if t.Some? then t.value else a);
    assert AnchorAt(ours, theirs, sources)(ID_OF(a)) == Some(a);
    assert OutcomeAt(ours, theirs, sources, id) == Kept(a);
    OutcomeMerged(o, t, sources, id, a);
  }

  /** In particular a supplied source is used: whatever is verified and not carried
      with one token by both sides gets the fingerprint of the supplied content. */
  lemma SourceIsUsed(base: Option<SpanFile>, ours: SpanFile, theirs: SpanFile, sources: seq<Source>, r: MergeResult,
                     a: Anchor, bytes: seq<byte>)
    requires IsMerge(base, ours, theirs, sources, r) && a in r.merged.anchors && HasSource(sources, a.path, bytes)
    requires forall x :: Says(ours.anchors, IdOf(a), x) || Says(theirs.anchors, IdOf(a), x) ==> !IsSentinel(x)
    requires forall x, y :: Says(ours.anchors, IdOf(a), x) && Says(theirs.anchors, IdOf(a), y) ==> !SameToken(x, y)
    ensures IsFresh(a, bytes)
  {
    hide Says, IsFresh;
    var o, t := MergedExactly(base, ours, theirs, sources, r, a);
    forall other | HasSource(sources, a.path, other)
      ensures other == bytes
    {
      SourceIs(sources, a.path, bytes);
      SourceIs(sources, a.path, other);
    }
    SourceIs(sources, a.path, bytes);
  }

  /** What is left open says what both sides said. */
  lemma OpenSides(base: Option<SpanFile>, ours: SpanFile, theirs: SpanFile, sources: seq<Source>, r: MergeResult,
                  u: Unresolved)
    requires IsMerge(base, ours, theirs, sources, r)
    ensures u in r.unresolved <==>
      && Says(ours.anchors, u.id, u.ours) && Says(theirs.anchors, u.id, u.theirs)
      && !SameToken(u.ours, u.theirs) && NoSource(sources, u.id.path)
  {
    SideSays(ours.anchors, u.id, u.ours);
    SideSays(theirs.anchors, u.id, u.theirs);
    SourceIs(sources, u.id.path, []);
    hide Says, NoSource, SideRecord;
    assert u in r.unresolved <==> OpenAt(ours, theirs, sources)(UNRESOLVED_ID(u)) == Some(u);
  }

  // --- The [resolved] section ---

  ghost predicate FirstRecord(records: seq<Record>, id: Identity, r: Option<Record>) {
    match r
    case None => forall x :: x in records ==> RecordIdentity(x) != id
    case Some(x) =>
      exists i :: 0 <= i < |records| && records[i] == x && RecordIdentity(x) == id &&
        forall j :: 0 <= j < i ==> RecordIdentity(records[j]) != id
  }

  lemma FirstRecordHead(records: seq<Record>, id: Identity, r: Option<Record>)
    requires records != [] && RecordIdentity(records[0]) == id
    ensures FirstRecord(records, id, r) <==> r == Some(records[0])
  {
  }

  lemma FirstRecordDown(records: seq<Record>, id: Identity, x: Record)
    requires records != [] && RecordIdentity(records[0]) != id && FirstRecord(records, id, Some(x))
    ensures FirstRecord(records[1..], id, Some(x))
  {
    var rest := records[1..];
    var i :| 0 <= i < |records| && records[i] == x && RecordIdentity(x) == id &&
      forall j :: 0 <= j < i ==> RecordIdentity(records[j]) != id;
    assert rest[i - 1] == x && forall j :: 0 <= j < i - 1 ==> RecordIdentity(rest[j]) != id;
  }

  lemma FirstRecordUp(records: seq<Record>, id: Identity, x: Record)
    requires records != [] && RecordIdentity(records[0]) != id && FirstRecord(records[1..], id, Some(x))
    ensures FirstRecord(records, id, Some(x))
  {
    var rest := records[1..];
    var i :| 0 <= i < |rest| && rest[i] == x && RecordIdentity(x) == id &&
      forall j :: 0 <= j < i ==> RecordIdentity(rest[j]) != id;
    assert records[i + 1] == x && forall j :: 0 <= j < i + 1 ==> RecordIdentity(records[j]) != id;
  }

  lemma NoRecordTail(records: seq<Record>, id: Identity)
    requires records != [] && RecordIdentity(records[0]) != id
    ensures FirstRecord(records, id, None) <==> FirstRecord(records[1..], id, None)
  {
    assert records == [records[0]] + records[1..];
  }

  lemma {:induction false} FirstRecordIs(records: seq<Record>, id: Identity, r: Option<Record>)
    ensures FirstRecord(records, id, r) <==> SpanResolve.First(records, id) == r
  {
    if records != [] {
      if RecordIdentity(records[0]) == id {
        FirstRecordHead(records, id, r);
      } else {
        FirstRecordIs(records[1..], id, r);
        NoRecordTail(records, id);
        if r.Some? && FirstRecord(records, id, r) {
          FirstRecordDown(records, id, r.value);
        }
        if r.Some? && FirstRecord(records[1..], id, r) {
          FirstRecordUp(records, id, r.value);
        }
      }
    }
  }

  ghost predicate HoldsRecord(records: seq<Record>, id: Identity, r: Option<Record>) {
    forall x :: x in records && RecordIdentity(x) == id <==> r == Some(x)
  }

  /** The first record each file has of the identity; none where there is no base. */
  ghost predicate FirstRecords(base: Option<SpanFile>, ours: SpanFile, theirs: SpanFile, id: Identity,
                               b: Option<Record>, o: Option<Record>, t: Option<Record>)
  {
    && FirstRecord(ours.resolved, id, o) && FirstRecord(theirs.resolved, id, t)
    && if base.Some? then FirstRecord(base.value.resolved, id, b) else b == None
  }

  /** The sides changed the record differently, or have it differently from the start. */
  predicate Clash(hasBase: bool, b: Option<Record>, o: Option<Record>, t: Option<Record>) {
    o != t && if hasBase then o != b && t != b else o.Some? && t.Some?
  }

  /** Identity by identity: an equal record stays, one side's change wins, with no
      base a record of one side survives, and on a clash ours is kept. */
  lemma ResolvedExactly(base: Option<SpanFile>, ours: SpanFile, theirs: SpanFile, merged: seq<Record>, diverged: bool,
                        id: Identity, b: Option<Record>, o: Option<Record>, t: Option<Record>)
    requires IsResolved(base, ours, theirs, merged, diverged) && ours.resolved != theirs.resolved
    requires FirstRecords(base, ours, theirs, id, b, o, t)
    ensures o == t || Clash(base.Some?, b, o, t) ==> HoldsRecord(merged, id, o)
    ensures base.Some? && o == b ==> HoldsRecord(merged, id, t)
    ensures base.Some? && t == b ==> HoldsRecord(merged, id, o)
    ensures base.None? && t == None ==> HoldsRecord(merged, id, o)
    ensures base.None? && o == None ==> HoldsRecord(merged, id, t)
  {
    FirstRecordsAre(base, ours, theirs, id, b, o, t);
    hide FirstRecords, SpanResolve.First;
    var f := KeptAt(base, ours, theirs);
    forall x
      ensures x in merged && RecordIdentity(x) == id <==> f(id) == Some(x)
    {
      assert x in merged <==> f(RECORD_ID(x)) == Some(x);
      KeptHasIdentity(base, ours, theirs, id);
    }
  }

  lemma KeptHasIdentity(base: Option<SpanFile>, ours: SpanFile, theirs: SpanFile, id: Identity)
    ensures var kept := KeptAt(base, ours, theirs)(id); kept.Some? ==> RecordIdentity(kept.value) == id
  {
  }

  lemma FirstRecordsAre(base: Option<SpanFile>, ours: SpanFile, theirs: SpanFile, id: Identity, b: Option<Record>,
                        o: Option<Record>, t: Option<Record>)
    ensures FirstRecords(base, ours, theirs, id, b, o, t) <==>
      SpanResolve.First(ours.resolved, id) == o && SpanResolve.First(theirs.resolved, id) == t &&
        BaseRecord(base, id) == b
  {
    FirstRecordIs(ours.resolved, id, o);
    FirstRecordIs(theirs.resolved, id, t);
    if base.Some? {
      FirstRecordIs(base.value.resolved, id, b);
    }
  }

  /** The section is flagged exactly when the sides clash on some identity. */
  lemma DivergedExactly(base: Option<SpanFile>, ours: SpanFile, theirs: SpanFile, merged: seq<Record>, diverged: bool)
    requires IsResolved(base, ours, theirs, merged, diverged)
    ensures ours.resolved == theirs.resolved ==> merged == ours.resolved && !diverged
    ensures ours.resolved != theirs.resolved ==>
      (diverged <==> exists id, b, o, t :: FirstRecords(base, ours, theirs, id, b, o, t) && Clash(base.Some?, b, o, t))
  {
    if ours.resolved != theirs.resolved {
      hide FirstRecords, SpanResolve.First;
      forall id, b, o, t
        ensures FirstRecords(base, ours, theirs, id, b, o, t) <==>
          SpanResolve.First(ours.resolved, id) == o && SpanResolve.First(theirs.resolved, id) == t &&
            BaseRecord(base, id) == b
      {
        FirstRecordsAre(base, ours, theirs, id, b, o, t);
      }
      if diverged {
        var id :| ChooseAt(base, ours, theirs, id).1;
        var b, o, t := BaseRecord(base, id), SpanResolve.First(ours.resolved, id),
          SpanResolve.First(theirs.resolved, id);
        assert FirstRecords(base, ours, theirs, id, b, o, t) && Clash(base.Some?, b, o, t);
      }
      if id, b, o, t :| FirstRecords(base, ours, theirs, id, b, o, t) && Clash(base.Some?, b, o, t) {
        assert ChooseAt(base, ours, theirs, id).1;
      }
    }
  }
}
