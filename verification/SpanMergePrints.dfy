/** The merge of two readable span files is a readable span file. */
module SpanMergePrints {
  import opened Text
  import opened Fingerprint
  import opened LineIndexing
  import opened SpanText
  import opened SpanFormat
  import opened SpanLines
  import opened SpanRoundTrip
  import opened SpanTheorem
  import opened IdentityOrder
  import opened SpanCollapse
  import opened SpanResolve
  import opened SpanMerge
  import Hex

  // --- Anchor lines ---

  predicate LineOk(a: Anchor) { AnchorOk(a) && !IsConflictMarkerLine(PrintAnchor(a)) }

  lemma DigitsAreToken(s: string)
    requires s != [] && forall c :: c in s ==> Hex.IsDigit(c)
    ensures TokenOk(RK64, s)
  {
    assert s[|s| - 1] in s;
  }

  lemma HexTokenOk(v: u64)
    ensures TokenOk(RK64, Hex.Rk64ToHex(v))
  {
    Hex.Pow16Word();
    Hex.ValueOfDigits(v, 16);
    DigitsAreToken(Hex.Digits(v, 16));
  }

  /** Seven equal marks at the start of `address + " " + token` lie in the address. */
  lemma PrefixInAddress(mark: string, address: string, s: string, t: string)
    requires ' ' !in mark && mark <= address + [' '] + s
    ensures mark <= address && mark <= address + [' '] + t
  {
    var line := address + [' '] + s;
    assert line[|address|] == ' ';
    assert forall i :: 0 <= i < |mark| ==> mark[i] in mark && line[i] == mark[i];
    assert mark == line[..|mark|] == address[..|mark|];
    assert mark == (address + [' '] + t)[..|mark|];
  }

  lemma MarkerIgnoresToken(address: string, s: string, t: string)
    requires IsConflictMarkerLine(address + [' '] + s)
    ensures IsConflictMarkerLine(address + [' '] + t)
  {
    var x, y := address + [' '] + s, address + [' '] + t;
    if "<<<<<<<" <= x {
      PrefixInAddress("<<<<<<<", address, s, t);
    } else if ">>>>>>>" <= x {
      PrefixInAddress(">>>>>>>", address, s, t);
    } else if "|||||||" <= x {
      PrefixInAddress("|||||||", address, s, t);
    } else {
      PrefixInAddress("=======", address, s, t);
      assert |x| > 7 && x[7] == y[7];
    }
  }

  lemma PrintedAnchor(a: Anchor)
    ensures PrintAnchor(a) ==
      PrintAddress(a.path, a.startLine, a.endLine) + [' '] + PrintToken(a.algorithm, a.contentHash)
  {
    assert " " == [' '];
  }

  /** A new token leaves a line as readable as it was. */
  lemma RetokenedOk(a: Anchor, algorithm: string, hash: string)
    requires LineOk(a) && TokenOk(algorithm, hash)
    ensures LineOk(a.(algorithm := algorithm, contentHash := hash))
  {
    var b := a.(algorithm := algorithm, contentHash := hash);
    PrintedAnchor(a);
    PrintedAnchor(b);
    if IsConflictMarkerLine(PrintAnchor(b)) {
      MarkerIgnoresToken(PrintAddress(a.path, a.startLine, a.endLine), PrintToken(algorithm, hash),
        PrintToken(a.algorithm, a.contentHash));
    }
  }

  ghost predicate LinesOk(anchors: seq<Anchor>) {
    forall a :: a in anchors ==> LineOk(a)
  }

  lemma WellFormedLines(x: SpanFile)
    requires WellFormed(x)
    ensures LinesOk(x.anchors)
  {
    forall i | 0 <= i < |x.anchors|
      ensures LineOk(x.anchors[i])
    {
      assert !IsConflictMarkerLine(AnchorLines(x.anchors)[i]);
    }
  }

  lemma SentinelTokenOk()
    ensures TokenOk(RK64, SENTINEL_HASH)
  {
    assert forall i :: 0 <= i < |SENTINEL_HASH| ==> SENTINEL_HASH[i] == 'f';
  }

  lemma PlantedLineOk(a: Anchor)
    requires LineOk(a)
    ensures LineOk(PlantSentinel(a))
  {
    SentinelTokenOk();
    RetokenedOk(a, RK64, SENTINEL_HASH);
  }

  lemma SideRecordFrom(s: seq<Anchor>, id: Identity) returns (a: Anchor)
    requires SideRecord(s, id).Some?
    ensures a in s && (SideRecord(s, id) == Some(a) || SideRecord(s, id) == Some(PlantSentinel(a)))
  {
    GroupHasId(s, id, 0);
    a := Group(s, id)[0];
  }

  lemma SideLineOk(s: seq<Anchor>, id: Identity)
    requires LinesOk(s) && SideRecord(s, id).Some?
    ensures LineOk(SideRecord(s, id).value)
  {
    var a := SideRecordFrom(s, id);
    PlantedLineOk(a);
  }

  lemma RehashLineOk(a: Anchor, source: seq<byte>)
    requires LineOk(a)
    ensures LineOk(Rehash(a, source))
  {
    var fp := Fp(Canonical(source, ExtentOf(a)));
    HexTokenOk(fp);
    RetokenedOk(a, RK64, Hex.Rk64ToHex(fp));
  }

  /** A kept anchor is a side's record or a rehash of one. */
  lemma KeptFrom(o: Option<Anchor>, t: Option<Anchor>, src: Option<seq<byte>>) returns (a: Anchor)
    requires MergeOne(o, t, src).Kept?
    ensures o == Some(a) || t == Some(a)
    ensures MergeOne(o, t, src).anchor == a || (src.Some? && MergeOne(o, t, src).anchor == Rehash(a, src.value))
  {
    match (o, t)
    case (Some(x), None) => a := x;
    case (None, Some(y)) => a := y;
    case (Some(x), Some(y)) =>
      a := if TokenOf(x) != TokenOf(y) && !CarriedSentinel(x) && CarriedSentinel(y) then y else x;
  }

  lemma KeptLineOk(o: Option<Anchor>, t: Option<Anchor>, src: Option<seq<byte>>)
    requires o.Some? ==> LineOk(o.value)
    requires t.Some? ==> LineOk(t.value)
    ensures MergeOne(o, t, src).Kept? ==> LineOk(MergeOne(o, t, src).anchor)
  {
    if MergeOne(o, t, src).Kept? {
      var a := KeptFrom(o, t, src);
      if src.Some? {
        RehashLineOk(a, src.value);
      }
    }
  }

  lemma MergedLinesOk(ours: SpanFile, theirs: SpanFile, sources: seq<Source>, anchors: seq<Anchor>)
    requires LinesOk(ours.anchors) && LinesOk(theirs.anchors)
    requires Listing(anchors, ID_OF, AnchorAt(ours, theirs, sources))
    ensures LinesOk(anchors)
  {
    forall a | a in anchors
      ensures LineOk(a)
    {
      var id := IdOf(a);
      assert AnchorAt(ours, theirs, sources)(ID_OF(a)) == Some(a);
      var o, t := SideRecord(ours.anchors, id), SideRecord(theirs.anchors, id);
      if o.Some? {
        SideLineOk(ours.anchors, id);
      }
      if t.Some? {
        SideLineOk(theirs.anchors, id);
      }
      KeptLineOk(o, t, FirstSource(sources, id.path));
    }
  }

  // --- Records ---

  lemma KeptRecordFrom(base: Option<SpanFile>, ours: SpanFile, theirs: SpanFile, merged: seq<Record>, diverged: bool,
                       r: Record)
    requires IsResolved(base, ours, theirs, merged, diverged) && r in merged
    ensures r in ours.resolved || r in theirs.resolved
  {
    if ours.resolved != theirs.resolved {
      assert KeptAt(base, ours, theirs)(RECORD_ID(r)) == Some(r);
    }
  }

  lemma MergedRecordsDistinct(base: Option<SpanFile>, ours: SpanFile, theirs: SpanFile, merged: seq<Record>,
                              diverged: bool)
    requires DistinctIdentities(ours.resolved) && IsResolved(base, ours, theirs, merged, diverged)
    ensures DistinctIdentities(merged)
  {
    if ours.resolved != theirs.resolved {
      forall i, j | 0 <= i < j < |merged|
        ensures RecordIdentity(merged[i]) != RecordIdentity(merged[j])
      {
        AscendingApart(merged, RECORD_ID, i, j);
      }
    }
  }

  lemma MergedRecordsOk(base: Option<SpanFile>, ours: SpanFile, theirs: SpanFile, merged: seq<Record>, diverged: bool)
    requires PartsOk(ours) && PartsOk(theirs) && IsResolved(base, ours, theirs, merged, diverged)
    ensures DistinctIdentities(merged) && forall i :: 0 <= i < |merged| ==> RecordOk(merged[i])
  {
    MergedRecordsDistinct(base, ours, theirs, merged, diverged);
    forall i | 0 <= i < |merged|
      ensures RecordOk(merged[i])
    {
      KeptRecordFrom(base, ours, theirs, merged, diverged, merged[i]);
    }
  }

  // --- The whole file ---

  lemma AssembledWellFormed(m: SpanFile, x: SpanFile)
    requires WellFormed(x) && m.why == x.why && LinesOk(m.anchors)
    requires DistinctIdentities(m.resolved) && forall i :: 0 <= i < |m.resolved| ==> RecordOk(m.resolved[i])
    ensures WellFormed(m)
  {
    forall i | 0 <= i < |m.anchors|
      ensures AnchorOk(m.anchors[i]) && !IsConflictMarkerLine(AnchorLines(m.anchors)[i])
    {
      assert m.anchors[i] in m.anchors;
    }
  }

  /** Merging keeps span files readable: whatever the base, the sources and the
      conflicts, printing the merged file and parsing it gives it back. */
  lemma MergedFileRoundTrips(base: Option<SpanFile>, ours: SpanFile, theirs: SpanFile, sources: seq<Source>,
                             r: MergeResult)
    requires WellFormed(ours) && WellFormed(theirs) && IsMerge(base, ours, theirs, sources, r)
    ensures WellFormed(r.merged) && Parse(Serialize(r.merged)) == Ok(r.merged)
  {
    WellFormedLines(ours);
    WellFormedLines(theirs);
    MergedLinesOk(ours, theirs, sources, r.merged.anchors);
    MergedRecordsOk(base, ours, theirs, r.merged.resolved, r.conflicts.resolved);
    AssembledWellFormed(r.merged, if r.merged.why == ours.why then ours else theirs);
    RoundTrip(r.merged);
  }
}
