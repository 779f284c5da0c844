/** The round-trip law of the span file, as an equivalence. */
module SpanTheorem {
  import opened Text
  import opened SpanText
  import opened SpanFormat
  import opened SpanLines
  import opened SpanRoundTrip

  lemma FirstIs(lines: seq<string>, i: nat, n: nat, p: string -> bool, k: nat)
    requires i <= k <= n <= |lines| && (k < n ==> p(lines[k]))
    requires forall j :: i <= j < k ==> !p(lines[j])
    ensures First(lines, i, n, p) == k
  {
    assert First(lines, i, n, p) < n ==> p(lines[First(lines, i, n, p)]);
  }

  // --- Which lines are markers ---

  lemma BlankIsProse()
    ensures ProseLine([])
  {
  }

  lemma TightMarker(line: string)
    requires Tight(line)
    ensures IsConfigMarker(line) <==> line == CONFIG
  {
    TrimTight(line);
  }

  lemma ConfigIsMarker()
    ensures IsConfigMarker(CONFIG)
  {
    TrimTight(CONFIG);
  }

  lemma OtherHead(line: string)
    requires Tight(line) && line != [] && (line[0] != '[' || (|line| > 1 && line[1] != 'c'))
    ensures !IsConfigMarker(line)
  {
    TightMarker(line);
    assert CONFIG[0] == '[' && CONFIG[1] == 'c';
  }

  lemma ResolvedMarkerNotConfig()
    ensures !IsConfigMarker(RESOLVED)
  {
    OtherHead(RESOLVED);
  }

  lemma RecordNotConfig(r: Record)
    requires RecordOk(r)
    ensures !IsConfigMarker(PrintRecord(r))
  {
    RecordShape(r);
    OtherHead(PrintRecord(r));
  }

  lemma ResolvedNotConfig(resolved: seq<Record>, j: nat)
    requires forall i :: 0 <= i < |resolved| ==> RecordOk(resolved[i])
    requires j < |ResolvedLines(resolved)|
    ensures !IsConfigMarker(ResolvedLines(resolved)[j])
  {
    hide IsConfigMarker, PrintRecord;
    if j == 0 {
      ResolvedMarkerNotConfig();
    } else {
      RecordNotConfig(resolved[j - 1]);
      assert ResolvedLines(resolved)[j] == PrintRecord(resolved[j - 1]);
    }
  }

  // --- Reading a region whose prose is prose ---

  /** The lines after the separator: prose, then the printed sections. */
  ghost predicate RegionLines(lines: seq<string>, prose: seq<string>, resolved: seq<Record>, config: Config) {
    lines == prose + SectionLines(resolved, config)
  }

  lemma NotConfigBefore(lines: seq<string>, prose: seq<string>, resolved: seq<Record>, config: Config, c: nat, j: nat)
    requires RegionLines(lines, prose, resolved, config) && c == |prose| + |ResolvedLines(resolved)| && j < c
    requires forall i :: 0 <= i < |prose| ==> !IsConfigMarker(prose[i])
    requires forall i :: 0 <= i < |resolved| ==> RecordOk(resolved[i])
    ensures j < |lines| && !IsConfigMarker(lines[j])
  {
    var n := |prose|;
    if j < n {
      assert lines[j] == prose[j];
    } else {
      assert lines[j] == ResolvedLines(resolved)[j - n];
      ResolvedNotConfig(resolved, j - n);
    }
  }

  lemma ConfigLineAt(lines: seq<string>, prose: seq<string>, resolved: seq<Record>, config: Config, c: nat)
    requires RegionLines(lines, prose, resolved, config) && c == |prose| + |ResolvedLines(resolved)|
    ensures c <= |lines| && (c < |lines| ==> lines[c] == CONFIG)
  {
    hide ResolvedLines;
    assert c < |lines| ==> lines[c] == ConfigLines(config)[0];
  }

  lemma RecordLineAt(lines: seq<string>, prose: seq<string>, resolved: seq<Record>, config: Config, k: nat)
    requires RegionLines(lines, prose, resolved, config) && k < |resolved|
    ensures |prose| + 1 + k < |lines| && lines[|prose| + 1 + k] == PrintRecord(resolved[k])
  {
    hide PrintRecord, ConfigLines;
    assert lines[|prose| + 1 + k] == ResolvedLines(resolved)[1 + k];
  }

  lemma ConfigPosition(lines: seq<string>, prose: seq<string>, resolved: seq<Record>, config: Config, c: nat)
    requires RegionLines(lines, prose, resolved, config) && c == |prose| + |ResolvedLines(resolved)|
    requires forall i :: 0 <= i < |prose| ==> !IsConfigMarker(prose[i])
    requires forall i :: 0 <= i < |resolved| ==> RecordOk(resolved[i])
    ensures First(lines, 0, |lines|, IsConfigMarker) == c
  {
    hide RecordOk, IsConfigMarker, First, RegionLines, ResolvedLines;
    ConfigLineAt(lines, prose, resolved, config, c);
    forall j | 0 <= j < c
      ensures !IsConfigMarker(lines[j])
    {
      NotConfigBefore(lines, prose, resolved, config, c, j);
    }
    ConfigIsMarker();
    FirstIs(lines, 0, |lines|, IsConfigMarker, c);
  }

  lemma ResolvedPosition(lines: seq<string>, prose: seq<string>, resolved: seq<Record>, config: Config, c: nat)
    requires RegionLines(lines, prose, resolved, config) && c == |prose| + |ResolvedLines(resolved)|
    requires forall i :: 0 <= i < |prose| ==> !IsResolvedMarker(prose[i])
    ensures c <= |lines| && First(lines, 0, c, IsResolvedMarker) == |prose|
  {
    var n := |prose|;
    assert forall j :: 0 <= j < n ==> lines[j] == prose[j];
    if n < c {
      assert lines[n] == ResolvedLines(resolved)[0];
    }
    FirstIs(lines, 0, c, IsResolvedMarker, n);
  }

  lemma ConfigReads(lines: seq<string>, prose: seq<string>, resolved: seq<Record>, config: Config, c: nat,
                    firstLine: nat)
    requires RegionLines(lines, prose, resolved, config) && c == |prose| + |ResolvedLines(resolved)|
    ensures ConfigAt(lines, c, firstLine) == Ok(config)
  {
    if config != DEFAULT_CONFIG {
      assert lines[c..] == ConfigLines(config);
      ConfigRoundTrip(lines, c, firstLine, config);
    }
  }

  lemma RecordsReads(lines: seq<string>, prose: seq<string>, resolved: seq<Record>, config: Config, c: nat,
                     firstLine: nat)
    requires RegionLines(lines, prose, resolved, config) && c == |prose| + |ResolvedLines(resolved)|
    requires forall i :: 0 <= i < |resolved| ==> RecordOk(resolved[i])
    requires DistinctIdentities(resolved)
    ensures c <= |lines| && RecordsAt(ParseRecordLine, lines, |prose|, c, firstLine) == Ok(resolved)
  {
    hide RecordOk, ParseRecordLine, PrintRecord, RegionLines, DistinctIdentities;
    ConfigLineAt(lines, prose, resolved, config, c);
    if resolved != [] {
      var m := |prose| + 1;
      forall k | 0 <= k < |resolved|
        ensures ParseRecordLine(lines[m + k]) == Some(resolved[k])
      {
        RecordLineAt(lines, prose, resolved, config, k);
        RecordRoundTrip(resolved[k]);
      }
      RecordsReadBack(ParseRecordLine, lines, m, c, firstLine, {}, resolved);
    }
  }

  lemma ProseReads(lines: seq<string>, n: nat, firstLine: nat)
    requires n <= |lines| && forall i :: 0 <= i < n ==> !ReadsAsRecord(lines[i])
    ensures ProseText(lines, n, firstLine) == Ok(TrimEnd(Join(lines[..n], '\n')))
  {
    FirstIs(lines, 0, n, ReadsAsRecord, n);
  }

  lemma RegionAssembles(lines: seq<string>, firstLine: nat, c: nat, n: nat, r: WhyRegion)
    requires n <= c <= |lines| && First(lines, 0, |lines|, IsConfigMarker) == c &&
      First(lines, 0, c, IsResolvedMarker) == n
    requires ConfigAt(lines, c, firstLine) == Ok(r.config)
    requires RecordsAt(ParseRecordLine, lines, n, c, firstLine) == Ok(r.resolved)
    requires ProseText(lines, n, firstLine) == Ok(r.why)
    ensures ParseWhyRegion(lines, firstLine) == Ok(r)
  {
  }

  lemma RegionPositions(lines: seq<string>, prose: seq<string>, resolved: seq<Record>, config: Config, c: nat)
    requires RegionLines(lines, prose, resolved, config) && c == |prose| + |ResolvedLines(resolved)|
    requires forall i :: 0 <= i < |prose| ==> ProseLine(prose[i])
    requires forall i :: 0 <= i < |resolved| ==> RecordOk(resolved[i])
    ensures c <= |lines| && First(lines, 0, |lines|, IsConfigMarker) == c &&
      First(lines, 0, c, IsResolvedMarker) == |prose|
  {
    ConfigPosition(lines, prose, resolved, config, c);
    ResolvedPosition(lines, prose, resolved, config, c);
  }

  lemma RegionProse(lines: seq<string>, prose: seq<string>, firstLine: nat)
    requires prose <= lines && forall i :: 0 <= i < |prose| ==> ProseLine(prose[i])
    ensures ProseText(lines, |prose|, firstLine) == Ok(TrimEnd(Join(prose, '\n')))
  {
    ProseReads(lines, |prose|, firstLine);
    assert lines[..|prose|] == prose;
  }

  lemma RegionReadBack(lines: seq<string>, prose: seq<string>, resolved: seq<Record>, config: Config, firstLine: nat)
    requires RegionLines(lines, prose, resolved, config)
    requires forall i :: 0 <= i < |prose| ==> ProseLine(prose[i])
    requires forall i :: 0 <= i < |resolved| ==> RecordOk(resolved[i])
    requires DistinctIdentities(resolved)
    ensures ParseWhyRegion(lines, firstLine) == Ok(WhyRegion(TrimEnd(Join(prose, '\n')), resolved, config))
  {
    var c := |prose| + |ResolvedLines(resolved)|;
    RegionPositions(lines, prose, resolved, config, c);
    ConfigReads(lines, prose, resolved, config, c, firstLine);
    RecordsReads(lines, prose, resolved, config, c, firstLine);
    RegionProse(lines, prose, firstLine);
    RegionAssembles(lines, firstLine, c, |prose|, WhyRegion(TrimEnd(Join(prose, '\n')), resolved, config));
  }

  /** The blank line before a section disappears in the final trim. */
  lemma GapTrims(w: string, sections: seq<string>)
    requires w != [] && w[|w| - 1] != '\n'
    ensures TrimEnd(Join(TextLines(w) + Gap(w, sections), '\n')) == TrimEnd(Join(TextLines(w), '\n'))
  {
    var prose := TextLines(w);
    if sections != [] {
      NonEmptyLines(w);
      JoinSnoc(prose, [], '\n');
      assert Join(prose + [[]], '\n') == Join(prose, '\n') + ['\n'];
      TrimEndNewline(Join(prose, '\n'));
    } else {
      assert prose + [] == prose;
    }
  }

  lemma NonEmptyLines(w: string)
    requires w != []
    ensures TextLines(w) != []
  {
  }

  // --- The common part of both directions ---

  lemma ParseByBlocks(input: string, anchors: seq<Anchor>)
    requires var lines := TextLines(SplitBlocks(input).0);
      ParseAnchorsFrom(ReadAnchorLine, lines, 0) == Ok(anchors)
    ensures HasConflictMarkers(TextLines(input)) ==> ParseNormalized(input) == Err(SpanConflict)
    ensures !HasConflictMarkers(TextLines(input)) ==>
      ParseNormalized(input) ==
        WithAnchors(anchors, ParseWhyRegion(TextLines(SplitBlocks(input).1), SplitBlocks(input).2))
  {
    hide SplitBlocks, ParseAnchorsFrom, ParseWhyRegion, HasConflictMarkers, TextLines;
  }

  /** Conflict markers of the printed file are those of its anchors and prose. */
  lemma PrintedMarkers(anchors: seq<Anchor>, more: bool, w: string, sections: seq<string>)
    requires (forall i :: 0 <= i < |anchors| ==> AnchorOk(anchors[i])) && TrimEnd(w) == w
    requires (forall i :: 0 <= i < |sections| ==> SectionLineShape(sections[i]))
    requires !more ==> PrintTail(w, sections) == []
    ensures TextLines(PrintTail(w, sections)) == TextLines(w) + Gap(w, sections) + sections
    ensures HasConflictMarkers(TextLines(PrintHead(anchors, more) + PrintTail(w, sections))) <==>
      HasConflictMarkers(AnchorLines(anchors)) || HasConflictMarkers(TextLines(w))
  {
    SectionsClean(sections);
    assert !HasConflictMarkers(Gap(w, sections));
    hide HasConflictMarkers, PrintHead, PrintTail, TextLines, Gap, AnchorLines, TrimEnd, AnchorOk, SectionLineShape;
    TailLines(w, sections);
    HeadLines(anchors, more, PrintTail(w, sections));
    MarkersConcat(TextLines(w) + Gap(w, sections), sections);
    MarkersConcat(TextLines(w), Gap(w, sections));
  }

  /** What parsing the printed file amounts to, for any prose. */
  lemma ParsePrinted(x: SpanFile, w: string, sections: seq<string>)
    requires PartsOk(x) && w == ReplaceCrLf(x.why) && sections == SectionLines(x.resolved, x.config)
    ensures HasConflictMarkers(AnchorLines(x.anchors)) || HasConflictMarkers(TextLines(w)) ==>
      Parse(Serialize(x)) == Err(SpanConflict)
    ensures !HasConflictMarkers(AnchorLines(x.anchors)) && !HasConflictMarkers(TextLines(w)) ==>
      exists firstLine: nat ::
        Parse(Serialize(x)) ==
          WithAnchors(x.anchors, ParseWhyRegion(TextLines(w) + Gap(w, sections) + sections, firstLine))
  {
    var more := x.why != [] || sections != [];
    var tail := PrintTail(w, sections);
    var input := PrintHead(x.anchors, more) + tail;
    NormalizedText(x, more, sections);
    WhyShape(x.why);
    SectionShapes(x.resolved, x.config);
    PrintedMarkers(x.anchors, more, w, sections);
    SplitPrinted(x.anchors, more, tail);
    hide HasConflictMarkers, PrintHead, PrintTail, TextLines, Gap, AnchorLines, SectionLines, ReplaceCrLf;
    hide ParseNormalized, ParseAnchorsFrom, ParseWhyRegion, Serialize, SplitBlocks, WithAnchors, AnchorOk, RecordOk;
    AnchorsReadBack(x.anchors);
    ParseByBlocks(input, x.anchors);
    ghost var firstLine: nat := SplitBlocks(input).2;
  }

  function WithAnchors(anchors: seq<Anchor>, r: Result<WhyRegion>): Result<SpanFile> {
    if r.Ok? then Ok(SpanFile(anchors, r.value.why, r.value.resolved, r.value.config)) else Err(r.error)
  }

  /** Normalised prose is still end-trimmed, and empty only when it was. */
  lemma WhyShape(why: string)
    requires TrimEnd(why) == why
    ensures TrimEnd(ReplaceCrLf(why)) == ReplaceCrLf(why) && (ReplaceCrLf(why) == [] <==> why == [])
    ensures why != [] ==> ReplaceCrLf(why)[|ReplaceCrLf(why)| - 1] != '\n'
  {
    TrimEndShape(why);
    if why != [] {
      ReplaceEnds(why);
    }
  }

  // --- Necessity: what a surviving file must look like ---

  lemma TextLinesNoBreak(s: string)
    ensures forall i :: 0 <= i < |TextLines(s)| ==> '\n' !in TextLines(s)[i]
  {
    StrLinesShape(s, '\n', '\r');
    assert forall i :: 0 <= i < |TextLines(s)| ==> TextLines(s)[i] in TextLines(s);
  }

  lemma ProseOutput(lines: seq<string>, m: nat, firstLine: nat, why: string)
    requires m <= |lines| && ProseText(lines, m, firstLine) == Ok(why)
    ensures TrimEnd(why) == why
  {
    TrimEndShape(Join(lines[..m], '\n'));
  }

  lemma RegionOutput(lines: seq<string>, firstLine: nat, r: WhyRegion)
    requires forall i :: 0 <= i < |lines| ==> '\n' !in lines[i]
    requires ParseWhyRegion(lines, firstLine) == Ok(r)
    ensures forall i :: 0 <= i < |r.resolved| ==> RecordOk(r.resolved[i])
    ensures DistinctIdentities(r.resolved)
    ensures TrimEnd(r.why) == r.why
  {
    var c := First(lines, 0, |lines|, IsConfigMarker);
    var m := First(lines, 0, c, IsResolvedMarker);
    RecordsAtRead(ParseRecordLine, lines, m, c, firstLine, r.resolved, 0);
    forall i | 0 <= i < |r.resolved|
      ensures RecordOk(r.resolved[i])
    {
      RecordsOutput(lines, m, c, firstLine, r.resolved, i);
    }
    ProseOutput(lines, m, firstLine, r.why);
  }

  /** Whatever the parser accepts has well-formed anchors and records, distinct
      identities and end-trimmed prose. */
  lemma ParseOutput(input: string)
    requires Parse(input).Ok?
    ensures PartsOk(Parse(input).value)
  {
    var blocks := SplitBlocks(ReplaceCrLf(input));
    TextLinesNoBreak(blocks.0);
    TextLinesNoBreak(blocks.1);
    AnchorsOutput(TextLines(blocks.0));
    RegionOutput(TextLines(blocks.1), blocks.2, ParseWhyRegion(TextLines(blocks.1), blocks.2).value);
  }

  lemma {:induction false} JoinPrefixShorter(lines: seq<string>, m: nat)
    requires m < |lines|
    ensures |Join(lines[..m], '\n')| + |lines[m]| <= |Join(lines, '\n')|
  {
    var n := |lines| - 1;
    var front := lines[..n];
    assert lines == front + [lines[n]];
    JoinSnoc(front, lines[n], '\n');
    if m < n {
      JoinPrefixShorter(front, m);
      assert front[..m] == lines[..m];
    }
  }

  /** Prose cut short by a marker cannot come back whole. */
  lemma CutShort(why: string, prose: seq<string>, m: nat)
    requires m < |prose| && prose[m] != [] && |Join(prose, '\n')| <= |why|
    ensures TrimEnd(Join(prose[..m], '\n')) != why
  {
    JoinPrefixShorter(prose, m);
    TrimEndShape(Join(prose[..m], '\n'));
  }

  /** The facts a successful read of the region carries. */
  lemma RegionRead(lines: seq<string>, firstLine: nat, why: string, c: nat, m: nat)
    requires ParseWhyRegion(lines, firstLine).Ok? && ParseWhyRegion(lines, firstLine).value.why == why
    requires c == First(lines, 0, |lines|, IsConfigMarker) && m == First(lines, 0, c, IsResolvedMarker)
    ensures why == TrimEnd(Join(lines[..m], '\n'))
    ensures forall i :: 0 <= i < m ==> ProseLine(lines[i])
    ensures m < |lines| ==> lines[m] != []
  {
    var bad := First(lines, 0, m, ReadsAsRecord);
    assert ProseText(lines, m, firstLine).Ok?;
    assert bad == m;
    forall i | 0 <= i < m
      ensures ProseLine(lines[i])
    {
      assert !ReadsAsRecord(lines[i]) && !IsResolvedMarker(lines[i]) && !IsConfigMarker(lines[i]);
    }
    if m < |lines| && lines[m] == [] {
      BlankIsProse();
    }
  }

  lemma ProseForced(why: string, w: string, sections: seq<string>, lines: seq<string>, firstLine: nat)
    requires w == ReplaceCrLf(why) && TrimEnd(why) == why
    requires lines == TextLines(w) + Gap(w, sections) + sections
    requires ParseWhyRegion(lines, firstLine).Ok? && ParseWhyRegion(lines, firstLine).value.why == why
    ensures forall i :: 0 <= i < |TextLines(w)| ==> ProseLine(TextLines(w)[i])
  {
    hide ProseLine, ParseWhyRegion, ReplaceCrLf, TrimEnd;
    var prose := TextLines(w);
    var c := First(lines, 0, |lines|, IsConfigMarker);
    var m := First(lines, 0, c, IsResolvedMarker);
    RegionRead(lines, firstLine, why, c, m);
    assert forall i :: 0 <= i < |prose| ==> lines[i] == prose[i];
    if m < |prose| {
      assert lines[..m] == prose[..m];
      assert |Join(prose, '\n')| <= |why| by {
        JoinLines(w);
        ReplaceShrinks(why);
      }
      CutShort(why, prose, m);
    }
  }

  /** A carriage return before a line feed is lost, so the prose shrinks. */
  lemma NoPairForced(why: string, w: string, sections: seq<string>)
    requires w == ReplaceCrLf(why) && TrimEnd(why) == why
    requires why == TrimEnd(Join(TextLines(w) + Gap(w, sections), '\n'))
    ensures NoPair(why, '\r', '\n')
  {
    WhyShape(why);
    if why != [] {
      GapTrims(w, sections);
      TrimEndShape(Join(TextLines(w), '\n'));
      JoinLines(w);
      ReplaceShrinks(why);
    }
  }

  lemma RoundTripsWellFormed(x: SpanFile)
    requires Parse(Serialize(x)) == Ok(x)
    ensures WellFormed(x)
  {
    ParseOutput(Serialize(x));
    var w, sections := ReplaceCrLf(x.why), SectionLines(x.resolved, x.config);
    var prose := TextLines(w) + Gap(w, sections);
    ParsePrinted(x, w, sections);
    var firstLine: nat :| Parse(Serialize(x)) == WithAnchors(x.anchors, ParseWhyRegion(prose + sections, firstLine));
    ProseForced(x.why, w, sections, prose + sections, firstLine);
    BlankIsProse();
    RegionReadBack(prose + sections, prose, x.resolved, x.config, firstLine);
    NoPairForced(x.why, w, sections);
    ReplaceNothing(x.why);
  }

  /** Printed prose, with the gap after it, trims back to itself. */
  lemma ProseJoins(w: string, sections: seq<string>)
    requires TrimEnd(w) == w && NoPair(w, '\r', '\n')
    ensures TrimEnd(Join(TextLines(w) + Gap(w, sections), '\n')) == w
  {
    if w == [] {
      assert TextLines(w) + Gap(w, sections) == [];
    } else {
      TrimEndShape(w);
      GapTrims(w, sections);
      JoinLines(w);
    }
  }

  lemma ProseLinesOk(x: SpanFile, sections: seq<string>)
    requires WellFormed(x)
    ensures forall i :: 0 <= i < |TextLines(x.why) + Gap(x.why, sections)| ==>
      ProseLine((TextLines(x.why) + Gap(x.why, sections))[i])
  {
    BlankIsProse();
  }

  lemma PrintedRegionReads(x: SpanFile, sections: seq<string>, firstLine: nat)
    requires WellFormed(x) && sections == SectionLines(x.resolved, x.config)
    ensures ParseWhyRegion(TextLines(x.why) + Gap(x.why, sections) + sections, firstLine) ==
      Ok(WhyRegion(x.why, x.resolved, x.config))
  {
    var prose := TextLines(x.why) + Gap(x.why, sections);
    ProseLinesOk(x, sections);
    RegionReadBack(prose + sections, prose, x.resolved, x.config, firstLine);
    ProseJoins(x.why, sections);
  }

  lemma WellFormedRoundTrips(x: SpanFile)
    requires WellFormed(x)
    ensures Parse(Serialize(x)) == Ok(x)
  {
    var sections := SectionLines(x.resolved, x.config);
    ReplaceNothing(x.why);
    ParsePrinted(x, x.why, sections);
    var firstLine: nat :| Parse(Serialize(x)) ==
      WithAnchors(x.anchors, ParseWhyRegion(TextLines(x.why) + Gap(x.why, sections) + sections, firstLine));
    PrintedRegionReads(x, sections, firstLine);
  }

  /** Printing then parsing gives back exactly the well-formed files. */
  lemma RoundTrip(x: SpanFile)
    ensures Parse(Serialize(x)) == Ok(x) <==> WellFormed(x)
  {
    if WellFormed(x) {
      WellFormedRoundTrips(x);
    }
    if Parse(Serialize(x)) == Ok(x) {
      RoundTripsWellFormed(x);
    }
  }

  /** For a file that came out of the parser only its prose and the conflict
      markers among its printed lines remain to be checked. */
  lemma ParsedRoundTrip(input: string, x: SpanFile)
    requires Parse(input) == Ok(x)
    ensures Parse(Serialize(x)) == Ok(x) <==>
      && NoPair(x.why, '\r', '\n')
      && (forall i :: 0 <= i < |TextLines(x.why)| ==> ProseLine(TextLines(x.why)[i]))
      && !HasConflictMarkers(AnchorLines(x.anchors)) && !HasConflictMarkers(TextLines(x.why))
  {
    ParseOutput(input);
    RoundTrip(x);
  }

  lemma TrailingSpaceMarker(line: string)
    requires line == RESOLVED + " "
    ensures Trim(line) == RESOLVED && TrimEnd(line) == RESOLVED && ProseLine(line)
  {
    assert line[..|RESOLVED|] == RESOLVED && line[|RESOLVED|] == ' ';
    assert TrimStart(line) == line;
    assert TrimEnd(line) == TrimEnd(RESOLVED);
    assert ' ' !in RESOLVED;
    ResolvedMarkerNotConfig();
    TrimTight(RESOLVED);
  }

  lemma LoneInput(line: string)
    requires line != [] && '\n' !in line && '\r' !in line
    ensures ReplaceCrLf([] + "\n\n" + line) == [] + "\n\n" + line
    ensures TextLines([] + "\n\n" + line) == [[], [], line]
  {
    var input := [] + "\n\n" + line;
    assert ReplaceCrLf(input) == input by {
      assert forall i :: 0 <= i < |line| ==> line[i] in line;
      ReplaceNothing(input);
    }
    assert input == [] + ['\n'] + ([] + ['\n'] + line);
    StrLinesCons([], [] + ['\n'] + line, '\n', '\r');
    StrLinesCons([], line, '\n', '\r');
    OneLine(line);
  }

  /** A single prose line below two newlines is the whole file. */
  lemma LoneProseLine(line: string)
    requires line != [] && '\n' !in line && '\r' !in line && ProseLine(line) && !IsConflictMarkerLine(line)
    ensures Parse([] + "\n\n" + line) == Ok(SpanFile([], TrimEnd(line), [], DEFAULT_CONFIG))
  {
    hide ProseLine, IsConflictMarkerLine, HasConflictMarkers, SplitBlocks, ParseNormalized, ParseWhyRegion, ReplaceCrLf;
    hide ParseAnchorsFrom, TextLines;
    var input := [] + "\n\n" + line;
    LoneInput(line);
    SplitAtBlank([], line);
    NothingBefore(line);
    ParseByBlocks(input, []);
    LoneRegion(line, SplitBlocks(input).2);
  }

  lemma NothingBefore(line: string)
    requires !IsConflictMarkerLine(line)
    ensures !HasConflictMarkers([[], [], line])
    ensures ParseAnchorsFrom(ReadAnchorLine, TextLines([]), 0) == Ok([])
  {
  }

  lemma LoneRegion(line: string, firstLine: nat)
    requires line != [] && '\n' !in line && ProseLine(line)
    ensures ParseWhyRegion(TextLines(line), firstLine) == Ok(WhyRegion(TrimEnd(line), [], DEFAULT_CONFIG))
  {
    OneLine(line);
    assert [line] + SectionLines([], DEFAULT_CONFIG) == [line];
    RegionReadBack([line], [line], [], DEFAULT_CONFIG, firstLine);
  }

  lemma MarkerProse(x: SpanFile)
    requires x.why == RESOLVED
    ensures !WellFormed(x)
  {
    assert '\n' !in RESOLVED;
    OneLine(RESOLVED);
    assert !ProseLine(TextLines(x.why)[0]);
  }

  /** Accepted input whose printed form is not accepted back: the end-trim turns
      a last prose line into a section marker. */
  lemma TrimmedIntoMarker(line: string, x: SpanFile)
    requires line == RESOLVED + " " && x == SpanFile([], RESOLVED, [], DEFAULT_CONFIG)
    ensures Parse([] + "\n\n" + line) == Ok(x) && Parse(Serialize(x)) != Ok(x)
  {
    TrailingSpaceMarker(line);
    LoneProseLine(line);
    MarkerProse(x);
    RoundTrip(x);
  }

  /** A CRLF file parses to exactly what its LF twin parses to, errors included. */
  lemma CrlfTwinParses(text: string)
    requires '\r' !in text
    ensures Parse(CrlfTwin(text, '\n', '\r')) == Parse(text)
  {
    ReplaceTwin(text);
    assert forall i :: 0 <= i < |text| ==> text[i] in text;
    ReplaceNothing(text);
  }

  lemma {:induction false} ReplaceTwin(text: string)
    requires '\r' !in text
    ensures ReplaceCrLf(CrlfTwin(text, '\n', '\r')) == text
  {
    if text != [] {
      var twin := CrlfTwin(text[1..], '\n', '\r');
      ReplaceTwin(text[1..]);
      if text[0] == '\n' {
        assert (['\r', '\n'] + twin)[2..] == twin;
      } else {
        assert ([text[0]] + twin)[1..] == twin;
        assert text[0] != '\r';
      }
    }
  }
}
