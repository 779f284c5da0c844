/** Which line an invalid span file is refused at. */
module SpanErrors {
  import opened Text
  import opened SpanText
  import opened SpanFormat
  import opened SpanGrammar
  import opened SpanConflicts
  import opened SpanConfig
  import opened SpanDocument

  ghost predicate AnchorsFine(lines: seq<string>) { exists anchors :: SpellsAnchors(lines, anchors) }

  ghost predicate RecordsFine(lines: seq<string>) { exists records :: SpellsRecords(lines, records) }

  ghost predicate ConfigFine(lines: seq<string>) { exists config :: SpellsConfig(lines, config) }

  ghost predicate RecordLike(line: string) { exists record :: SpellsRecord(line, record) }

  // --- Each block is refused at the first line that spoils it ---

  ghost predicate AnchorsSpoiled(lines: seq<string>, k: int) {
    0 <= k < |lines| && AnchorsFine(lines[..k]) && !AnchorsFine(lines[..k + 1])
  }

  ghost predicate RecordsSpoiled(lines: seq<string>, k: int) {
    0 <= k < |lines| && RecordsFine(lines[..k]) && !RecordsFine(lines[..k + 1])
  }

  ghost predicate ConfigSpoiled(lines: seq<string>, k: int) {
    0 <= k < |lines| && ConfigFine(lines[..k]) && !ConfigFine(lines[..k + 1])
  }

  predicate AnchorsRead(read: string -> AnchorLine, lines: seq<string>, i: nat)
    requires i <= |lines|
  {
    ParseAnchorsFrom(read, lines, i).Ok?
  }

  lemma AnchorsStep(read: string -> AnchorLine, lines: seq<string>, i: nat)
    requires i <= |lines|
    ensures AnchorsRead(read, lines, i) <==>
      i == |lines| || (read(lines[i]) != Malformed && AnchorsRead(read, lines, i + 1))
  {
  }

  lemma {:induction false} AnchorsStop(read: string -> AnchorLine, lines: seq<string>, i: nat, n: nat)
    requires i <= |lines|
    ensures ParseAnchorsFrom(read, lines, i) == Err(InvalidSpanFile(n)) <==>
      i < n <= |lines| && AnchorsRead(read, lines[..n - 1], i) && !AnchorsRead(read, lines[..n], i)
    decreases |lines| - i
  {
    hide AnchorsRead;
    if i < n <= |lines| {
      AnchorsStep(read, lines[..n - 1], i);
      AnchorsStep(read, lines[..n], i);
      AnchorsStep(read, lines[..n], i + 1);
    }
    if i < |lines| {
      AnchorsStop(read, lines, i + 1, n);
    }
  }

  predicate RecordsRead(lines: seq<string>, i: nat, n: nat, seen: set<Identity>)
    requires i <= n <= |lines|
  {
    ParseRecordsFrom(ParseRecordLine, lines, i, n, 0, seen).Ok?
  }

  lemma RecordsStep(lines: seq<string>, i: nat, n: nat, seen: set<Identity>)
    requires i <= n <= |lines|
    ensures RecordsRead(lines, i, n, seen) <==>
      i == n ||
      var r := ReadRecordLine(ParseRecordLine, lines[i], seen);
      r.Some? && RecordsRead(lines, i + 1, n, seen + {RecordIdentity(r.value)})
  {
    hide ParseRecordLine, RecordIdentity;
  }

  lemma {:induction false} RecordsStop(lines: seq<string>, i: nat, c: nat, firstLine: nat, seen: set<Identity>, n: nat)
    requires i <= c <= |lines|
    ensures ParseRecordsFrom(ParseRecordLine, lines, i, c, firstLine, seen) == Err(InvalidSpanFile(n)) <==>
      && firstLine + i <= n < firstLine + c && RecordsRead(lines, i, n - firstLine, seen)
      && !RecordsRead(lines, i, n - firstLine + 1, seen)
    decreases c - i
  {
    hide ParseRecordLine, RecordIdentity, RecordsRead;
    if firstLine + i <= n < firstLine + c {
      RecordsStep(lines, i, n - firstLine, seen);
      RecordsStep(lines, i, n - firstLine + 1, seen);
    }
    if i < c {
      var r := ReadRecordLine(ParseRecordLine, lines[i], seen);
      if r.Some? {
        if n == firstLine + i {
          RecordsStep(lines, i + 1, i + 1, seen + {RecordIdentity(r.value)});
        }
        RecordsStop(lines, i + 1, c, firstLine, seen + {RecordIdentity(r.value)}, n);
      }
    }
  }

  predicate ConfigRead(lines: seq<string>, i: nat, state: ConfigState)
    requires i <= |lines|
  {
    ParseConfigFrom(lines, i, 0, state).Ok?
  }

  lemma ConfigReadStep(lines: seq<string>, i: nat, state: ConfigState)
    requires i <= |lines|
    ensures ConfigRead(lines, i, state) <==>
      i == |lines| ||
      var next := ConfigStep(state, lines[i]);
      next.Some? && ConfigRead(lines, i + 1, next.value)
  {
    hide ConfigStep;
  }

  lemma {:induction false} ConfigStop(lines: seq<string>, i: nat, firstLine: nat, state: ConfigState, n: nat)
    requires i <= |lines|
    ensures ParseConfigFrom(lines, i, firstLine, state) == Err(InvalidSpanFile(n)) <==>
      && firstLine + i <= n < firstLine + |lines| && ConfigRead(lines[..n - firstLine], i, state)
      && !ConfigRead(lines[..n - firstLine + 1], i, state)
    decreases |lines| - i
  {
    hide ConfigStep, ConfigRead;
    if firstLine + i <= n < firstLine + |lines| {
      ConfigReadStep(lines[..n - firstLine], i, state);
      ConfigReadStep(lines[..n - firstLine + 1], i, state);
    }
    if i < |lines| {
      var next := ConfigStep(state, lines[i]);
      if next.Some? {
        if n == firstLine + i {
          ConfigReadStep(lines[..i + 1], i + 1, next.value);
        }
        ConfigStop(lines, i + 1, firstLine, next.value, n);
      }
    }
  }

  lemma AnchorsReadFine(lines: seq<string>)
    ensures AnchorsRead(ReadAnchorLine, lines, 0) <==> AnchorsFine(lines)
  {
    hide ReadAnchorLine, SpellsAnchors;
    assert lines[0..] == lines;
    if anchors :| SpellsAnchors(lines, anchors) {
      AnchorsExactly(lines, 0, anchors);
    }
    if AnchorsRead(ReadAnchorLine, lines, 0) {
      AnchorsExactly(lines, 0, ParseAnchorsFrom(ReadAnchorLine, lines, 0).value);
    }
  }

  lemma AnchorsErr(lines: seq<string>, n: nat)
    ensures ParseAnchorsFrom(ReadAnchorLine, lines, 0) == Err(InvalidSpanFile(n)) <==> AnchorsSpoiled(lines, n - 1)
  {
    hide ReadAnchorLine, AnchorsFine, ParseAnchorsFrom, AnchorsRead;
    AnchorsStop(ReadAnchorLine, lines, 0, n);
    if 0 < n <= |lines| {
      AnchorsReadFine(lines[..n - 1]);
      AnchorsReadFine(lines[..n]);
    }
  }

  lemma RecordsReadFine(lines: seq<string>, i: nat, n: nat)
    requires i <= n <= |lines|
    ensures RecordsRead(lines, i, n, {}) <==> RecordsFine(lines[i..n])
  {
    hide ParseRecordLine, SpellsRecords;
    if records :| SpellsRecords(lines[i..n], records) {
      RecordsExactly(lines, i, n, 0, {}, records);
    }
    if RecordsRead(lines, i, n, {}) {
      RecordsExactly(lines, i, n, 0, {}, ParseRecordsFrom(ParseRecordLine, lines, i, n, 0, {}).value);
    }
  }

  lemma RecordsErr(lines: seq<string>, m: nat, c: nat, firstLine: nat, n: nat)
    requires m <= c <= |lines|
    ensures RecordsAt(ParseRecordLine, lines, m, c, firstLine) == Err(InvalidSpanFile(n)) <==>
      m < c && RecordsSpoiled(lines[m + 1..c], n - firstLine - m - 1)
  {
    hide ParseRecordLine, RecordsFine, ParseRecordsFrom, RecordsRead;
    if m < c {
      var k := n - firstLine - m - 1;
      RecordsStop(lines, m + 1, c, firstLine, {}, n);
      if 0 <= k < c - m - 1 {
        RecordsReadFine(lines, m + 1, n - firstLine);
        RecordsReadFine(lines, m + 1, n - firstLine + 1);
        assert lines[m + 1..c][..k] == lines[m + 1..n - firstLine];
        assert lines[m + 1..c][..k + 1] == lines[m + 1..n - firstLine + 1];
      }
    }
  }

  lemma ConfigReadFine(lines: seq<string>, i: nat)
    requires i <= |lines|
    ensures ConfigRead(lines, i, START) <==> ConfigFine(lines[i..])
  {
    hide ConfigStep, SpellsConfig, Leads;
    if config :| SpellsConfig(lines[i..], config) {
      BlockLeads(lines, i, 0, START, config);
      LeadsSpells(lines[i..], config);
    }
    if ConfigRead(lines, i, START) {
      var config := ParseConfigFrom(lines, i, 0, START).value;
      BlockLeads(lines, i, 0, START, config);
      LeadsSpells(lines[i..], config);
    }
  }

  lemma ConfigErr(lines: seq<string>, c: nat, firstLine: nat, n: nat)
    requires c <= |lines|
    ensures ConfigAt(lines, c, firstLine) == Err(InvalidSpanFile(n)) <==>
      c < |lines| && ConfigSpoiled(lines[c + 1..], n - firstLine - c - 1)
  {
    hide ConfigFine, ParseConfigFrom, ConfigRead;
    if c < |lines| {
      var k := n - firstLine - c - 1;
      ConfigStop(lines, c + 1, firstLine, START, n);
      if 0 <= k < |lines| - c - 1 {
        ConfigReadFine(lines[..n - firstLine], c + 1);
        ConfigReadFine(lines[..n - firstLine + 1], c + 1);
        assert lines[c + 1..][..k] == lines[..n - firstLine][c + 1..];
        assert lines[c + 1..][..k + 1] == lines[..n - firstLine + 1][c + 1..];
      }
    }
  }

  /** The first line that reads as a record. */
  ghost predicate ProseSpoiled(lines: seq<string>, k: int) {
    0 <= k < |lines| && RecordLike(lines[k]) && forall j :: 0 <= j < k ==> !RecordLike(lines[j])
  }

  lemma ProseErr(lines: seq<string>, m: nat, firstLine: nat, n: nat)
    requires m <= |lines|
    ensures ProseText(lines, m, firstLine) == Err(InvalidSpanFile(n)) <==> ProseSpoiled(lines[..m], n - firstLine)
  {
    hide ReadsAsRecord, RecordLike, TrimEnd, Join;
    forall line
      ensures ReadsAsRecord(line) <==> RecordLike(line)
    {
      LikeExactly(line);
    }
  }

  lemma LikeExactly(line: string)
    ensures ReadsAsRecord(line) <==> RecordLike(line)
  {
    ReadsAsRecordExactly(line);
  }

  // --- The text behind the separator ---

  ghost predicate ConfigPartFine(lines: seq<string>, c: nat) {
    c < |lines| ==> ConfigFine(lines[c + 1..])
  }

  ghost predicate RecordsPartFine(lines: seq<string>, m: nat, c: nat) {
    m < c <= |lines| ==> RecordsFine(lines[m + 1..c])
  }

  /** Line `k` is what spoils the block, the configuration being looked at first, the
      records next and the prose last. */
  ghost predicate SpoiledBlock(lines: seq<string>, k: int, m: nat, c: nat)
    requires m <= c <= |lines|
  {
    || (c < |lines| && ConfigSpoiled(lines[c + 1..], k - c - 1))
    || (ConfigPartFine(lines, c) && m < c && RecordsSpoiled(lines[m + 1..c], k - m - 1))
    || (ConfigPartFine(lines, c) && RecordsPartFine(lines, m, c) && ProseSpoiled(lines[..m], k))
  }

  ghost predicate SpoiledParts(lines: seq<string>, k: int, m: nat, c: nat) {
    ConfigMarkAt(lines, c) && ResolvedMarkAt(lines, c, m) && SpoiledBlock(lines, k, m, c)
  }

  ghost predicate RegionSpoiled(lines: seq<string>, k: int) { exists m: nat, c: nat :: SpoiledParts(lines, k, m, c) }

  lemma RegionErr(lines: seq<string>, firstLine: nat, m: nat, c: nat, e: Error)
    requires c == SpanFormat.First(lines, 0, |lines|, IsConfigMarker)
    requires m == SpanFormat.First(lines, 0, c, IsResolvedMarker)
    ensures ParseWhyRegion(lines, firstLine) == Err(e) <==>
      var config, records := ConfigAt(lines, c, firstLine), RecordsAt(ParseRecordLine, lines, m, c, firstLine);
      || config == Err(e) || (config.Ok? && records == Err(e))
      || (config.Ok? && records.Ok? && ProseText(lines, m, firstLine) == Err(e))
  {
    hide ConfigAt, RecordsAt, ProseText, SpanFormat.First;
  }

  lemma ConfigAtFine(lines: seq<string>, c: nat, firstLine: nat)
    requires c <= |lines|
    ensures ConfigAt(lines, c, firstLine).Ok? <==> ConfigPartFine(lines, c)
  {
    hide ConfigAt, SpellsConfig;
    var r, block := ConfigAt(lines, c, firstLine), if c < |lines| then lines[c + 1..] else [];
    if r.Ok? {
      ConfigAtExactly(lines, c, firstLine, r.value);
    }
    ConfigAtExactly(lines, c, firstLine, Config(SameCommit, false, false));
    if config :| SpellsConfig(block, config) {
      ConfigAtExactly(lines, c, firstLine, config);
    }
  }

  lemma RecordsAtFine(lines: seq<string>, m: nat, c: nat, firstLine: nat)
    requires m <= c <= |lines|
    ensures RecordsAt(ParseRecordLine, lines, m, c, firstLine).Ok? <==> RecordsPartFine(lines, m, c)
  {
    hide RecordsAt, SpellsRecords;
    var r, block := RecordsAt(ParseRecordLine, lines, m, c, firstLine), if m < c then lines[m + 1..c] else [];
    if r.Ok? {
      RecordsAtExactly(lines, m, c, firstLine, r.value);
    }
    RecordsAtExactly(lines, m, c, firstLine, []);
    if records :| SpellsRecords(block, records) {
      RecordsAtExactly(lines, m, c, firstLine, records);
    }
  }

  lemma BlockErr(lines: seq<string>, firstLine: nat, n: nat, m: nat, c: nat)
    requires c == SpanFormat.First(lines, 0, |lines|, IsConfigMarker)
    requires m == SpanFormat.First(lines, 0, c, IsResolvedMarker)
    ensures ParseWhyRegion(lines, firstLine) == Err(InvalidSpanFile(n)) <==>
      SpoiledBlock(lines, n - firstLine, m, c)
  {
    hide ParseWhyRegion, ConfigAt, RecordsAt, ProseText, SpanFormat.First, IsConfigMarker, IsResolvedMarker;
    hide ConfigPartFine, RecordsPartFine, ConfigSpoiled, RecordsSpoiled, ProseSpoiled, ParseRecordLine;
    var e := InvalidSpanFile(n);
    RegionErr(lines, firstLine, m, c, e);
    ConfigErr(lines, c, firstLine, n);
    RecordsErr(lines, m, c, firstLine, n);
    ProseErr(lines, m, firstLine, n);
    ConfigAtFine(lines, c, firstLine);
    RecordsAtFine(lines, m, c, firstLine);
  }

  lemma PartsErr(lines: seq<string>, firstLine: nat, n: nat, m: nat, c: nat)
    requires c == SpanFormat.First(lines, 0, |lines|, IsConfigMarker)
    requires m == SpanFormat.First(lines, 0, c, IsResolvedMarker)
    ensures ParseWhyRegion(lines, firstLine) == Err(InvalidSpanFile(n)) <==> SpoiledParts(lines, n - firstLine, m, c)
  {
    hide ParseWhyRegion, SpanFormat.First, ConfigMarkAt, ResolvedMarkAt, SpoiledBlock;
    BlockErr(lines, firstLine, n, m, c);
    ConfigMarkExactly(lines, c);
    ResolvedMarkExactly(lines, c, m);
  }

  lemma RegionErrExactly(lines: seq<string>, firstLine: nat, n: nat)
    ensures ParseWhyRegion(lines, firstLine) == Err(InvalidSpanFile(n)) <==> RegionSpoiled(lines, n - firstLine)
  {
    hide ParseWhyRegion, SpanFormat.First, SpoiledParts;
    var c := SpanFormat.First(lines, 0, |lines|, IsConfigMarker);
    var m := SpanFormat.First(lines, 0, c, IsResolvedMarker);
    PartsErr(lines, firstLine, n, m, c);
    var line := n - firstLine;
    if j: nat, k: nat :| SpoiledParts(lines, line, j, k) {
      SpoiledMarks(lines, line, j, k);
    }
  }

  lemma SpoiledMarks(lines: seq<string>, k: int, m: nat, c: nat)
    requires SpoiledParts(lines, k, m, c)
    ensures c == SpanFormat.First(lines, 0, |lines|, IsConfigMarker)
    ensures m == SpanFormat.First(lines, 0, c, IsResolvedMarker)
  {
    hide SpanFormat.First, SpoiledBlock, ConfigMarkAt;
    ConfigMarkExactly(lines, c);
    ResolvedMarkExactly(lines, c, m);
  }

  // --- The file ---

  /** Line `n` of the text, counted from one: in the anchor block, or in what follows
      the separator, whose first line comes after as many line feeds as precede it. */
  ghost predicate SpoiledText(text: string, n: nat, head: string, tail: string) {
    && Separates(text, head, tail)
    && var anchors := TextLines(head);
       || AnchorsSpoiled(anchors, n - 1)
       || (AnchorsFine(anchors) && RegionSpoiled(TextLines(tail), n - 1 - Count(text[..|text| - |tail|], '\n')))
  }

  lemma NormalizedErr(text: string, n: nat)
    ensures var blocks := SplitBlocks(text);
      var anchors := ParseAnchorsFrom(ReadAnchorLine, TextLines(blocks.0), 0);
      ParseNormalized(text) == Err(InvalidSpanFile(n)) <==>
        && !HasConflictMarkers(TextLines(text))
        && (anchors == Err(InvalidSpanFile(n)) ||
            (anchors.Ok? && ParseWhyRegion(TextLines(blocks.1), blocks.2) == Err(InvalidSpanFile(n))))
  {
    hide SplitBlocks, ParseAnchorsFrom, ParseWhyRegion, HasConflictMarkers, TextLines;
  }

  /** The line the parser takes for the first behind the separator. */
  lemma TailStarts(text: string)
    ensures var blocks := SplitBlocks(text);
      blocks.1 == [] || blocks.2 == Count(text[..|text| - |blocks.1|], '\n') + 1
  {
    var k := FindPair(text, 0, '\n', '\n');
    if k < |text| {
      assert text[..k + 2] == text[..k] + "\n\n";
      CountConcat(text[..k], "\n\n", '\n');
      assert Count("\n\n"[1..], '\n') == 1;
    } else if text != [] && text[0] == '\n' {
      OneLeadingNewline(text);
      assert text[..1] == "\n";
    }
  }

  lemma {:induction false} CountConcat(s: string, t: string, c: char)
    ensures Count(s + t, c) == Count(s, c) + Count(t, c)
  {
    if s == [] {
      assert s + t == t;
    } else {
      assert (s + t)[1..] == s[1..] + t;
      CountConcat(s[1..], t, c);
    }
  }

  lemma NothingSpoiled(k: int)
    ensures !RegionSpoiled([], k)
  {
  }

  lemma NormalizedErrExactly(text: string, n: nat)
    ensures ParseNormalized(text) == Err(InvalidSpanFile(n)) <==>
      !HasConflictMarkers(TextLines(text)) && exists head, tail :: SpoiledText(text, n, head, tail)
  {
    hide SplitBlocks, ParseAnchorsFrom, ParseWhyRegion, HasConflictMarkers, ParseNormalized, Separates, TextLines;
    hide AnchorsSpoiled, AnchorsFine, RegionSpoiled, AnchorsRead;
    var blocks := SplitBlocks(text);
    SeparatesExactly(text, blocks.0, blocks.1);
    BlocksErr(text, n);
    if ParseNormalized(text) == Err(InvalidSpanFile(n)) {
      assert SpoiledText(text, n, blocks.0, blocks.1);
    }
    if head, tail :| SpoiledText(text, n, head, tail) {
      SeparatesExactly(text, head, tail);
    }
  }

  lemma BlocksErr(text: string, n: nat)
    ensures ParseNormalized(text) == Err(InvalidSpanFile(n)) <==>
      && !HasConflictMarkers(TextLines(text))
      && SpoiledText(text, n, SplitBlocks(text).0, SplitBlocks(text).1)
  {
    hide SplitBlocks, ParseAnchorsFrom, ParseWhyRegion, HasConflictMarkers, ParseNormalized, Separates, TextLines;
    hide AnchorsSpoiled, AnchorsFine, RegionSpoiled;
    var blocks := SplitBlocks(text);
    NormalizedErr(text, n);
    SeparatesExactly(text, blocks.0, blocks.1);
    AnchorsErr(TextLines(blocks.0), n);
    AnchorsReadFine(TextLines(blocks.0));
    RegionErrExactly(TextLines(blocks.1), blocks.2, n);
    TailStarts(text);
    if blocks.1 == [] {
      NoLines();
      NothingSpoiled(n - blocks.2);
      NothingSpoiled(n - 1 - Count(text[..|text| - |blocks.1|], '\n'));
    }
  }

  lemma NoLines()
    ensures TextLines([]) == []
  {
  }

  /** A text is refused at line `n` exactly when no line of it is a conflict mark and
      that line is the first to spoil it. */
  lemma InvalidExactly(source: string, n: nat)
    ensures Parse(source) == Err(InvalidSpanFile(n)) <==>
      && (forall line :: line in Fields(source, '\n') ==> !Marked(line))
      && exists head, tail :: SpoiledText(ReplaceCrLf(source), n, head, tail)
  {
    hide ParseNormalized, ReplaceCrLf, HasConflictMarkers, Marked, TextLines, SpoiledText, Fields;
    UnmarkedExactly(source);
    NormalizedErrExactly(ReplaceCrLf(source), n);
  }
}
