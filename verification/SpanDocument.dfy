/** The grammar of a whole span file, and that the parser accepts exactly it. */
module SpanDocument {
  import opened Text
  import opened SpanText
  import opened SpanFormat
  import opened SpanGrammar
  import opened SpanConflicts
  import opened SpanConfig

  // --- The anchor block ---

  ghost predicate SpellsAnchorLine(raw: string, a: Anchor) {
    exists line :: line != [] && Strips(raw, line) && SpellsAnchor(line, a)
  }

  /** One anchor a line, with blank lines anywhere. */
  ghost predicate SpellsAnchors(lines: seq<string>, anchors: seq<Anchor>) {
    if lines == [] then anchors == []
    else
      || (AllBlank(lines[0]) && SpellsAnchors(lines[1..], anchors))
      || (anchors != [] && SpellsAnchorLine(lines[0], anchors[0]) && SpellsAnchors(lines[1..], anchors[1..]))
  }

  lemma AnchorLineExactly(raw: string, a: Anchor)
    ensures ReadAnchorLine(raw) == Good(a) <==> SpellsAnchorLine(raw, a)
    ensures ReadAnchorLine(raw) == Blank <==> AllBlank(raw)
  {
    hide Trim, Strips, ParseAnchorLine, SpellsAnchor, AllBlank;
    AnchorExactly(Trim(raw), a);
    StripsNothing(raw);
    TrimStrips(raw, []);
    TrimStrips(raw, Trim(raw));
    if line :| line != [] && Strips(raw, line) && SpellsAnchor(line, a) {
      TrimStrips(raw, line);
    }
  }

  lemma {:induction false} AnchorsExactly(lines: seq<string>, i: nat, anchors: seq<Anchor>)
    requires i <= |lines|
    ensures ParseAnchorsFrom(ReadAnchorLine, lines, i) == Ok(anchors) <==> SpellsAnchors(lines[i..], anchors)
    decreases |lines| - i
  {
    hide ReadAnchorLine, SpellsAnchorLine, AllBlank;
    if i < |lines| {
      assert lines[i..][0] == lines[i] && lines[i..][1..] == lines[i + 1..];
      forall a
        ensures ReadAnchorLine(lines[i]) == Good(a) <==> SpellsAnchorLine(lines[i], a)
        ensures ReadAnchorLine(lines[i]) == Blank <==> AllBlank(lines[i])
      {
        AnchorLineExactly(lines[i], a);
      }
      AnchorLineExactly(lines[i], Anchor([], 0, 0, [], []));
      AnchorsExactly(lines, i + 1, anchors);
      if anchors != [] {
        AnchorsExactly(lines, i + 1, anchors[1..]);
        assert anchors == [anchors[0]] + anchors[1..];
      }
    }
  }

  // --- The [resolved] block ---

  ghost predicate SpellsEach(lines: seq<string>, records: seq<Record>) {
    |records| == |lines| && forall i :: 0 <= i < |lines| ==> SpellsRecord(lines[i], records[i])
  }

  predicate Unrepeated(records: seq<Record>) {
    forall i, j :: 0 <= i < j < |records| ==> RecordIdentity(records[i]) != RecordIdentity(records[j])
  }

  predicate Outside(records: seq<Record>, seen: set<Identity>) {
    forall i :: 0 <= i < |records| ==> RecordIdentity(records[i]) !in seen
  }

  /** One record a line, no identity twice. */
  ghost predicate SpellsRecords(lines: seq<string>, records: seq<Record>) {
    SpellsEach(lines, records) && Unrepeated(records)
  }

  ghost predicate SpellsFurther(lines: seq<string>, records: seq<Record>, seen: set<Identity>) {
    SpellsRecords(lines, records) && Outside(records, seen)
  }

  lemma EachCons(raw: string, rest: seq<string>, r: Record, more: seq<Record>)
    ensures SpellsEach([raw] + rest, [r] + more) <==> SpellsRecord(raw, r) && SpellsEach(rest, more)
  {
    hide SpellsRecord;
    var lines, records := [raw] + rest, [r] + more;
    assert lines[0] == raw && records[0] == r;
    assert forall i :: 0 <= i < |rest| ==> lines[i + 1] == rest[i];
    assert forall i :: 0 <= i < |more| ==> records[i + 1] == more[i];
  }

  lemma UnrepeatedCons(r: Record, more: seq<Record>)
    ensures Unrepeated([r] + more) <==> Unrepeated(more) && Outside(more, {RecordIdentity(r)})
  {
    hide RecordIdentity;
    var records := [r] + more;
    assert records[0] == r && forall i :: 0 <= i < |more| ==> records[i + 1] == more[i];
    if Unrepeated(records) {
      forall i, j | 0 <= i < j < |more|
        ensures RecordIdentity(more[i]) != RecordIdentity(more[j])
      {
        assert RecordIdentity(records[i + 1]) != RecordIdentity(records[j + 1]);
      }
      forall i | 0 <= i < |more|
        ensures RecordIdentity(more[i]) !in {RecordIdentity(r)}
      {
        assert RecordIdentity(records[0]) != RecordIdentity(records[i + 1]);
      }
    }
  }

  lemma OutsideCons(r: Record, more: seq<Record>, seen: set<Identity>)
    ensures Outside([r] + more, seen) <==> RecordIdentity(r) !in seen && Outside(more, seen)
    ensures Outside(more, seen + {RecordIdentity(r)}) <==> Outside(more, seen) && Outside(more, {RecordIdentity(r)})
  {
    hide RecordIdentity;
    var records := [r] + more;
    assert records[0] == r && forall i :: 0 <= i < |more| ==> records[i + 1] == more[i];
  }

  lemma FurtherCons(raw: string, rest: seq<string>, r: Record, more: seq<Record>, seen: set<Identity>)
    ensures SpellsFurther([raw] + rest, [r] + more, seen) <==>
      && SpellsRecord(raw, r) && RecordIdentity(r) !in seen
      && SpellsFurther(rest, more, seen + {RecordIdentity(r)})
  {
    hide SpellsEach, Unrepeated, Outside, RecordIdentity, SpellsRecord;
    EachCons(raw, rest, r, more);
    UnrepeatedCons(r, more);
    OutsideCons(r, more, seen);
  }

  lemma {:induction false} RecordsExactly(lines: seq<string>, i: nat, n: nat, firstLine: nat, seen: set<Identity>,
                                          records: seq<Record>)
    requires i <= n <= |lines|
    ensures ParseRecordsFrom(ParseRecordLine, lines, i, n, firstLine, seen) == Ok(records) <==>
      SpellsFurther(lines[i..n], records, seen)
    decreases n - i
  {
    hide ParseRecordLine, SpellsRecord, SpellsFurther;
    if i == n {
      NoFurther(lines[i..n], records, seen);
    } else {
      var raw, rest := lines[i], lines[i + 1..n];
      assert lines[i..n] == [raw] + rest;
      if records == [] {
        SomeFurther(raw, rest, seen);
      } else {
        var r, more := records[0], records[1..];
        assert records == [r] + more;
        RecordExactly(raw, r);
        FurtherCons(raw, rest, r, more, seen);
        RecordsExactly(lines, i + 1, n, firstLine, seen + {RecordIdentity(r)}, more);
      }
    }
  }

  lemma NoFurther(lines: seq<string>, records: seq<Record>, seen: set<Identity>)
    requires lines == []
    ensures SpellsFurther(lines, records, seen) <==> records == []
  {
  }

  lemma SomeFurther(raw: string, rest: seq<string>, seen: set<Identity>)
    ensures !SpellsFurther([raw] + rest, [], seen)
  {
  }

  // --- The text behind the separator ---

  /** `why` is `text` without the whitespace at its end. */
  ghost predicate Chops(text: string, why: string) {
    && (why != [] ==> !IsWhitespace(why[|why| - 1]))
    && exists v :: text == why + v && AllBlank(v)
  }

  lemma ChopsExactly(text: string, why: string)
    ensures TrimEnd(text) == why <==> Chops(text, why)
  {
    TrimEndShape(text);
    if TrimEnd(text) == why {
      var v := TrimEndParts(text);
    }
    if Chops(text, why) {
      var v :| text == why + v && AllBlank(v);
      TrimEndDrops(why, v);
    }
  }

  ghost predicate ConfigMarkAt(lines: seq<string>, c: nat) {
    && c <= |lines|
    && (c < |lines| ==> Strips(lines[c], "[config]"))
    && forall j :: 0 <= j < c ==> !Strips(lines[j], "[config]")
  }

  predicate ResolvedMarkAt(lines: seq<string>, c: nat, m: nat) {
    && m <= c <= |lines|
    && (m < c ==> lines[m] == "[resolved]")
    && forall j :: 0 <= j < m ==> lines[j] != "[resolved]"
  }

  ghost predicate SpellsProse(lines: seq<string>, why: string) {
    && (forall i, record :: 0 <= i < |lines| ==> !SpellsRecord(lines[i], record))
    && Chops(Join(lines, '\n'), why)
  }

  /** Prose up to the first `[resolved]` line at `m`, records up to the first
      `[config]` line at `c`, and the configuration after it. */
  ghost predicate SpellsParts(lines: seq<string>, r: WhyRegion, m: nat, c: nat) {
    && ConfigMarkAt(lines, c) && ResolvedMarkAt(lines, c, m) && SpellsProse(lines[..m], r.why)
    && (if m < c then SpellsRecords(lines[m + 1..c], r.resolved) else r.resolved == [])
    && (if c < |lines| then SpellsConfig(lines[c + 1..], r.config) else r.config == Config(SameCommit, false, false))
  }

  ghost predicate SpellsRegion(lines: seq<string>, r: WhyRegion) { exists m: nat,
                               c: nat :: SpellsParts(lines, r, m, c) }

  lemma ConfigMarkExactly(lines: seq<string>, c: nat)
    ensures ConfigMarkAt(lines, c) <==> c == SpanFormat.First(lines, 0, |lines|, IsConfigMarker)
  {
    hide Strips, Trim;
    forall line
      ensures IsConfigMarker(line) <==> Strips(line, "[config]")
    {
      TrimStrips(line, "[config]");
    }
  }

  lemma ResolvedMarkExactly(lines: seq<string>, c: nat, m: nat)
    requires c <= |lines|
    ensures ResolvedMarkAt(lines, c, m) <==> m == SpanFormat.First(lines, 0, c, IsResolvedMarker)
  {
  }

  lemma ReadsAsRecordExactly(line: string)
    ensures ReadsAsRecord(line) <==> exists record :: SpellsRecord(line, record)
  {
    hide ParseRecordLine, SpellsRecord;
    if ReadsAsRecord(line) {
      RecordExactly(line, ParseRecordLine(line).value);
    }
    if record :| SpellsRecord(line, record) {
      RecordExactly(line, record);
    }
  }

  lemma ProseExactly(lines: seq<string>, m: nat, firstLine: nat, why: string)
    requires m <= |lines|
    ensures ProseText(lines, m, firstLine) == Ok(why) <==> SpellsProse(lines[..m], why)
  {
    hide ReadsAsRecord, SpellsRecord, Chops, TrimEnd, Join;
    forall line
      ensures ReadsAsRecord(line) <==> exists record :: SpellsRecord(line, record)
    {
      ReadsAsRecordExactly(line);
    }
    ChopsExactly(Join(lines[..m], '\n'), why);
  }

  lemma RecordsAtExactly(lines: seq<string>, m: nat, c: nat, firstLine: nat, records: seq<Record>)
    requires m <= c <= |lines|
    ensures RecordsAt(ParseRecordLine, lines, m, c, firstLine) == Ok(records) <==>
      if m < c then SpellsRecords(lines[m + 1..c], records) else records == []
  {
    hide ParseRecordsFrom, SpellsRecords;
    if m < c {
      RecordsExactly(lines, m + 1, c, firstLine, {}, records);
    }
  }

  /** Putting the three results together, the first failure winning. */
  lemma RegionOk(lines: seq<string>, firstLine: nat, m: nat, c: nat, r: WhyRegion)
    requires c == SpanFormat.First(lines, 0, |lines|, IsConfigMarker)
    requires m == SpanFormat.First(lines, 0, c, IsResolvedMarker)
    ensures ParseWhyRegion(lines, firstLine) == Ok(r) <==>
      && ConfigAt(lines, c, firstLine) == Ok(r.config) && ProseText(lines, m, firstLine) == Ok(r.why)
      && RecordsAt(ParseRecordLine, lines, m, c, firstLine) == Ok(r.resolved)
  {
    hide ConfigAt, RecordsAt, ProseText, SpanFormat.First;
  }

  lemma RegionExactly(lines: seq<string>, firstLine: nat, r: WhyRegion)
    ensures ParseWhyRegion(lines, firstLine) == Ok(r) <==> SpellsRegion(lines, r)
  {
    hide ParseWhyRegion, SpanFormat.First, ConfigMarkAt, ResolvedMarkAt, SpellsConfig, SpellsRecords, SpellsProse;
    var c := SpanFormat.First(lines, 0, |lines|, IsConfigMarker);
    var m := SpanFormat.First(lines, 0, c, IsResolvedMarker);
    ConfigMarkExactly(lines, c);
    ResolvedMarkExactly(lines, c, m);
    PartsExactly(lines, firstLine, r, m, c);
    if ParseWhyRegion(lines, firstLine) == Ok(r) {
      assert SpellsParts(lines, r, m, c);
    }
    if j: nat, k: nat :| SpellsParts(lines, r, j, k) {
      PartsExactly(lines, firstLine, r, j, k);
    }
  }

  lemma PartsExactly(lines: seq<string>, firstLine: nat, r: WhyRegion, m: nat, c: nat)
    requires ConfigMarkAt(lines, c) && ResolvedMarkAt(lines, c, m)
    ensures ParseWhyRegion(lines, firstLine) == Ok(r) <==> SpellsParts(lines, r, m, c)
  {
    hide ParseWhyRegion, RecordsAt, ProseText, SpanFormat.First, ConfigMarkAt, ResolvedMarkAt, SpellsConfig;
    hide SpellsRecords, SpellsProse;
    ConfigMarkExactly(lines, c);
    ResolvedMarkExactly(lines, c, m);
    RegionOk(lines, firstLine, m, c, r);
    ProseExactly(lines, m, firstLine, r.why);
    RecordsAtExactly(lines, m, c, firstLine, r.resolved);
    ConfigAtExactly(lines, c, firstLine, r.config);
  }

  lemma ConfigAtExactly(lines: seq<string>, c: nat, firstLine: nat, config: Config)
    requires c <= |lines|
    ensures ConfigAt(lines, c, firstLine) == Ok(config) <==>
      if c < |lines| then SpellsConfig(lines[c + 1..], config) else config == Config(SameCommit, false, false)
  {
    hide SpellsConfig, ParseConfigFrom;
    if c < |lines| {
      ConfigExactly(lines, c, firstLine, config);
    }
  }

  // --- The file ---

  /** The anchor block is what precedes the first empty line; a lone line feed in
      front opens the text at once. */
  predicate Separates(text: string, head: string, tail: string) {
    || (text == head + "\n\n" + tail && NoPair(head + "\n", '\n', '\n'))
    || (NoPair(text, '\n', '\n') && head == [] && text == "\n" + tail)
    || (NoPair(text, '\n', '\n') && !("\n" <= text) && text == head && tail == [])
  }

  lemma SeparatesExactly(text: string, head: string, tail: string)
    ensures Separates(text, head, tail) <==> (SplitBlocks(text).0, SplitBlocks(text).1) == (head, tail)
  {
    var k := FindPair(text, 0, '\n', '\n');
    if k < |text| {
      assert text == text[..k] + "\n\n" + text[k + 2..];
      forall i: nat | i < k + 1
        ensures !PairAt(text[..k] + "\n", i, '\n', '\n')
      {
        assert i < k ==> !PairAt(text, i, '\n', '\n');
      }
    } else if text != [] && text[0] == '\n' {
      OneLeadingNewline(text);
      assert text == "\n" + text[1..];
    }
    if text == head + "\n\n" + tail && NoPair(head + "\n", '\n', '\n') {
      assert PairAt(text, |head|, '\n', '\n');
      forall i: nat | i < |head|
        ensures !PairAt(text, i, '\n', '\n')
      {
        assert !PairAt(head + "\n", i, '\n', '\n');
      }
      FindPairIs(text, '\n', '\n', |head|);
      assert text[..|head|] == head && text[|head| + 2..] == tail;
    }
  }

  lemma OneLeadingNewline(text: string)
    requires text != [] && text[0] == '\n' && NoPair(text, '\n', '\n')
    ensures LeadingNewlines(text) == 1
  {
    assert !PairAt(text, 0, '\n', '\n');
  }

  ghost predicate SpellsText(text: string, x: SpanFile, head: string, tail: string) {
    && Separates(text, head, tail)
    && SpellsAnchors(TextLines(head), x.anchors)
    && SpellsRegion(TextLines(tail), WhyRegion(x.why, x.resolved, x.config))
  }

  lemma NormalizedOk(text: string, x: SpanFile)
    ensures var blocks := SplitBlocks(text);
      ParseNormalized(text) == Ok(x) <==>
        && !HasConflictMarkers(TextLines(text))
        && ParseAnchorsFrom(ReadAnchorLine, TextLines(blocks.0), 0) == Ok(x.anchors)
        && ParseWhyRegion(TextLines(blocks.1), blocks.2) == Ok(WhyRegion(x.why, x.resolved, x.config))
  {
    hide SplitBlocks, ParseAnchorsFrom, ParseWhyRegion, HasConflictMarkers, TextLines;
  }

  lemma NormalizedExactly(text: string, x: SpanFile)
    ensures ParseNormalized(text) == Ok(x) <==>
      !HasConflictMarkers(TextLines(text)) && exists head, tail :: SpellsText(text, x, head, tail)
  {
    hide SplitBlocks, ParseAnchorsFrom, ParseWhyRegion, HasConflictMarkers, TextLines, ParseNormalized, Separates;
    hide SpellsAnchors, SpellsRegion;
    var blocks := SplitBlocks(text);
    NormalizedOk(text, x);
    AnchorsExactly(TextLines(blocks.0), 0, x.anchors);
    RegionExactly(TextLines(blocks.1), blocks.2, WhyRegion(x.why, x.resolved, x.config));
    assert TextLines(blocks.0)[0..] == TextLines(blocks.0);
    SeparatesExactly(text, blocks.0, blocks.1);
    if ParseNormalized(text) == Ok(x) {
      assert SpellsText(text, x, blocks.0, blocks.1);
    }
    if head, tail :| SpellsText(text, x, head, tail) {
      SeparatesExactly(text, head, tail);
    }
  }

  /** A text is accepted as a file exactly when it spells it and no line of it is a
      conflict mark. */
  lemma ParseExactly(source: string, x: SpanFile)
    ensures Parse(source) == Ok(x) <==>
      && (forall line :: line in Fields(source, '\n') ==> !Marked(line))
      && exists head, tail :: SpellsText(ReplaceCrLf(source), x, head, tail)
  {
    hide ParseNormalized, ReplaceCrLf, HasConflictMarkers, Marked, TextLines, SpellsText, Fields;
    UnmarkedExactly(source);
    NormalizedExactly(ReplaceCrLf(source), x);
  }
}
