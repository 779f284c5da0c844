/** The one text the printer writes for a file, character by character. */
module SpanPrinted {
  import opened Text
  import opened SpanText
  import opened SpanFormat
  import opened SpanGrammar
  import opened SpanConfig

  // --- Numbers ---

  /** The number's digits, without leading zeros. */
  predicate Decimal(s: string, n: nat) {
    s != [] && AllDigits(s) && DecValue(s) == n && (s[0] == '0' ==> |s| == 1)
  }

  lemma {:induction false} DecimalWritten(n: nat)
    ensures Decimal(ToDec(n), n)
  {
    DecRoundTrip(n);
    if n >= 10 {
      DecimalWritten(n / 10);
      Leading(n);
    }
  }

  lemma Leading(n: nat)
    requires n >= 10 && Decimal(ToDec(n / 10), n / 10)
    ensures ToDec(n)[0] != '0'
  {
    var front := ToDec(n / 10);
    assert ToDec(n)[0] == front[0];
    assert |front| == 1 ==> DecValue(front[..0]) == 0;
  }

  lemma DecimalSplit(s: string, n: nat)
    requires Decimal(s, n)
    ensures |s| == 1 ==> n < 10 && s == ['0' + n as char]
    ensures |s| > 1 ==> n >= 10 && s == s[..|s| - 1] + ['0' + (n % 10) as char]
    ensures |s| > 1 ==> Decimal(s[..|s| - 1], n / 10)
  {
    var front, last := s[..|s| - 1], s[|s| - 1];
    assert IsDigit(last) && AllDigits(front);
    assert n == 10 * DecValue(front) + (last - '0') as nat;
    if |s| > 1 {
      LeadingCounts(front);
    }
  }

  lemma {:induction false} LeadingCounts(s: string)
    requires s != [] && AllDigits(s) && s[0] != '0'
    ensures DecValue(s) > 0
  {
    if |s| > 1 {
      LeadingCounts(s[..|s| - 1]);
    } else {
      assert IsDigit(s[0]) && s[..0] == [];
    }
  }

  lemma {:induction false} DecimalIs(s: string, n: nat)
    requires Decimal(s, n)
    ensures s == ToDec(n)
    decreases |s|
  {
    DecimalSplit(s, n);
    if |s| > 1 {
      DecimalIs(s[..|s| - 1], n / 10);
    }
  }

  // --- Lines ---

  ghost predicate PrintsAddress(text: string, path: string, start: u32, end: u32) {
    if start == 0 && end == 0 then text == path
    else exists a, b :: Decimal(a, start) && Decimal(b, end) && text == path + "#L" + a + "-L" + b
  }

  ghost predicate PrintsAnchor(line: string, a: Anchor) {
    exists address :: PrintsAddress(address, a.path, a.startLine, a.endLine) &&
      line == address + " " + a.algorithm + ":" + a.contentHash
  }

  ghost predicate PrintsRecord(line: string, r: Record) {
    exists word, address :: SpellsCommand(word, r.command) && PrintsAddress(address, r.path, r.startLine, r.endLine) &&
      line == r.timestamp + " " + word + " " + address + " " + r.algorithm + ":" + r.contentHash
  }

  lemma AddressPrinted(text: string, path: string, start: u32, end: u32)
    ensures PrintsAddress(text, path, start, end) <==> text == PrintAddress(path, start, end)
  {
    hide ToDec, Decimal;
    DecimalWritten(start);
    DecimalWritten(end);
    forall a
      ensures Decimal(a, start) ==> a == ToDec(start)
      ensures Decimal(a, end) ==> a == ToDec(end)
    {
      if Decimal(a, start) {
        DecimalIs(a, start);
      }
      if Decimal(a, end) {
        DecimalIs(a, end);
      }
    }
  }

  lemma AnchorPrinted(line: string, a: Anchor)
    ensures PrintsAnchor(line, a) <==> line == PrintAnchor(a)
  {
    hide PrintsAddress, PrintAddress;
    var where := PrintAddress(a.path, a.startLine, a.endLine);
    AddressPrinted(where, a.path, a.startLine, a.endLine);
    TokenEnds(where, a.algorithm, a.contentHash);
    if address :| PrintsAddress(address, a.path, a.startLine, a.endLine) &&
                  line == address + " " + a.algorithm + ":" + a.contentHash {
      AddressPrinted(address, a.path, a.startLine, a.endLine);
    }
  }

  lemma TokenEnds(front: string, algorithm: string, hash: string)
    ensures front + " " + PrintToken(algorithm, hash) == front + " " + algorithm + ":" + hash
  {
  }

  lemma RecordPrinted(line: string, r: Record)
    ensures PrintsRecord(line, r) <==> line == PrintRecord(r)
  {
    hide PrintsAddress, PrintAddress;
    var where, name := PrintAddress(r.path, r.startLine, r.endLine), CommandName(r.command);
    AddressPrinted(where, r.path, r.startLine, r.endLine);
    TokenEnds(r.timestamp + " " + name + " " + where, r.algorithm, r.contentHash);
    if word, address :| SpellsCommand(word, r.command) && PrintsAddress(address, r.path, r.startLine, r.endLine) &&
                        line == r.timestamp + " " + word + " " + address + " " + r.algorithm + ":" + r.contentHash {
      AddressPrinted(address, r.path, r.startLine, r.endLine);
    }
  }

  // --- The file ---

  function ConfigText(config: Config): string {
    if config == Config(SameCommit, false, false) then ""
    else
      "[config]" + "\n" + ("copy_detection = \"" + CopyName(config.copyDetection) + "\"") + "\n"
      + ("ignore_whitespace = " + BoolName(config.ignoreWhitespace)) + "\n"
      + ("follow_moves = " + BoolName(config.followMoves)) + "\n"
  }

  ghost predicate PrintsAnchors(lines: seq<string>, anchors: seq<Anchor>) {
    |lines| == |anchors| && forall i :: 0 <= i < |lines| ==> PrintsAnchor(lines[i], anchors[i])
  }

  ghost predicate PrintsRecords(lines: seq<string>, records: seq<Record>) {
    |lines| == |records| && forall i :: 0 <= i < |lines| ==> PrintsRecord(lines[i], records[i])
  }

  /** Blank lines stand behind the anchors, in front of what follows missing anchors,
      and between prose and what follows it. */
  ghost predicate PrintsFile(text: string, x: SpanFile, anchors: seq<string>, records: seq<string>) {
    && PrintsAnchors(anchors, x.anchors) && PrintsRecords(records, x.resolved)
    && var resolved := if records == [] then "" else "[resolved]\n" + Unlines(records, '\n');
       var sections := resolved + ConfigText(x.config);
       var prose := if x.why == [] then "" else x.why + "\n" + if sections == [] then "" else "\n";
       text == Unlines(anchors, '\n')
         + (if anchors != [] then "\n" else if x.why != [] || sections != [] then "\n\n" else "") + prose + sections
  }

  lemma ConfigLinesPrinted(config: Config)
    ensures ConfigLine("copy_detection", "\"" + CopyDetectionName(config.copyDetection) + "\"") ==
      "copy_detection = \"" + CopyName(config.copyDetection) + "\""
    ensures ConfigLine("ignore_whitespace", PrintBool(config.ignoreWhitespace)) ==
      "ignore_whitespace = " + BoolName(config.ignoreWhitespace)
    ensures ConfigLine("follow_moves", PrintBool(config.followMoves)) ==
      "follow_moves = " + BoolName(config.followMoves)
  {
    LineIs("copy_detection", "\"" + CopyName(config.copyDetection) + "\"", "copy_detection = ");
    LineIs("ignore_whitespace", BoolName(config.ignoreWhitespace), "ignore_whitespace = ");
    LineIs("follow_moves", BoolName(config.followMoves), "follow_moves = ");
    assert "copy_detection = " + ("\"" + CopyName(config.copyDetection) + "\"") ==
      "copy_detection = \"" + CopyName(config.copyDetection) + "\"";
  }

  lemma LineIs(key: string, value: string, start: string)
    requires start == key + " = "
    ensures ConfigLine(key, value) == start + value
  {
  }

  lemma ConfigPrinted(config: Config)
    ensures Unlines(ConfigLines(config), '\n') == ConfigText(config)
    ensures ConfigText(config) == [] <==> ConfigLines(config) == []
  {
    hide CopyName, BoolName, CopyDetectionName, PrintBool, ConfigLine;
    ConfigLinesPrinted(config);
    var a := "copy_detection = \"" + CopyName(config.copyDetection) + "\"";
    var b := "ignore_whitespace = " + BoolName(config.ignoreWhitespace);
    var c := "follow_moves = " + BoolName(config.followMoves);
    UnlinesOfFour("[config]", a, b, c);
  }

  lemma UnlinesOfFour(a: string, b: string, c: string, d: string)
    ensures Unlines([a, b, c, d], '\n') == a + "\n" + b + "\n" + c + "\n" + d + "\n"
  {
    hide Unlines;
    assert [a, b, c, d] == [a, b, c] + [d] && [a, b, c] == [a, b] + [c] && [a, b] == [a] + [b] && [a] == [] + [a];
    UnlinesSnoc([a, b, c], d);
    UnlinesSnoc([a, b], c);
    UnlinesSnoc([a], b);
    UnlinesSnoc([], a);
    NoLine();
  }

  lemma NoLine()
    ensures Unlines<char>([], '\n') == []
  {
  }

  lemma ResolvedPrinted(resolved: seq<Record>, config: Config)
    ensures var records := RecordLines(resolved);
      Unlines(SectionLines(resolved, config), '\n') ==
        (if records == [] then "" else "[resolved]\n" + Unlines(records, '\n')) + ConfigText(config)
    ensures SectionLines(resolved, config) == [] <==> resolved == [] && ConfigText(config) == []
  {
    hide ConfigLines, ConfigText;
    ConfigPrinted(config);
    UnlinesAppend(ResolvedLines(resolved), ConfigLines(config), '\n');
    if resolved != [] {
      assert ([RESOLVED] + RecordLines(resolved))[1..] == RecordLines(resolved);
    }
  }

  lemma LinesPrinted(x: SpanFile, anchors: seq<string>, records: seq<string>)
    ensures PrintsAnchors(anchors, x.anchors) <==> anchors == AnchorLines(x.anchors)
    ensures PrintsRecords(records, x.resolved) <==> records == RecordLines(x.resolved)
  {
    hide PrintsAnchor, PrintAnchor, PrintsRecord, PrintRecord;
    forall line, a
      ensures PrintsAnchor(line, a) <==> line == PrintAnchor(a)
    {
      AnchorPrinted(line, a);
    }
    forall line, r
      ensures PrintsRecord(line, r) <==> line == PrintRecord(r)
    {
      RecordPrinted(line, r);
    }
  }

  /** The printer writes this text and no other. */
  lemma SerializeExactly(x: SpanFile, text: string)
    ensures Serialize(x) == text <==> exists anchors, records :: PrintsFile(text, x, anchors, records)
  {
    hide Unlines, SectionLines, ConfigText, PrintsAnchors, PrintsRecords;
    var anchors, records := AnchorLines(x.anchors), RecordLines(x.resolved);
    LinesPrinted(x, anchors, records);
    FilePrinted(x);
    if Serialize(x) == text {
      assert PrintsFile(text, x, anchors, records);
    }
    if a, r :| PrintsFile(text, x, a, r) {
      LinesPrinted(x, a, r);
    }
  }

  lemma FilePrinted(x: SpanFile)
    ensures PrintsFile(Serialize(x), x, AnchorLines(x.anchors), RecordLines(x.resolved))
  {
    hide SectionLines, ConfigText, PrintsAnchors, PrintsRecords, Unlines;
    var anchors, records := AnchorLines(x.anchors), RecordLines(x.resolved);
    LinesPrinted(x, anchors, records);
    ResolvedPrinted(x.resolved, x.config);
    NoLine();
    SectionsEmpty(x);
    var sections := Unlines(SectionLines(x.resolved, x.config), '\n');
    var gap := if anchors != [] then "\n" else if x.why != [] || sections != [] then "\n\n" else "";
    Assemble(Unlines(anchors, '\n'), gap, PrintWhy(x.why, sections != []), sections);
    HeadPrinted(x, gap);
  }

  lemma HeadPrinted(x: SpanFile, gap: string)
    requires gap == if x.anchors != [] then "\n" else if x.why != [] || SectionLines(x.resolved, x.config) != []
      then "\n\n" else ""
    ensures PrintHead(x.anchors, x.why != [] || SectionLines(x.resolved, x.config) != []) ==
      Unlines(AnchorLines(x.anchors), '\n') + gap
  {
    hide SectionLines;
  }

  lemma SectionsEmpty(x: SpanFile)
    ensures Unlines(SectionLines(x.resolved, x.config), '\n') == [] <==> SectionLines(x.resolved, x.config) == []
  {
    hide SectionLines;
    var lines := SectionLines(x.resolved, x.config);
    assert lines != [] ==> Unlines(lines, '\n')[|lines[0]|] == '\n';
  }

  lemma Assemble(a: string, gap: string, prose: string, sections: string)
    ensures (a + gap) + (prose + sections) == a + gap + prose + sections
  {
  }
}
