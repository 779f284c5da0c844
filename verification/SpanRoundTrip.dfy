/** Exactly which span files survive printing and parsing. */
module SpanRoundTrip {
  import opened Text
  import opened SpanText
  import opened SpanFormat
  import opened SpanLines

  // --- The well-formedness condition ---

  predicate DistinctIdentities(records: seq<Record>) {
    forall i, j :: 0 <= i < j < |records| ==> RecordIdentity(records[i]) != RecordIdentity(records[j])
  }

  /** A prose line that is neither a section marker nor a record. */
  predicate ProseLine(line: string) { !IsConfigMarker(line) && !IsResolvedMarker(line) && !ReadsAsRecord(line) }

  predicate PartsOk(x: SpanFile) {
    && (forall i :: 0 <= i < |x.anchors| ==> AnchorOk(x.anchors[i]))
    && (forall i :: 0 <= i < |x.resolved| ==> RecordOk(x.resolved[i]))
    && DistinctIdentities(x.resolved)
    && TrimEnd(x.why) == x.why
  }

  predicate WellFormed(x: SpanFile) {
    && PartsOk(x)
    && NoPair(x.why, '\r', '\n')
    && (forall i :: 0 <= i < |TextLines(x.why)| ==> ProseLine(TextLines(x.why)[i]))
    && !HasConflictMarkers(AnchorLines(x.anchors))
    && !HasConflictMarkers(TextLines(x.why))
  }

  // --- Normalising the printed text only touches the prose ---

  lemma ReplaceCleanLine(line: string)
    requires CleanLine(line, '\n', '\r')
    ensures ReplaceCrLf(line + ['\n']) == line + ['\n']
  {
    var s := line + ['\n'];
    forall i: nat | i < |s|
      ensures !PairAt(s, i, '\r', '\n')
    {
      if i + 1 < |line| {
        assert s[i + 1] == line[i + 1] && line[i + 1] in line;
      }
    }
    ReplaceNothing(s);
  }

  lemma {:induction false} ReplaceUnlines(lines: seq<string>, rest: string)
    requires forall i :: 0 <= i < |lines| ==> CleanLine(lines[i], '\n', '\r')
    ensures ReplaceCrLf(Unlines(lines, '\n') + rest) == Unlines(lines, '\n') + ReplaceCrLf(rest)
  {
    if lines == [] {
      assert Unlines(lines, '\n') + rest == rest;
    } else {
      var first, tail := lines[0] + ['\n'], Unlines(lines[1..], '\n') + rest;
      calc {
        ReplaceCrLf(Unlines(lines, '\n') + rest);
        { UnlinesCons(lines, rest, '\n'); }
        ReplaceCrLf(first + tail);
        { ReplaceConcat(first, tail); }
        ReplaceCrLf(first) + ReplaceCrLf(tail);
        { ReplaceCleanLine(lines[0]); ReplaceUnlines(lines[1..], rest); }
        first + (Unlines(lines[1..], '\n') + ReplaceCrLf(rest));
        { UnlinesCons(lines, ReplaceCrLf(rest), '\n'); }
        Unlines(lines, '\n') + ReplaceCrLf(rest);
      }
    }
  }

  lemma TightIsClean(line: string)
    requires Tight(line) && '\n' !in line
    ensures CleanLine(line, '\n', '\r')
  {
  }

  lemma AnchorsClean(anchors: seq<Anchor>)
    requires forall i :: 0 <= i < |anchors| ==> AnchorOk(anchors[i])
    ensures forall i :: 0 <= i < |anchors| ==>
      AnchorLines(anchors)[i] != [] && CleanLine(AnchorLines(anchors)[i], '\n', '\r')
  {
    forall i | 0 <= i < |anchors|
      ensures AnchorLines(anchors)[i] != [] && CleanLine(AnchorLines(anchors)[i], '\n', '\r')
    {
      AnchorShape(anchors[i]);
      TightIsClean(PrintAnchor(anchors[i]));
    }
  }

  /** Section lines: `[resolved]`, records, `[config]` and its settings. */
  predicate SectionLineShape(line: string) {
    line != [] && Tight(line) && '\n' !in line && (line[0] == '[' || line[0] in "cif" || IsDigit(line[0]))
  }

  lemma ConfigLineShape(key: string, value: string)
    requires PlainToken(key) && PlainToken(value) && '\n' !in key && '\n' !in value && key[0] in "cif"
    ensures SectionLineShape(ConfigLine(key, value))
  {
  }

  lemma ConfigValuesOneLine(config: Config)
    ensures '\n' !in CopyDetectionName(config.copyDetection)
    ensures '\n' !in PrintBool(config.ignoreWhitespace) && '\n' !in PrintBool(config.followMoves)
  {
  }

  lemma CopyLineShape(c: CopyDetection)
    requires '\n' !in CopyDetectionName(c)
    ensures SectionLineShape(ConfigLine("copy_detection", "\"" + CopyDetectionName(c) + "\""))
  {
    KeysPlain();
    QuotedRoundTrip(c);
    ConfigLineShape("copy_detection", "\"" + CopyDetectionName(c) + "\"");
  }

  lemma BoolLineShapes(b: bool)
    requires '\n' !in PrintBool(b)
    ensures SectionLineShape(ConfigLine("ignore_whitespace", PrintBool(b)))
    ensures SectionLineShape(ConfigLine("follow_moves", PrintBool(b)))
  {
    KeysPlain();
    BoolRoundTrip(b);
    ConfigLineShape("ignore_whitespace", PrintBool(b));
    ConfigLineShape("follow_moves", PrintBool(b));
  }

  lemma ConfigShapes(config: Config)
    ensures forall i :: 0 <= i < |ConfigLines(config)| ==> SectionLineShape(ConfigLines(config)[i])
  {
    hide SectionLineShape, ConfigLine, CopyDetectionName, PrintBool;
    MarkerShapes();
    if config != DEFAULT_CONFIG {
      ConfigValuesOneLine(config);
      CopyLineShape(config.copyDetection);
      BoolLineShapes(config.ignoreWhitespace);
      BoolLineShapes(config.followMoves);
    }
  }

  lemma MarkerShapes()
    ensures SectionLineShape(RESOLVED) && SectionLineShape(CONFIG)
  {
  }

  lemma SectionShapes(resolved: seq<Record>, config: Config)
    requires forall i :: 0 <= i < |resolved| ==> RecordOk(resolved[i])
    ensures forall i :: 0 <= i < |SectionLines(resolved, config)| ==>
      SectionLineShape(SectionLines(resolved, config)[i])
  {
    hide RecordOk, PrintRecord, ConfigLines;
    MarkerShapes();
    ConfigShapes(config);
    var records := ResolvedLines(resolved);
    forall i | 0 <= i < |records|
      ensures SectionLineShape(records[i])
    {
      if i > 0 {
        assert records[i] == PrintRecord(resolved[i - 1]);
        RecordShape(resolved[i - 1]);
      } else {
        assert records[i] == RESOLVED;
      }
    }
  }

  lemma SectionsClean(sections: seq<string>)
    requires forall i :: 0 <= i < |sections| ==> SectionLineShape(sections[i])
    ensures forall i :: 0 <= i < |sections| ==> CleanLine(sections[i], '\n', '\r')
    ensures !HasConflictMarkers(sections)
  {
  }

  lemma ReplaceGap(gap: string, rest: string)
    requires gap == "\n" || gap == "\n\n"
    ensures ReplaceCrLf(gap + rest) == gap + ReplaceCrLf(rest)
  {
    ReplaceConcat(gap, rest);
    ReplaceNothing(gap);
  }

  lemma ReplaceWhy(why: string, followed: bool, rest: string)
    requires TrimEnd(why) == why
    ensures ReplaceCrLf(PrintWhy(why, followed) + rest) == PrintWhy(ReplaceCrLf(why), followed) + ReplaceCrLf(rest)
  {
    if why == [] {
      assert PrintWhy(why, followed) + rest == rest;
    } else if followed {
      ReplaceBefore(why, "\n\n", rest);
      assert why + "\n" + "\n" == why + "\n\n" && ReplaceCrLf(why) + "\n" + "\n" == ReplaceCrLf(why) + "\n\n";
    } else {
      ReplaceBefore(why, "\n", rest);
    }
  }

  lemma ReplaceBefore(why: string, gap: string, rest: string)
    requires TrimEnd(why) == why && why != [] && (gap == "\n" || gap == "\n\n")
    ensures ReplaceCrLf(why + gap + rest) == ReplaceCrLf(why) + gap + ReplaceCrLf(rest) && ReplaceCrLf(why) != []
  {
    TrimEndShape(why);
    ReplaceEnds(why);
    hide ReplaceCrLf, TrimEnd;
    assert why + gap + rest == why + (gap + rest);
    ReplaceConcat(why, gap + rest);
    ReplaceGap(gap, rest);
  }

  lemma ReplaceBlock(lines: seq<string>, tail: string)
    requires forall i :: 0 <= i < |lines| ==> CleanLine(lines[i], '\n', '\r')
    ensures ReplaceCrLf(Unlines(lines, '\n') + "\n" + tail) == Unlines(lines, '\n') + "\n" + ReplaceCrLf(tail)
  {
    var body := Unlines(lines, '\n');
    calc {
      ReplaceCrLf(body + "\n" + tail);
      { assert body + "\n" + tail == body + ("\n" + tail); }
      ReplaceCrLf(body + ("\n" + tail));
      { ReplaceUnlines(lines, "\n" + tail); }
      body + ReplaceCrLf("\n" + tail);
      { ReplaceConcat("\n", tail); ReplaceNothing("\n"); }
      body + ("\n" + ReplaceCrLf(tail));
    }
  }

  lemma ReplaceHead(anchors: seq<Anchor>, more: bool, tail: string)
    requires forall i :: 0 <= i < |anchors| ==> AnchorOk(anchors[i])
    ensures ReplaceCrLf(PrintHead(anchors, more) + tail) == PrintHead(anchors, more) + ReplaceCrLf(tail)
  {
    if anchors != [] {
      AnchorsClean(anchors);
      ReplaceBlock(AnchorLines(anchors), tail);
    } else {
      ReplaceConcat(PrintHead(anchors, more), tail);
      ReplaceNothing(PrintHead(anchors, more));
    }
  }

  lemma ReplaceTail(why: string, sections: seq<string>)
    requires TrimEnd(why) == why
    requires forall i :: 0 <= i < |sections| ==> CleanLine(sections[i], '\n', '\r')
    ensures ReplaceCrLf(PrintTail(why, sections)) == PrintTail(ReplaceCrLf(why), sections)
  {
    var body := Unlines(sections, '\n');
    assert ReplaceCrLf(body) == body by {
      ReplaceUnlines(sections, []);
      assert body + [] == body;
    }
    ReplaceWhy(why, sections != [], body);
  }

  /** The printed file after normalisation: the same with normalised prose. */
  lemma NormalizedText(x: SpanFile, more: bool, sections: seq<string>)
    requires PartsOk(x) && sections == SectionLines(x.resolved, x.config)
    requires more == (x.why != [] || sections != [])
    ensures ReplaceCrLf(Serialize(x)) == PrintHead(x.anchors, more) + PrintTail(ReplaceCrLf(x.why), sections)
  {
    assert forall i :: 0 <= i < |sections| ==> CleanLine(sections[i], '\n', '\r') by {
      SectionShapes(x.resolved, x.config);
      SectionsClean(sections);
    }
    ReplaceHead(x.anchors, more, PrintTail(x.why, sections));
    ReplaceTail(x.why, sections);
  }

  // --- Reading the anchor block back ---

  lemma {:induction false} JoinAsUnlines(lines: seq<string>)
    requires lines != []
    ensures Join(lines, '\n') == Unlines(lines[..|lines| - 1], '\n') + lines[|lines| - 1]
  {
    if |lines| == 1 {
      assert lines[..0] == [];
    } else {
      var rest := lines[1..];
      var n := |lines| - 1;
      JoinAsUnlines(rest);
      assert lines[..n] == [lines[0]] + rest[..n - 1];
      UnlinesCons(lines[..n], lines[n], '\n');
      assert lines[..n][1..] == rest[..n - 1];
    }
  }

  lemma OneLine(line: string)
    requires line != [] && '\n' !in line
    ensures TextLines(line) == [line]
  {
    NextBreakUnique(line, 0, '\n', |line|);
  }

  lemma FrontAndLast<T>(s: seq<T>)
    requires s != []
    ensures s == s[..|s| - 1] + [s[|s| - 1]]
  {
  }

  lemma SplitsIntoLines(s: string, front: seq<string>, last: string)
    requires s == Unlines(front, '\n') + last
    requires forall i :: 0 <= i < |front| ==> CleanLine(front[i], '\n', '\r')
    requires last != [] && '\n' !in last
    ensures TextLines(s) == front + [last]
  {
    StrLinesUnlines(front, last, '\n', '\r');
    OneLine(last);
  }

  /** A non-empty block of clean, non-empty lines splits back into them. */
  lemma BlockLines(lines: seq<string>)
    requires lines != [] && forall i :: 0 <= i < |lines| ==> lines[i] != [] && CleanLine(lines[i], '\n', '\r')
    ensures TextLines(Join(lines, '\n')) == lines
  {
    var n := |lines| - 1;
    var front, last, s := lines[..n], lines[n], Join(lines, '\n');
    assert s == Unlines(front, '\n') + last by {
      JoinAsUnlines(lines);
    }
    assert lines[n] != [] && CleanLine(lines[n], '\n', '\r');
    FrontAndLast(lines);
    SplitsIntoLines(s, front, last);
  }

  /** Joined non-empty lines hold no blank line and end in no newline. */
  lemma {:induction false} BlockShape(lines: seq<string>)
    requires lines != [] && forall i :: 0 <= i < |lines| ==> lines[i] != [] && '\n' !in lines[i]
    ensures var j := Join(lines, '\n'); j != [] && j[0] != '\n' && j[|j| - 1] != '\n' && NoPair(j, '\n', '\n')
  {
    var line := lines[0];
    assert line[0] in line && line[|line| - 1] in line;
    if |lines| == 1 {
      forall i: nat | i < |line|
        ensures !PairAt(line, i, '\n', '\n')
      {
        assert line[i] in line;
      }
    } else {
      var rest := Join(lines[1..], '\n');
      BlockShape(lines[1..]);
      var j := line + ['\n'] + rest;
      forall i: nat | i < |j|
        ensures !PairAt(j, i, '\n', '\n')
      {
        if i < |line| {
          assert j[i] == line[i] && line[i] in line;
        } else if i > |line| {
          assert !PairAt(rest, i - |line| - 1, '\n', '\n');
        }
      }
    }
  }

  lemma FindBlank(block: string, tail: string)
    requires block != [] ==> block[|block| - 1] != '\n'
    requires NoPair(block, '\n', '\n')
    ensures FindPair(block + "\n\n" + tail, 0, '\n', '\n') == |block|
  {
    var s := block + "\n\n" + tail;
    assert PairAt(s, |block|, '\n', '\n');
    forall i: nat | i < |block|
      ensures !PairAt(s, i, '\n', '\n')
    {
      assert !PairAt(block, i, '\n', '\n');
    }
    FindPairIs(s, '\n', '\n', |block|);
  }

  lemma SplitAtBlank(block: string, tail: string)
    requires block != [] ==> block[|block| - 1] != '\n'
    requires NoPair(block, '\n', '\n')
    ensures SplitBlocks(block + "\n\n" + tail).0 == block && SplitBlocks(block + "\n\n" + tail).1 == tail
  {
    FindBlank(block, tail);
    var s := block + "\n\n" + tail;
    assert s[..|block|] == block && s[|block| + 2..] == tail;
  }

  lemma UnlinesBlank(lines: seq<string>, tail: string)
    requires lines != []
    ensures Unlines(lines, '\n') + "\n" + tail == Join(lines, '\n') + "\n\n" + tail
  {
    var block := Join(lines, '\n');
    UnlinesIsJoin(lines, '\n');
    assert block + ['\n'] + "\n" + tail == block + "\n\n" + tail;
  }

  lemma SplitOff(s: string, block: string, lines: seq<string>, tail: string)
    requires s == block + "\n\n" + tail && TextLines(block) == lines
    requires block != [] ==> block[|block| - 1] != '\n'
    requires NoPair(block, '\n', '\n')
    ensures TextLines(SplitBlocks(s).0) == lines && SplitBlocks(s).1 == tail
  {
    SplitAtBlank(block, tail);
  }

  lemma SplitBlock(lines: seq<string>, tail: string)
    requires lines != [] && forall i :: 0 <= i < |lines| ==> lines[i] != [] && CleanLine(lines[i], '\n', '\r')
    ensures TextLines(SplitBlocks(Unlines(lines, '\n') + "\n" + tail).0) == lines
    ensures SplitBlocks(Unlines(lines, '\n') + "\n" + tail).1 == tail
  {
    UnlinesBlank(lines, tail);
    BlockShape(lines);
    BlockLines(lines);
    SplitOff(Unlines(lines, '\n') + "\n" + tail, Join(lines, '\n'), lines, tail);
  }

  /** The anchor block and the region after it come apart where they were joined. */
  lemma SplitPrinted(anchors: seq<Anchor>, more: bool, tail: string)
    requires forall i :: 0 <= i < |anchors| ==> AnchorOk(anchors[i])
    requires !more ==> tail == []
    ensures var blocks := SplitBlocks(PrintHead(anchors, more) + tail);
      TextLines(blocks.0) == AnchorLines(anchors) && blocks.1 == tail
  {
    if anchors != [] {
      AnchorsClean(anchors);
      SplitBlock(AnchorLines(anchors), tail);
    } else if more {
      assert PrintHead(anchors, more) + tail == [] + "\n\n" + tail;
      SplitAtBlank([], tail);
    } else {
      assert PrintHead(anchors, more) + tail == [];
    }
  }

  /** Lines that each read as an anchor give those anchors. */
  lemma {:induction false} AnchorsRead(read: string -> AnchorLine, lines: seq<string>, anchors: seq<Anchor>, i: nat)
    requires i <= |lines| == |anchors| && forall k :: 0 <= k < |lines| ==> read(lines[k]) == Good(anchors[k])
    ensures ParseAnchorsFrom(read, lines, i) == Ok(anchors[i..])
    decreases |lines| - i
  {
    if i < |lines| {
      AnchorsRead(read, lines, anchors, i + 1);
      assert anchors[i..] == [anchors[i]] + anchors[i + 1..];
    } else {
      assert anchors[i..] == [];
    }
  }

  lemma AnchorsReadBack(anchors: seq<Anchor>)
    requires forall k :: 0 <= k < |anchors| ==> AnchorOk(anchors[k])
    ensures ParseAnchorsFrom(ReadAnchorLine, AnchorLines(anchors), 0) == Ok(anchors)
  {
    forall k | 0 <= k < |anchors|
      ensures ReadAnchorLine(AnchorLines(anchors)[k]) == Good(anchors[k])
    {
      AnchorShape(anchors[k]);
    }
    AnchorsRead(ReadAnchorLine, AnchorLines(anchors), anchors, 0);
    assert anchors[0..] == anchors;
  }

  lemma {:induction false} AnchorsHold(read: string -> AnchorLine, lines: seq<string>, i: nat, ok: Anchor -> bool)
    requires i <= |lines| && forall k :: 0 <= k < |lines| && read(lines[k]).Good? ==> ok(read(lines[k]).anchor)
    requires ParseAnchorsFrom(read, lines, i).Ok?
    ensures forall k :: 0 <= k < |ParseAnchorsFrom(read, lines, i).value| ==>
      ok(ParseAnchorsFrom(read, lines, i).value[k])
    decreases |lines| - i
  {
    if i < |lines| {
      AnchorsHold(read, lines, i + 1, ok);
    }
  }

  lemma AnchorsOutput(lines: seq<string>)
    requires forall k :: 0 <= k < |lines| ==> '\n' !in lines[k]
    requires ParseAnchorsFrom(ReadAnchorLine, lines, 0).Ok?
    ensures forall k :: 0 <= k < |ParseAnchorsFrom(ReadAnchorLine, lines, 0).value| ==>
      AnchorOk(ParseAnchorsFrom(ReadAnchorLine, lines, 0).value[k])
  {
    forall k | 0 <= k < |lines| && ReadAnchorLine(lines[k]).Good?
      ensures AnchorOk(ReadAnchorLine(lines[k]).anchor)
    {
      AnchorOutput(lines[k]);
    }
    AnchorsHold(ReadAnchorLine, lines, 0, AnchorOk);
  }

  // --- Reading records back ---

  /** Distinct identities are all the section parser asks beyond the line grammar. */
  lemma {:induction false} RecordsReadBack(read: string -> Option<Record>, lines: seq<string>, i: nat, n: nat,
                                           firstLine: nat,
                                           seen: set<Identity>, records: seq<Record>)
    requires i <= n <= |lines| && |records| == n - i && DistinctIdentities(records)
    requires forall k :: 0 <= k < |records| ==> read(lines[i + k]) == Some(records[k])
    requires forall k :: 0 <= k < |records| ==> RecordIdentity(records[k]) !in seen
    ensures ParseRecordsFrom(read, lines, i, n, firstLine, seen) == Ok(records)
    decreases n - i
  {
    if i < n {
      var first, rest := records[0], records[1..];
      assert read(lines[i + 0]) == Some(first);
      RecordsReadBack(read, lines, i + 1, n, firstLine, seen + {RecordIdentity(first)}, rest);
      assert records == [first] + rest;
    }
  }

  lemma {:induction false} RecordsRead(read: string -> Option<Record>, lines: seq<string>, i: nat, n: nat,
                                       firstLine: nat, seen: set<Identity>)
    requires i <= n <= |lines| && ParseRecordsFrom(read, lines, i, n, firstLine, seen).Ok?
    ensures var rs := ParseRecordsFrom(read, lines, i, n, firstLine, seen).value;
      && |rs| == n - i && DistinctIdentities(rs)
      && (forall k :: 0 <= k < |rs| ==> read(lines[i + k]) == Some(rs[k]) && RecordIdentity(rs[k]) !in seen)
    decreases n - i
  {
    if i < n {
      var first := read(lines[i]).value;
      RecordsRead(read, lines, i + 1, n, firstLine, seen + {RecordIdentity(first)});
      var rest := ParseRecordsFrom(read, lines, i + 1, n, firstLine, seen + {RecordIdentity(first)}).value;
      var rs := [first] + rest;
      forall k | 0 <= k < |rs|
        ensures read(lines[i + k]) == Some(rs[k]) && RecordIdentity(rs[k]) !in seen
      {
        if k > 0 {
          assert read(lines[i + 1 + (k - 1)]) == Some(rest[k - 1]);
        }
      }
    }
  }

  /** Each record came from its line, and identities are distinct. */
  lemma RecordsAtRead(read: string -> Option<Record>, lines: seq<string>, m: nat, c: nat, firstLine: nat,
                      records: seq<Record>, k: nat)
    requires m <= c <= |lines| && RecordsAt(read, lines, m, c, firstLine) == Ok(records)
    ensures DistinctIdentities(records)
    ensures k < |records| ==> m + 1 + k < |lines| && read(lines[m + 1 + k]) == Some(records[k])
  {
    if m < c {
      RecordsRead(read, lines, m + 1, c, firstLine, {});
    }
  }

  lemma RecordsOutput(lines: seq<string>, m: nat, c: nat, firstLine: nat, records: seq<Record>, k: nat)
    requires forall i :: 0 <= i < |lines| ==> '\n' !in lines[i]
    requires m <= c <= |lines| && RecordsAt(ParseRecordLine, lines, m, c, firstLine) == Ok(records) && k < |records|
    ensures RecordOk(records[k])
  {
    RecordsAtRead(ParseRecordLine, lines, m, c, firstLine, records, k);
    RecordOutput(lines[m + 1 + k]);
  }

  // --- The lines of the printed text ---

  lemma {:induction false} JoinLines(w: string)
    ensures |Join(TextLines(w), '\n')| <= |w|
    ensures NoPair(w, '\r', '\n') && (w != [] ==> w[|w| - 1] != '\n') ==> Join(TextLines(w), '\n') == w
    decreases |w|
  {
    if w != [] {
      var k := NextBreak(w, 0, '\n');
      if k < |w| {
        JoinLinesStep(w, k);
      }
    }
  }

  lemma JoinCons(line: string, rest: seq<string>)
    ensures Join([line] + rest, '\n') == if rest == [] then line else line + ['\n'] + Join(rest, '\n')
  {
    assert ([line] + rest)[1..] == rest;
  }

  lemma CleanCut(w: string, k: nat)
    requires k < |w| && w[k] == '\n' && NoPair(w, '\r', '\n') && w[|w| - 1] != '\n'
    ensures StripCr(w[..k], '\r') == w[..k]
    ensures w[k + 1..] != [] && w[k + 1..][|w[k + 1..]| - 1] != '\n' && NoPair(w[k + 1..], '\r', '\n')
  {
    var rest := w[k + 1..];
    assert rest != [] && rest[|rest| - 1] == w[|w| - 1];
    forall i: nat | i < |rest|
      ensures !PairAt(rest, i, '\r', '\n')
    {
      assert !PairAt(w, k + 1 + i, '\r', '\n');
    }
    assert k > 0 ==> !PairAt(w, k - 1, '\r', '\n');
  }

  lemma JoinLinesStep(w: string, k: nat)
    requires k == NextBreak(w, 0, '\n') < |w|
    ensures |Join(TextLines(w), '\n')| <= |w|
    ensures NoPair(w, '\r', '\n') && w[|w| - 1] != '\n' ==> Join(TextLines(w), '\n') == w
    decreases |w|, 0
  {
    hide Join, NoPair;
    var line, rest := w[..k], w[k + 1..];
    JoinLines(rest);
    JoinCons(StripCr(line, '\r'), TextLines(rest));
    if NoPair(w, '\r', '\n') && w[|w| - 1] != '\n' {
      CleanCut(w, k);
      assert w == line + ['\n'] + rest;
    }
  }

  lemma Reassociate<T>(a: seq<T>, b: seq<T>, c: seq<T>, d: seq<T>)
    ensures (a + b) + c + d == a + (b + c + d)
  {
  }

  /** The first line splits off, with or without more text after the last. */
  lemma SplitFirst(w: string, line: string, tail: string, rest: string)
    requires w == line + ['\n'] + tail && '\n' !in line
    ensures TextLines(w) == [StripCr(line, '\r')] + TextLines(tail)
    ensures TextLines(w + ['\n'] + rest) == [StripCr(line, '\r')] + TextLines(tail + ['\n'] + rest)
  {
    StrLinesCons(line, tail, '\n', '\r');
    StrLinesCons(line, tail + ['\n'] + rest, '\n', '\r');
    Reassociate(line + ['\n'], tail, ['\n'], rest);
  }

  /** Text not ending in a line ending, then a newline: the lines simply follow. */
  lemma {:induction false} LinesThen(w: string, rest: string)
    requires w != [] && w[|w| - 1] != '\n' && w[|w| - 1] != '\r'
    ensures TextLines(w + ['\n'] + rest) == TextLines(w) + TextLines(rest)
    decreases |w|
  {
    var k := NextBreak(w, 0, '\n');
    if k == |w| {
      OneLine(w);
      StrLinesCons(w, rest, '\n', '\r');
    } else {
      var line, tail := w[..k], w[k + 1..];
      assert tail != [] && tail[|tail| - 1] == w[|w| - 1];
      LinesThen(tail, rest);
      SplitFirst(w, line, tail, rest);
    }
  }

  function Gap(why: string, sections: seq<string>): seq<string> {
    if why != [] && sections != [] then [[]] else []
  }

  lemma SectionBodyLines(sections: seq<string>)
    requires forall i :: 0 <= i < |sections| ==> CleanLine(sections[i], '\n', '\r')
    ensures TextLines(Unlines(sections, '\n')) == sections
  {
    var body := Unlines(sections, '\n');
    StrLinesUnlines(sections, [], '\n', '\r');
    assert body + [] == body;
  }

  lemma WhyThenBody(w: string, followed: bool, body: string)
    requires w != [] && w[|w| - 1] != '\n' && w[|w| - 1] != '\r'
    ensures TextLines(PrintWhy(w, followed) + body) == TextLines(w) + (if followed then [[]] else []) + TextLines(body)
  {
    if followed {
      var rest := [] + ['\n'] + body;
      calc {
        TextLines(PrintWhy(w, followed) + body);
        { assert PrintWhy(w, followed) + body == w + ['\n'] + rest; }
        TextLines(w + ['\n'] + rest);
        { LinesThen(w, rest); }
        TextLines(w) + TextLines(rest);
        { StrLinesCons([], body, '\n', '\r'); }
        TextLines(w) + ([[]] + TextLines(body));
      }
    } else {
      assert PrintWhy(w, followed) + body == w + ['\n'] + body;
      LinesThen(w, body);
      assert TextLines(w) + [] == TextLines(w);
    }
  }

  /** Prose lines, the blank line before a section, the section lines. */
  lemma TailLines(w: string, sections: seq<string>)
    requires TrimEnd(w) == w
    requires forall i :: 0 <= i < |sections| ==> CleanLine(sections[i], '\n', '\r')
    ensures TextLines(PrintTail(w, sections)) == TextLines(w) + Gap(w, sections) + sections
  {
    var body := Unlines(sections, '\n');
    SectionBodyLines(sections);
    if w != [] {
      TrimEndShape(w);
      WhyThenBody(w, sections != [], body);
    } else {
      assert PrintTail(w, sections) == body;
    }
  }

  lemma MarkersConcat(a: seq<string>, b: seq<string>)
    ensures HasConflictMarkers(a + b) <==> HasConflictMarkers(a) || HasConflictMarkers(b)
  {
    if HasConflictMarkers(a) {
      var i :| 0 <= i < |a| && IsConflictMarkerLine(a[i]);
      assert IsConflictMarkerLine((a + b)[i]);
    }
    if HasConflictMarkers(b) {
      var i :| 0 <= i < |b| && IsConflictMarkerLine(b[i]);
      assert IsConflictMarkerLine((a + b)[|a| + i]);
    }
  }

  /** The printed head contributes the anchor lines and blank lines only. */
  lemma HeadLines(anchors: seq<Anchor>, more: bool, tail: string)
    requires forall i :: 0 <= i < |anchors| ==> AnchorOk(anchors[i])
    requires !more ==> tail == []
    ensures HasConflictMarkers(TextLines(PrintHead(anchors, more) + tail)) <==>
      HasConflictMarkers(AnchorLines(anchors)) || HasConflictMarkers(TextLines(tail))
  {
    var lines := AnchorLines(anchors);
    if anchors != [] {
      AnchorsClean(anchors);
      assert PrintHead(anchors, more) + tail == Unlines(lines, '\n') + ([] + ['\n'] + tail);
      StrLinesUnlines(lines, [] + ['\n'] + tail, '\n', '\r');
      StrLinesCons([], tail, '\n', '\r');
      MarkersConcat(lines, [[]] + TextLines(tail));
      MarkersConcat([[]], TextLines(tail));
    } else if more {
      assert PrintHead(anchors, more) + tail == [] + ['\n'] + ([] + ['\n'] + tail);
      StrLinesCons([], [] + ['\n'] + tail, '\n', '\r');
      StrLinesCons([], tail, '\n', '\r');
      MarkersConcat([[]], [[]] + TextLines(tail));
      MarkersConcat([[]], TextLines(tail));
    } else {
      assert PrintHead(anchors, more) + tail == [];
    }
  }
}
