/** Which texts are refused as unresolved merges, said of their characters. */
module SpanConflicts {
  import opened Text
  import opened SpanText
  import opened SpanFormat

  /** The line starts with seven of the character. */
  predicate Sevens(line: string, c: char) { |line| >= 7 && forall i :: 0 <= i < 7 ==> line[i] == c }

  /** An open, close or base mark, or a separator that ends there or goes on with
      whitespace. */
  predicate Marked(line: string) {
    || Sevens(line, '<') || Sevens(line, '>') || Sevens(line, '|')
    || (Sevens(line, '=') && (|line| == 7 || IsWhitespace(line[7])))
  }

  ghost predicate AnyMarked(lines: seq<string>) { exists line :: line in lines && Marked(line) }

  lemma SevensIsPrefix(line: string)
    ensures Sevens(line, '<') <==> "<<<<<<<" <= line
    ensures Sevens(line, '>') <==> ">>>>>>>" <= line
    ensures Sevens(line, '|') <==> "|||||||" <= line
    ensures Sevens(line, '=') <==> "=======" <= line
  {
    assert |line| >= 7 ==> line[..7] == [line[0], line[1], line[2], line[3], line[4], line[5], line[6]];
    assert |line| >= 7 ==> forall s: string :: |s| == 7 ==> (s <= line <==> s == line[..7]);
  }

  lemma MarkedIsMarker(line: string)
    ensures Marked(line) <==> IsConflictMarkerLine(line)
  {
    SevensIsPrefix(line);
  }

  lemma AnyMarkedIsMarkers(lines: seq<string>)
    ensures AnyMarked(lines) <==> HasConflictMarkers(lines)
  {
    hide Marked, IsConflictMarkerLine;
    forall line
      ensures Marked(line) <==> IsConflictMarkerLine(line)
    {
      MarkedIsMarker(line);
    }
  }

  // --- The lines of a text, however it ends them ---

  lemma MarkedStripCr(line: string)
    ensures Marked(StripCr(line, '\r')) <==> Marked(line)
  {
    if line != [] && line[|line| - 1] == '\r' {
      var cut := line[..|line| - 1];
      assert forall i :: 0 <= i < |cut| ==> cut[i] == line[i];
      assert |line| >= 7 && |cut| < 7 ==> line[6] == '\r';
    }
  }

  lemma AnyMarkedCons(line: string, rest: seq<string>)
    ensures AnyMarked([line] + rest) <==> Marked(line) || AnyMarked(rest)
  {
    hide Marked;
    if AnyMarked(rest) {
      var l :| l in rest && Marked(l);
      assert l in [line] + rest;
    }
    if Marked(line) {
      assert line in [line] + rest;
    }
  }

  /** Splitting at line feeds finds the same marks as the lines of the text. */
  lemma {:induction false} LinesMarked(s: string)
    ensures AnyMarked(TextLines(s)) <==> AnyMarked(Fields(s, '\n'))
    decreases |s|
  {
    hide Marked;
    var k := NextBreak(s, 0, '\n');
    if s == [] {
      EmptyUnmarked();
    } else if k < |s| {
      LinesMarked(s[k + 1..]);
      MarkedStripCr(s[..k]);
      AnyMarkedCons(StripCr(s[..k], '\r'), TextLines(s[k + 1..]));
      AnyMarkedCons(s[..k], Fields(s[k + 1..], '\n'));
    }
  }

  lemma EmptyUnmarked()
    ensures !Marked([])
  {
  }

  lemma NoPairInLine(line: string)
    requires '\n' !in line
    ensures ReplaceCrLf(line) == line
  {
    forall i: nat | i < |line|
      ensures !PairAt(line, i, '\r', '\n')
    {
      assert i + 1 < |line| ==> line[i + 1] in line;
    }
    ReplaceNothing(line);
  }

  lemma ReplaceFeed(line: string, rest: string)
    requires '\n' !in line && (line == [] || line[|line| - 1] != '\r')
    ensures ReplaceCrLf(line + (['\n'] + rest)) == line + (['\n'] + ReplaceCrLf(rest))
  {
    NoPairInLine(line);
    ReplaceStep(['\n'] + rest);
    hide ReplaceCrLf;
    assert (['\n'] + rest)[1..] == rest;
    ReplaceConcat(line, ['\n'] + rest);
  }

  lemma ReplaceReturnFeed(line: string, rest: string)
    requires '\n' !in line
    ensures ReplaceCrLf(line + (['\r', '\n'] + rest)) == line + (['\n'] + ReplaceCrLf(rest))
  {
    NoPairInLine(line);
    ReplaceStep(['\r', '\n'] + rest);
    hide ReplaceCrLf;
    assert (['\r', '\n'] + rest)[2..] == rest;
    ReplaceConcat(line, ['\r', '\n'] + rest);
  }

  /** One line and what follows its line feed, with the line endings replaced. */
  lemma ReplaceLine(line: string, rest: string)
    requires '\n' !in line
    ensures ReplaceCrLf(line + ['\n'] + rest) == StripCr(line, '\r') + ['\n'] + ReplaceCrLf(rest)
  {
    hide ReplaceCrLf;
    var cut := StripCr(line, '\r');
    assert cut + ['\n'] + ReplaceCrLf(rest) == cut + (['\n'] + ReplaceCrLf(rest));
    if cut == line {
      assert line + ['\n'] + rest == line + (['\n'] + rest);
      ReplaceFeed(line, rest);
    } else {
      assert line == cut + ['\r'];
      assert line + ['\n'] + rest == cut + (['\r', '\n'] + rest);
      ReplaceReturnFeed(cut, rest);
    }
  }

  lemma {:induction false} ReplacedMarked(text: string)
    ensures AnyMarked(Fields(ReplaceCrLf(text), '\n')) <==> AnyMarked(Fields(text, '\n'))
    decreases |text|
  {
    hide Marked, ReplaceCrLf;
    var k := NextBreak(text, 0, '\n');
    if k == |text| {
      OneLineUnchanged(text);
    } else {
      var line, rest := text[..k], text[k + 1..];
      assert text == line + ['\n'] + rest;
      ReplacedMarked(rest);
      ReplaceLine(line, rest);
      MarkedStripCr(line);
      FieldsCons(line, rest, '\n');
      FieldsCons(StripCr(line, '\r'), ReplaceCrLf(rest), '\n');
      AnyMarkedCons(line, Fields(rest, '\n'));
      AnyMarkedCons(StripCr(line, '\r'), Fields(ReplaceCrLf(rest), '\n'));
    }
  }

  lemma OneLineUnchanged(text: string)
    requires '\n' !in text || NextBreak(text, 0, '\n') == |text|
    ensures ReplaceCrLf(text) == text
  {
    ReplaceNothing(text);
  }

  // --- The parser ---

  lemma {:induction false} AnchorsNoConflict(read: string -> AnchorLine, lines: seq<string>, i: nat)
    requires i <= |lines|
    ensures ParseAnchorsFrom(read, lines, i) != Err(SpanConflict)
    decreases |lines| - i
  {
    if i < |lines| {
      AnchorsNoConflict(read, lines, i + 1);
    }
  }

  lemma {:induction false} RecordsNoConflict(read: string -> Option<Record>, lines: seq<string>, i: nat, n: nat,
                                             firstLine: nat, seen: set<Identity>)
    requires i <= n <= |lines|
    ensures ParseRecordsFrom(read, lines, i, n, firstLine, seen) != Err(SpanConflict)
    decreases n - i
  {
    if i < n {
      match ReadRecordLine(read, lines[i], seen)
      case None =>
      case Some(r) => RecordsNoConflict(read, lines, i + 1, n, firstLine, seen + {RecordIdentity(r)});
    }
  }

  lemma {:induction false} ConfigNoConflict(lines: seq<string>, i: nat, firstLine: nat, state: ConfigState)
    requires i <= |lines|
    ensures ParseConfigFrom(lines, i, firstLine, state) != Err(SpanConflict)
    decreases |lines| - i
  {
    hide ConfigStep;
    if i < |lines| {
      match ConfigStep(state, lines[i])
      case None =>
      case Some(next) => ConfigNoConflict(lines, i + 1, firstLine, next);
    }
  }

  lemma RegionNoConflict(lines: seq<string>, firstLine: nat)
    ensures ParseWhyRegion(lines, firstLine) != Err(SpanConflict)
  {
    hide ParseConfigFrom, ParseRecordsFrom, ParseRecordLine, IsConfigMarker, TrimEnd, SpanFormat.First;
    var c := SpanFormat.First(lines, 0, |lines|, IsConfigMarker);
    if c < |lines| {
      ConfigNoConflict(lines, c + 1, firstLine, START);
    }
    var m := SpanFormat.First(lines, 0, c, IsResolvedMarker);
    if m < c {
      RecordsNoConflict(ParseRecordLine, lines, m + 1, c, firstLine, {});
    }
  }

  lemma NormalizedConflict(text: string)
    ensures ParseNormalized(text) == Err(SpanConflict) <==> HasConflictMarkers(TextLines(text))
  {
    hide SplitBlocks, ParseAnchorsFrom, ParseWhyRegion, HasConflictMarkers, TextLines;
    var blocks := SplitBlocks(text);
    AnchorsNoConflict(ReadAnchorLine, TextLines(blocks.0), 0);
    RegionNoConflict(TextLines(blocks.1), blocks.2);
  }

  lemma UnmarkedExactly(text: string)
    ensures !HasConflictMarkers(TextLines(ReplaceCrLf(text))) <==>
      forall line :: line in Fields(text, '\n') ==> !Marked(line)
  {
    hide ReplaceCrLf, HasConflictMarkers, Marked, TextLines;
    AnyMarkedIsMarkers(TextLines(ReplaceCrLf(text)));
    LinesMarked(ReplaceCrLf(text));
    ReplacedMarked(text);
  }

  /** A text is refused as an unresolved merge exactly when one of its lines is a mark. */
  lemma ConflictExactly(text: string)
    ensures Parse(text) == Err(SpanConflict) <==> exists line :: line in Fields(text, '\n') && Marked(line)
  {
    hide ParseNormalized, ReplaceCrLf, HasConflictMarkers, Marked, TextLines, Fields;
    NormalizedConflict(ReplaceCrLf(text));
    UnmarkedExactly(text);
  }

  /** A line that starts after a line feed, or the text, is a line of it. */
  lemma LineStandsIn(before: string, line: string, after: string)
    requires before == [] || before[|before| - 1] == '\n'
    requires '\n' !in line && (after == [] || after[0] == '\n')
    ensures line in Fields(before + (line + after), '\n')
  {
    hide Fields;
    LineLeads(line, after);
    if before == [] {
      assert before + (line + after) == line + after;
    } else {
      var front := before[..|before| - 1];
      assert before == front + ['\n'];
      FieldsConcat(front, line + after, '\n');
    }
  }

  lemma LineLeads(line: string, after: string)
    requires '\n' !in line && (after == [] || after[0] == '\n')
    ensures line in Fields(line + after, '\n')
  {
    if after == [] {
      assert line + after == line;
      FieldsWhole(line, '\n');
    } else {
      assert line + after == line + ['\n'] + after[1..];
      FieldsCons(line, after[1..], '\n');
    }
  }

  /** What Git leaves in a file for a conflict: marks, labels and the two sides. */
  function ConflictBlock(oursLabel: string, ours: string, theirs: string, theirsLabel: string): string {
    "<<<<<<< " + oursLabel + ("\n" + ours + "=======\n" + theirs + ">>>>>>> " + theirsLabel + "\n")
  }

  lemma Regroup(before: string, open: string, body: string, after: string)
    ensures before + (open + body) + after == before + (open + (body + after))
  {
  }

  /** It is refused wherever it stands. */
  lemma ConflictBlockRefused(before: string, oursLabel: string, ours: string, theirs: string, theirsLabel: string,
                             after: string)
    requires (before == [] || before[|before| - 1] == '\n') && '\n' !in oursLabel
    ensures Parse(before + ConflictBlock(oursLabel, ours, theirs, theirsLabel) + after) == Err(SpanConflict)
  {
    hide Parse;
    var open, body := "<<<<<<< " + oursLabel, "\n" + ours + "=======\n" + theirs + ">>>>>>> " + theirsLabel + "\n";
    Regroup(before, open, body, after);
    LineStandsIn(before, open, body + after);
    assert Sevens(open, '<');
    ConflictExactly(before + (open + (body + after)));
  }
}
