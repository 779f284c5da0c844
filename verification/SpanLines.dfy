/** Every line the printer emits is read back, and every value the line
    parsers yield is one the printer can emit. */
module SpanLines {
  import opened Text
  import opened SpanText
  import opened SpanFormat

  // --- Well-formed addresses, tokens, anchors and records ---

  predicate PathOk(path: string, start: u32, end: u32) {
    && path != [] && '\n' !in path && '\\' !in path
    && (if start == 0 && end == 0 then '#' !in path else 1 <= start <= end && NoPair(path, '#', 'L'))
  }

  predicate TokenOk(algorithm: string, hash: string) {
    && algorithm != [] && hash != [] && ':' !in algorithm
    && ' ' !in algorithm && ' ' !in hash && '\n' !in algorithm && '\n' !in hash
    && !IsWhitespace(algorithm[0]) && !IsWhitespace(hash[|hash| - 1])
  }

  predicate AnchorOk(a: Anchor) {
    PathOk(a.path, a.startLine, a.endLine) && TokenOk(a.algorithm, a.contentHash) && !IsWhitespace(a.path[0])
  }

  predicate RecordOk(r: Record) {
    PathOk(r.path, r.startLine, r.endLine) && TokenOk(r.algorithm, r.contentHash) && TimestampShape(r.timestamp)
  }

  // --- Addresses ---

  lemma NormalizeClean(path: string)
    requires '\\' !in path
    ensures NormalizePath(path) == path
  {
  }

  /** The first `#L` is the printed one; the path's last `#` cannot start it. */
  lemma PathEnds(path: string, fragment: string)
    requires NoPair(path, '#', 'L')
    ensures FindPair(path + "#L" + fragment, 0, '#', 'L') == |path|
  {
    var text := path + "#L" + fragment;
    assert PairAt(text, |path|, '#', 'L');
    forall i: nat | i < |path|
      ensures !PairAt(text, i, '#', 'L')
    {
      assert !PairAt(path, i, '#', 'L');
    }
    FindPairIs(text, '#', 'L', |path|);
  }

  lemma FragmentSplits(s: string, e: string)
    requires AllDigits(s)
    ensures FindPair(s + "-L" + e, 0, '-', 'L') == |s|
  {
    var text := s + "-L" + e;
    assert PairAt(text, |s|, '-', 'L');
    forall i: nat | i < |s|
      ensures !PairAt(text, i, '-', 'L')
    {
      assert IsDigit(s[i]) && text[i] == s[i];
    }
    FindPairIs(text, '-', 'L', |s|);
  }

  lemma RangeReads(path: string, s: string, e: string, start: u32, end: u32)
    requires path != [] && '\\' !in path && 1 <= start <= end
    requires AllDigits(s) && ParseU32(s) == Some(start) && ParseU32(e) == Some(end)
    ensures ParseRange(path, s + "-L" + e) == Some(Address(path, start, end))
  {
    var fragment := s + "-L" + e;
    FragmentSplits(s, e);
    assert fragment[..|s|] == s;
    assert fragment[|s| + 2..] == e;
    NormalizeClean(path);
  }

  lemma RangeRoundTrip(path: string, start: u32, end: u32)
    requires path != [] && '\\' !in path && 1 <= start <= end
    ensures ParseRange(path, ToDec(start) + "-L" + ToDec(end)) == Some(Address(path, start, end))
  {
    ParseU32ToDec(start);
    ParseU32ToDec(end);
    RangeReads(path, ToDec(start), ToDec(end), start, end);
  }

  lemma AddressRoundTrip(path: string, start: u32, end: u32)
    requires PathOk(path, start, end)
    ensures ParseAddress(PrintAddress(path, start, end)) == Some(Address(path, start, end))
  {
    if start == 0 && end == 0 {
      assert forall i: nat :: i < |path| ==> path[i] in path;
      FindPairIs(path, '#', 'L', |path|);
      NormalizeClean(path);
    } else {
      var fragment := ToDec(start) + "-L" + ToDec(end);
      var text := path + "#L" + fragment;
      assert PrintAddress(path, start, end) == text;
      PathEnds(path, fragment);
      assert text[..|path|] == path;
      assert text[|path| + 2..] == fragment;
      RangeRoundTrip(path, start, end);
    }
  }

  lemma NormalizedPath(path: string)
    ensures '\\' !in NormalizePath(path)
    ensures '\n' !in path ==> '\n' !in NormalizePath(path)
    ensures '#' !in path ==> '#' !in NormalizePath(path)
    ensures NoPair(path, '#', 'L') ==> NoPair(NormalizePath(path), '#', 'L')
  {
    var r := NormalizePath(path);
    assert forall i :: 0 <= i < |r| && r[i] == '\n' ==> path[i] == '\n' && path[i] in path;
    assert forall i :: 0 <= i < |r| && r[i] == '#' ==> path[i] == '#' && path[i] in path;
    if NoPair(path, '#', 'L') {
      forall i: nat | i < |r|
        ensures !PairAt(r, i, '#', 'L')
      {
        assert !PairAt(path, i, '#', 'L');
      }
    }
  }

  lemma PrefixNoPair(text: string, k: nat)
    requires k == FindPair(text, 0, '#', 'L')
    ensures NoPair(text[..k], '#', 'L')
  {
    forall i: nat | i < k
      ensures !PairAt(text[..k], i, '#', 'L')
    {
      assert !PairAt(text, i, '#', 'L');
    }
  }

  /** What the address parser can yield, and that it keeps the first character's class. */
  lemma AddressOutput(text: string)
    requires ParseAddress(text).Some? && '\n' !in text
    ensures var a := ParseAddress(text).value;
      PathOk(a.path, a.start, a.end) && text != [] && IsWhitespace(a.path[0]) == IsWhitespace(text[0])
  {
    var k := FindPair(text, 0, '#', 'L');
    if k < |text| {
      var path := text[..k];
      NormalizedPath(path);
      PrefixNoPair(text, k);
    } else {
      NormalizedPath(text);
    }
  }

  // --- Tokens ---

  lemma TokenRoundTrip(algorithm: string, hash: string)
    requires TokenOk(algorithm, hash)
    ensures ParseToken(PrintToken(algorithm, hash)) == Some(Token(algorithm, hash))
    ensures Tight(PrintToken(algorithm, hash)) && ' ' !in PrintToken(algorithm, hash) &&
      '\n' !in PrintToken(algorithm, hash)
  {
    var text := PrintToken(algorithm, hash);
    assert text[|algorithm|] == ':';
    NextBreakUnique(text, 0, ':', |algorithm|);
    assert text[..|algorithm|] == algorithm;
    assert text[|algorithm| + 1..] == hash;
  }

  lemma TokenOutput(text: string)
    requires ParseToken(text).Some? && Tight(text) && ' ' !in text && '\n' !in text
    ensures TokenOk(ParseToken(text).value.algorithm, ParseToken(text).value.hash)
  {
    var colon, t := NextBreak(text, 0, ':'), ParseToken(text).value;
    assert t.algorithm == text[..colon] && t.hash == text[colon + 1..];
  }

  // --- Splitting at the last space ---

  lemma LastSpace(front: string, token: string)
    requires ' ' !in token && Tight(token)
    ensures var line := front + " " + token;
      RFind(line, ' ') == |front| && line[..|front|] == front && Trim(line[|front| + 1..]) == token
  {
    var line := front + " " + token;
    RFindIs(front, ' ', token);
    assert line == front + [' '] + token;
    assert line[|front| + 1..] == token;
    TrimTight(token);
  }

  lemma AfterLastSpace(line: string, space: nat)
    requires space == RFind(line, ' ') < |line| && '\n' !in line
    ensures Tight(Trim(line[space + 1..])) && ' ' !in Trim(line[space + 1..]) && '\n' !in Trim(line[space + 1..])
    ensures '\n' !in line[..space]
  {
    TrimShape(line[space + 1..]);
  }

  // --- Anchor lines ---

  lemma AnchorRoundTrip(a: Anchor)
    requires AnchorOk(a)
    ensures ParseAnchorLine(PrintAnchor(a)) == Some(a)
  {
    var front, token := PrintAddress(a.path, a.startLine, a.endLine), PrintToken(a.algorithm, a.contentHash);
    AddressRoundTrip(a.path, a.startLine, a.endLine);
    TokenRoundTrip(a.algorithm, a.contentHash);
    LastSpace(front, token);
  }

  lemma AddressShape(path: string, start: u32, end: u32)
    requires PathOk(path, start, end)
    ensures PrintAddress(path, start, end) != [] && PrintAddress(path, start, end)[0] == path[0]
    ensures '\n' !in PrintAddress(path, start, end)
  {
    ParseU32ToDec(start);
    ParseU32ToDec(end);
  }

  lemma JoinedShape(front: string, token: string)
    requires front != [] && !IsWhitespace(front[0]) && '\n' !in front
    requires token != [] && Tight(token) && '\n' !in token
    ensures var line := front + " " + token; line != [] && Tight(line) && '\n' !in line
  {
  }

  /** A printed anchor is one tight, non-empty line. */
  lemma AnchorShape(a: Anchor)
    requires AnchorOk(a)
    ensures PrintAnchor(a) != [] && Tight(PrintAnchor(a)) && '\n' !in PrintAnchor(a)
    ensures ReadAnchorLine(PrintAnchor(a)) == Good(a)
  {
    hide PathOk, TokenOk, PrintAddress, ParseAnchorLine, Trim, Tight, ParseToken;
    AddressShape(a.path, a.startLine, a.endLine);
    TokenRoundTrip(a.algorithm, a.contentHash);
    JoinedShape(PrintAddress(a.path, a.startLine, a.endLine), PrintToken(a.algorithm, a.contentHash));
    AnchorRoundTrip(a);
    TrimTight(PrintAnchor(a));
  }

  lemma ParsedAnchorOk(line: string)
    requires ParseAnchorLine(line).Some? && Tight(line) && '\n' !in line
    ensures AnchorOk(ParseAnchorLine(line).value)
  {
    hide ParseAddress, ParseToken, PathOk, TokenOk, Trim;
    var space := RFind(line, ' ');
    AfterLastSpace(line, space);
    TokenOutput(Trim(line[space + 1..]));
    AddressOutput(line[..space]);
    assert line[..space][0] == line[0];
    var address, token := ParseAddress(line[..space]).value, ParseToken(Trim(line[space + 1..])).value;
    assert ParseAnchorLine(line).value == Anchor(address.path, address.start, address.end, token.algorithm, token.hash);
  }

  lemma AnchorOutput(raw: string)
    requires ReadAnchorLine(raw).Good? && '\n' !in raw
    ensures AnchorOk(ReadAnchorLine(raw).anchor)
  {
    TrimShape(raw);
    ParsedAnchorOk(Trim(raw));
  }

  // --- Record lines ---

  lemma TimestampNoSpace(ts: string)
    requires TimestampShape(ts)
    ensures ' ' !in ts && '\n' !in ts
  {
    forall i | 0 <= i < |ts|
      ensures ts[i] != ' ' && ts[i] != '\n'
    {
    }
  }

  lemma SplitThreeOf(a: string, b: string, c: string)
    requires ' ' !in a && ' ' !in b
    ensures SplitThree(a + " " + b + " " + c) == (a, b, c)
  {
    var rest, tail := a + " " + b + " " + c, b + " " + c;
    assert rest[|a|] == ' ' && tail[|b|] == ' ';
    NextBreakUnique(rest, 0, ' ', |a|);
    NextBreakUnique(tail, 0, ' ', |b|);
    assert rest[..|a|] == a && rest[|a| + 1..] == tail;
    assert tail[..|b|] == b && tail[|b| + 1..] == c;
  }

  lemma CommandRoundTrip(c: ResolveCommand)
    ensures ParseCommand(CommandName(c)) == Some(c)
    ensures ' ' !in CommandName(c) && '\n' !in CommandName(c)
  {
  }

  function RecordFront(r: Record): string {
    r.timestamp + " " + CommandName(r.command) + " " + PrintAddress(r.path, r.startLine, r.endLine)
  }

  /** A printed record is one tight line starting with a digit. */
  lemma RecordShape(r: Record)
    requires RecordOk(r)
    ensures PrintRecord(r) != [] && Tight(PrintRecord(r)) && '\n' !in PrintRecord(r) && IsDigit(PrintRecord(r)[0])
    ensures PrintRecord(r) == RecordFront(r) + " " + PrintToken(r.algorithm, r.contentHash)
  {
    TimestampNoSpace(r.timestamp);
    CommandRoundTrip(r.command);
    AddressShape(r.path, r.startLine, r.endLine);
    TokenRoundTrip(r.algorithm, r.contentHash);
  }

  lemma RecordRoundTrip(r: Record)
    requires RecordOk(r)
    ensures ParseRecordLine(PrintRecord(r)) == Some(r)
  {
    var line, front, token := PrintRecord(r), RecordFront(r), PrintToken(r.algorithm, r.contentHash);
    assert Trim(line) == line && line == front + " " + token by {
      RecordShape(r);
      TrimTight(line);
    }
    TokenRoundTrip(r.algorithm, r.contentHash);
    LastSpace(front, token);
    TimestampNoSpace(r.timestamp);
    CommandRoundTrip(r.command);
    SplitThreeOf(r.timestamp, CommandName(r.command), PrintAddress(r.path, r.startLine, r.endLine));
    AddressRoundTrip(r.path, r.startLine, r.endLine);
  }

  lemma SplitThreeNoBreak(rest: string)
    requires '\n' !in rest
    ensures '\n' !in SplitThree(rest).2
  {
    var i := NextBreak(rest, 0, ' ');
    if i < |rest| {
      var tail := rest[i + 1..];
      assert '\n' !in tail;
    }
  }

  lemma RecordOutput(raw: string)
    requires ParseRecordLine(raw).Some? && '\n' !in raw
    ensures RecordOk(ParseRecordLine(raw).value)
  {
    hide ParseAddress, ParseToken, ParseCommand, SplitThree, TimestampShape, PathOk, TokenOk, Trim;
    var line := Trim(raw);
    TrimShape(raw);
    var space := RFind(line, ' ');
    AfterLastSpace(line, space);
    TokenOutput(Trim(line[space + 1..]));
    SplitThreeNoBreak(line[..space]);
    AddressOutput(SplitThree(line[..space]).2);
  }

  // --- Config lines ---

  lemma {:induction false} StripNothing(line: string, inString: bool)
    requires '#' !in line
    ensures StripComment(line, inString) == line
  {
    if line != [] {
      StripNothing(line[1..], if line[0] == '"' then !inString else inString);
    }
  }

  predicate PlainToken(s: string) { s != [] && Tight(s) && '#' !in s && '=' !in s }

  lemma TrimSpaceAfter(s: string)
    requires s != [] && Tight(s)
    ensures Trim(s + " ") == s
  {
    var t := s + " ";
    assert t[|s|] == ' ' && IsWhitespace(t[|s|]);
    assert t[..|s|] == s;
    assert TrimStart(t) == t;
    assert TrimEnd(t) == TrimEnd(s);
  }

  lemma TrimSpaceBefore(s: string)
    requires s != [] && Tight(s)
    ensures Trim(" " + s) == s
  {
    var t := " " + s;
    assert t[0] == ' ' && IsWhitespace(t[0]);
    assert t[1..] == s;
    assert TrimStart(t) == TrimStart(s);
  }

  lemma ConfigLineRead(state: ConfigState, key: string, value: string)
    requires PlainToken(key) && PlainToken(value) && key !in state.seen
    ensures ConfigStep(state, ConfigLine(key, value)) ==
      var updated := ConfigUpdate(state.config, key, value);
      if updated.None? then None else Some(ConfigState(updated.value, state.seen + {key}))
  {
    var line := ConfigLine(key, value);
    var eq := |key| + 1;
    assert Trim(StripComment(line, false)) == line by {
      StripNothing(line, false);
      TrimTight(line);
    }
    assert line[eq] == '=';
    NextBreakUnique(line, 0, '=', eq);
    assert line[..eq] == key + " ";
    TrimSpaceAfter(key);
    assert line[eq + 1..] == " " + value;
    TrimSpaceBefore(value);
  }

  lemma CopyDetectionRoundTrip(c: CopyDetection)
    ensures ParseCopyDetection(CopyDetectionName(c)) == Some(c)
    ensures '#' !in CopyDetectionName(c) && '=' !in CopyDetectionName(c)
  {
    match c {
      case Off =>
      case SameCommit =>
      case AnyFileInCommit =>
      case AnyFileInRepo =>
        assert "any-file-in-commit"[12] != "any-file-in-repo"[12];
    }
  }

  lemma QuotedRoundTrip(c: CopyDetection)
    ensures ParseQuoted("\"" + CopyDetectionName(c) + "\"") == Some(c)
    ensures PlainToken("\"" + CopyDetectionName(c) + "\"")
  {
    CopyDetectionRoundTrip(c);
    Quoted(CopyDetectionName(c));
  }

  lemma Quoted(name: string)
    requires '#' !in name && '=' !in name
    ensures ParseQuoted("\"" + name + "\"") == ParseCopyDetection(name) && PlainToken("\"" + name + "\"")
  {
    var v := "\"" + name + "\"";
    assert v[1..|v| - 1] == name;
  }

  lemma BoolRoundTrip(b: bool)
    ensures ParseBool(PrintBool(b)) == Some(b) && PlainToken(PrintBool(b))
  {
  }

  lemma PlainLetters(s: string)
    requires s != [] && forall i :: 0 <= i < |s| ==> '_' <= s[i] <= 'z'
    ensures PlainToken(s)
  {
  }

  lemma KeysPlain()
    ensures PlainToken("copy_detection") && PlainToken("ignore_whitespace") && PlainToken("follow_moves")
    ensures "copy_detection" != "ignore_whitespace" && "follow_moves" != "ignore_whitespace" &&
      "copy_detection" != "follow_moves"
  {
    PlainLetters("copy_detection");
    PlainLetters("ignore_whitespace");
    PlainLetters("follow_moves");
    assert "copy_detection"[0] == 'c' && "follow_moves"[0] == 'f' && "ignore_whitespace"[0] == 'i';
  }

  lemma ConfigRoundTrip(lines: seq<string>, c: nat, firstLine: nat, config: Config)
    requires config != DEFAULT_CONFIG && c + 4 == |lines| && lines[c..] == ConfigLines(config)
    ensures ConfigAt(lines, c, firstLine) == Ok(config)
  {
    hide ConfigStep, ConfigAt, ParseQuoted, ParseBool, CopyDetectionName, PrintBool, PlainToken, ConfigLine;
    var copy, ignore, moves := "copy_detection", "ignore_whitespace", "follow_moves";
    KeysPlain();
    QuotedRoundTrip(config.copyDetection);
    BoolRoundTrip(config.ignoreWhitespace);
    BoolRoundTrip(config.followMoves);
    var s1 := ConfigState(DEFAULT_CONFIG.(copyDetection := config.copyDetection), {copy});
    var s2 := ConfigState(s1.config.(ignoreWhitespace := config.ignoreWhitespace), {copy, ignore});
    var s3 := ConfigState(config, {copy, ignore, moves});
    assert lines[c + 1] == lines[c..][1] && lines[c + 2] == lines[c..][2] && lines[c + 3] == lines[c..][3];
    assert ConfigStep(START, lines[c + 1]) == Some(s1) by {
      ConfigLineRead(START, copy, "\"" + CopyDetectionName(config.copyDetection) + "\"");
      assert START.seen + {copy} == {copy};
    }
    assert ConfigStep(s1, lines[c + 2]) == Some(s2) by {
      ConfigLineRead(s1, ignore, PrintBool(config.ignoreWhitespace));
      assert s1.seen + {ignore} == {copy, ignore};
    }
    assert ConfigStep(s2, lines[c + 3]) == Some(s3) by {
      ConfigLineRead(s2, moves, PrintBool(config.followMoves));
      assert s2.seen + {moves} == {copy, ignore, moves};
    }
    ParseConfigThree(lines, c, firstLine, s1, s2, s3);
  }

  lemma ParseConfigThree(lines: seq<string>, c: nat, firstLine: nat, s1: ConfigState, s2: ConfigState, s3: ConfigState)
    requires c + 4 == |lines|
    requires ConfigStep(START, lines[c + 1]) == Some(s1) && ConfigStep(s1, lines[c + 2]) == Some(s2)
    requires ConfigStep(s2, lines[c + 3]) == Some(s3)
    ensures ConfigAt(lines, c, firstLine) == Ok(s3.config)
  {
    assert ParseConfigFrom(lines, c + 4, firstLine, s3) == Ok(s3.config);
    assert ParseConfigFrom(lines, c + 3, firstLine, s2) == ParseConfigFrom(lines, c + 4, firstLine, s3);
    assert ParseConfigFrom(lines, c + 2, firstLine, s1) == ParseConfigFrom(lines, c + 3, firstLine, s2);
  }
}
