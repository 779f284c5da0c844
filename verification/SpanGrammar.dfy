/** The grammar of one line of a span file: what the line readers accept, by the
    pieces a line is put together from. */
module SpanGrammar {
  import opened Text
  import opened SpanText
  import opened SpanFormat
  import opened SpanLines

  // --- Whitespace around a line ---

  predicate AllBlank(w: string) { forall i :: 0 <= i < |w| ==> IsWhitespace(w[i]) }

  /** `line` is `raw` without the whitespace at both ends. */
  ghost predicate Strips(raw: string, line: string) {
    Tight(line) && exists u, v :: raw == u + line + v && AllBlank(u) && AllBlank(v)
  }

  lemma {:induction false} TrimStartParts(s: string) returns (u: string)
    ensures s == u + TrimStart(s) && AllBlank(u)
  {
    if s != [] && IsWhitespace(s[0]) {
      var w := TrimStartParts(s[1..]);
      u := [s[0]] + w;
    } else {
      u := [];
    }
  }

  lemma {:induction false} TrimEndParts(s: string) returns (v: string)
    ensures s == TrimEnd(s) + v && AllBlank(v)
  {
    if s != [] && IsWhitespace(s[|s| - 1]) {
      var w := TrimEndParts(s[..|s| - 1]);
      v := w + [s[|s| - 1]];
    } else {
      v := [];
    }
  }

  lemma {:induction false} TrimStartDrops(u: string, s: string)
    requires AllBlank(u)
    ensures TrimStart(u + s) == TrimStart(s)
  {
    if u == [] {
      assert u + s == s;
    } else {
      assert (u + s)[1..] == u[1..] + s;
      TrimStartDrops(u[1..], s);
    }
  }

  lemma {:induction false} TrimEndDrops(s: string, v: string)
    requires AllBlank(v)
    ensures TrimEnd(s + v) == TrimEnd(s)
  {
    if v == [] {
      assert s + v == s;
    } else {
      var n := |v| - 1;
      assert (s + v)[..|s + v| - 1] == s + v[..n];
      TrimEndDrops(s, v[..n]);
    }
  }

  lemma {:induction false} TrimStartBlank(v: string)
    requires AllBlank(v)
    ensures TrimStart(v) == []
  {
    if v != [] {
      TrimStartBlank(v[1..]);
    }
  }

  lemma TrimStrips(raw: string, line: string)
    ensures Trim(raw) == line <==> Strips(raw, line)
  {
    if Trim(raw) == line {
      TrimShape(raw);
      var u := TrimStartParts(raw);
      var v := TrimEndParts(TrimStart(raw));
      assert raw == u + line + v;
    }
    if Strips(raw, line) {
      var u, v :| raw == u + line + v && AllBlank(u) && AllBlank(v);
      StrippedTrims(u, line, v);
    }
  }

  lemma StrippedTrims(u: string, line: string, v: string)
    requires Tight(line) && AllBlank(u) && AllBlank(v)
    ensures Trim(u + line + v) == line
  {
    assert u + line + v == u + (line + v);
    TrimStartDrops(u, line + v);
    if line == [] {
      assert line + v == v;
      TrimStartBlank(v);
    } else {
      assert TrimStart(line + v) == line + v;
      TrimEndDrops(line, v);
    }
  }

  // --- Addresses ---

  /** A decimal number of 32 bits, possibly with a plus sign. */
  ghost predicate SpellsNumber(s: string, n: u32) {
    exists digits :: (s == digits || s == "+" + digits) && digits != [] && AllDigits(digits) && DecValue(digits) == n
  }

  /** `path` is `text` with forward slashes. */
  predicate Slashed(text: string, path: string) {
    |path| == |text| && forall i :: 0 <= i < |text| ==> path[i] == if text[i] == '\\' then '/' else text[i]
  }

  /** A path without `#L`, then `#L`, a first line, `-L` and a last line. */
  ghost predicate SpellsRange(text: string, path: string, start: u32, end: u32) {
    exists p, fragment, a, b ::
      && text == p + "#L" + fragment && p != [] && NoPair(p, '#', 'L') && Slashed(p, path)
      && SpellsBounds(fragment, start, end, a, b) && 1 <= start <= end
  }

  ghost predicate SpellsFile(text: string, path: string) { text != [] && '#' !in text && Slashed(text, path) }

  ghost predicate SpellsAddress(text: string, a: Address) {
    SpellsRange(text, a.path, a.start, a.end) || (a.start == 0 && a.end == 0 && SpellsFile(text, a.path))
  }

  lemma NumberExactly(s: string, n: u32)
    ensures ParseU32(s) == Some(n) <==> SpellsNumber(s, n)
  {
    if ParseU32(s) == Some(n) && s[0] == '+' {
      assert s == "+" + s[1..];
    }
    if digits :| (s == digits || s == "+" + digits) && digits != [] && AllDigits(digits) && DecValue(digits) == n {
      if s == digits {
        assert IsDigit(s[0]);
      } else {
        assert s[1..] == digits;
      }
    }
  }

  lemma NumberPlain(s: string, n: u32)
    requires SpellsNumber(s, n)
    ensures '-' !in s
  {
    var digits :| (s == digits || s == "+" + digits) && digits != [] && AllDigits(digits) && DecValue(digits) == n;
    forall i | 0 <= i < |s|
      ensures s[i] != '-'
    {
      assert s == "+" + digits && i > 0 ==> s[i] == digits[i - 1];
      assert forall j :: 0 <= j < |digits| ==> IsDigit(digits[j]);
    }
  }

  lemma SlashedIs(text: string, path: string)
    ensures Slashed(text, path) <==> path == NormalizePath(text)
  {
  }

  ghost predicate SpellsBounds(fragment: string, start: u32, end: u32, a: string, b: string) {
    fragment == a + "-L" + b && SpellsNumber(a, start) && SpellsNumber(b, end)
  }

  lemma FragmentExactly(path: string, fragment: string, a: Address)
    ensures ParseRange(path, fragment) == Some(a) <==>
      && path != [] && Slashed(path, a.path) && 1 <= a.start <= a.end
      && exists s, e :: SpellsBounds(fragment, a.start, a.end, s, e)
  {
    hide Slashed, SpellsNumber, ParseU32, FindPair, NoPair;
    var j := FindPair(fragment, 0, '-', 'L');
    SlashedIs(path, a.path);
    if j < |fragment| {
      NumberExactly(fragment[..j], a.start);
      NumberExactly(fragment[j + 2..], a.end);
      FirstPairIs(fragment, '-', 'L', fragment[..j], fragment[j + 2..]);
      assert ParseRange(path, fragment) == Some(a) ==>
        SpellsBounds(fragment, a.start, a.end, fragment[..j], fragment[j + 2..]);
    }
    if s, e :| SpellsBounds(fragment, a.start, a.end, s, e) {
      NumberPlain(s, a.start);
      NoHead(s, '-', 'L');
      FirstPairIs(fragment, '-', 'L', s, e);
    }
  }

  lemma NoHead(s: string, a: char, b: char)
    requires a !in s
    ensures NoPair(s, a, b)
  {
    forall i: nat | i < |s|
      ensures !PairAt(s, i, a, b)
    {
      assert s[i] in s;
    }
  }

  /** The cut at the first pair. */
  lemma FirstPairIs(s: string, a: char, b: char, front: string, back: string)
    requires a != b
    ensures var k := FindPair(s, 0, a, b);
      s == front + [a, b] + back && NoPair(front, a, b) <==>
        k < |s| && front == s[..k] && back == s[k + 2..]
  {
    var k := FindPair(s, 0, a, b);
    if s == front + [a, b] + back && NoPair(front, a, b) {
      assert front + [a, b] + back == front + ([a, b] + back);
      FirstPair(front, [a, b] + back, a, b);
    }
    if k < |s| && front == s[..k] && back == s[k + 2..] {
      assert s == front + [a, b] + back;
      forall i: nat | i < k
        ensures !PairAt(front, i, a, b)
      {
        assert !PairAt(s, i, a, b);
      }
    }
  }

  /** The pair right behind a text that neither holds it nor ends in its head. */
  lemma FirstPair(front: string, back: string, a: char, b: char)
    requires |back| >= 2 && back[0] == a && back[1] == b && a != b
    requires NoPair(front, a, b)
    ensures FindPair(front + back, 0, a, b) == |front|
  {
    var s := front + back;
    assert s[|front|] == a && s[|front| + 1] == b;
    forall i: nat | i < |front|
      ensures !PairAt(s, i, a, b)
    {
      assert !PairAt(front, i, a, b);
      assert s[i] == front[i] && (i + 1 < |front| ==> s[i + 1] == front[i + 1]);
    }
    FindPairIs(s, a, b, |front|);
  }

  lemma AddressExactly(text: string, a: Address)
    ensures ParseAddress(text) == Some(a) <==> SpellsAddress(text, a)
  {
    hide ParseRange, SpellsBounds, Slashed, FindPair, NoPair;
    var k := FindPair(text, 0, '#', 'L');
    SlashedIs(text, a.path);
    if k < |text| {
      var p, fragment := text[..k], text[k + 2..];
      FragmentExactly(p, fragment, a);
      FirstPairIs(text, '#', 'L', p, fragment);
      assert text[|p|] == '#';
    }
    if SpellsRange(text, a.path, a.start, a.end) {
      var p, fragment, s, e :|
        && text == p + "#L" + fragment && p != [] && NoPair(p, '#', 'L') && Slashed(p, a.path)
        && SpellsBounds(fragment, a.start, a.end, s, e) && 1 <= a.start <= a.end;
      FirstPairIs(text, '#', 'L', p, fragment);
      FragmentExactly(p, fragment, a);
    }
  }

  // --- Tokens, anchors and records ---

  predicate SpellsToken(text: string, algorithm: string, hash: string) {
    text == algorithm + ":" + hash && algorithm != [] && hash != [] && ':' !in algorithm
  }

  lemma TokenExactly(text: string, t: Token)
    ensures ParseToken(text) == Some(t) <==> SpellsToken(text, t.algorithm, t.hash)
  {
    var colon := NextBreak(text, 0, ':');
    if ParseToken(text) == Some(t) {
      assert text == t.algorithm + ":" + t.hash;
    }
    if SpellsToken(text, t.algorithm, t.hash) {
      assert text[..|t.algorithm|] == t.algorithm && text[|t.algorithm| + 1..] == t.hash;
      assert forall i :: 0 <= i < |t.algorithm| ==> text[i] == t.algorithm[i];
      NextBreakUnique(text, 0, ':', |t.algorithm|);
    }
  }

  /** An address, a space, and a token with no space in front of it in the rest of
      the line: paths may hold spaces. */
  ghost predicate SpellsAnchor(line: string, a: Anchor) {
    exists address, tail :: SpellsHalves(line, a, address, tail)
  }

  ghost predicate SpellsHalves(line: string, a: Anchor, address: string, tail: string) {
    && line == address + " " + tail && ' ' !in tail
    && SpellsAddress(address, Address(a.path, a.startLine, a.endLine))
    && SpellsToken(Trim(tail), a.algorithm, a.contentHash)
  }

  /** The cut at the last space. */
  lemma LastSpaceIs(line: string, front: string, tail: string)
    ensures line == front + " " + tail && ' ' !in tail <==>
      RFind(line, ' ') < |line| && front == line[..RFind(line, ' ')] && tail == line[RFind(line, ' ') + 1..]
  {
    var k := RFind(line, ' ');
    if line == front + " " + tail && ' ' !in tail {
      RFindIs(front, ' ', tail);
      assert front + " " + tail == front + [' '] + tail;
    }
    if k < |line| && front == line[..k] && tail == line[k + 1..] {
      assert line == front + " " + tail;
    }
  }

  lemma AnchorExactly(line: string, a: Anchor)
    ensures ParseAnchorLine(line) == Some(a) <==> SpellsAnchor(line, a)
  {
    hide ParseAddress, ParseToken, SpellsAddress, SpellsToken, Trim, RFind;
    var k := RFind(line, ' ');
    var where, token := Address(a.path, a.startLine, a.endLine), Token(a.algorithm, a.contentHash);
    if k < |line| {
      AddressExactly(line[..k], where);
      TokenExactly(Trim(line[k + 1..]), token);
      LastSpaceIs(line, line[..k], line[k + 1..]);
      EmptyAddress(where);
      assert ParseAnchorLine(line) == Some(a) ==> SpellsHalves(line, a, line[..k], line[k + 1..]);
    }
    if address, tail :| SpellsHalves(line, a, address, tail) {
      LastSpaceIs(line, address, tail);
    }
  }

  lemma EmptyAddress(a: Address)
    ensures !SpellsAddress([], a)
  {
  }

  const LAYOUT: string := "0000-00-00T00:00:00Z"

  /** Section 5.6 of RFC 3339, in one fixed layout. */
  predicate SpellsTimestamp(s: string) {
    |s| == |LAYOUT| && forall i :: 0 <= i < |s| ==> if LAYOUT[i] == '0' then '0' <= s[i] <= '9' else s[i] == LAYOUT[i]
  }

  lemma TimestampExactly(s: string)
    ensures TimestampShape(s) <==> SpellsTimestamp(s)
    ensures SpellsTimestamp(s) ==> ' ' !in s
  {
    assert |LAYOUT| == 20;
    if SpellsTimestamp(s) {
      forall i | 0 <= i < 20
        ensures if LAYOUT[i] == '0' then '0' <= s[i] <= '9' else s[i] == LAYOUT[i]
      {
      }
      assert LAYOUT[0] == '0' && LAYOUT[1] == '0' && LAYOUT[2] == '0' && LAYOUT[3] == '0' && LAYOUT[4] == '-';
      assert LAYOUT[5] == '0' && LAYOUT[6] == '0' && LAYOUT[7] == '-' && LAYOUT[8] == '0' && LAYOUT[9] == '0';
      assert LAYOUT[10] == 'T' && LAYOUT[11] == '0' && LAYOUT[12] == '0' && LAYOUT[13] == ':' && LAYOUT[14] == '0';
      assert LAYOUT[15] == '0' && LAYOUT[16] == ':' && LAYOUT[17] == '0' && LAYOUT[18] == '0' && LAYOUT[19] == 'Z';
    }
  }

  predicate SpellsCommand(word: string, c: ResolveCommand) { word == if c == Add then "add" else "replace" }

  lemma CommandExactly(word: string, c: ResolveCommand)
    ensures ParseCommand(word) == Some(c) <==> SpellsCommand(word, c)
  {
  }

  /** Timestamp, command, address and token, with single spaces between them. */
  ghost predicate SpellsPieces(line: string, r: Record, word: string, address: string, tail: string) {
    && line == r.timestamp + " " + word + " " + address + " " + tail && ' ' !in tail
    && SpellsTimestamp(r.timestamp) && SpellsCommand(word, r.command)
    && SpellsAddress(address, Address(r.path, r.startLine, r.endLine))
    && SpellsToken(Trim(tail), r.algorithm, r.contentHash)
  }

  ghost predicate SpellsRecord(raw: string, r: Record) {
    exists line, word, address, tail :: Strips(raw, line) && SpellsPieces(line, r, word, address, tail)
  }

  lemma CutBack(s: string, i: nat, c: char)
    requires i < |s| && s[i] == c
    ensures s == s[..i] + [c] + s[i + 1..]
  {
  }

  lemma ThreePartsBack(rest: string)
    requires SplitThree(rest).2 != []
    ensures var parts := SplitThree(rest);
      rest == parts.0 + " " + parts.1 + " " + parts.2 && ' ' !in parts.0 && ' ' !in parts.1
  {
    var i := NextBreak(rest, 0, ' ');
    var tail := rest[i + 1..];
    var j := NextBreak(tail, 0, ' ');
    CutBack(rest, i, ' ');
    CutBack(tail, j, ' ');
    JoinThree(rest, rest[..i], tail, tail[..j], tail[j + 1..]);
  }

  lemma JoinThree(rest: string, a: string, tail: string, b: string, c: string)
    requires rest == a + " " + tail && tail == b + " " + c
    ensures rest == a + " " + b + " " + c
  {
  }

  ghost predicate SpellsFront(rest: string, r: Record, word: string, address: string) {
    && rest == r.timestamp + " " + word + " " + address
    && SpellsTimestamp(r.timestamp) && SpellsCommand(word, r.command)
    && SpellsAddress(address, Address(r.path, r.startLine, r.endLine))
  }

  predicate ReadsFront(rest: string, r: Record) {
    var parts := SplitThree(rest);
    && TimestampShape(parts.0) && parts.0 == r.timestamp && ParseCommand(parts.1) == Some(r.command)
    && ParseAddress(parts.2) == Some(Address(r.path, r.startLine, r.endLine))
  }

  lemma FrontExactly(rest: string, r: Record)
    ensures ReadsFront(rest, r) <==> exists word, address :: SpellsFront(rest, r, word, address)
  {
    hide ParseAddress, SpellsAddress, TimestampShape, SpellsTimestamp, SplitThree;
    var parts, where := SplitThree(rest), Address(r.path, r.startLine, r.endLine);
    TimestampExactly(r.timestamp);
    CommandExactly(parts.1, r.command);
    AddressExactly(parts.2, where);
    if ReadsFront(rest, r) {
      EmptyAddress(where);
      ThreePartsBack(rest);
      assert SpellsFront(rest, r, parts.1, parts.2);
    }
    if word, address :| SpellsFront(rest, r, word, address) {
      assert ' ' !in "add" && ' ' !in "replace";
      SplitThreeOf(r.timestamp, word, address);
    }
  }

  lemma RecordExactly(raw: string, r: Record)
    ensures ParseRecordLine(raw) == Some(r) <==> SpellsRecord(raw, r)
  {
    hide Trim, Strips, RFind, SpellsFront, SpellsPieces, ReadsFront, ParseToken, SpellsToken;
    var line := Trim(raw);
    var k := RFind(line, ' ');
    TrimStrips(raw, line);
    RecordByParts(raw, r);
    if k < |line| {
      var rest, tail := line[..k], line[k + 1..];
      FrontExactly(rest, r);
      TokenExactly(Trim(tail), Token(r.algorithm, r.contentHash));
      LastSpaceIs(line, rest, tail);
      if ReadsFront(rest, r) && SpellsToken(Trim(tail), r.algorithm, r.contentHash) {
        var word, address :| SpellsFront(rest, r, word, address);
        FrontShape(rest, r, word, address);
        PiecesOf(line, r, word, address, rest, tail);
      }
    }
    if stripped, word, address, tail :| Strips(raw, stripped) && SpellsPieces(stripped, r, word, address, tail) {
      TrimStrips(raw, stripped);
      var rest := r.timestamp + " " + word + " " + address;
      PiecesOf(line, r, word, address, rest, tail);
      LastSpaceIs(line, rest, tail);
      FrontExactly(rest, r);
      TokenExactly(Trim(tail), Token(r.algorithm, r.contentHash));
    }
  }

  lemma RecordByParts(raw: string, r: Record)
    ensures var line := Trim(raw); var k := RFind(line, ' ');
      ParseRecordLine(raw) == Some(r) <==>
        k < |line| && ReadsFront(line[..k], r) &&
          ParseToken(Trim(line[k + 1..])) == Some(Token(r.algorithm, r.contentHash))
  {
    hide Trim, RFind, SplitThree, ParseToken, ParseAddress, TimestampShape, ParseCommand;
  }

  lemma FrontShape(rest: string, r: Record, word: string, address: string)
    requires SpellsFront(rest, r, word, address)
    ensures rest == r.timestamp + " " + word + " " + address
  {
  }

  lemma PiecesOf(line: string, r: Record, word: string, address: string, rest: string, tail: string)
    requires rest == r.timestamp + " " + word + " " + address
    ensures SpellsPieces(line, r, word, address, tail) <==>
      && line == rest + " " + tail && ' ' !in tail && SpellsFront(rest, r, word, address)
      && SpellsToken(Trim(tail), r.algorithm, r.contentHash)
  {
    hide Trim, SpellsToken, SpellsAddress, SpellsTimestamp, SpellsCommand;
  }
}
