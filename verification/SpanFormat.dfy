/** The span file: data model, text format, parser and printer. */
module SpanFormat {
  import opened Text
  import opened SpanText

  datatype Anchor = Anchor(path: string, startLine: u32, endLine: u32, algorithm: string, contentHash: string)

  datatype CopyDetection = Off | SameCommit | AnyFileInCommit | AnyFileInRepo

  datatype Config = Config(copyDetection: CopyDetection, ignoreWhitespace: bool, followMoves: bool)

  const DEFAULT_CONFIG := Config(SameCommit, false, false)

  datatype ResolveCommand = Add | Replace

  datatype Record = Record(timestamp: string, command: ResolveCommand, path: string, startLine: u32, endLine: u32,
                           algorithm: string, contentHash: string)

  datatype SpanFile = SpanFile(anchors: seq<Anchor>, why: string, resolved: seq<Record>, config: Config)

  /** Conflict markers, or malformed text at a 1-based line. */
  datatype Error = SpanConflict | InvalidSpanFile(line: nat)

  datatype Result<+T> = Ok(value: T) | Err(error: Error) {
    predicate IsFailure() { Err? }
    function PropagateFailure<U>(): Result<U>
      requires Err?
    {
      Err(error)
    }
    function Extract(): T
      requires Ok?
    {
      value
    }
  }

  datatype Identity = Identity(path: string, startLine: u32, endLine: u32)

  function RecordIdentity(r: Record): Identity { Identity(r.path, r.startLine, r.endLine) }

  const RESOLVED: string := "[resolved]"
  const CONFIG: string := "[config]"

  // --- Tokens ---

  function CopyDetectionName(c: CopyDetection): string {
    match c
    case Off => "off"
    case SameCommit => "same-commit"
    case AnyFileInCommit => "any-file-in-commit"
    case AnyFileInRepo => "any-file-in-repo"
  }

  function ParseCopyDetection(name: string): Option<CopyDetection> {
    if name == "off" then Some(Off)
    else if name == "same-commit" then Some(SameCommit)
    else if name == "any-file-in-commit" then Some(AnyFileInCommit)
    else if name == "any-file-in-repo" then Some(AnyFileInRepo)
    else None
  }

  function CommandName(c: ResolveCommand): string {
    match c
    case Add => "add"
    case Replace => "replace"
  }

  function ParseCommand(name: string): Option<ResolveCommand> {
    if name == "add" then Some(Add) else if name == "replace" then Some(Replace) else None
  }

  /** `YYYY-MM-DDTHH:MM:SSZ`, by character class only. */
  predicate TimestampShape(s: string) {
    && |s| == 20
    && IsDigit(s[0]) && IsDigit(s[1]) && IsDigit(s[2]) && IsDigit(s[3]) && s[4] == '-'
    && IsDigit(s[5]) && IsDigit(s[6]) && s[7] == '-'
    && IsDigit(s[8]) && IsDigit(s[9]) && s[10] == 'T'
    && IsDigit(s[11]) && IsDigit(s[12]) && s[13] == ':'
    && IsDigit(s[14]) && IsDigit(s[15]) && s[16] == ':'
    && IsDigit(s[17]) && IsDigit(s[18]) && s[19] == 'Z'
  }

  // --- Addresses and hash tokens ---

  function NormalizePath(path: string): (r: string)
    ensures |r| == |path|
    ensures forall i :: 0 <= i < |path| ==> r[i] == if path[i] == '\\' then '/' else path[i]
  {
    seq(|path|, i requires 0 <= i < |path| => if path[i] == '\\' then '/' else path[i])
  }

  datatype Address = Address(path: string, start: u32, end: u32)

  /** `<path>#L<start>-L<end>`, or a bare `<path>` for a whole file. */
  function ParseAddress(text: string): Option<Address> {
    var k := FindPair(text, 0, '#', 'L');
    if k < |text| then ParseRange(text[..k], text[k + 2..])
    else if '#' in text || text == [] then None
    else Some(Address(NormalizePath(text), 0, 0))
  }

  function ParseRange(path: string, fragment: string): Option<Address> {
    var j := FindPair(fragment, 0, '-', 'L');
    if path == [] || j == |fragment| then None
    else
      var start, end := ParseU32(fragment[..j]), ParseU32(fragment[j + 2..]);
      if start.None? || end.None? || start.value < 1 || end.value < start.value then None
      else Some(Address(NormalizePath(path), start.value, end.value))
  }

  datatype Token = Token(algorithm: string, hash: string)

  function ParseToken(text: string): Option<Token> {
    var colon := NextBreak(text, 0, ':');
    if colon == |text| || colon == 0 || colon + 1 == |text| then None
    else Some(Token(text[..colon], text[colon + 1..]))
  }

  function PrintAddress(path: string, start: u32, end: u32): string {
    if start == 0 && end == 0 then path else path + "#L" + ToDec(start) + "-L" + ToDec(end)
  }

  function PrintToken(algorithm: string, hash: string): string { algorithm + ":" + hash }

  // --- Anchor lines ---

  /** Splits at the last space, so paths may contain spaces. */
  function ParseAnchorLine(line: string): Option<Anchor> {
    var space := RFind(line, ' ');
    if space == |line| || space == 0 then None
    else
      var token, address := ParseToken(Trim(line[space + 1..])), ParseAddress(line[..space]);
      if token.None? || address.None? then None
      else Some(Anchor(address.value.path, address.value.start, address.value.end, token.value.algorithm,
        token.value.hash))
  }

  function PrintAnchor(a: Anchor): string {
    PrintAddress(a.path, a.startLine, a.endLine) + " " + PrintToken(a.algorithm, a.contentHash)
  }

  // --- Resolution records ---

  /** The first two space-separated pieces and the remainder. */
  function SplitThree(rest: string): (string, string, string) {
    var i := NextBreak(rest, 0, ' ');
    if i == |rest| then (rest, "", "")
    else
      var tail := rest[i + 1..];
      var j := NextBreak(tail, 0, ' ');
      if j == |tail| then (rest[..i], tail, "") else (rest[..i], tail[..j], tail[j + 1..])
  }

  function ParseRecordLine(raw: string): Option<Record> {
    var line := Trim(raw);
    var space := RFind(line, ' ');
    if space == |line| then None
    else
      var token, parts := ParseToken(Trim(line[space + 1..])), SplitThree(line[..space]);
      var command, address := ParseCommand(parts.1), ParseAddress(parts.2);
      if token.None? || !TimestampShape(parts.0) || command.None? || address.None? then None
      else Some(Record(parts.0, command.value, address.value.path, address.value.start, address.value.end,
                       token.value.algorithm, token.value.hash))
  }

  function PrintRecord(r: Record): string {
    r.timestamp + " " + CommandName(r.command) + " " + PrintAddress(r.path, r.startLine, r.endLine)
    + " " + PrintToken(r.algorithm, r.contentHash)
  }

  // --- Conflict markers ---

  predicate IsConflictMarkerLine(line: string) {
    || "<<<<<<<" <= line
    || ">>>>>>>" <= line
    || "|||||||" <= line
    || ("=======" <= line && (|line| == 7 || IsWhitespace(line[7])))
  }

  predicate HasConflictMarkers(lines: seq<string>) {
    exists i :: 0 <= i < |lines| && IsConflictMarkerLine(lines[i])
  }

  // --- The [config] block ---

  /** Up to the first `#` outside double quotes. */
  function StripComment(line: string, inString: bool): string {
    if line == [] then []
    else if line[0] == '#' && !inString then []
    else [line[0]] + StripComment(line[1..], if line[0] == '"' then !inString else inString)
  }

  function ParseBool(value: string): Option<bool> {
    if value == "true" then Some(true) else if value == "false" then Some(false) else None
  }

  function ParseQuoted(value: string): Option<CopyDetection> {
    if |value| < 2 || value[0] != '"' || value[|value| - 1] != '"' then None
    else ParseCopyDetection(value[1..|value| - 1])
  }

  datatype ConfigState = ConfigState(config: Config, seen: set<string>)

  /** One line of the block: `None` when it is refused. */
  function ConfigStep(state: ConfigState, raw: string): Option<ConfigState> {
    var line := Trim(StripComment(raw, false));
    var eq := NextBreak(line, 0, '=');
    if line == [] then Some(state)
    else if eq == |line| then None
    else
      var key, value := Trim(line[..eq]), Trim(line[eq + 1..]);
      if key in state.seen then None
      else
        var updated := ConfigUpdate(state.config, key, value);
        if updated.None? then None else Some(ConfigState(updated.value, state.seen + {key}))
  }

  function ConfigUpdate(config: Config, key: string, value: string): Option<Config> {
    if key == "copy_detection" then
      var c := ParseQuoted(value);
      if c.None? then None else Some(config.(copyDetection := c.value))
    else if key == "ignore_whitespace" then
      var b := ParseBool(value);
      if b.None? then None else Some(config.(ignoreWhitespace := b.value))
    else if key == "follow_moves" then
      var b := ParseBool(value);
      if b.None? then None else Some(config.(followMoves := b.value))
    else None
  }

  /** The block's lines from index `i` on; line `i` is file line `firstLine + i`. */
  function ParseConfigFrom(lines: seq<string>, i: nat, firstLine: nat, state: ConfigState): Result<Config>
    requires i <= |lines|
    decreases |lines| - i
  {
    if i == |lines| then Ok(state.config)
    else
      match ConfigStep(state, lines[i])
      case None => Err(InvalidSpanFile(firstLine + i))
      case Some(next) => ParseConfigFrom(lines, i + 1, firstLine, next)
  }

  function PrintBool(b: bool): string { if b then "true" else "false" }

  function ConfigLine(key: string, value: string): string { key + " = " + value }

  function ConfigLines(config: Config): seq<string> {
    if config == DEFAULT_CONFIG then []
    else [
      CONFIG,
      ConfigLine("copy_detection", "\"" + CopyDetectionName(config.copyDetection) + "\""),
      ConfigLine("ignore_whitespace", PrintBool(config.ignoreWhitespace)),
      ConfigLine("follow_moves", PrintBool(config.followMoves))
    ]
  }

  // --- The parser, as a specification ---

  /** Anchor block, why text and the 1-based line of its first line. */
  function SplitBlocks(input: string): (string, string, nat) {
    var k := FindPair(input, 0, '\n', '\n');
    if k < |input| then (input[..k], input[k + 2..], Count(input[..k], '\n') + 3)
    else if input != [] && input[0] == '\n' then ("", input[LeadingNewlines(input)..], LeadingNewlines(input) + 1)
    else (input, "", 1)
  }

  function LeadingNewlines(s: string): (n: nat)
    ensures n <= |s|
  {
    if s != [] && s[0] == '\n' then 1 + LeadingNewlines(s[1..]) else 0
  }

  function Prepend<T>(front: seq<T>, r: Result<seq<T>>): Result<seq<T>> {
    if r.Ok? then Ok(front + r.value) else r
  }

  datatype AnchorLine = Blank | Malformed | Good(anchor: Anchor)

  function ReadAnchorLine(raw: string): AnchorLine {
    var line := Trim(raw);
    if line == [] then Blank
    else
      var a := ParseAnchorLine(line);
      if a.None? then Malformed else Good(a.value)
  }

  function ParseAnchorsFrom(read: string -> AnchorLine, lines: seq<string>, i: nat): Result<seq<Anchor>>
    requires i <= |lines|
    decreases |lines| - i
  {
    if i == |lines| then Ok([])
    else
      match read(lines[i])
      case Blank => ParseAnchorsFrom(read, lines, i + 1)
      case Malformed => Err(InvalidSpanFile(i + 1))
      case Good(a) => Prepend([a], ParseAnchorsFrom(read, lines, i + 1))
  }

  /** Position of the first line in `lines[i..n]` satisfying `p`, or `n`. */
  function First(lines: seq<string>, i: nat, n: nat, p: string -> bool): (k: nat)
    requires i <= n <= |lines|
    ensures i <= k <= n && (k < n ==> p(lines[k]))
    ensures forall j :: i <= j < k ==> !p(lines[j])
    decreases n - i
  {
    if i == n || p(lines[i]) then i else First(lines, i + 1, n, p)
  }

  predicate IsConfigMarker(line: string) { Trim(line) == CONFIG }

  predicate IsResolvedMarker(line: string) { line == RESOLVED }

  predicate ReadsAsRecord(line: string) { ParseRecordLine(line).Some? }

  /** A record line whose identity was not declared before. */
  function ReadRecordLine(read: string -> Option<Record>, raw: string, seen: set<Identity>): Option<Record> {
    var r := read(raw);
    if r.None? || RecordIdentity(r.value) in seen then None else r
  }

  function ParseRecordsFrom(read: string -> Option<Record>, lines: seq<string>, i: nat, n: nat, firstLine: nat,
                            seen: set<Identity>): Result<seq<Record>>
    requires i <= n <= |lines|
    decreases n - i
  {
    if i == n then Ok([])
    else
      match ReadRecordLine(read, lines[i], seen)
      case None => Err(InvalidSpanFile(firstLine + i))
      case Some(r) => Prepend([r], ParseRecordsFrom(read, lines, i + 1, n, firstLine, seen + {RecordIdentity(r)}))
  }

  datatype WhyRegion = WhyRegion(why: string, resolved: seq<Record>, config: Config)

  const START: ConfigState := ConfigState(DEFAULT_CONFIG, {})

  /** The `[config]` block after its marker at `c`, the default without one. */
  function ConfigAt(lines: seq<string>, c: nat, firstLine: nat): Result<Config>
    requires c <= |lines|
  {
    if c < |lines| then ParseConfigFrom(lines, c + 1, firstLine, START) else Ok(DEFAULT_CONFIG)
  }

  /** The records between the `[resolved]` marker at `m` and `c`. */
  function RecordsAt(read: string -> Option<Record>, lines: seq<string>, m: nat, c: nat,
                     firstLine: nat): Result<seq<Record>>
    requires m <= c <= |lines|
  {
    if m < c then ParseRecordsFrom(read, lines, m + 1, c, firstLine, {}) else Ok([])
  }

  /** The first `m` lines as prose; one that reads as a record is refused. */
  function ProseText(lines: seq<string>, m: nat, firstLine: nat): Result<string>
    requires m <= |lines|
  {
    var bad := First(lines, 0, m, ReadsAsRecord);
    if bad < m then Err(InvalidSpanFile(firstLine + bad)) else Ok(TrimEnd(Join(lines[..m], '\n')))
  }

  /** Everything after the separator: `[config]` is cut off first, then
      `[resolved]`, and the remaining prose must not look like a record. */
  function ParseWhyRegion(lines: seq<string>, firstLine: nat): Result<WhyRegion> {
    var c := First(lines, 0, |lines|, IsConfigMarker);
    var config :- ConfigAt(lines, c, firstLine);
    var m := First(lines, 0, c, IsResolvedMarker);
    var resolved :- RecordsAt(ParseRecordLine, lines, m, c, firstLine);
    var why :- ProseText(lines, m, firstLine);
    Ok(WhyRegion(why, resolved, config))
  }

  function TextLines(s: string): seq<string> { StrLines(s, '\n', '\r') }

  function ParseNormalized(input: string): Result<SpanFile> {
    if HasConflictMarkers(TextLines(input)) then Err(SpanConflict)
    else
      var blocks := SplitBlocks(input);
      var anchors :- ParseAnchorsFrom(ReadAnchorLine, TextLines(blocks.0), 0);
      var region :- ParseWhyRegion(TextLines(blocks.1), blocks.2);
      Ok(SpanFile(anchors, region.why, region.resolved, region.config))
  }

  function Parse(input: string): Result<SpanFile> { ParseNormalized(ReplaceCrLf(input)) }

  // --- The printer, as a specification ---

  function AnchorLines(anchors: seq<Anchor>): (r: seq<string>)
    ensures |r| == |anchors| && forall i :: 0 <= i < |r| ==> r[i] == PrintAnchor(anchors[i])
  {
    seq(|anchors|, i requires 0 <= i < |anchors| => PrintAnchor(anchors[i]))
  }

  function RecordLines(records: seq<Record>): (r: seq<string>)
    ensures |r| == |records| && forall i :: 0 <= i < |r| ==> r[i] == PrintRecord(records[i])
  {
    seq(|records|, i requires 0 <= i < |records| => PrintRecord(records[i]))
  }

  function ResolvedLines(resolved: seq<Record>): seq<string> {
    if resolved == [] then [] else [RESOLVED] + RecordLines(resolved)
  }

  /** The structured sections: `[resolved]` when there are records, then a
      `[config]` block when it is not the default. */
  function SectionLines(resolved: seq<Record>, config: Config): seq<string> {
    ResolvedLines(resolved) + ConfigLines(config)
  }

  /** Two newlines stand in for an absent anchor block. */
  function PrintHead(anchors: seq<Anchor>, more: bool): string {
    if anchors != [] then Unlines(AnchorLines(anchors), '\n') + "\n" else if more then "\n\n" else ""
  }

  /** Prose, and a blank line when a section follows it. */
  function PrintWhy(why: string, followed: bool): string {
    if why == [] then "" else if followed then why + "\n" + "\n" else why + "\n"
  }

  function PrintTail(why: string, sections: seq<string>): string {
    PrintWhy(why, sections != []) + Unlines(sections, '\n')
  }

  function Serialize(x: SpanFile): string {
    var sections := SectionLines(x.resolved, x.config);
    PrintHead(x.anchors, x.why != [] || sections != []) + PrintTail(x.why, sections)
  }

  // --- The imperative parser ---

  method ParseConfigBlock(lines: seq<string>, c: nat, firstLine: nat) returns (r: Result<Config>)
    requires c <= |lines|
    ensures r == ConfigAt(lines, c, firstLine)
  {
    if c == |lines| {
      return Ok(DEFAULT_CONFIG);
    }
    var state := START;
    for i := c + 1 to |lines|
      invariant ParseConfigFrom(lines, i, firstLine, state) == ParseConfigFrom(lines, c + 1, firstLine, START)
    {
      var next := ConfigStep(state, lines[i]);
      match next {
        case None => return Err(InvalidSpanFile(firstLine + i));
        case Some(s) => state := s;
      }
    }
    return Ok(state.config);
  }

  lemma PrependPrepend<T>(front: seq<T>, x: T, r: Result<seq<T>>)
    ensures Prepend(front, Prepend([x], r)) == Prepend(front + [x], r)
  {
    if r.Ok? {
      assert front + ([x] + r.value) == front + [x] + r.value;
    }
  }

  lemma PrependNothing<T>(r: Result<seq<T>>)
    ensures Prepend([], r) == r
  {
    if r.Ok? {
      assert [] + r.value == r.value;
    }
  }

  method ParseAnchorBlock(lines: seq<string>) returns (r: Result<seq<Anchor>>)
    ensures r == ParseAnchorsFrom(ReadAnchorLine, lines, 0)
  {
    var anchors: seq<Anchor> := [];
    PrependNothing(ParseAnchorsFrom(ReadAnchorLine, lines, 0));
    for i := 0 to |lines|
      invariant Prepend(anchors, ParseAnchorsFrom(ReadAnchorLine, lines, i)) ==
        ParseAnchorsFrom(ReadAnchorLine, lines, 0)
    {
      var read := ReadAnchorLine(lines[i]);
      match read {
        case Blank =>
        case Malformed => return Err(InvalidSpanFile(i + 1));
        case Good(a) =>
          PrependPrepend(anchors, a, ParseAnchorsFrom(ReadAnchorLine, lines, i + 1));
          anchors := anchors + [a];
      }
    }
    assert anchors + [] == anchors;
    return Ok(anchors);
  }

  lemma ParseRecordsStep(read: string -> Option<Record>, records: seq<Record>, lines: seq<string>, i: nat, n: nat,
                         firstLine: nat,
                         seen: set<Identity>, got: Option<Record>)
    requires i < n <= |lines| && got == ReadRecordLine(read, lines[i], seen)
    ensures got.None? ==>
      Prepend(records, ParseRecordsFrom(read, lines, i, n, firstLine, seen)) == Err(InvalidSpanFile(firstLine + i))
    ensures got.Some? ==> var seen' := seen + {RecordIdentity(got.value)};
      Prepend(records, ParseRecordsFrom(read, lines, i, n, firstLine, seen)) ==
      Prepend(records + [got.value], ParseRecordsFrom(read, lines, i + 1, n, firstLine, seen'))
  {
    if got.Some? {
      PrependPrepend(records, got.value,
        ParseRecordsFrom(read, lines, i + 1, n, firstLine, seen + {RecordIdentity(got.value)}));
    }
  }

  method ParseRecordBlock(read: string -> Option<Record>, lines: seq<string>, m: nat, c: nat, firstLine: nat)
    returns (r: Result<seq<Record>>)
    requires m < c <= |lines|
    ensures r == ParseRecordsFrom(read, lines, m + 1, c, firstLine, {})
  {
    var records: seq<Record>, identities: set<Identity> := [], {};
    ghost var expected := ParseRecordsFrom(read, lines, m + 1, c, firstLine, {});
    PrependNothing(expected);
    for i := m + 1 to c
      invariant Prepend(records, ParseRecordsFrom(read, lines, i, c, firstLine, identities)) == expected
    {
      var got := ReadRecordLine(read, lines[i], identities);
      ParseRecordsStep(read, records, lines, i, c, firstLine, identities, got);
      if got.None? {
        return Err(InvalidSpanFile(firstLine + i));
      }
      identities := identities + {RecordIdentity(got.value)};
      records := records + [got.value];
    }
    assert records + [] == records;
    return Ok(records);
  }

  method ParseResolvedSection(lines: seq<string>, m: nat, c: nat, firstLine: nat) returns (r: Result<seq<Record>>)
    requires m <= c <= |lines|
    ensures r == RecordsAt(ParseRecordLine, lines, m, c, firstLine)
  {
    if m == c {
      return Ok([]);
    }
    r := ParseRecordBlock(ParseRecordLine, lines, m, c, firstLine);
  }

  method ReadWhyRegion(lines: seq<string>, firstLine: nat) returns (r: Result<WhyRegion>)
    ensures r == ParseWhyRegion(lines, firstLine)
  {
    var c := First(lines, 0, |lines|, IsConfigMarker);
    var config :- ParseConfigBlock(lines, c, firstLine);
    var m := First(lines, 0, c, IsResolvedMarker);
    var resolved :- ParseResolvedSection(lines, m, c, firstLine);
    var why :- ProseText(lines, m, firstLine);
    return Ok(WhyRegion(why, resolved, config));
  }

  method ParseSpanFile(source: string) returns (r: Result<SpanFile>)
    ensures r == Parse(source)
  {
    var input := ReplaceCrLf(source);
    if HasConflictMarkers(TextLines(input)) {
      return Err(SpanConflict);
    }
    var blocks := SplitBlocks(input);
    var anchors :- ParseAnchorBlock(TextLines(blocks.0));
    var region :- ReadWhyRegion(TextLines(blocks.1), blocks.2);
    return Ok(SpanFile(anchors, region.why, region.resolved, region.config));
  }

  // --- The imperative printer ---

  lemma UnlinesSnoc(lines: seq<string>, line: string)
    ensures Unlines(lines + [line], '\n') == Unlines(lines, '\n') + line + "\n"
  {
    UnlinesAppend(lines, [line], '\n');
    assert Unlines([line], '\n') == line + ['\n'] + Unlines([line][1..], '\n');
  }

  method PrintLines(out0: string, lines: seq<string>) returns (out: string)
    ensures out == out0 + Unlines(lines, '\n')
  {
    out := out0;
    for i := 0 to |lines|
      invariant out == out0 + Unlines(lines[..i], '\n')
    {
      assert lines[..i + 1] == lines[..i] + [lines[i]];
      UnlinesSnoc(lines[..i], lines[i]);
      out := out + lines[i] + "\n";
    }
    assert lines[..|lines|] == lines;
  }

  method PrintHeadTo(x: SpanFile, hasConfig: bool) returns (out: string)
    ensures out == PrintHead(x.anchors, x.why != [] || x.resolved != [] || hasConfig)
  {
    out := PrintLines("", AnchorLines(x.anchors));
    if x.anchors != [] || x.why != [] || x.resolved != [] || hasConfig {
      out := out + "\n";
      if x.anchors == [] {
        out := out + "\n";
      }
    }
  }

  lemma NoRecordLines()
    ensures Unlines(ResolvedLines([]), '\n') == []
  {
  }

  method PrintRecordsTo(out0: string, why: string, resolved: seq<Record>) returns (out: string)
    ensures out == out0 + PrintWhy(why, resolved != []) + Unlines(ResolvedLines(resolved), '\n')
  {
    NoRecordLines();
    hide Unlines, ResolvedLines;
    out := out0;
    if why != [] {
      out := out + why + "\n";
    }
    if resolved != [] {
      if why != [] {
        out := out + "\n";
      }
      out := PrintLines(out, ResolvedLines(resolved));
    }
  }

  lemma SerializeParts(x: SpanFile, head: string, middle: string, records: seq<string>, config: seq<string>)
    requires head == PrintHead(x.anchors, x.why != [] || x.resolved != [] || x.config != DEFAULT_CONFIG)
    requires records == ResolvedLines(x.resolved) && config == ConfigLines(x.config)
    requires middle == PrintWhy(x.why, records != [] || config != [])
    ensures Serialize(x) == head + middle + Unlines(records, '\n') + Unlines(config, '\n')
  {
    var a, b := Unlines(records, '\n'), Unlines(config, '\n');
    calc {
      Serialize(x);
      head + (middle + Unlines(records + config, '\n'));
      { UnlinesAppend(records, config, '\n'); }
      head + (middle + (a + b));
      { ConcatFour(head, middle, a, b); }
      head + middle + a + b;
    }
  }

  lemma ConcatFour(a: string, b: string, c: string, d: string)
    ensures a + (b + (c + d)) == a + b + c + d
  {
  }

  method SerializeSpanFile(x: SpanFile) returns (out: string)
    ensures out == Serialize(x)
  {
    var hasConfig := x.config != DEFAULT_CONFIG;
    var head := PrintHeadTo(x, hasConfig);
    out := PrintRecordsTo(head, x.why, x.resolved);
    ghost var records, config, middle := ResolvedLines(x.resolved), ConfigLines(x.config),
      PrintWhy(x.why, x.resolved != [] || hasConfig);
    if hasConfig {
      if x.why != [] && x.resolved == [] {
        out := out + "\n";
        assert out == head + middle + Unlines(records, '\n');
      }
      out := PrintLines(out, ConfigLines(x.config));
    }
    SerializeParts(x, head, middle, records, config);
  }
}
