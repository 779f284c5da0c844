/** The grammar of the `[config]` block, and that its reader accepts exactly it. */
module SpanConfig {
  import opened Text
  import opened SpanText
  import opened SpanFormat
  import opened SpanGrammar

  // --- Lines of the [config] block ---

  predicate Even(s: string) { Count(s, '"') % 2 == 0 }

  /** `body` is what precedes the first `#` outside double quotes. */
  ghost predicate Uncommented(raw: string, body: string) {
    && body <= raw
    && (|body| < |raw| ==> raw[|body|] == '#' && Even(body))
    && forall j :: 0 <= j < |body| && raw[j] == '#' ==> !Even(raw[..j])
  }

  predicate Outside(s: string, inString: bool) { Even(s) != inString }

  lemma {:induction false} StripCommentFrom(raw: string, inString: bool)
    ensures var body := StripComment(raw, inString);
      && body <= raw
      && (|body| < |raw| ==> raw[|body|] == '#' && Outside(body, inString))
      && forall j :: 0 <= j < |body| && raw[j] == '#' ==> !Outside(raw[..j], inString)
  {
    hide Outside;
    OutsideNothing(inString);
    if raw != [] && !(raw[0] == '#' && !inString) {
      var next := if raw[0] == '"' then !inString else inString;
      StripCommentFrom(raw[1..], next);
      var body, rest := StripComment(raw, inString), StripComment(raw[1..], next);
      assert body == [raw[0]] + rest;
      OutsideCons(raw[0], rest, inString);
      forall j | 0 <= j < |body| && raw[j] == '#'
        ensures !Outside(raw[..j], inString)
      {
        if j > 0 {
          assert raw[..j] == [raw[0]] + raw[1..][..j - 1];
          OutsideCons(raw[0], raw[1..][..j - 1], inString);
        }
      }
    }
  }

  lemma OutsideNothing(inString: bool)
    ensures Outside([], inString) == !inString
  {
  }

  lemma OutsideCons(c: char, s: string, inString: bool)
    ensures Outside([c] + s, inString) == Outside(s, if c == '"' then !inString else inString)
  {
    assert ([c] + s)[1..] == s;
  }

  lemma Uncommenteds(raw: string, a: string, b: string)
    requires Uncommented(raw, a) && Uncommented(raw, b)
    ensures |b| <= |a|
  {
    hide Even;
    assert raw[..|a|] == a;
  }

  lemma UncommentedExactly(raw: string, body: string)
    ensures StripComment(raw, false) == body <==> Uncommented(raw, body)
  {
    hide StripComment, Even;
    var first := StripComment(raw, false);
    StripCommentFrom(raw, false);
    if Uncommented(raw, body) {
      Uncommenteds(raw, body, first);
      Uncommenteds(raw, first, body);
      assert raw[..|body|] == body && raw[..|first|] == first;
    }
  }

  /** The line assigns `value` to `key`. */
  ghost predicate Assigns(raw: string, key: string, value: string) {
    exists body, line, k, v :: AssignsBy(raw, key, value, body, line, k, v)
  }

  ghost predicate AssignsBy(raw: string, key: string, value: string, body: string, line: string, k: string, v: string) {
    && Uncommented(raw, body) && Strips(body, line)
    && line == k + "=" + v && '=' !in k && Strips(k, key) && Strips(v, value)
  }

  /** Nothing but whitespace and a comment. */
  ghost predicate Idle(raw: string) { exists body :: Uncommented(raw, body) && AllBlank(body) }

  /** What the reader makes of a line: nothing, a malformed line, or an assignment. */
  datatype Reading = Nothing | Garbled | Assignment(key: string, value: string)

  function Read(raw: string): Reading {
    var line := Trim(StripComment(raw, false));
    var eq := NextBreak(line, 0, '=');
    if line == [] then Nothing else if eq == |line| then Garbled else Assignment(Trim(line[..eq]), Trim(line[eq + 1..]))
  }

  lemma StripsNothing(s: string)
    ensures Strips(s, []) <==> AllBlank(s)
  {
    if AllBlank(s) {
      assert s == s + [] + [];
    }
    if Strips(s, []) {
      var u, v :| s == u + [] + v && AllBlank(u) && AllBlank(v);
      forall i | 0 <= i < |s|
        ensures IsWhitespace(s[i])
      {
        assert s[i] == if i < |u| then u[i] else v[i - |u|];
      }
    }
  }

  lemma ReadExactly(raw: string, key: string, value: string)
    ensures Read(raw) == Assignment(key, value) <==> Assigns(raw, key, value)
    ensures Read(raw) == Nothing <==> Idle(raw)
  {
    hide StripComment, Uncommented, Trim, Strips, AllBlank;
    var body := StripComment(raw, false);
    UncommentedExactly(raw, body);
    StripsNothing(body);
    TrimStrips(body, []);
    if b :| Uncommented(raw, b) && AllBlank(b) {
      UncommentedExactly(raw, b);
    }
    if Read(raw) == Assignment(key, value) {
      ReadAssigns(raw, key, value);
    }
    if b, l, k, v :| AssignsBy(raw, key, value, b, l, k, v) {
      AssignsRead(raw, key, value, b, l, k, v);
    }
  }

  lemma ReadAssigns(raw: string, key: string, value: string)
    requires Read(raw) == Assignment(key, value)
    ensures Assigns(raw, key, value)
  {
    hide StripComment, Uncommented, Trim, Strips;
    var body := StripComment(raw, false);
    var line := Trim(body);
    var eq := NextBreak(line, 0, '=');
    UncommentedExactly(raw, body);
    TrimStrips(body, line);
    TrimStrips(line[..eq], key);
    TrimStrips(line[eq + 1..], value);
    CutBack(line, eq, '=');
    assert AssignsBy(raw, key, value, body, line, line[..eq], line[eq + 1..]);
  }

  lemma AssignsRead(raw: string, key: string, value: string, body: string, line: string, k: string, v: string)
    requires AssignsBy(raw, key, value, body, line, k, v)
    ensures Read(raw) == Assignment(key, value)
  {
    hide StripComment, Uncommented, Trim, Strips;
    UncommentedExactly(raw, body);
    TrimStrips(body, line);
    assert line[..|k|] == k && line[|k| + 1..] == v;
    NextBreakUnique(line, 0, '=', |k|);
    TrimStrips(k, key);
    TrimStrips(v, value);
  }

  const KEYS: set<string> := {"copy_detection", "ignore_whitespace", "follow_moves"}

  function CopyName(c: CopyDetection): string {
    if c == Off then "off"
    else if c == SameCommit then "same-commit"
    else if c == AnyFileInCommit then "any-file-in-commit"
    else "any-file-in-repo"
  }

  function BoolName(b: bool): string { if b then "true" else "false" }

  /** How the block spells what the configuration has under the key. */
  function Field(config: Config, key: string): string {
    if key == "copy_detection" then "\"" + CopyName(config.copyDetection) + "\""
    else if key == "ignore_whitespace" then BoolName(config.ignoreWhitespace)
    else BoolName(config.followMoves)
  }

  ghost predicate AssignsKey(raw: string, key: string) { exists value :: Assigns(raw, key, value) }

  ghost predicate AssignsIn(lines: seq<string>,
                            key: string) { exists i :: 0 <= i < |lines| && AssignsKey(lines[i], key) }

  /** A line of the block that the configuration allows. */
  ghost predicate Allows(config: Config, raw: string) {
    Idle(raw) || exists key :: key in KEYS && Assigns(raw, key, Field(config, key))
  }

  /** A block: lines that are idle or assign what the configuration has, no key
      twice, and the defaults for what is not assigned. */
  ghost predicate SpellsConfig(lines: seq<string>, config: Config) {
    && (forall i :: 0 <= i < |lines| ==> Allows(config, lines[i]))
    && (forall i, j, key :: 0 <= i < j < |lines| && AssignsKey(lines[i], key) ==> !AssignsKey(lines[j], key))
    && forall key :: key in KEYS && !AssignsIn(lines, key) ==>
         Field(config, key) == Field(Config(SameCommit, false, false), key)
  }

  // --- The reader of the block ---

  lemma CopyNamesDiffer(a: CopyDetection, b: CopyDetection)
    ensures "\"" + CopyName(a) + "\"" == "\"" + CopyName(b) + "\"" ==> a == b
  {
    assert ("\"" + CopyName(a) + "\"")[1..|CopyName(a)| + 1] == CopyName(a);
    assert ("\"" + CopyName(b) + "\"")[1..|CopyName(b)| + 1] == CopyName(b);
  }

  lemma QuotedExactly(value: string, c: CopyDetection)
    ensures ParseQuoted(value) == Some(c) <==> value == "\"" + CopyName(c) + "\""
  {
    if |value| >= 2 && value[0] == '"' && value[|value| - 1] == '"' {
      assert value == "\"" + value[1..|value| - 1] + "\"";
    }
    if value == "\"" + CopyName(c) + "\"" {
      assert value[1..|value| - 1] == CopyName(c);
    }
  }

  lemma BoolExactly(value: string, b: bool)
    ensures ParseBool(value) == Some(b) <==> value == BoolName(b)
  {
  }

  lemma UpdateExactly(from: Config, key: string, value: string, to: Config)
    ensures ConfigUpdate(from, key, value) == Some(to) <==>
      && key in KEYS && Field(to, key) == value
      && forall other :: other in KEYS && other != key ==> Field(to, other) == Field(from, other)
  {
    hide ParseQuoted, ParseBool, CopyName, BoolName;
    QuotedExactly(value, to.copyDetection);
    BoolExactly(value, to.ignoreWhitespace);
    BoolExactly(value, to.followMoves);
    KeysDiffer();
    FieldsOf(from, to);
  }

  lemma KeysDiffer()
    ensures "copy_detection" != "ignore_whitespace" && "copy_detection" != "follow_moves"
    ensures "ignore_whitespace" != "follow_moves"
  {
  }

  lemma FieldsOf(a: Config, b: Config)
    ensures Field(a, "copy_detection") == Field(b, "copy_detection") ==> a.copyDetection == b.copyDetection
    ensures Field(a, "ignore_whitespace") == Field(b, "ignore_whitespace") ==> a.ignoreWhitespace == b.ignoreWhitespace
    ensures Field(a, "follow_moves") == Field(b, "follow_moves") ==> a.followMoves == b.followMoves
  {
    KeysDiffer();
    CopyNamesDiffer(a.copyDetection, b.copyDetection);
  }

  /** A value some configuration has under the key is accepted for it. */
  lemma UpdateExists(from: Config, key: string, config: Config) returns (to: Config)
    requires key in KEYS
    ensures ConfigUpdate(from, key, Field(config, key)) == Some(to)
  {
    KeysDiffer();
    to := if key == "copy_detection" then from.(copyDetection := config.copyDetection)
          else if key == "ignore_whitespace" then from.(ignoreWhitespace := config.ignoreWhitespace)
          else from.(followMoves := config.followMoves);
    UpdateExactly(from, key, Field(config, key), to);
  }

  lemma StepRead(state: ConfigState, raw: string)
    ensures ConfigStep(state, raw) ==
      match Read(raw)
      case Nothing => Some(state)
      case Garbled => None
      case Assignment(key, value) =>
        if key in state.seen then None
        else
          var updated := ConfigUpdate(state.config, key, value);
          if updated.None? then None else Some(ConfigState(updated.value, state.seen + {key}))
  {
    hide ConfigUpdate, Trim, StripComment;
  }

  predicate ReadsKey(raw: string, key: string) { Read(raw).Assignment? && Read(raw).key == key }

  predicate Fits(raw: string, seen: set<string>, config: Config) {
    match Read(raw)
    case Nothing => true
    case Garbled => false
    case Assignment(key, value) => key in KEYS && key !in seen && value == Field(config, key)
  }

  ghost predicate ReadsNowhere(lines: seq<string>, key: string) {
    forall i :: 0 <= i < |lines| ==> !ReadsKey(lines[i], key)
  }

  ghost predicate KeysOnce(lines: seq<string>) {
    forall i, j, key :: 0 <= i < j < |lines| && ReadsKey(lines[i], key) ==> !ReadsKey(lines[j], key)
  }

  /** The lines take the configuration `from`, with the keys `seen` taken, to `config`. */
  ghost predicate Leads(lines: seq<string>, seen: set<string>, from: Config, config: Config) {
    && (forall i :: 0 <= i < |lines| ==> Fits(lines[i], seen, config))
    && KeysOnce(lines)
    && forall key :: key in KEYS && ReadsNowhere(lines, key) ==> Field(config, key) == Field(from, key)
  }

  lemma FieldsDetermine(a: Config, b: Config)
    ensures a == b <==> forall key :: key in KEYS ==> Field(a, key) == Field(b, key)
  {
    FieldsOf(a, b);
    assert "copy_detection" in KEYS && "ignore_whitespace" in KEYS && "follow_moves" in KEYS;
  }

  lemma NowhereCons(raw: string, rest: seq<string>, key: string)
    ensures ReadsNowhere([raw] + rest, key) <==> !ReadsKey(raw, key) && ReadsNowhere(rest, key)
  {
    hide ReadsKey;
    var lines := [raw] + rest;
    assert forall i :: 0 <= i < |rest| ==> lines[i + 1] == rest[i];
    assert lines[0] == raw;
  }

  lemma OnceCons(raw: string, rest: seq<string>)
    ensures KeysOnce([raw] + rest) <==>
      KeysOnce(rest) && forall key :: ReadsKey(raw, key) ==> ReadsNowhere(rest, key)
  {
    hide ReadsKey;
    var lines := [raw] + rest;
    assert forall i :: 0 <= i < |rest| ==> lines[i + 1] == rest[i];
    assert lines[0] == raw;
    if KeysOnce(lines) {
      forall i, j, key | 0 <= i < j < |rest| && ReadsKey(rest[i], key)
        ensures !ReadsKey(rest[j], key)
      {
        assert ReadsKey(lines[i + 1], key) && lines[j + 1] == rest[j];
      }
      forall key, i | ReadsKey(raw, key) && 0 <= i < |rest|
        ensures !ReadsKey(rest[i], key)
      {
        assert ReadsKey(lines[0], key) && lines[i + 1] == rest[i];
      }
    }
  }

  lemma LeadsIdle(raw: string, rest: seq<string>, seen: set<string>, from: Config, config: Config)
    requires Read(raw) == Nothing
    ensures Leads([raw] + rest, seen, from, config) <==> Leads(rest, seen, from, config)
  {
    hide Read, KeysOnce, ReadsNowhere, Field;
    OnceCons(raw, rest);
    forall key
      ensures ReadsNowhere([raw] + rest, key) <==> !ReadsKey(raw, key) && ReadsNowhere(rest, key)
    {
      NowhereCons(raw, rest, key);
    }
    FitsCons(raw, rest, seen, config);
  }

  lemma FitsCons(raw: string, rest: seq<string>, seen: set<string>, config: Config)
    ensures var lines := [raw] + rest;
      (forall i :: 0 <= i < |lines| ==> Fits(lines[i], seen, config)) <==>
        Fits(raw, seen, config) && forall i :: 0 <= i < |rest| ==> Fits(rest[i], seen, config)
  {
    hide Fits;
    var lines := [raw] + rest;
    assert forall i :: 0 <= i < |rest| ==> lines[i + 1] == rest[i];
    assert lines[0] == raw;
  }

  /** The lines behind an assignment go on from what it made of the configuration. */
  lemma LeadsAssigned(raw: string, rest: seq<string>, seen: set<string>, from: Config, to: Config, config: Config)
    requires Read(raw).Assignment? && Read(raw).key !in seen
    requires ConfigUpdate(from, Read(raw).key, Read(raw).value) == Some(to)
    ensures Leads([raw] + rest, seen, from, config) <==> Leads(rest, seen + {Read(raw).key}, to, config)
  {
    hide Read, KeysOnce, ReadsNowhere, Field, ConfigUpdate;
    var key, value := Read(raw).key, Read(raw).value;
    UpdateExactly(from, key, value, to);
    OnceCons(raw, rest);
    forall k
      ensures ReadsNowhere([raw] + rest, k) <==> !ReadsKey(raw, k) && ReadsNowhere(rest, k)
    {
      NowhereCons(raw, rest, k);
    }
    FitsCons(raw, rest, seen, config);
    FitsWithout(rest, seen, key, config);
    assert ReadsKey(raw, key);
  }

  lemma FitsWithout(rest: seq<string>, seen: set<string>, key: string, config: Config)
    ensures (forall i :: 0 <= i < |rest| ==> Fits(rest[i], seen + {key}, config)) <==>
      ReadsNowhere(rest, key) && forall i :: 0 <= i < |rest| ==> Fits(rest[i], seen, config)
  {
    hide Read, Field;
  }

  lemma LeadsRefused(raw: string, rest: seq<string>, seen: set<string>, from: Config, config: Config)
    requires ConfigStep(ConfigState(from, seen), raw) == None
    ensures !Leads([raw] + rest, seen, from, config)
  {
    hide ConfigStep, Read, KeysOnce, ReadsNowhere, Field, ConfigUpdate;
    StepRead(ConfigState(from, seen), raw);
    FitsCons(raw, rest, seen, config);
    if Fits(raw, seen, config) && Read(raw).Assignment? {
      var to := UpdateExists(from, Read(raw).key, config);
    }
  }

  lemma {:induction false} BlockLeads(lines: seq<string>, i: nat, firstLine: nat, state: ConfigState, config: Config)
    requires i <= |lines|
    ensures ParseConfigFrom(lines, i, firstLine, state) == Ok(config) <==>
      Leads(lines[i..], state.seen, state.config, config)
    decreases |lines| - i
  {
    hide ConfigStep, Read, Leads, ConfigUpdate;
    if i == |lines| {
      assert lines[i..] == [];
      NothingLeads(state.seen, state.config, config);
    } else {
      var raw, rest := lines[i], lines[i + 1..];
      assert lines[i..] == [raw] + rest;
      StepRead(state, raw);
      match ConfigStep(state, raw)
      case None => LeadsRefused(raw, rest, state.seen, state.config, config);
      case Some(next) =>
        BlockLeads(lines, i + 1, firstLine, next, config);
        if Read(raw) == Nothing {
          LeadsIdle(raw, rest, state.seen, state.config, config);
        } else {
          LeadsAssigned(raw, rest, state.seen, state.config, next.config, config);
        }
    }
  }

  lemma NothingLeads(seen: set<string>, from: Config, config: Config)
    ensures Leads([], seen, from, config) <==> from == config
  {
    hide Field;
    FieldsDetermine(from, config);
    assert forall key :: ReadsNowhere([], key);
  }

  lemma FitsIsAllowed(raw: string, config: Config)
    ensures Fits(raw, {}, config) <==> Allows(config, raw)
  {
    hide Field, Read, Idle, Assigns, KEYS;
    forall key, value
      ensures Read(raw) == Assignment(key, value) <==> Assigns(raw, key, value)
      ensures Read(raw) == Nothing <==> Idle(raw)
    {
      ReadExactly(raw, key, value);
    }
    ReadExactly(raw, [], []);
  }

  lemma KeyIsAssigned(raw: string, key: string)
    ensures ReadsKey(raw, key) <==> AssignsKey(raw, key)
  {
    hide Read, Assigns;
    forall value
      ensures Read(raw) == Assignment(key, value) <==> Assigns(raw, key, value)
    {
      ReadExactly(raw, key, value);
    }
    if ReadsKey(raw, key) {
      assert Read(raw) == Assignment(key, Read(raw).value);
    }
  }

  lemma LeadsSpells(lines: seq<string>, config: Config)
    ensures Leads(lines, {}, DEFAULT_CONFIG, config) <==> SpellsConfig(lines, config)
  {
    hide Field, Fits, Allows, ReadsKey, AssignsKey;
    forall raw
      ensures Fits(raw, {}, config) <==> Allows(config, raw)
    {
      FitsIsAllowed(raw, config);
    }
    forall raw, key
      ensures ReadsKey(raw, key) <==> AssignsKey(raw, key)
    {
      KeyIsAssigned(raw, key);
    }
  }

  /** The block is accepted with a configuration exactly when it spells it. */
  lemma ConfigExactly(lines: seq<string>, c: nat, firstLine: nat, config: Config)
    requires c < |lines|
    ensures ConfigAt(lines, c, firstLine) == Ok(config) <==> SpellsConfig(lines[c + 1..], config)
  {
    hide ParseConfigFrom, Leads, SpellsConfig;
    BlockLeads(lines, c + 1, firstLine, START, config);
    LeadsSpells(lines[c + 1..], config);
  }
}
