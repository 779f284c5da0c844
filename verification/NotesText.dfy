/** The canonical text is injective: it is an identity, not a digest. */
module NotesText {
  import opened NotesJson

  // --- serde_json's compact form ---

  function HexDigit(v: nat): char
    requires v < 16
  {
    if v < 10 then '0' + v as char else 'a' + (v - 10) as char
  }

  /** Section 7 of RFC 8259, with the short escapes where they exist. */
  function EscapeChar(c: char): string {
    if c == '"' then "\\\""
    else if c == '\\' then "\\\\"
    else if c as int == 8 then "\\b"
    else if c as int == 12 then "\\f"
    else if c == '\n' then "\\n"
    else if c == '\r' then "\\r"
    else if c == '\t' then "\\t"
    else if c < ' ' then "\\u00" + [HexDigit(c as int / 16), HexDigit(c as int % 16)]
    else [c]
  }

  function Escape(s: string): string {
    if s == [] then [] else EscapeChar(s[0]) + Escape(s[1..])
  }

  function Quote(s: string): string { ['"'] + (Escape(s) + ['"']) }

  function Print(v: Json): string {
    match v
    case Null => "null"
    case Bool(b) => if b then "true" else "false"
    case Number(text) => text
    case Str(s) => Quote(s)
    case Array(items) => ['['] + if items == [] then "]" else Print(items[0]) + PrintItems(items[1..])
    case Object(members) => ['{'] + if members == [] then "}" else PrintMember(members[0]) + PrintMembers(members[1..])
  }

  /** The items after the first, and the closing bracket. */
  function PrintItems(items: seq<Json>): string {
    if items == [] then "]" else [','] + (Print(items[0]) + PrintItems(items[1..]))
  }

  function PrintMember(m: Member): string { Quote(m.key) + ([':'] + Print(m.value)) }

  function PrintMembers(members: seq<Member>): string {
    if members == [] then "}" else [','] + (PrintMember(members[0]) + PrintMembers(members[1..]))
  }

  function Canonicalize(v: Json): string { Print(Canon(v)) }

  // --- Nothing printed runs into what follows it ---

  /** What can follow a value: the end, or a character no number contains. */
  predicate Stops(x: string) { x == [] || !IsNumberChar(x[0]) }

  lemma EscapeCharInjective(c: char, u: string, d: char, v: string)
    requires EscapeChar(c) + u == EscapeChar(d) + v
    ensures c == d && u == v
  {
    var s := EscapeChar(c) + u;
    assert s[0] == EscapeChar(c)[0] == EscapeChar(d)[0];
    if |EscapeChar(c)| > 1 {
      assert s[1] == EscapeChar(c)[1] == EscapeChar(d)[1];
      if |EscapeChar(c)| > 2 {
        assert s[4] == EscapeChar(c)[4] == EscapeChar(d)[4];
        assert s[5] == EscapeChar(c)[5] == EscapeChar(d)[5];
      }
    }
    assert |EscapeChar(c)| == |EscapeChar(d)|;
    assert c == d;
    assert u == s[|EscapeChar(c)|..] && v == s[|EscapeChar(d)|..];
  }

  lemma EscapeStart(s: string, x: string)
    ensures (Escape(s) + (['"'] + x))[0] == '"' <==> s == []
  {
    if s != [] {
      assert (Escape(s) + (['"'] + x))[0] == EscapeChar(s[0])[0];
    }
  }

  lemma Regroup(a: string, b: string, c: string)
    ensures (a + b) + c == a + (b + c)
  {
  }

  lemma {:induction false} EscapeInjective(s: string, x: string, t: string, y: string)
    requires Escape(s) + (['"'] + x) == Escape(t) + (['"'] + y)
    ensures s == t && x == y
  {
    var p, q := ['"'] + x, ['"'] + y;
    EscapeStart(s, x);
    EscapeStart(t, y);
    if s == [] {
      assert Escape(s) + p == p && Escape(t) + q == q;
      assert x == p[1..] && y == q[1..];
    } else {
      Regroup(EscapeChar(s[0]), Escape(s[1..]), p);
      Regroup(EscapeChar(t[0]), Escape(t[1..]), q);
      EscapeCharInjective(s[0], Escape(s[1..]) + p, t[0], Escape(t[1..]) + q);
      EscapeInjective(s[1..], x, t[1..], y);
      assert s == [s[0]] + s[1..] && t == [t[0]] + t[1..];
    }
  }

  lemma QuoteInjective(s: string, x: string, t: string, y: string)
    requires Quote(s) + x == Quote(t) + y
    ensures s == t && x == y
  {
    QuoteTail(s, x);
    QuoteTail(t, y);
    hide Quote;
    EscapeInjective(s, x, t, y);
  }

  lemma QuoteTail(s: string, x: string)
    ensures (Quote(s) + x)[1..] == Escape(s) + (['"'] + x)
  {
    hide Escape;
  }

  lemma NumberNotLonger(a: string, x: string, b: string, y: string)
    requires forall i :: 0 <= i < |b| ==> IsNumberChar(b[i])
    requires Stops(x) && a + x == b + y
    ensures |b| <= |a|
  {
    assert forall i :: 0 <= i < |b| ==> IsNumberChar((b + y)[i]);
    assert x != [] ==> !IsNumberChar((a + x)[|a|]);
    assert |a + x| == |b + y|;
  }

  lemma NumberInjective(a: string, x: string, b: string, y: string)
    requires forall i :: 0 <= i < |a| ==> IsNumberChar(a[i])
    requires forall i :: 0 <= i < |b| ==> IsNumberChar(b[i])
    requires Stops(x) && Stops(y) && a + x == b + y
    ensures a == b && x == y
  {
    NumberNotLonger(a, x, b, y);
    NumberNotLonger(b, y, a, x);
    var s := a + x;
    assert a == s[..|a|] && b == s[..|b|] && x == s[|a|..] && y == s[|b|..];
  }

  /** The first character tells the kind of value. */
  lemma FirstChar(v: Json)
    requires WellFormed(v)
    ensures Print(v) != []
    ensures Print(v)[0] == match v
      case Null => 'n'
      case Bool(b) => if b then 't' else 'f'
      case Number(text) => text[0]
      case Str(_) => '"'
      case Array(_) => '['
      case Object(_) => '{'
  {
  }

  lemma Follows(p: string, x: string, q: string, y: string, c: char)
    requires [c] + p + x == [c] + q + y
    ensures p + x == q + y
  {
    assert ([c] + p + x)[1..] == p + x;
    assert ([c] + q + y)[1..] == q + y;
  }

  lemma {:induction false} PrintInjective(a: Json, x: string, b: Json, y: string)
    requires WellFormed(a) && WellFormed(b) && Stops(x) && Stops(y)
    requires Print(a) + x == Print(b) + y
    ensures a == b && x == y
    decreases a, 1
  {
    FirstChar(a);
    FirstChar(b);
    var full := Print(a) + x;
    assert full[0] == Print(a)[0] && full[0] == Print(b)[0];
    match a {
      case Number(text) =>
        NumberInjective(text, x, b.text, y);
      case Str(s) =>
        QuoteInjective(s, x, b.s, y);
      case Array(items) =>
        ArrayInjective(items, x, b.items, y);
      case Object(members) =>
        ObjectInjective(members, x, b.members, y);
      case _ =>
        assert x == full[|Print(a)|..] && y == full[|Print(b)|..];
    }
  }

  lemma {:induction false} ArrayInjective(s: seq<Json>, x: string, t: seq<Json>, y: string)
    requires forall i :: 0 <= i < |s| ==> WellFormed(s[i])
    requires forall i :: 0 <= i < |t| ==> WellFormed(t[i])
    requires Stops(x) && Stops(y) && Print(Array(s)) + x == Print(Array(t)) + y
    ensures s == t && x == y
    decreases s, 1
  {
    var p := if s == [] then "]" else Print(s[0]) + PrintItems(s[1..]);
    var q := if t == [] then "]" else Print(t[0]) + PrintItems(t[1..]);
    Follows(p, x, q, y, '[');
    if s != [] {
      FirstChar(s[0]);
      assert (p + x)[0] == Print(s[0])[0];
    }
    if t != [] {
      FirstChar(t[0]);
      assert (q + y)[0] == Print(t[0])[0];
    }
    if s == [] {
      assert t == [];
      assert x == (p + x)[1..] && y == (q + y)[1..];
    } else {
      ItemsInjective(s, x, t, y);
    }
  }

  lemma {:induction false} ItemsInjective(s: seq<Json>, x: string, t: seq<Json>, y: string)
    requires forall i :: 0 <= i < |s| ==> WellFormed(s[i])
    requires forall i :: 0 <= i < |t| ==> WellFormed(t[i])
    requires Stops(x) && Stops(y) && s != [] && t != []
    requires (Print(s[0]) + PrintItems(s[1..])) + x == (Print(t[0]) + PrintItems(t[1..])) + y
    ensures s == t && x == y
    decreases s, 0
  {
    var p, q := PrintItems(s[1..]) + x, PrintItems(t[1..]) + y;
    Regroup(Print(s[0]), PrintItems(s[1..]), x);
    Regroup(Print(t[0]), PrintItems(t[1..]), y);
    assert p[0] == PrintItems(s[1..])[0] && q[0] == PrintItems(t[1..])[0];
    PrintInjective(s[0], p, t[0], q);
    RestInjective(s[1..], x, t[1..], y);
    assert s == [s[0]] + s[1..] && t == [t[0]] + t[1..];
  }

  lemma {:induction false} RestInjective(s: seq<Json>, x: string, t: seq<Json>, y: string)
    requires forall i :: 0 <= i < |s| ==> WellFormed(s[i])
    requires forall i :: 0 <= i < |t| ==> WellFormed(t[i])
    requires Stops(x) && Stops(y) && PrintItems(s) + x == PrintItems(t) + y
    ensures s == t && x == y
    decreases s, 1
  {
    var full := PrintItems(s) + x;
    assert full[0] == PrintItems(s)[0] && full[0] == PrintItems(t)[0];
    if s == [] {
      assert t == [];
      assert x == full[1..] && y == full[1..];
    } else {
      Follows(Print(s[0]) + PrintItems(s[1..]), x, Print(t[0]) + PrintItems(t[1..]), y, ',');
      ItemsInjective(s, x, t, y);
    }
  }

  lemma {:induction false} ObjectInjective(s: seq<Member>, x: string, t: seq<Member>, y: string)
    requires forall i :: 0 <= i < |s| ==> WellFormed(s[i].value)
    requires forall i :: 0 <= i < |t| ==> WellFormed(t[i].value)
    requires Stops(x) && Stops(y) && Print(Object(s)) + x == Print(Object(t)) + y
    ensures s == t && x == y
    decreases s, 1
  {
    var p := if s == [] then "}" else PrintMember(s[0]) + PrintMembers(s[1..]);
    var q := if t == [] then "}" else PrintMember(t[0]) + PrintMembers(t[1..]);
    Follows(p, x, q, y, '{');
    assert (p + x)[0] == p[0] && (q + y)[0] == q[0];
    if s == [] {
      assert t == [];
      assert x == (p + x)[1..] && y == (q + y)[1..];
    } else {
      MembersInjective(s, x, t, y);
    }
  }

  lemma RegroupMember(m: Member, rest: string, x: string)
    ensures (PrintMember(m) + rest) + x == Quote(m.key) + ([':'] + (Print(m.value) + (rest + x)))
  {
    var k, v := Quote(m.key), Print(m.value);
    Regroup(k + ([':'] + v), rest, x);
    Regroup(k, [':'] + v, rest + x);
    Regroup([':'], v, rest + x);
  }

  lemma {:induction false} MembersInjective(s: seq<Member>, x: string, t: seq<Member>, y: string)
    requires forall i :: 0 <= i < |s| ==> WellFormed(s[i].value)
    requires forall i :: 0 <= i < |t| ==> WellFormed(t[i].value)
    requires Stops(x) && Stops(y) && s != [] && t != []
    requires (PrintMember(s[0]) + PrintMembers(s[1..])) + x == (PrintMember(t[0]) + PrintMembers(t[1..])) + y
    ensures s == t && x == y
    decreases s, 0
  {
    var p, q := PrintMembers(s[1..]) + x, PrintMembers(t[1..]) + y;
    var u, v := Print(s[0].value) + p, Print(t[0].value) + q;
    RegroupMember(s[0], PrintMembers(s[1..]), x);
    RegroupMember(t[0], PrintMembers(t[1..]), y);
    QuoteInjective(s[0].key, [':'] + u, t[0].key, [':'] + v);
    assert ([':'] + u)[1..] == u && ([':'] + v)[1..] == v;
    assert p[0] == PrintMembers(s[1..])[0] && q[0] == PrintMembers(t[1..])[0];
    PrintInjective(s[0].value, p, t[0].value, q);
    LastMembersInjective(s[1..], x, t[1..], y);
    assert s == [s[0]] + s[1..] && t == [t[0]] + t[1..];
  }

  lemma {:induction false} LastMembersInjective(s: seq<Member>, x: string, t: seq<Member>, y: string)
    requires forall i :: 0 <= i < |s| ==> WellFormed(s[i].value)
    requires forall i :: 0 <= i < |t| ==> WellFormed(t[i].value)
    requires Stops(x) && Stops(y) && PrintMembers(s) + x == PrintMembers(t) + y
    ensures s == t && x == y
    decreases s, 1
  {
    var full := PrintMembers(s) + x;
    assert full[0] == PrintMembers(s)[0] && full[0] == PrintMembers(t)[0];
    if s == [] {
      assert t == [];
      assert x == full[1..] && y == full[1..];
    } else {
      Follows(PrintMember(s[0]) + PrintMembers(s[1..]), x, PrintMember(t[0]) + PrintMembers(t[1..]), y, ',');
      MembersInjective(s, x, t, y);
    }
  }

  // --- The identity of a document ---

  /** Two documents have one canonical text exactly when they differ only in the
      order of object members; array order and number text count. */
  lemma CanonicalIdentity(a: Json, b: Json)
    requires WellFormed(a) && WellFormed(b)
    ensures Canonicalize(a) == Canonicalize(b) <==> Equivalent(a, b)
  {
    CanonKeepsDocument(a);
    CanonKeepsDocument(b);
    if Canonicalize(a) == Canonicalize(b) {
      assert Print(Canon(a)) + [] == Print(Canon(b)) + [];
      PrintInjective(Canon(a), [], Canon(b), []);
      CanonEquivalent(a, b);
    }
    if Equivalent(a, b) {
      EquivalentCanon(a, b);
    }
  }

  /** Canonicalising a canonical document changes nothing. */
  lemma CanonicalIdempotent(v: Json)
    requires WellFormed(v)
    ensures Canon(Canon(v)) == Canon(v) && Canonicalize(Canon(v)) == Canonicalize(v)
  {
    CanonKeepsDocument(v);
    EquivalentCanon(Canon(v), v);
  }
}
