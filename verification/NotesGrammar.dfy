/** The canonical text is JSON (RFC 8259) for the canonical value. */
module NotesGrammar {
  import opened Text
  import opened NotesJson
  import opened NotesText

  // --- Reading strings, section 7 of RFC 8259 ---

  function HexValue(c: char): Option<nat> {
    if '0' <= c <= '9' then Some((c - '0') as nat)
    else if 'a' <= c <= 'f' then Some((c - 'a') as nat + 10)
    else if 'A' <= c <= 'F' then Some((c - 'A') as nat + 10)
    else None
  }

  /** The character of four hexadecimal digits; surrogates are not read. */
  function FourHex(s: string): Option<char>
    requires |s| == 4
  {
    var a, b, c, d := HexValue(s[0]), HexValue(s[1]), HexValue(s[2]), HexValue(s[3]);
    if a.None? || b.None? || c.None? || d.None? then None
    else
      var v := 4096 * a.value + 256 * b.value + 16 * c.value + d.value;
      if v < 0xD800 then Some(v as char) else None
  }

  function ShortEscape(c: char): Option<char> {
    if c == '"' || c == '\\' || c == '/' then Some(c)
    else if c == 'b' then Some(8 as char)
    else if c == 'f' then Some(12 as char)
    else if c == 'n' then Some('\n')
    else if c == 'r' then Some('\r')
    else if c == 't' then Some('\t')
    else None
  }

  function Put(c: Option<char>, rest: Option<string>): Option<string> {
    if c.None? || rest.None? then None else Some([c.value] + rest.value)
  }

  function Unescape(body: string): Option<string> {
    if body == [] then Some([])
    else if body[0] == '"' || body[0] < ' ' then None
    else if body[0] != '\\' then Put(Some(body[0]), Unescape(body[1..]))
    else if |body| >= 6 && body[1] == 'u' then Put(FourHex(body[2..6]), Unescape(body[6..]))
    else if |body| >= 2 then Put(ShortEscape(body[1]), Unescape(body[2..]))
    else None
  }

  predicate SpellsString(text: string, s: string) {
    |text| >= 2 && text[0] == '"' && text[|text| - 1] == '"' && Unescape(text[1..|text| - 1]) == Some(s)
  }

  // --- The grammar of values ---

  function Pairs(keys: seq<string>, values: seq<string>): (r: seq<string>)
    requires |keys| == |values|
    ensures |r| == |keys| && forall i :: 0 <= i < |r| ==> r[i] == keys[i] + ":" + values[i]
  {
    seq(|keys|, i requires 0 <= i < |keys| => keys[i] + ":" + values[i])
  }

  /** `text` is a spelling of `v` without whitespace. */
  ghost predicate Spells(text: string, v: Json)
    decreases v
  {
    match v
    case Null => text == "null"
    case Bool(b) => text == if b then "true" else "false"
    case Number(digits) => text == digits
    case Str(s) => SpellsString(text, s)
    case Array(items) =>
      exists parts: seq<string> :: |parts| == |items| && text == "[" + Join(parts, ',') + "]" &&
        forall i :: 0 <= i < |items| ==> Spells(parts[i], items[i])
    case Object(members) =>
      exists keys: seq<string>, values: seq<string> :: |keys| == |values| == |members| &&
        text == "{" + Join(Pairs(keys, values), ',') + "}" &&
        (forall i :: 0 <= i < |members| ==> SpellsString(keys[i], members[i].key)) &&
        forall i :: 0 <= i < |members| ==> Spells(values[i], members[i].value)
  }

  // --- The printer follows it ---

  lemma HexDigitRead(v: nat)
    requires v < 16
    ensures HexValue(HexDigit(v)) == Some(v)
  {
  }

  lemma ControlRead(c: char)
    requires c < ' '
    ensures FourHex("00" + [HexDigit(c as int / 16), HexDigit(c as int % 16)]) == Some(c)
  {
    HexDigitRead(c as int / 16);
    HexDigitRead(c as int % 16);
    var s := "00" + [HexDigit(c as int / 16), HexDigit(c as int % 16)];
    assert HexValue(s[0]) == Some(0) && HexValue(s[1]) == Some(0);
  }

  lemma EscapeRead(c: char, rest: string)
    ensures Unescape(EscapeChar(c) + rest) == Put(Some(c), Unescape(rest))
  {
    var e := EscapeChar(c);
    if |e| == 1 {
      assert (e + rest)[1..] == rest;
    } else if |e| == 2 {
      assert (e + rest)[2..] == rest;
    } else {
      ControlRead(c);
      assert (e + rest)[2..6] == "00" + [HexDigit(c as int / 16), HexDigit(c as int % 16)];
      assert (e + rest)[6..] == rest;
    }
  }

  lemma {:induction false} EscapedReadsBack(s: string)
    ensures Unescape(Escape(s)) == Some(s)
  {
    if s != [] {
      EscapedReadsBack(s[1..]);
      EscapeRead(s[0], Escape(s[1..]));
      assert s == [s[0]] + s[1..];
    }
  }

  lemma QuoteSpells(s: string)
    ensures SpellsString(Quote(s), s)
  {
    EscapedReadsBack(s);
    assert Quote(s)[1..|Quote(s)| - 1] == Escape(s);
  }

  function Prints(items: seq<Json>): (r: seq<string>)
    ensures |r| == |items| && forall i :: 0 <= i < |r| ==> r[i] == Print(items[i])
  {
    seq(|items|, i requires 0 <= i < |items| => Print(items[i]))
  }

  function Keys(members: seq<Member>): (r: seq<string>)
    ensures |r| == |members| && forall i :: 0 <= i < |r| ==> r[i] == Quote(members[i].key)
  {
    seq(|members|, i requires 0 <= i < |members| => Quote(members[i].key))
  }

  function Values(members: seq<Member>): (r: seq<string>)
    ensures |r| == |members| && forall i :: 0 <= i < |r| ==> r[i] == Print(members[i].value)
  {
    seq(|members|, i requires 0 <= i < |members| => Print(members[i].value))
  }

  lemma JoinHead(parts: seq<string>)
    requires parts != []
    ensures Join(parts, ',') == parts[0] + if |parts| == 1 then [] else [','] + Join(parts[1..], ',')
  {
  }

  lemma {:induction false} ItemsJoined(items: seq<Json>)
    requires items != []
    ensures Print(items[0]) + PrintItems(items[1..]) == Join(Prints(items), ',') + "]"
  {
    hide Print, Join;
    var rest := items[1..];
    JoinHead(Prints(items));
    if rest != [] {
      ItemsJoined(rest);
      assert Prints(items)[1..] == Prints(rest);
    }
  }

  lemma {:induction false} MembersJoined(members: seq<Member>)
    requires members != []
    ensures PrintMember(members[0]) + PrintMembers(members[1..]) ==
      Join(Pairs(Keys(members), Values(members)), ',') + "}"
  {
    hide Print, Quote, Join;
    var pairs, rest := Pairs(Keys(members), Values(members)), members[1..];
    JoinHead(pairs);
    assert pairs[0] == PrintMember(members[0]);
    if rest != [] {
      MembersJoined(rest);
      assert pairs[1..] == Pairs(Keys(rest), Values(rest));
    }
  }

  lemma ArraySpells(items: seq<Json>)
    requires forall i :: 0 <= i < |items| ==> Spells(Print(items[i]), items[i])
    ensures Spells(Print(Array(items)), Array(items))
  {
    var parts := Prints(items);
    if items != [] {
      ItemsJoined(items);
    }
    assert Print(Array(items)) == "[" + Join(parts, ',') + "]";
    assert forall i :: 0 <= i < |items| ==> Spells(parts[i], items[i]);
  }

  lemma ObjectSpells(members: seq<Member>)
    requires forall i :: 0 <= i < |members| ==> Spells(Print(members[i].value), members[i].value)
    ensures Spells(Print(Object(members)), Object(members))
  {
    var keys, values := Keys(members), Values(members);
    if members != [] {
      MembersJoined(members);
    }
    assert Print(Object(members)) == "{" + Join(Pairs(keys, values), ',') + "}";
    forall i | 0 <= i < |members|
      ensures SpellsString(keys[i], members[i].key) && Spells(values[i], members[i].value)
    {
      QuoteSpells(members[i].key);
    }
  }

  lemma {:induction false} PrintSpells(v: Json)
    ensures Spells(Print(v), v)
  {
    match v
    case Str(s) => QuoteSpells(s);
    case Array(items) =>
      forall i | 0 <= i < |items|
        ensures Spells(Print(items[i]), items[i])
      {
        PrintSpells(items[i]);
      }
      ArraySpells(items);
    case Object(members) =>
      forall i | 0 <= i < |members|
        ensures Spells(Print(members[i].value), members[i].value)
      {
        PrintSpells(members[i].value);
      }
      ObjectSpells(members);
    case _ =>
  }

  /** The identity of a document is a JSON text of it, equal up to member order. */
  lemma CanonicalTextIsJson(doc: Json)
    requires WellFormed(doc)
    ensures Spells(Canonicalize(doc), Canon(doc)) && Equivalent(Canon(doc), doc)
  {
    PrintSpells(Canon(doc));
    CanonKeepsDocument(doc);
  }
}
