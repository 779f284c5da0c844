/** Reading `info/grafts`: which lines count, and what each declares. */
module GraftFile {
  import opened Text
  import opened Topology

  /** `u8::is_ascii_whitespace`. */
  predicate IsAsciiSpace(c: char) {
    var v := c as int;
    v == 9 || v == 10 || v == 12 || v == 13 || v == 32
  }

  function TrimFront(s: string): string { if s != [] && IsAsciiSpace(s[0]) then TrimFront(s[1..]) else s }

  function TrimBack(s: string): string {
    if s != [] && IsAsciiSpace(s[|s| - 1]) then TrimBack(s[..|s| - 1]) else s
  }

  function Trimmed(raw: string): string { TrimBack(TrimFront(raw)) }

  /** All of them, or none when one is not an object id. */
  function ReadIds(read: string -> Option<Oid>, texts: seq<string>): Option<seq<Oid>> {
    if texts == [] then Some([])
    else
      var id, rest := read(texts[0]), ReadIds(read, texts[1..]);
      if id.None? || rest.None? then None else Some([id.value] + rest.value)
  }

  /** Blank lines and comments declare nothing. */
  function ReadLine(read: string -> Option<Oid>, raw: string): Option<GraftLine> {
    var line := Trimmed(raw);
    if line == [] || line[0] == '#' then None
    else
      var fields := Fields(line, ' ');
      match read(fields[0])
      case None => Some(Malformed)
      case Some(original) => Some(Graft(original, ReadIds(read, fields[1..])))
  }

  function ReadLines(read: string -> Option<Oid>, raws: seq<string>): seq<GraftLine> {
    if raws == [] then []
    else
      var first, rest := ReadLine(read, raws[0]), ReadLines(read, raws[1..]);
      if first.None? then rest else [first.value] + rest
  }

  function ReadGrafts(read: string -> Option<Oid>, text: string): seq<GraftLine> { ReadLines(read, Fields(text, '\n')) }

  // --- Reading them step by step ---

  function After(declared: seq<Oid>, rest: Option<seq<Oid>>): Option<seq<Oid>> {
    if rest.None? then None else Some(declared + rest.value)
  }

  lemma NothingBefore(rest: Option<seq<Oid>>)
    ensures After([], rest) == rest
  {
    assert rest.Some? ==> [] + rest.value == rest.value;
  }

  lemma ReadIdsStep(read: string -> Option<Oid>, fields: seq<string>, n: nat, declared: seq<Oid>)
    requires n < |fields|
    ensures After(declared, ReadIds(read, fields[n..])) ==
      var id := read(fields[n]);
      if id.None? then None else After(declared + [id.value], ReadIds(read, fields[n + 1..]))
  {
    var tail, id, rest := fields[n..], read(fields[n]), ReadIds(read, fields[n + 1..]);
    assert tail != [] && tail[0] == fields[n] && tail[1..] == fields[n + 1..];
    assert ReadIds(read, tail) == if id.None? || rest.None? then None else Some([id.value] + rest.value);
    if id.Some? && rest.Some? {
      assert declared + ([id.value] + rest.value) == declared + [id.value] + rest.value;
    }
  }

  method ParentsOf(fields: seq<string>, read: string -> Option<Oid>) returns (parents: Option<seq<Oid>>)
    ensures parents == ReadIds(read, fields)
  {
    var declared: seq<Oid> := [];
    assert fields[0..] == fields;
    NothingBefore(ReadIds(read, fields));
    for n := 0 to |fields|
      invariant After(declared, ReadIds(read, fields[n..])) == ReadIds(read, fields)
    {
      ReadIdsStep(read, fields, n, declared);
      var id := read(fields[n]);
      if id.None? {
        return None;
      }
      declared := declared + [id.value];
    }
    assert fields[|fields|..] == [] && declared + [] == declared;
    parents := Some(declared);
  }

  lemma ReadNothing(read: string -> Option<Oid>)
    ensures ReadLines(read, []) == []
  {
  }

  lemma ReadLinesStep(read: string -> Option<Oid>, raws: seq<string>, n: nat)
    requires n < |raws|
    ensures ReadLines(read, raws[n..]) ==
      (if ReadLine(read, raws[n]).None? then [] else [ReadLine(read, raws[n]).value]) + ReadLines(read, raws[n + 1..])
  {
    hide ReadLine;
    assert raws[n..][1..] == raws[n + 1..];
    assert [] + ReadLines(read, raws[n + 1..]) == ReadLines(read, raws[n + 1..]);
  }

  method ReadGraftFile(text: string, read: string -> Option<Oid>) returns (lines: seq<GraftLine>)
    ensures lines == ReadGrafts(read, text)
  {
    hide ReadLines, Trimmed, ReadIds;
    lines := [];
    var raws := Fields(text, '\n');
    ReadNothing(read);
    assert raws[0..] == raws;
    for n := 0 to |raws|
      invariant lines + ReadLines(read, raws[n..]) == ReadLines(read, raws)
    {
      ReadLinesStep(read, raws, n);
      var line := Trimmed(raws[n]);
      if line == [] || line[0] == '#' {
        continue;
      }
      var fields := Fields(line, ' ');
      var original := read(fields[0]);
      if original.None? {
        lines := lines + [Malformed];
        continue;
      }
      var parents := ParentsOf(fields[1..], read);
      lines := lines + [Graft(original.value, parents)];
    }
    assert raws[|raws|..] == [] && lines + [] == lines;
  }

  // --- What a line must look like ---

  /** Object ids have no space in them, are not empty, and start no comment. */
  ghost predicate Strict(read: string -> Option<Oid>) {
    forall s :: read(s).Some? ==> s != [] && ' ' !in s && s[0] != '#'
  }

  /** The ids written out, separated by single spaces. */
  ghost predicate Spells(read: string -> Option<Oid>, line: string, ids: seq<Oid>) {
    exists texts :: texts != [] && line == Join(texts, ' ') && ReadIds(read, texts) == Some(ids)
  }

  lemma {:induction false} IdsRead(read: string -> Option<Oid>, texts: seq<string>, i: nat)
    requires ReadIds(read, texts).Some? && i < |texts|
    ensures read(texts[i]).Some?
  {
    if i > 0 {
      IdsRead(read, texts[1..], i - 1);
    }
  }

  lemma JoinHead(texts: seq<string>, sep: char)
    requires texts != [] && texts[0] != []
    ensures Join(texts, sep) != [] && Join(texts, sep)[0] == texts[0][0]
  {
  }

  /** A line is taken as a graft exactly when, trimmed, it is object ids separated
      by single spaces: a tab, a carriage return inside, or a doubled space never
      passes. */
  lemma GraftExactly(read: string -> Option<Oid>, raw: string, original: Oid, parents: seq<Oid>)
    requires Strict(read)
    ensures ReadLine(read, raw) == Some(Graft(original, Some(parents))) <==>
      Spells(read, Trimmed(raw), [original] + parents)
  {
    var line := Trimmed(raw);
    var fields := Fields(line, ' ');
    FieldsJoin(line, ' ');
    if ReadLine(read, raw) == Some(Graft(original, Some(parents))) {
      assert fields == [fields[0]] + fields[1..];
      assert ReadIds(read, fields) == Some([original] + parents);
    }
    if Spells(read, line, [original] + parents) {
      var texts :| texts != [] && line == Join(texts, ' ') && ReadIds(read, texts) == Some([original] + parents);
      forall i | 0 <= i < |texts|
        ensures ' ' !in texts[i] && texts[i] != [] && texts[i][0] != '#'
      {
        IdsRead(read, texts, i);
      }
      JoinHead(texts, ' ');
      JoinFields(texts, ' ');
      assert ([original] + parents)[0] == original && ([original] + parents)[1..] == parents;
    }
  }

  // --- Whole files ---

  lemma {:induction false} ReadLinesConcat(read: string -> Option<Oid>, a: seq<string>, b: seq<string>)
    ensures ReadLines(read, a + b) == ReadLines(read, a) + ReadLines(read, b)
  {
    if a == [] {
      assert a + b == b;
    } else {
      assert (a + b)[1..] == a[1..] + b;
      ReadLinesConcat(read, a[1..], b);
    }
  }

  /** Lines are read independently of each other. */
  lemma ReadConcat(read: string -> Option<Oid>, a: string, b: string)
    ensures ReadGrafts(read, a + ['\n'] + b) == ReadGrafts(read, a) + ReadGrafts(read, b)
  {
    FieldsConcat(a, b, '\n');
    ReadLinesConcat(read, Fields(a, '\n'), Fields(b, '\n'));
  }

  /** A way of writing ids that reading undoes. */
  ghost predicate Writes(write: Oid -> string, read: string -> Option<Oid>) {
    forall id :: read(write(id)) == Some(id) && forall i :: 0 <= i < |write(id)| ==> !IsAsciiSpace(write(id)[i])
  }

  function PrintIds(write: Oid -> string, ids: seq<Oid>): (texts: seq<string>)
    ensures |texts| == |ids| && forall i :: 0 <= i < |ids| ==> texts[i] == write(ids[i])
  {
    if ids == [] then [] else [write(ids[0])] + PrintIds(write, ids[1..])
  }

  function PrintGraft(write: Oid -> string, l: GraftLine): string
    requires l.Graft? && l.parents.Some?
  {
    Join(PrintIds(write, [l.original] + l.parents.value), ' ')
  }

  function PrintGrafts(write: Oid -> string, lines: seq<GraftLine>): string
    requires forall i :: 0 <= i < |lines| ==> lines[i].Graft? && lines[i].parents.Some?
  {
    if lines == [] then [] else PrintGraft(write, lines[0]) + ['\n'] + PrintGrafts(write, lines[1..])
  }

  lemma {:induction false} PrintIdsRead(write: Oid -> string, read: string -> Option<Oid>, ids: seq<Oid>)
    requires Writes(write, read)
    ensures ReadIds(read, PrintIds(write, ids)) == Some(ids)
  {
    if ids != [] {
      PrintIdsRead(write, read, ids[1..]);
      assert PrintIds(write, ids)[1..] == PrintIds(write, ids[1..]);
      assert ids == [ids[0]] + ids[1..];
    }
  }

  lemma {:induction false} JoinLast(texts: seq<string>, sep: char)
    requires texts != [] && texts[|texts| - 1] != []
    ensures Join(texts, sep) != []
    ensures var last := texts[|texts| - 1]; Join(texts, sep)[|Join(texts, sep)| - 1] == last[|last| - 1]
  {
    if |texts| > 1 {
      JoinLast(texts[1..], sep);
    }
  }

  lemma {:induction false} JoinWithout(texts: seq<string>, sep: char, c: char)
    requires c != sep && forall i :: 0 <= i < |texts| ==> c !in texts[i]
    ensures c !in Join(texts, sep)
  {
    if |texts| > 1 {
      JoinWithout(texts[1..], sep, c);
    }
  }

  lemma GraftReadsBack(write: Oid -> string, read: string -> Option<Oid>, l: GraftLine)
    requires Strict(read) && Writes(write, read) && l.Graft? && l.parents.Some?
    ensures ReadLine(read, PrintGraft(write, l)) == Some(l) && '\n' !in PrintGraft(write, l)
  {
    var ids := [l.original] + l.parents.value;
    var texts, line := PrintIds(write, ids), PrintGraft(write, l);
    PrintIdsRead(write, read, ids);
    forall i | 0 <= i < |texts|
      ensures texts[i] != [] && !IsAsciiSpace(texts[i][0]) && !IsAsciiSpace(texts[i][|texts[i]| - 1]) &&
        '\n' !in texts[i]
    {
      assert read(write(ids[i])) == Some(ids[i]);
    }
    JoinHead(texts, ' ');
    JoinLast(texts, ' ');
    JoinWithout(texts, ' ', '\n');
    assert Trimmed(line) == line;
    assert Spells(read, line, ids);
    GraftExactly(read, line, l.original, l.parents.value);
  }

  lemma ReadOne(read: string -> Option<Oid>, line: string, l: GraftLine)
    requires '\n' !in line && ReadLine(read, line) == Some(l)
    ensures ReadGrafts(read, line) == [l]
  {
    hide ReadLine;
    FieldsWhole(line, '\n');
    var raws := [line];
    assert raws[1..] == [] && raws[0] == line;
    assert ReadLines(read, raws) == [l] + ReadLines(read, []);
  }

  lemma ReadEmpty(read: string -> Option<Oid>)
    ensures ReadGrafts(read, []) == []
  {
    FieldsWhole<char>([], '\n');
  }

  /** A graft file written out is read back, line by line. */
  lemma {:induction false} GraftsReadBack(write: Oid -> string, read: string -> Option<Oid>, lines: seq<GraftLine>)
    requires Strict(read) && Writes(write, read)
    requires forall i :: 0 <= i < |lines| ==> lines[i].Graft? && lines[i].parents.Some?
    ensures ReadGrafts(read, PrintGrafts(write, lines)) == lines
  {
    hide ReadGrafts, ReadLine, PrintGraft, Strict, Writes;
    if lines == [] {
      ReadEmpty(read);
    } else {
      var first := PrintGraft(write, lines[0]);
      GraftReadsBack(write, read, lines[0]);
      ReadOne(read, first, lines[0]);
      GraftsReadBack(write, read, lines[1..]);
      ReadConcat(read, first, PrintGrafts(write, lines[1..]));
      assert lines == [lines[0]] + lines[1..];
    }
  }
}
