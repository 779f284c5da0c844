/** Line splitting and joining, shared by the fingerprint kernel (over bytes),
    the Jaccard scan and the span-file parser (over characters). */
module Text {

  datatype Option<+T> = None | Some(value: T)

  const U32_MAX: nat := 0xffff_ffff
  type u32 = x: int | 0 <= x <= U32_MAX

  /** The first position at or after `from` holding the line break `nl`, or `|s|`. */
  function NextBreak<T(==)>(s: seq<T>, from: nat, nl: T): (k: nat)
    requires from <= |s|
    ensures from <= k <= |s|
    ensures forall i :: from <= i < k ==> s[i] != nl
    ensures k < |s| ==> s[k] == nl
    decreases |s| - from
  {
    if from == |s| || s[from] == nl then from else NextBreak(s, from + 1, nl)
  }

  lemma NextBreakUnique<T>(s: seq<T>, from: nat, nl: T, k: nat)
    requires from <= k <= |s|
    requires forall i :: from <= i < k ==> s[i] != nl
    requires k < |s| ==> s[k] == nl
    ensures NextBreak(s, from, nl) == k
  {
    assert NextBreak(s, from, nl) < |s| ==> s[NextBreak(s, from, nl)] == nl;
  }

  function StripCr<T(==)>(line: seq<T>, cr: T): seq<T> {
    if line != [] && line[|line| - 1] == cr then line[..|line| - 1] else line
  }

  /** Rust's `str::lines`: `nl` or `cr nl` ends a line, a final unterminated
      segment is a line kept as it is, a trailing terminator adds no empty line. */
  function StrLines<T(==)>(s: seq<T>, nl: T, cr: T): seq<seq<T>>
    decreases |s|
  {
    if s == [] then []
    else
      var k := NextBreak(s, 0, nl);
      if k == |s| then [s] else [StripCr(s[..k], cr)] + StrLines(s[k + 1..], nl, cr)
  }

  /** Rust's `lines.join("\n")`. */
  function Join<T>(lines: seq<seq<T>>, nl: T): seq<T> {
    if lines == [] then []
    else if |lines| == 1 then lines[0]
    else lines[0] + [nl] + Join(lines[1..], nl)
  }

  /** What precedes the first `c` is determined, and so is what follows it. */
  lemma CutAt<T>(a: seq<T>, x: seq<T>, b: seq<T>, y: seq<T>, c: T)
    requires c !in a && c !in b && a + [c] + x == b + [c] + y
    ensures a == b && x == y
  {
    var s := a + [c] + x;
    assert s[|a|] == c && s[|b|] == c;
    assert forall i :: 0 <= i < |a| ==> s[i] == a[i];
    assert forall i :: 0 <= i < |b| ==> s[i] == b[i];
    assert |a| == |b|;
    assert a == s[..|a|] && b == s[..|b|];
    assert x == s[|a| + 1..] && y == s[|b| + 1..];
  }

  lemma JoinMore<T>(lines: seq<seq<T>>, nl: T)
    requires |lines| > 1
    ensures nl in Join(lines, nl) && Join(lines, nl) == lines[0] + [nl] + Join(lines[1..], nl)
  {
    assert Join(lines, nl)[|lines[0]|] == nl;
  }

  /** Lines without the separator are read off their join. */
  lemma {:induction false} JoinInjective<T>(a: seq<seq<T>>, b: seq<seq<T>>, nl: T)
    requires a != [] && b != [] && Join(a, nl) == Join(b, nl)
    requires (forall i :: 0 <= i < |a| ==> nl !in a[i]) && (forall i :: 0 <= i < |b| ==> nl !in b[i])
    ensures a == b
  {
    if |a| > 1 {
      JoinMore(a, nl);
    }
    if |b| > 1 {
      JoinMore(b, nl);
    }
    if |a| > 1 && |b| > 1 {
      CutAt(a[0], Join(a[1..], nl), b[0], Join(b[1..], nl), nl);
      JoinInjective(a[1..], b[1..], nl);
      assert a == [a[0]] + a[1..] && b == [b[0]] + b[1..];
    } else {
      assert |a| == 1 && |b| == 1;
      assert a == [a[0]] && b == [b[0]];
    }
  }

  /** Rust's `s.split(sep)`: at least one field, possibly empty ones. */
  function Fields<T(==)>(s: seq<T>, sep: T): (fields: seq<seq<T>>)
    ensures fields != []
    decreases |s|
  {
    var k := NextBreak(s, 0, sep);
    if k == |s| then [s] else [s[..k]] + Fields(s[k + 1..], sep)
  }

  lemma FieldsWhole<T>(s: seq<T>, sep: T)
    requires sep !in s
    ensures Fields(s, sep) == [s]
  {
    NextBreakUnique(s, 0, sep, |s|);
  }

  lemma FieldsCons<T>(field: seq<T>, rest: seq<T>, sep: T)
    requires sep !in field
    ensures Fields(field + [sep] + rest, sep) == [field] + Fields(rest, sep)
  {
    var s := field + [sep] + rest;
    NextBreakUnique(s, 0, sep, |field|);
    assert s[..|field|] == field && s[|field| + 1..] == rest;
  }

  /** Splitting loses nothing. */
  lemma {:induction false} FieldsJoin<T>(s: seq<T>, sep: T)
    ensures Join(Fields(s, sep), sep) == s
    ensures forall i :: 0 <= i < |Fields(s, sep)| ==> sep !in Fields(s, sep)[i]
    decreases |s|
  {
    var k := NextBreak(s, 0, sep);
    if k < |s| {
      FieldsJoin(s[k + 1..], sep);
      assert s == s[..k] + [sep] + s[k + 1..];
    }
  }

  lemma {:induction false} FieldsWithin<T>(s: seq<T>, sep: T, c: T)
    requires c !in s
    ensures forall i :: 0 <= i < |Fields(s, sep)| ==> c !in Fields(s, sep)[i]
    decreases |s|
  {
    var k := NextBreak(s, 0, sep);
    if k < |s| {
      FieldsWithin(s[k + 1..], sep, c);
    }
  }

  lemma {:induction false} JoinFields<T>(fields: seq<seq<T>>, sep: T)
    requires fields != [] && forall i :: 0 <= i < |fields| ==> sep !in fields[i]
    ensures Fields(Join(fields, sep), sep) == fields
  {
    if |fields| == 1 {
      FieldsWhole(fields[0], sep);
    } else {
      FieldsCons(fields[0], Join(fields[1..], sep), sep);
      JoinFields(fields[1..], sep);
    }
  }

  lemma {:induction false} FieldsConcat<T>(a: seq<T>, b: seq<T>, sep: T)
    ensures Fields(a + [sep] + b, sep) == Fields(a, sep) + Fields(b, sep)
    decreases |a|
  {
    var k := NextBreak(a, 0, sep);
    if k == |a| {
      FieldsCons(a, b, sep);
    } else {
      var head, tail := a[..k], a[k + 1..];
      assert a + [sep] + b == head + [sep] + (tail + [sep] + b);
      FieldsCons(head, tail + [sep] + b, sep);
      FieldsConcat(tail, b, sep);
    }
  }

  /** Each line followed by a terminator. */
  function Unlines<T>(lines: seq<seq<T>>, nl: T): seq<T> {
    if lines == [] then [] else lines[0] + [nl] + Unlines(lines[1..], nl)
  }

  lemma {:induction false} UnlinesAppend<T>(a: seq<seq<T>>, b: seq<seq<T>>, nl: T)
    ensures Unlines(a + b, nl) == Unlines(a, nl) + Unlines(b, nl)
  {
    if a == [] {
      assert a + b == b;
    } else {
      assert (a + b)[1..] == a[1..] + b;
      UnlinesAppend(a[1..], b, nl);
    }
  }

  lemma {:induction false} JoinSnoc<T>(lines: seq<seq<T>>, last: seq<T>, nl: T)
    ensures Join(lines + [last], nl) == if lines == [] then last else Join(lines, nl) + [nl] + last
  {
    if lines == [] {
    } else {
      assert (lines + [last])[1..] == lines[1..] + [last];
      JoinSnoc(lines[1..], last, nl);
    }
  }

  lemma {:induction false} UnlinesIsJoin<T>(lines: seq<seq<T>>, nl: T)
    ensures Unlines(lines, nl) == if lines == [] then [] else Join(lines, nl) + [nl]
  {
    if |lines| > 1 {
      UnlinesIsJoin(lines[1..], nl);
    } else if |lines| == 1 {
      assert lines[1..] == [];
    }
  }

  /** One terminated line at the front splits off, whatever follows it. */
  lemma StrLinesCons<T>(line: seq<T>, rest: seq<T>, nl: T, cr: T)
    requires nl !in line
    ensures StrLines(line + [nl] + rest, nl, cr) == [StripCr(line, cr)] + StrLines(rest, nl, cr)
  {
    var s := line + [nl] + rest;
    NextBreakUnique(s, 0, nl, |line|);
    assert s[..|line|] == line;
    assert s[|line| + 1..] == rest;
  }

  ghost predicate CleanLine<T>(line: seq<T>, nl: T, cr: T) {
    nl !in line && (line != [] ==> line[|line| - 1] != cr)
  }

  lemma UnlinesCons<T>(lines: seq<seq<T>>, rest: seq<T>, nl: T)
    requires lines != []
    ensures Unlines(lines, nl) + rest == lines[0] + [nl] + (Unlines(lines[1..], nl) + rest)
  {
  }

  /** Splitting undoes terminating, and the tail is split on its own. */
  lemma {:induction false} StrLinesUnlines<T>(lines: seq<seq<T>>, rest: seq<T>, nl: T, cr: T)
    requires forall i :: 0 <= i < |lines| ==> CleanLine(lines[i], nl, cr)
    ensures StrLines(Unlines(lines, nl) + rest, nl, cr) == lines + StrLines(rest, nl, cr)
  {
    if lines == [] {
      assert Unlines(lines, nl) + rest == rest;
    } else {
      var tail := Unlines(lines[1..], nl) + rest;
      calc {
        StrLines(Unlines(lines, nl) + rest, nl, cr);
        { UnlinesCons(lines, rest, nl); }
        StrLines(lines[0] + [nl] + tail, nl, cr);
        { assert CleanLine(lines[0], nl, cr); StrLinesCons(lines[0], tail, nl, cr); }
        [lines[0]] + StrLines(tail, nl, cr);
        { StrLinesUnlines(lines[1..], rest, nl, cr); }
        [lines[0]] + (lines[1..] + StrLines(rest, nl, cr));
        lines + StrLines(rest, nl, cr);
      }
    }
  }

  /** No line carries a line break, and there are at most as many lines as elements. */
  lemma {:induction false} StrLinesShape<T>(s: seq<T>, nl: T, cr: T)
    ensures forall l :: l in StrLines(s, nl, cr) ==> nl !in l
    ensures |StrLines(s, nl, cr)| <= |s|
    decreases |s|
  {
    if s != [] {
      var k := NextBreak(s, 0, nl);
      if k < |s| {
        StrLinesShape(s[k + 1..], nl, cr);
      }
    }
  }

  /** The CRLF twin of a text: a carriage return before every line feed. */
  function CrlfTwin<T(==)>(text: seq<T>, nl: T, cr: T): seq<T> {
    if text == [] then []
    else if text[0] == nl then [cr, nl] + CrlfTwin(text[1..], nl, cr)
    else [text[0]] + CrlfTwin(text[1..], nl, cr)
  }

  /** The Unicode `White_Space` property, Rust's `char::is_whitespace`. */
  predicate IsWhitespace(c: char) {
    var v := c as int;
    9 <= v <= 13 || v == 32 || v == 0x85 || v == 0xA0 || v == 0x1680 || 0x2000 <= v <= 0x200A
    || v == 0x2028 || v == 0x2029 || v == 0x202F || v == 0x205F || v == 0x3000
  }
}
