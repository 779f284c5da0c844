/** String primitives of the span-file parser, as the Rust library defines them. */
module SpanText {
  import opened Text

  // --- Trimming ---

  function TrimStart(s: string): string {
    if s != [] && IsWhitespace(s[0]) then TrimStart(s[1..]) else s
  }

  function TrimEnd(s: string): string {
    if s != [] && IsWhitespace(s[|s| - 1]) then TrimEnd(s[..|s| - 1]) else s
  }

  function Trim(s: string): string { TrimEnd(TrimStart(s)) }

  /** Neither end is whitespace. */
  predicate Tight(s: string) { s != [] ==> !IsWhitespace(s[0]) && !IsWhitespace(s[|s| - 1]) }

  lemma {:induction false} TrimStartShape(s: string)
    ensures TrimStart(s) != [] ==> !IsWhitespace(TrimStart(s)[0]) && TrimStart(s)[|TrimStart(s)| - 1] == s[|s| - 1]
    ensures |TrimStart(s)| <= |s|
    ensures forall c :: c in TrimStart(s) ==> c in s
  {
    if s != [] && IsWhitespace(s[0]) {
      TrimStartShape(s[1..]);
    }
  }

  lemma {:induction false} TrimEndShape(s: string)
    ensures TrimEnd(s) <= s
    ensures TrimEnd(s) != [] ==> !IsWhitespace(TrimEnd(s)[|TrimEnd(s)| - 1])
  {
    if s != [] && IsWhitespace(s[|s| - 1]) {
      TrimEndShape(s[..|s| - 1]);
    }
  }

  lemma TrimShape(s: string)
    ensures Tight(Trim(s))
    ensures forall c :: c in Trim(s) ==> c in s
  {
    TrimStartShape(s);
    TrimEndShape(TrimStart(s));
  }

  lemma TrimTight(s: string)
    requires Tight(s)
    ensures Trim(s) == s
  {
  }

  lemma TrimEndNewline(s: string)
    ensures TrimEnd(s + ['\n']) == TrimEnd(s)
  {
    assert (s + ['\n'])[..|s|] == s;
  }

  // --- Searching ---

  /** The two-character pattern `a b` occurs at `i`. */
  predicate PairAt(s: string, i: nat, a: char, b: char) { i + 1 < |s| && s[i] == a && s[i + 1] == b }

  predicate NoPair(s: string, a: char, b: char) { forall i: nat :: i < |s| ==> !PairAt(s, i, a, b) }

  /** First occurrence of `a b` at or after `from`, or `|s|`. */
  function FindPair(s: string, from: nat, a: char, b: char): (k: nat)
    requires from <= |s|
    ensures from <= k <= |s|
    ensures k < |s| ==> PairAt(s, k, a, b)
    ensures forall i: nat :: from <= i < k ==> !PairAt(s, i, a, b)
    decreases |s| - from
  {
    if from == |s| || PairAt(s, from, a, b) then from else FindPair(s, from + 1, a, b)
  }

  lemma FindPairIs(s: string, a: char, b: char, k: nat)
    requires k <= |s| && (k < |s| ==> PairAt(s, k, a, b))
    requires forall i: nat :: i < k ==> !PairAt(s, i, a, b)
    ensures FindPair(s, 0, a, b) == k
  {
    assert FindPair(s, 0, a, b) < |s| ==> PairAt(s, FindPair(s, 0, a, b), a, b);
  }

  /** Last position of `c`, or `|s|`. */
  function RFind(s: string, c: char): (k: nat)
    ensures k <= |s| && (k < |s| ==> s[k] == c)
    ensures forall i :: 0 <= i < |s| && (k < i || k == |s|) ==> s[i] != c
  {
    RFindUpTo(s, c, |s|)
  }

  function RFindUpTo(s: string, c: char, n: nat): (k: nat)
    requires n <= |s| && forall i :: n <= i < |s| ==> s[i] != c
    ensures k <= |s| && (k < |s| ==> s[k] == c)
    ensures forall i :: 0 <= i < |s| && (k < i || k == |s|) ==> s[i] != c
  {
    if n == 0 then |s| else if s[n - 1] == c then n - 1 else RFindUpTo(s, c, n - 1)
  }

  lemma RFindIs(front: string, c: char, back: string)
    requires c !in back
    ensures RFind(front + [c] + back, c) == |front|
  {
    var s := front + [c] + back;
    assert s[|front|] == c;
    forall i | |front| < i < |s|
      ensures s[i] != c
    {
      assert s[i] == back[i - |front| - 1];
    }
  }

  function Count(s: string, c: char): nat {
    if s == [] then 0 else (if s[0] == c then 1 else 0) + Count(s[1..], c)
  }

  // --- Line endings ---

  /** `s.replace("\r\n", "\n")`. */
  function ReplaceCrLf(s: string): string {
    if |s| >= 2 && s[0] == '\r' && s[1] == '\n' then ['\n'] + ReplaceCrLf(s[2..])
    else if s == [] then []
    else [s[0]] + ReplaceCrLf(s[1..])
  }

  lemma {:induction false} ReplaceNothing(s: string)
    requires NoPair(s, '\r', '\n')
    ensures ReplaceCrLf(s) == s
  {
    if s != [] {
      assert !PairAt(s, 0, '\r', '\n');
      var t := s[1..];
      forall i: nat | i < |t|
        ensures !PairAt(t, i, '\r', '\n')
      {
        assert !PairAt(s, i + 1, '\r', '\n');
      }
      ReplaceNothing(t);
    }
  }

  lemma {:induction false} ReplaceShrinks(s: string)
    ensures |ReplaceCrLf(s)| <= |s|
    ensures !NoPair(s, '\r', '\n') ==> |ReplaceCrLf(s)| < |s|
    decreases |s|
  {
    if |s| >= 2 && s[0] == '\r' && s[1] == '\n' {
      ReplaceShrinks(s[2..]);
    } else if s != [] {
      var t := s[1..];
      ReplaceShrinks(t);
      if !NoPair(s, '\r', '\n') {
        var i: nat :| i < |s| && PairAt(s, i, '\r', '\n');
        assert i > 0;
        assert PairAt(t, i - 1, '\r', '\n');
      }
    }
  }

  /** Replacement works piecewise unless the seam itself is `\r\n`. */
  predicate StartsCrLf(s: string) { |s| >= 2 && s[0] == '\r' && s[1] == '\n' }

  lemma ReplaceStep(s: string)
    requires s != []
    ensures StartsCrLf(s) ==> ReplaceCrLf(s) == ['\n'] + ReplaceCrLf(s[2..])
    ensures !StartsCrLf(s) ==> ReplaceCrLf(s) == [s[0]] + ReplaceCrLf(s[1..])
  {
  }

  lemma {:induction false} ReplaceConcat(a: string, b: string)
    requires a == [] || b == [] || a[|a| - 1] != '\r' || b[0] != '\n'
    ensures ReplaceCrLf(a + b) == ReplaceCrLf(a) + ReplaceCrLf(b)
    decreases |a|
  {
    if a == [] {
      assert a + b == b;
    } else {
      ReplaceStep(a);
      ReplaceStep(a + b);
      hide ReplaceCrLf;
      assert StartsCrLf(a + b) == StartsCrLf(a);
      if StartsCrLf(a) {
        ReplaceConcat(a[2..], b);
        ReplaceAfter(a, b, 2, ['\n']);
      } else {
        ReplaceConcat(a[1..], b);
        ReplaceAfter(a, b, 1, [a[0]]);
      }
    }
  }

  lemma ReplaceAfter(a: string, b: string, k: nat, head: string)
    requires k <= |a| && ReplaceCrLf(a) == head + ReplaceCrLf(a[k..])
    requires ReplaceCrLf(a + b) == head + ReplaceCrLf((a + b)[k..])
    requires ReplaceCrLf(a[k..] + b) == ReplaceCrLf(a[k..]) + ReplaceCrLf(b)
    ensures ReplaceCrLf(a + b) == ReplaceCrLf(a) + ReplaceCrLf(b)
  {
    hide ReplaceCrLf;
    assert (a + b)[k..] == a[k..] + b;
  }

  /** The last character survives unless it is part of a replaced pair's end. */
  lemma {:induction false} ReplaceEnds(s: string)
    requires s != []
    ensures ReplaceCrLf(s) != [] && ReplaceCrLf(s)[|ReplaceCrLf(s)| - 1] == s[|s| - 1]
    decreases |s|
  {
    if |s| >= 2 && s[0] == '\r' && s[1] == '\n' {
      if |s| > 2 {
        ReplaceEnds(s[2..]);
      }
    } else if |s| > 1 {
      ReplaceEnds(s[1..]);
    }
  }

  // --- Decimal numbers ---

  predicate IsDigit(c: char) { '0' <= c <= '9' }

  predicate AllDigits(s: string) { forall i :: 0 <= i < |s| ==> IsDigit(s[i]) }

  function ToDec(n: nat): string {
    if n < 10 then ['0' + n as char] else ToDec(n / 10) + ['0' + (n % 10) as char]
  }

  function DecValue(s: string): nat
    requires AllDigits(s)
  {
    if s == [] then 0 else 10 * DecValue(s[..|s| - 1]) + (s[|s| - 1] - '0') as nat
  }

  /** `str::parse::<u32>`: an optional `+`, at least one digit, no overflow. */
  function ParseU32(s: string): Option<u32> {
    var digits := if s != [] && s[0] == '+' then s[1..] else s;
    if digits == [] || !AllDigits(digits) || DecValue(digits) > U32_MAX then None else Some(DecValue(digits))
  }

  lemma {:induction false} DecRoundTrip(n: nat)
    ensures ToDec(n) != [] && AllDigits(ToDec(n)) && DecValue(ToDec(n)) == n
  {
    if n >= 10 {
      DecRoundTrip(n / 10);
      var s := ToDec(n);
      assert s[..|s| - 1] == ToDec(n / 10);
    } else {
      assert ToDec(n)[..0] == [];
    }
  }

  lemma ParseU32ToDec(n: u32)
    ensures ParseU32(ToDec(n)) == Some(n)
    ensures ToDec(n) != [] && AllDigits(ToDec(n))
  {
    DecRoundTrip(n);
    assert IsDigit(ToDec(n)[0]);
  }
}
