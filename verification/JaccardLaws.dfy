/** What the similarity scan reports, said of lines and their words alone. */
module JaccardLaws {
  import opened Text
  import opened Jaccard

  // --- Normal forms ---

  predicate Blank(w: string) { forall i :: 0 <= i < |w| ==> IsWhitespace(w[i]) }

  /** No whitespace at either end, and only single plain spaces inside. */
  predicate Plain(line: string) {
    && (line != [] ==> !IsWhitespace(line[0]) && !IsWhitespace(line[|line| - 1]))
    && forall i :: 0 <= i < |line| - 1 && IsWhitespace(line[i]) ==> line[i] == ' ' && !IsWhitespace(line[i + 1])
  }

  lemma {:induction false} SkipWordEnds(s: string)
    ensures SkipWord(s) < |s| ==> IsWhitespace(s[SkipWord(s)])
    ensures forall i :: 0 <= i < SkipWord(s) ==> !IsWhitespace(s[i])
  {
    if s != [] && !IsWhitespace(s[0]) {
      SkipWordEnds(s[1..]);
    }
  }

  lemma {:induction false} SkipWordIs(s: string, k: nat)
    requires k <= |s| && (k < |s| ==> IsWhitespace(s[k]))
    requires forall i :: 0 <= i < k ==> !IsWhitespace(s[i])
    ensures SkipWord(s) == k
  {
    if k > 0 {
      SkipWordIs(s[1..], k - 1);
    }
  }

  lemma WordsFirst(s: string, k: nat)
    requires 0 < k <= |s| && (k < |s| ==> IsWhitespace(s[k]))
    requires forall i :: 0 <= i < k ==> !IsWhitespace(s[i])
    ensures Words(s) == [s[..k]] + Words(s[k..])
  {
    SkipWordIs(s, k);
  }

  lemma {:induction false} WordsLeading(w: string, s: string)
    requires Blank(w)
    ensures Words(w + s) == Words(s)
  {
    if w == [] {
      assert w + s == s;
    } else {
      assert (w + s)[1..] == w[1..] + s;
      WordsLeading(w[1..], s);
    }
  }

  /** Whitespace separates words, however much there is. */
  lemma {:induction false} WordsSeam(a: string, w: string, b: string)
    requires Blank(w) && w != []
    ensures Words(a + w + b) == Words(a) + Words(b)
    decreases |a|
  {
    if a == [] {
      assert a + w + b == w + b;
      WordsLeading(w, b);
    } else if IsWhitespace(a[0]) {
      WordsSeam(a[1..], w, b);
      SeamSpace(a, w, b);
    } else {
      SkipWordEnds(a);
      WordsSeam(a[SkipWord(a)..], w, b);
      SeamWord(a, SkipWord(a), w, b);
    }
  }

  lemma SeamSpace(a: string, w: string, b: string)
    requires a != [] && IsWhitespace(a[0]) && Words(a[1..] + w + b) == Words(a[1..]) + Words(b)
    ensures Words(a + w + b) == Words(a) + Words(b)
  {
    hide IsWhitespace, SkipWord;
    assert (a + w + b)[1..] == a[1..] + w + b;
  }

  lemma SeamWord(a: string, k: nat, w: string, b: string)
    requires 0 < k <= |a| && (k < |a| ==> IsWhitespace(a[k])) && forall i :: 0 <= i < k ==> !IsWhitespace(a[i])
    requires Blank(w) && w != [] && Words(a[k..] + w + b) == Words(a[k..]) + Words(b)
    ensures Words(a + w + b) == Words(a) + Words(b)
  {
    hide Words, IsWhitespace;
    assert (w + b)[0] == w[0];
    assert a + w + b == a + (w + b) && a[k..] + w + b == a[k..] + (w + b);
    WordsAhead(a, k, w + b);
    WordsFirst(a, k);
  }

  lemma WordsAhead(a: string, k: nat, t: string)
    requires 0 < k <= |a| && (k < |a| ==> IsWhitespace(a[k])) && forall i :: 0 <= i < k ==> !IsWhitespace(a[i])
    requires t != [] && IsWhitespace(t[0])
    ensures Words(a + t) == [a[..k]] + Words(a[k..] + t)
  {
    hide Words, IsWhitespace;
    var s := a + t;
    assert s[..k] == a[..k] && s[k..] == a[k..] + t;
    assert k < |s| ==> s[k] == if k < |a| then a[k] else t[0];
    assert forall i :: 0 <= i < k ==> s[i] == a[i];
    WordsFirst(s, k);
  }

  /** One run of whitespace is as good as another. */
  lemma NormalizeRuns(a: string, w: string, v: string, b: string)
    requires Blank(w) && Blank(v) && w != [] && v != []
    ensures Normalize(a + w + b) == Normalize(a + v + b)
  {
    WordsSeam(a, w, b);
    WordsSeam(a, v, b);
  }

  /** Whitespace at either end does not matter. */
  lemma NormalizeEnds(w: string, line: string, v: string)
    requires Blank(w) && Blank(v)
    ensures Normalize(w + line + v) == Normalize(line)
  {
    assert w + line + v == w + (line + v);
    WordsLeading(w, line + v);
    if v != [] {
      assert line + v == line + v + [];
      WordsSeam(line, v, []);
      assert Words(line) + Words([]) == Words(line);
    } else {
      assert line + v == line;
    }
  }

  lemma PlainRest(line: string, k: nat)
    requires Plain(line) && k < |line| && IsWhitespace(line[k])
    ensures line[k] == ' ' && k < |line| - 1
    ensures Plain(line[k + 1..]) && !IsWhitespace(line[k + 1]) && line == line[..k] + [' '] + line[k + 1..]
  {
  }

  /** A plain line is its own normal form. */
  lemma {:induction false} NormalizePlain(line: string)
    requires Plain(line)
    ensures Normalize(line) == line
    decreases |line|
  {
    if line != [] {
      var k := SkipWord(line);
      SkipWordEnds(line);
      PlainHead(line);
      if k < |line| {
        PlainRest(line, k);
        NormalizePlain(line[k + 1..]);
        NormalizeWord(line[..k], line[k + 1..]);
      } else {
        assert line[..k] == line;
        NormalizeOne(line);
      }
    }
  }

  lemma PlainHead(line: string)
    requires Plain(line) && line != []
    ensures SkipWord(line) > 0
  {
  }

  lemma NormalizeOne(word: string)
    requires word != [] && forall i :: 0 <= i < |word| ==> !IsWhitespace(word[i])
    ensures Normalize(word) == word
  {
    WordsFirst(word, |word|);
    assert word[..|word|] == word && word[|word|..] == [];
    assert Words(word) == [word];
  }

  lemma NormalizeWord(word: string, rest: string)
    requires word != [] && forall i :: 0 <= i < |word| ==> !IsWhitespace(word[i])
    requires rest != [] && !IsWhitespace(rest[0])
    ensures Normalize(word + [' '] + rest) == word + [' '] + Normalize(rest)
  {
    var line := word + [' '] + rest;
    WordsFirst(line, |word|);
    assert line[..|word|] == word && line[|word|..] == [' '] + rest;
    WordsLeading([' '], rest);
    WordsOfSome(rest);
    JoinFirst(word, Words(rest));
  }

  lemma WordsOfSome(s: string)
    requires s != [] && !IsWhitespace(s[0])
    ensures Words(s) != []
  {
  }

  lemma JoinFirst(word: string, words: seq<string>)
    requires words != []
    ensures Join([word] + words, ' ') == word + [' '] + Join(words, ' ')
  {
    assert ([word] + words)[1..] == words;
  }

  // --- Similarity as a quotient of sums ---

  function Least(x: nat, y: nat): nat { if x < y then x else y }

  function Most(x: nat, y: nat): nat { if x < y then y else x }

  /** The sum of `f` over the listed keys. */
  function Total<T>(keys: seq<T>, f: T -> nat): nat {
    if keys == [] then 0 else f(keys[0]) + Total(keys[1..], f)
  }

  lemma {:induction false} TotalSame<T>(keys: seq<T>, f: T -> nat, g: T -> nat)
    requires forall k :: k in keys ==> f(k) == g(k)
    ensures Total(keys, f) == Total(keys, g)
  {
    if keys != [] {
      TotalSame(keys[1..], f, g);
    }
  }

  ghost predicate Once<T(!new)>(keys: seq<T>) {
    forall i, j :: 0 <= i < j < |keys| ==> keys[i] != keys[j]
  }

  lemma {:induction false} SizeIsTotal<T(!new)>(m: multiset<T>, keys: seq<T>)
    requires Once(keys) && forall x :: x in m ==> x in keys
    ensures |m| == Total(keys, k => m[k])
  {
    if keys == [] {
      assert m == multiset{};
    } else {
      var k, rest := keys[0], m[keys[0] := 0];
      assert m == rest + multiset{k}[k := m[k]];
      assert forall x :: x in rest ==> x in keys[1..];
      SizeIsTotal(rest, keys[1..]);
      assert k !in keys[1..];
      TotalSame(keys[1..], x => rest[x], x => m[x]);
    }
  }

  /** The score is the sum of the smaller counts over the sum of the larger ones,
      taken over any list that names every line once, and 0 when there is none. */
  lemma SimilarityIsQuotient<T(!new)>(a: seq<T>, w: seq<T>, keys: seq<T>)
    requires Once(keys) && forall x :: x in a || x in w ==> x in keys
    ensures var smaller, larger := Total(keys, k => Least(multiset(a)[k], multiset(w)[k])),
                                   Total(keys, k => Most(multiset(a)[k], multiset(w)[k]));
      Similarity(a, w) == if larger == 0 then 0.0 else smaller as real / larger as real
  {
    var m, n := multiset(a), multiset(w);
    SizeIsTotal(m * n, keys);
    SizeIsTotal(m + (n - m), keys);
    TotalSame(keys, k => (m * n)[k], k => Least(m[k], n[k]));
    TotalSame(keys, k => (m + (n - m))[k], k => Most(m[k], n[k]));
  }

  // --- What is reported ---

  ghost predicate Upward(r: seq<Scored>, n: nat) {
    (forall i :: 0 <= i < |r| ==> r[i].start < n) && forall i, j :: 0 <= i < j < |r| ==> r[i].start < r[j].start
  }

  lemma KeepUpward(prior: seq<Scored>, start: nat, confidence: real, noiseFloor: real)
    requires Upward(prior, start)
    ensures Upward(Keep(prior, start, confidence, noiseFloor), start + 1)
  {
  }

  lemma {:induction false} ReportedBelow(anchored: string, candidates: seq<string>, extent: nat, noiseFloor: real,
                                         n: nat)
    requires n <= Windows(|candidates|, extent)
    ensures Upward(LineScan(anchored, candidates, extent, noiseFloor, n), n)
  {
    hide LineSimilarity, Upward, Keep;
    if n > 0 {
      ReportedBelow(anchored, candidates, extent, noiseFloor, n - 1);
      KeepUpward(LineScan(anchored, candidates, extent, noiseFloor, n - 1), n - 1,
                 LineSimilarity(anchored, candidates[n - 1..n - 1 + extent]), noiseFloor);
    } else {
      NothingUpward();
    }
  }

  lemma NothingUpward()
    ensures Upward([], 0)
  {
  }

  lemma {:induction false} ReportedUpTo(anchored: string, candidates: seq<string>, extent: nat, noiseFloor: real,
                                        n: nat,
                                        x: Scored)
    requires n <= Windows(|candidates|, extent)
    ensures x in LineScan(anchored, candidates, extent, noiseFloor, n) <==>
      x.start < n && x.confidence == LineSimilarity(anchored, candidates[x.start..x.start + extent]) &&
      x.confidence >= noiseFloor
  {
    hide LineSimilarity;
    if n > 0 {
      ReportedUpTo(anchored, candidates, extent, noiseFloor, n - 1, x);
    }
  }

  /** The scan reports every window at or above the floor with its score, from top
      to bottom, and nothing else. */
  lemma ReportedExactly(anchored: string, candidates: seq<string>, extent: nat, noiseFloor: real, x: Scored)
    ensures var r := LineScan(anchored, candidates, extent, noiseFloor, Windows(|candidates|, extent));
      && (x in r <==>
           && 0 < extent && x.start + extent <= |candidates| && x.confidence >= noiseFloor
           && x.confidence == LineSimilarity(anchored, candidates[x.start..x.start + extent]))
      && forall i, j :: 0 <= i < j < |r| ==> r[i].start < r[j].start
  {
    hide LineSimilarity;
    var n := Windows(|candidates|, extent);
    ReportedBelow(anchored, candidates, extent, noiseFloor, n);
    ReportedUpTo(anchored, candidates, extent, noiseFloor, n, x);
  }

  /** One line against one line: all or nothing, by the words. An empty candidate
      never counts. */
  lemma OneLineScore(line: string, candidate: string)
    requires line != [] && '\n' !in line
    ensures LineSimilarity(line, [candidate]) ==
      if candidate != [] && Normalize(candidate) == Normalize(line) then 1.0 else 0.0
  {
    NextBreakUnique(line, 0, '\n', |line|);
    assert TextLines(line) == [line];
    var a := NormalizeAll([line]);
    assert a == [Normalize(line)];
    if candidate == [] {
      assert Surviving([candidate]) == [];
      OneAgainstNone(a[0]);
    } else {
      assert NormalizeAll([candidate]) == [Normalize(candidate)];
      OneAgainstOne(a[0], Normalize(candidate));
    }
  }

  lemma OneAgainstNone(x: string)
    ensures Similarity([x], []) == 0.0
  {
    assert multiset([x]) * multiset{} == multiset{};
  }

  lemma OneAgainstOne(x: string, y: string)
    ensures Similarity([x], [y]) == if x == y then 1.0 else 0.0
  {
    assert multiset([x]) == multiset{x} && multiset([y]) == multiset{y};
    if x == y {
      assert multiset{x} * multiset{y} == multiset{x};
      assert multiset{x} + (multiset{y} - multiset{x}) == multiset{x};
    } else {
      assert multiset{x} * multiset{y} == multiset{};
      assert multiset{x} + (multiset{y} - multiset{x}) == multiset{x, y};
    }
  }

  /** At extent 1 a one-line text is found at exactly the candidates with its words. */
  lemma OneLineScan(line: string, candidates: seq<string>, noiseFloor: real, i: nat)
    requires line != [] && '\n' !in line && 0.0 < noiseFloor <= 1.0
    ensures var r := LineScan(line, candidates, 1, noiseFloor, Windows(|candidates|, 1));
      Scored(i, 1.0) in r <==> i < |candidates| && candidates[i] != [] && Normalize(candidates[i]) == Normalize(line)
    ensures forall x :: x in LineScan(line, candidates, 1, noiseFloor, Windows(|candidates|, 1)) ==> x.confidence == 1.0
  {
    hide LineSimilarity, Normalize;
    forall x
      ensures x in LineScan(line, candidates, 1, noiseFloor, Windows(|candidates|, 1)) <==>
        x.start < |candidates| && x.confidence == 1.0 && candidates[x.start] != [] &&
        Normalize(candidates[x.start]) == Normalize(line)
    {
      ReportedExactly(line, candidates, 1, noiseFloor, x);
      if x.start < |candidates| {
        assert candidates[x.start..x.start + 1] == [candidates[x.start]];
        OneLineScore(line, candidates[x.start]);
      }
    }
  }
}
