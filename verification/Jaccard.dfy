/** Line-level Jaccard similarity: the sliding-window scan against the
    from-scratch computation on every window. Confidences are exact reals. */
module Jaccard {
  import opened Text

  // --- Reference: one similarity from scratch ---

  function SizeOfUnion<T(==)>(a: multiset<T>, w: multiset<T>): nat { |a + (w - a)| }

  function Ratio(intersection: nat, union: nat): real {
    if union == 0 then 0.0 else intersection as real / union as real
  }

  /** Multiset intersection over multiset union, 0 when both are empty. */
  function Score<T(==)>(a: multiset<T>, w: multiset<T>): real { Ratio(|a * w|, SizeOfUnion(a, w)) }

  function Similarity<T(==)>(a: seq<T>, w: seq<T>): real { Score(multiset(a), multiset(w)) }

  function SkipWord(s: string): (k: nat)
    ensures k <= |s| && (s != [] && !IsWhitespace(s[0]) ==> k > 0)
  {
    if s == [] || IsWhitespace(s[0]) then 0 else 1 + SkipWord(s[1..])
  }

  function Words(s: string): seq<string>
    decreases |s|
  {
    if s == [] then []
    else if IsWhitespace(s[0]) then Words(s[1..])
    else [s[..SkipWord(s)]] + Words(s[SkipWord(s)..])
  }

  /** `line.split_whitespace()` joined by single spaces. */
  function Normalize(line: string): string { Join(Words(line), ' ') }

  function NormalizeAll(lines: seq<string>): (r: seq<string>)
    ensures |r| == |lines| && forall i :: 0 <= i < |r| ==> r[i] == Normalize(lines[i])
  {
    seq(|lines|, i requires 0 <= i < |lines| => Normalize(lines[i]))
  }

  function TextLines(text: string): seq<string> { StrLines(text, '\n', '\r') }

  function NaiveSimilarity(anchored: string, window: string): real {
    Similarity(NormalizeAll(TextLines(anchored)), NormalizeAll(TextLines(window)))
  }

  datatype Scored = Scored(start: nat, confidence: real)

  /** Windows scoring below the floor are not reported. */
  function Keep(prior: seq<Scored>, start: nat, confidence: real, noiseFloor: real): seq<Scored> {
    if confidence >= noiseFloor then prior + [Scored(start, confidence)] else prior
  }

  function Windows(count: nat, extent: nat): nat {
    if extent == 0 || count < extent then 0 else count - extent + 1
  }

  /** Join each of the first `n` windows, re-split it, and compare it from scratch. */
  function NaiveScan(anchored: string, candidates: seq<string>, extent: nat, noiseFloor: real, n: nat): seq<Scored>
    requires n <= Windows(|candidates|, extent)
  {
    if n == 0 then []
    else
      var window := candidates[n - 1..n - 1 + extent];
      Keep(NaiveScan(anchored, candidates, extent, noiseFloor, n - 1), n - 1,
           NaiveSimilarity(anchored, Join(window, '\n')), noiseFloor)
  }

  /** The similarity of a window's lines; a trailing empty line does not count. */
  function LineSimilarity(anchored: string, window: seq<string>): real {
    Similarity(NormalizeAll(TextLines(anchored)), NormalizeAll(Surviving(window)))
  }

  function LineScan(anchored: string, candidates: seq<string>, extent: nat, noiseFloor: real, n: nat): seq<Scored>
    requires n <= Windows(|candidates|, extent)
  {
    if n == 0 then []
    else
      Keep(LineScan(anchored, candidates, extent, noiseFloor, n - 1), n - 1,
           LineSimilarity(anchored, candidates[n - 1..n - 1 + extent]), noiseFloor)
  }

  // --- Joining a window and splitting it again ---

  lemma {:induction false} WordsTrailing(s: string, c: char)
    requires IsWhitespace(c)
    ensures Words(s + [c]) == Words(s)
    decreases |s|
  {
    if s == [] {
      assert (s + [c])[1..] == [];
    } else if IsWhitespace(s[0]) {
      assert (s + [c])[1..] == s[1..] + [c];
      WordsTrailing(s[1..], c);
    } else {
      SkipWordTrailing(s, c);
      var k := SkipWord(s);
      assert (s + [c])[..k] == s[..k];
      assert (s + [c])[k..] == s[k..] + [c];
      WordsTrailing(s[k..], c);
    }
  }

  lemma {:induction false} SkipWordTrailing(s: string, c: char)
    requires IsWhitespace(c)
    ensures SkipWord(s + [c]) == SkipWord(s)
  {
    if s != [] {
      assert (s + [c])[1..] == s[1..] + [c];
      SkipWordTrailing(s[1..], c);
    }
  }

  /** A carriage return stripped by the re-split is invisible after normalizing. */
  lemma NormalizeStripCr(line: string)
    ensures Normalize(StripCr(line, '\r')) == Normalize(line)
  {
    if line != [] && line[|line| - 1] == '\r' {
      var t := line[..|line| - 1];
      assert line == t + ['\r'];
      WordsTrailing(t, '\r');
    }
  }

  /** The lines that survive joining and splitting: all but a trailing empty one. */
  function Surviving(window: seq<string>): seq<string> {
    if window != [] && window[|window| - 1] == "" then window[..|window| - 1] else window
  }

  lemma NormalizeCons(line: string, lines: seq<string>)
    ensures NormalizeAll([line] + lines) == [Normalize(line)] + NormalizeAll(lines)
  {
  }

  lemma RejoinedLine(line: string)
    requires '\n' !in line
    ensures TextLines(Join([line], '\n')) == Surviving([line])
  {
    NextBreakUnique(line, 0, '\n', |line|);
    assert [line][..0] == [];
  }

  lemma SurvivingCons(line: string, rest: seq<string>)
    requires rest != []
    ensures Surviving([line] + rest) == [line] + Surviving(rest)
  {
  }

  lemma {:induction false} RejoinedWindow(window: seq<string>)
    requires forall i :: 0 <= i < |window| ==> '\n' !in window[i]
    ensures NormalizeAll(TextLines(Join(window, '\n'))) == NormalizeAll(Surviving(window))
  {
    if |window| == 1 {
      RejoinedLine(window[0]);
      assert window == [window[0]];
    } else if |window| > 1 {
      var l, rest := window[0], window[1..];
      var joined := Join(rest, '\n');
      assert window == [l] + rest;
      calc {
        NormalizeAll(TextLines(Join(window, '\n')));
        { StrLinesCons(l, joined, '\n', '\r'); }
        NormalizeAll([StripCr(l, '\r')] + TextLines(joined));
        { NormalizeCons(StripCr(l, '\r'), TextLines(joined)); NormalizeStripCr(l); }
        [Normalize(l)] + NormalizeAll(TextLines(joined));
        { RejoinedWindow(rest); }
        [Normalize(l)] + NormalizeAll(Surviving(rest));
        { NormalizeCons(l, Surviving(rest)); SurvivingCons(l, rest); }
        NormalizeAll(Surviving(window));
      }
    }
  }

  // --- Interning ---

  const ID_LIMIT: nat := 0x1_0000_0000

  /** Equal ids mean equal strings. */
  ghost predicate Injective(interner: map<string, nat>) {
    forall s, t :: s in interner && t in interner && interner[s] == interner[t] ==> s == t
  }

  /** New ids are below the size of the table; as `u32`s they stay distinct while
      it holds at most 2^32 strings. */
  ghost predicate InternerValid(interner: map<string, nat>) {
    && (forall s :: s in interner ==> interner[s] < |interner|)
    && (|interner| <= ID_LIMIT ==> Injective(interner))
  }

  /** Every string of `m` is in `n` with the same id. */
  ghost predicate Extends(m: map<string, nat>, n: map<string, nat>) {
    forall s :: s in m ==> s in n && n[s] == m[s]
  }

  ghost predicate InternedAs(interner: map<string, nat>, lines: seq<string>, ids: seq<nat>) {
    |ids| == |lines| && forall i :: 0 <= i < |lines| ==> lines[i] in interner && ids[i] == interner[lines[i]]
  }

  method InternLine(interner: map<string, nat>, s: string) returns (id: nat, interner': map<string, nat>)
    requires InternerValid(interner)
    ensures InternerValid(interner') && s in interner' && id == interner'[s]
    ensures |interner| <= |interner'| <= |interner| + 1
    ensures Extends(interner, interner')
  {
    var next := |interner| % ID_LIMIT;
    interner' := interner;
    if s !in interner {
      interner' := interner[s := next];
    }
    id := interner'[s];
  }

  lemma InternedSnoc(m: map<string, nat>, n: map<string, nat>, front: seq<string>, ids: seq<nat>, s: string, id: nat)
    requires InternedAs(m, front, ids) && Extends(m, n) && s in n && id == n[s]
    ensures InternedAs(n, front + [s], ids + [id])
  {
  }

  lemma ExtendsTransitive(l: map<string, nat>, m: map<string, nat>, n: map<string, nat>)
    requires Extends(l, m) && Extends(m, n)
    ensures Extends(l, n)
  {
  }

  /** The first `n` lines are interned in a table grown from `interner0`. */
  ghost predicate Interning(interner0: map<string, nat>, interner: map<string, nat>, norms: seq<string>, n: nat,
                            ids: seq<nat>)
    requires n <= |norms|
  {
    && InternerValid(interner) && |interner| <= |interner0| + n
    && InternedAs(interner, norms[..n], ids)
    && Extends(interner0, interner)
  }

  lemma InterningStep(interner0: map<string, nat>, interner: map<string, nat>, grown: map<string, nat>,
                      norms: seq<string>, n: nat,
                      ids: seq<nat>, id: nat)
    requires n < |norms| && Interning(interner0, interner, norms, n, ids)
    requires InternerValid(grown) && Extends(interner, grown) && |grown| <= |interner| + 1
    requires norms[n] in grown && id == grown[norms[n]]
    ensures Interning(interner0, grown, norms, n + 1, ids + [id])
  {
    assert norms[..n + 1] == norms[..n] + [norms[n]];
    InternedSnoc(interner, grown, norms[..n], ids, norms[n], id);
    ExtendsTransitive(interner0, interner, grown);
  }

  method InternNext(line: string, ids0: seq<nat>, grown0: map<string, nat>, ghost interner0: map<string, nat>,
                    ghost norms: seq<string>, ghost n: nat)
    returns (ids: seq<nat>, grown: map<string, nat>)
    requires n < |norms| && norms[n] == Normalize(line)
    requires Interning(interner0, grown0, norms, n, ids0)
    ensures Interning(interner0, grown, norms, n + 1, ids)
  {
    var id, after := InternLine(grown0, Normalize(line));
    InterningStep(interner0, grown0, after, norms, n, ids0, id);
    ids, grown := ids0 + [id], after;
  }

  ghost predicate Flags(lines: seq<string>, n: nat, rawEmpty: seq<bool>)
    requires n <= |lines|
  {
    |rawEmpty| == n && forall i :: 0 <= i < n ==> rawEmpty[i] == (lines[i] == "")
  }

  /** Ids and raw-emptiness flags of the normalized lines. */
  method InternNormalizedLines(lines: seq<string>, interner0: map<string, nat>)
    returns (ids: seq<nat>, rawEmpty: seq<bool>, interner: map<string, nat>)
    requires InternerValid(interner0)
    ensures InternerValid(interner) && |interner| <= |interner0| + |lines|
    ensures InternedAs(interner, NormalizeAll(lines), ids)
    ensures Flags(lines, |lines|, rawEmpty)
    ensures Extends(interner0, interner)
  {
    hide Interning;
    ghost var norms := NormalizeAll(lines);
    ids, rawEmpty, interner := [], [], interner0;
    InterningStarts(interner0, norms);
    for n := 0 to |lines|
      invariant Flags(lines, n, rawEmpty)
      invariant Interning(interner0, interner, norms, n, ids)
    {
      rawEmpty := rawEmpty + [lines[n] == ""];
      ids, interner := InternNext(lines[n], ids, interner, interner0, norms, n);
    }
    InterningDone(interner0, interner, norms, ids);
  }

  lemma InterningStarts(interner0: map<string, nat>, norms: seq<string>)
    requires InternerValid(interner0)
    ensures Interning(interner0, interner0, norms, 0, [])
  {
  }

  lemma InterningDone(interner0: map<string, nat>, interner: map<string, nat>, norms: seq<string>, ids: seq<nat>)
    requires Interning(interner0, interner, norms, |norms|, ids)
    ensures InternerValid(interner) && |interner| <= |interner0| + |norms|
    ensures InternedAs(interner, norms, ids) && Extends(interner0, interner)
  {
    assert norms[..|norms|] == norms;
  }

  // --- Intersection under one more element ---

  lemma OverlapAdd<T>(a: multiset<T>, w: multiset<T>, x: T)
    ensures |a * (w + multiset{x})| == |a * w| + if w[x] < a[x] then 1 else 0
  {
    if w[x] < a[x] {
      assert a * (w + multiset{x}) == a * w + multiset{x};
    } else {
      assert a * (w + multiset{x}) == a * w;
    }
  }

  /** Inclusion and exclusion over multisets. */
  lemma UnionSize<T>(a: multiset<T>, w: multiset<T>)
    ensures |a * w| <= |a| && |a * w| <= |w|
    ensures SizeOfUnion(a, w) == |a| + |w| - |a * w|
  {
    assert w == (w - a) + (a * w);
    assert a == (a - w) + (a * w);
  }

  // --- Ids against strings ---

  lemma {:induction false} CountInterned(interner: map<string, nat>, lines: seq<string>, ids: seq<nat>, s: string)
    requires Injective(interner) && InternedAs(interner, lines, ids) && s in interner
    ensures multiset(ids)[interner[s]] == multiset(lines)[s]
  {
    if lines != [] {
      var n := |lines| - 1;
      CountInterned(interner, lines[..n], ids[..n], s);
      assert lines == lines[..n] + [lines[n]] && ids == ids[..n] + [ids[n]];
    }
  }

  lemma OverlapSnoc<T>(a: multiset<T>, front: seq<T>, x: T)
    ensures |a * multiset(front + [x])| == |a * multiset(front)| + if multiset(front)[x] < a[x] then 1 else 0
  {
    assert multiset(front + [x]) == multiset(front) + multiset{x};
    OverlapAdd(a, multiset(front), x);
  }

  lemma OverlapInternedStep(interner: map<string, nat>, a: seq<string>, aIds: seq<nat>, w: seq<string>,
                            wIds: seq<nat>, s: string, id: nat)
    requires Injective(interner) && InternedAs(interner, a, aIds) && InternedAs(interner, w, wIds)
    requires s in interner && id == interner[s]
    requires |multiset(aIds) * multiset(wIds)| == |multiset(a) * multiset(w)|
    ensures |multiset(aIds) * multiset(wIds + [id])| == |multiset(a) * multiset(w + [s])|
  {
    CountInterned(interner, a, aIds, s);
    CountInterned(interner, w, wIds, s);
    OverlapSnoc(multiset(a), w, s);
    OverlapSnoc(multiset(aIds), wIds, id);
  }

  /** The overlap only depends on which ids are equal. */
  lemma {:induction false} OverlapInterned(interner: map<string, nat>, a: seq<string>, aIds: seq<nat>,
                                           w: seq<string>, wIds: seq<nat>)
    requires Injective(interner) && InternedAs(interner, a, aIds) && InternedAs(interner, w, wIds)
    ensures |multiset(aIds) * multiset(wIds)| == |multiset(a) * multiset(w)|
    decreases |w|
  {
    if w == [] {
      assert multiset(a) * multiset(w) == multiset{} && multiset(aIds) * multiset(wIds) == multiset{};
    } else {
      var n := |w| - 1;
      assert w == w[..n] + [w[n]] && wIds == wIds[..n] + [wIds[n]];
      OverlapInterned(interner, a, aIds, w[..n], wIds[..n]);
      OverlapInternedStep(interner, a, aIds, w[..n], wIds[..n], w[n], wIds[n]);
    }
  }

  lemma SameSizes<S, T>(a: seq<S>, w: seq<S>, b: seq<T>, v: seq<T>)
    requires |a| == |b| && |w| == |v| && |multiset(a) * multiset(w)| == |multiset(b) * multiset(v)|
    ensures Similarity(a, w) == Similarity(b, v)
  {
    UnionSize(multiset(a), multiset(w));
    UnionSize(multiset(b), multiset(v));
  }

  /** Similarity of ids is similarity of the strings they stand for. */
  lemma SimilarityInterned(interner: map<string, nat>, a: seq<string>, aIds: seq<nat>, w: seq<string>, wIds: seq<nat>)
    requires Injective(interner) && InternedAs(interner, a, aIds) && InternedAs(interner, w, wIds)
    ensures Similarity(aIds, wIds) == Similarity(a, w)
  {
    OverlapInterned(interner, a, aIds, w, wIds);
    SameSizes(aIds, wIds, a, w);
  }

  // --- The sliding scan over ids ---

  /** The ids a window contributes: a raw-empty last line is dropped. */
  function EffectiveIds(ids: seq<nat>, rawEmpty: seq<bool>, start: nat, extent: nat): seq<nat>
    requires 0 < extent && start + extent <= |ids| == |rawEmpty|
  {
    var last := start + extent - 1;
    if rawEmpty[last] then ids[start..last] else ids[start..start + extent]
  }

  function IdScan(anchored: seq<nat>, ids: seq<nat>, rawEmpty: seq<bool>, extent: nat, noiseFloor: real, n: nat):
    seq<Scored>
    requires |ids| == |rawEmpty| && n <= Windows(|ids|, extent)
  {
    if n == 0 then []
    else
      Keep(IdScan(anchored, ids, rawEmpty, extent, noiseFloor, n - 1), n - 1,
           Similarity(anchored, EffectiveIds(ids, rawEmpty, n - 1, extent)), noiseFloor)
  }

  function Count(counts: map<nat, nat>, id: nat): nat { if id in counts then counts[id] else 0 }

  ghost predicate Counts(counts: map<nat, nat>, m: multiset<nat>) {
    forall id :: Count(counts, id) == m[id]
  }

  method CountIds(ids: seq<nat>) returns (counts: map<nat, nat>)
    ensures Counts(counts, multiset(ids))
  {
    counts := map[];
    for n := 0 to |ids|
      invariant Counts(counts, multiset(ids[..n]))
    {
      assert ids[..n + 1] == ids[..n] + [ids[n]];
      counts := counts[ids[n] := Count(counts, ids[n]) + 1];
    }
    assert ids[..|ids|] == ids;
  }

  /** The multiset a window contributes, given its lines before the last. */
  function Effective(front: multiset<nat>, lastId: nat, lastRawEmpty: bool): multiset<nat> {
    if lastRawEmpty then front else front + multiset{lastId}
  }

  lemma ScoreBySizes(a: multiset<nat>, w: multiset<nat>, overlap: nat)
    requires overlap == |a * w|
    ensures overlap <= |a| && overlap <= |w| && Score(a, w) == Ratio(overlap, |a| + |w| - overlap)
  {
    UnionSize(a, w);
  }

  /** The confidence of the window described by the running counts. */
  method WindowConfidence(aTotal: nat, anchoredCount: map<nat, nat>, windowCount: map<nat, nat>, intersection: nat,
                          extent: nat, lastId: nat, lastRawEmpty: bool, ghost a: multiset<nat>,
                          ghost front: multiset<nat>)
    returns (confidence: real)
    requires |a| == aTotal && |front| + 1 == extent
    requires Counts(anchoredCount, a) && Counts(windowCount, front + multiset{lastId})
    requires intersection == |a * (front + multiset{lastId})|
    ensures confidence == Score(a, Effective(front, lastId, lastRawEmpty))
  {
    if lastRawEmpty {
      confidence := TrailingConfidence(aTotal, anchoredCount, windowCount, intersection, extent, lastId, a, front);
    } else {
      ScoreBySizes(a, front + multiset{lastId}, intersection);
      confidence := Ratio(intersection, aTotal + extent - intersection);
    }
  }

  /** The raw-empty last line is taken out of the counts for this window only. */
  method TrailingConfidence(aTotal: nat, anchoredCount: map<nat, nat>, windowCount: map<nat, nat>, intersection: nat,
                            extent: nat, lastId: nat, ghost a: multiset<nat>, ghost front: multiset<nat>)
    returns (confidence: real)
    requires |a| == aTotal && |front| + 1 == extent
    requires Counts(anchoredCount, a) && Counts(windowCount, front + multiset{lastId})
    requires intersection == |a * (front + multiset{lastId})|
    ensures confidence == Score(a, front)
  {
    OverlapAdd(a, front, lastId);
    var ac, wc := Count(anchoredCount, lastId), Count(windowCount, lastId);
    assert wc == front[lastId] + 1;
    var adjustment := if wc - 1 < ac then 1 else 0;
    var adjIntersection: nat := intersection - adjustment;
    var adjExtent: nat := extent - 1;
    ScoreBySizes(a, front, adjIntersection);
    confidence := Ratio(adjIntersection, aTotal + adjExtent - adjIntersection);
  }

  method Enter(anchoredCount: map<nat, nat>, windowCount0: map<nat, nat>, intersection0: nat, id: nat,
               ghost a: multiset<nat>, ghost w: multiset<nat>)
    returns (windowCount: map<nat, nat>, intersection: nat)
    requires Counts(anchoredCount, a) && Counts(windowCount0, w) && intersection0 == |a * w|
    ensures Counts(windowCount, w + multiset{id}) && intersection == |a * (w + multiset{id})|
  {
    OverlapAdd(a, w, id);
    var ac, wc := Count(anchoredCount, id), Count(windowCount0, id);
    intersection := if wc < ac then intersection0 + 1 else intersection0;
    windowCount := windowCount0[id := wc + 1];
  }

  method Leave(anchoredCount: map<nat, nat>, windowCount0: map<nat, nat>, intersection0: nat, id: nat,
               ghost a: multiset<nat>, ghost w: multiset<nat>)
    returns (windowCount: map<nat, nat>, intersection: nat)
    requires Counts(anchoredCount, a) && Counts(windowCount0, w + multiset{id})
    requires intersection0 == |a * (w + multiset{id})|
    ensures Counts(windowCount, w) && intersection == |a * w|
  {
    OverlapAdd(a, w, id);
    var ac := Count(anchoredCount, id);
    assert Count(windowCount0, id) == (w + multiset{id})[id];
    var wc: nat := windowCount0[id] - 1;
    windowCount := windowCount0[id := wc];
    intersection := if wc < ac then intersection0 - 1 else intersection0;
    forall x
      ensures Count(windowCount, x) == w[x]
    {
      assert Count(windowCount0, x) == (w + multiset{id})[x];
    }
  }

  /** The line leaving the window, then the line entering it; `rest` stays. */
  method Slide(anchoredCount: map<nat, nat>, leaving: nat, entering: nat, windowCount0: map<nat, nat>,
               intersection0: nat, ghost a: multiset<nat>, ghost rest: multiset<nat>)
    returns (windowCount: map<nat, nat>, intersection: nat)
    requires Counts(anchoredCount, a) && Counts(windowCount0, rest + multiset{leaving})
    requires intersection0 == |a * (rest + multiset{leaving})|
    ensures Counts(windowCount, rest + multiset{entering}) && intersection == |a * (rest + multiset{entering})|
  {
    var less, overlap := Leave(anchoredCount, windowCount0, intersection0, leaving, a, rest);
    windowCount, intersection := Enter(anchoredCount, less, overlap, entering, a, rest);
  }

  method CountFront(anchoredCount: map<nat, nat>, ids: seq<nat>, extent: nat, ghost a: multiset<nat>)
    returns (windowCount: map<nat, nat>, intersection: nat)
    requires extent <= |ids| && Counts(anchoredCount, a)
    ensures Counts(windowCount, multiset(ids[..extent])) && intersection == |a * multiset(ids[..extent])|
  {
    windowCount, intersection := map[], 0;
    assert a * multiset{} == multiset{};
    for n := 0 to extent
      invariant Counts(windowCount, multiset(ids[..n])) && intersection == |a * multiset(ids[..n])|
    {
      assert ids[..n + 1] == ids[..n] + [ids[n]];
      windowCount, intersection := Enter(anchoredCount, windowCount, intersection, ids[n], a, multiset(ids[..n]));
    }
  }

  lemma SlideRight(ids: seq<nat>, start: nat, last: nat, end: nat)
    requires start <= last && end == last + 1 <= |ids|
    ensures multiset(ids[start..end]) == multiset(ids[start..last]) + multiset{ids[last]}
  {
    assert ids[start..end] == ids[start..last] + [ids[last]];
  }

  lemma SlideLeft(ids: seq<nat>, first: nat, start: nat, end: nat)
    requires first + 1 == start <= end <= |ids|
    ensures multiset(ids[first..end]) == multiset(ids[start..end]) + multiset{ids[first]}
  {
    assert ids[first..end] == [ids[first]] + ids[start..end];
  }

  lemma EffectiveMultiset(ids: seq<nat>, rawEmpty: seq<bool>, start: nat, extent: nat, last: nat)
    requires 0 < extent && start + extent <= |ids| == |rawEmpty| && last == start + extent - 1
    ensures multiset(EffectiveIds(ids, rawEmpty, start, extent)) ==
      Effective(multiset(ids[start..last]), ids[last], rawEmpty[last])
  {
    if !rawEmpty[last] {
      SlideRight(ids, start, last, start + extent);
    }
  }

  /** Score the current window: `front` and one last line. */
  method ScoreWindow(anchored: seq<nat>, anchoredCount: map<nat, nat>, ids: seq<nat>, rawEmpty: seq<bool>, extent: nat,
                     start: nat, windowCount: map<nat, nat>, intersection: nat, ghost front: multiset<nat>)
    returns (confidence: real)
    requires 0 < extent && start + extent <= |ids| == |rawEmpty|
    requires Counts(anchoredCount, multiset(anchored))
    requires AtWindow(multiset(anchored), ids, extent, start, front, windowCount, intersection)
    ensures confidence == Similarity(anchored, EffectiveIds(ids, rawEmpty, start, extent))
  {
    var last := start + extent - 1;
    confidence := WindowConfidence(|anchored|, anchoredCount, windowCount, intersection, extent, ids[last],
                                   rawEmpty[last], multiset(anchored), front);
    EffectiveMultiset(ids, rawEmpty, start, extent, last);
  }

  /** `front` and the last line make up the window at `start`, and the running
      counts describe it. */
  ghost predicate AtWindow(a: multiset<nat>, ids: seq<nat>, extent: nat, start: nat, front: multiset<nat>,
                           windowCount: map<nat, nat>, intersection: nat)
    requires 0 < extent && start + extent <= |ids|
  {
    var window := front + multiset{ids[start + extent - 1]};
    && front == multiset(ids[start..start + extent - 1])
    && Counts(windowCount, window) && intersection == |a * window|
  }

  method FirstWindow(anchoredCount: map<nat, nat>, ids: seq<nat>, extent: nat, ghost a: multiset<nat>)
    returns (windowCount: map<nat, nat>, intersection: nat, ghost front: multiset<nat>)
    requires 0 < extent <= |ids| && Counts(anchoredCount, a)
    ensures AtWindow(a, ids, extent, 0, front, windowCount, intersection)
  {
    windowCount, intersection := CountFront(anchoredCount, ids, extent, a);
    front := multiset(ids[0..extent - 1]);
    assert multiset(ids[..extent]) == front + multiset{ids[extent - 1]} by {
      assert ids[..extent] == ids[0..extent];
      SlideRight(ids, 0, extent - 1, extent);
    }
  }

  /** The counts move on from the window at `start`. */
  method Advance(anchoredCount: map<nat, nat>, ids: seq<nat>, extent: nat, start: nat, windowCount0: map<nat, nat>,
                 intersection0: nat, ghost a: multiset<nat>, ghost front0: multiset<nat>)
    returns (windowCount: map<nat, nat>, intersection: nat, ghost front: multiset<nat>)
    requires 0 < extent && start + 1 + extent <= |ids| && Counts(anchoredCount, a)
    requires AtWindow(a, ids, extent, start, front0, windowCount0, intersection0)
    ensures AtWindow(a, ids, extent, start + 1, front, windowCount, intersection)
  {
    front := multiset(ids[start + 1..start + extent]);
    assert front0 + multiset{ids[start + extent - 1]} == front + multiset{ids[start]} by {
      SlideRight(ids, start, start + extent - 1, start + extent);
      SlideLeft(ids, start, start + 1, start + extent);
    }
    windowCount, intersection :=
      Slide(anchoredCount, ids[start], ids[start + extent], windowCount0, intersection0, a, front);
  }

  /** Amortised constant work per window, the from-scratch similarity of each. */
  method JaccardWindowScanInterned(anchored: seq<nat>, ids: seq<nat>, rawEmpty: seq<bool>, extent: nat,
                                   noiseFloor: real)
    returns (results: seq<Scored>)
    requires |ids| == |rawEmpty|
    ensures results == IdScan(anchored, ids, rawEmpty, extent, noiseFloor, Windows(|ids|, extent))
  {
    hide AtWindow, Similarity;
    results := [];
    if extent == 0 || |ids| < extent {
      return;
    }
    ghost var a := multiset(anchored);
    var anchoredCount := CountIds(anchored);
    var windowCount, intersection, front := FirstWindow(anchoredCount, ids, extent, a);
    var confidence :=
      ScoreWindow(anchored, anchoredCount, ids, rawEmpty, extent, 0, windowCount, intersection, front);
    results := Keep(results, 0, confidence, noiseFloor);
    for start := 1 to |ids| - extent + 1
      invariant AtWindow(a, ids, extent, start - 1, front, windowCount, intersection)
      invariant results == IdScan(anchored, ids, rawEmpty, extent, noiseFloor, start)
    {
      windowCount, intersection, front :=
        Advance(anchoredCount, ids, extent, start - 1, windowCount, intersection, a, front);
      confidence :=
        ScoreWindow(anchored, anchoredCount, ids, rawEmpty, extent, start, windowCount, intersection, front);
      results := Keep(results, start, confidence, noiseFloor);
    }
  }

  // --- The scan over text ---

  /** `ids` and `rawEmpty` describe the candidate lines, `aIds` the anchored text. */
  ghost predicate Described(interner: map<string, nat>, a: seq<string>, aIds: seq<nat>, candidates: seq<string>,
                            ids: seq<nat>, rawEmpty: seq<bool>)
  {
    && Injective(interner) && InternedAs(interner, a, aIds)
    && |ids| == |rawEmpty| == |candidates|
    && (forall i :: 0 <= i < |ids| ==>
         Normalize(candidates[i]) in interner && ids[i] == interner[Normalize(candidates[i])])
    && Flags(candidates, |ids|, rawEmpty)
  }

  lemma InternedSlice(interner: map<string, nat>, a: seq<string>, aIds: seq<nat>, candidates: seq<string>,
                      ids: seq<nat>, rawEmpty: seq<bool>, lo: nat, hi: nat)
    requires Described(interner, a, aIds, candidates, ids, rawEmpty) && lo <= hi <= |ids|
    ensures InternedAs(interner, NormalizeAll(candidates[lo..hi]), ids[lo..hi])
  {
  }

  lemma EffectiveSurviving(interner: map<string, nat>, a: seq<string>, aIds: seq<nat>, candidates: seq<string>,
                           ids: seq<nat>, rawEmpty: seq<bool>, start: nat, extent: nat)
    requires Described(interner, a, aIds, candidates, ids, rawEmpty)
    requires 0 < extent && start + extent <= |ids|
    ensures InternedAs(interner, NormalizeAll(Surviving(candidates[start..start + extent])),
                       EffectiveIds(ids, rawEmpty, start, extent))
  {
    var last := start + extent - 1;
    var window := candidates[start..start + extent];
    assert window[|window| - 1] == candidates[last];
    if candidates[last] == "" {
      assert window[..|window| - 1] == candidates[start..last];
      InternedSlice(interner, a, aIds, candidates, ids, rawEmpty, start, last);
    } else {
      InternedSlice(interner, a, aIds, candidates, ids, rawEmpty, start, start + extent);
    }
  }

  /** Dropping the raw-empty last id is dropping the trailing empty line. */
  lemma WindowMatchesLines(anchored: string, interner: map<string, nat>, aIds: seq<nat>, candidates: seq<string>,
                           ids: seq<nat>, rawEmpty: seq<bool>, start: nat, extent: nat)
    requires Described(interner, NormalizeAll(TextLines(anchored)), aIds, candidates, ids, rawEmpty)
    requires 0 < extent && start + extent <= |ids|
    ensures Similarity(aIds, EffectiveIds(ids, rawEmpty, start, extent)) ==
      LineSimilarity(anchored, candidates[start..start + extent])
  {
    var a := NormalizeAll(TextLines(anchored));
    EffectiveSurviving(interner, a, aIds, candidates, ids, rawEmpty, start, extent);
    SimilarityInterned(interner, a, aIds, NormalizeAll(Surviving(candidates[start..start + extent])),
                       EffectiveIds(ids, rawEmpty, start, extent));
  }

  /** The similarities of two window scans agree, whatever they are. */
  ghost predicate SameScores(anchored: string, aIds: seq<nat>, candidates: seq<string>, ids: seq<nat>,
                             rawEmpty: seq<bool>, extent: nat)
    requires |ids| == |rawEmpty| == |candidates|
  {
    forall w: nat :: 0 < extent && w + extent <= |ids| ==>
      Similarity(aIds, EffectiveIds(ids, rawEmpty, w, extent)) == LineSimilarity(anchored, candidates[w..w + extent])
  }

  lemma {:induction false} IdScanIsLineScan(anchored: string, aIds: seq<nat>, candidates: seq<string>, ids: seq<nat>,
                                            rawEmpty: seq<bool>, extent: nat, noiseFloor: real, n: nat)
    requires |ids| == |rawEmpty| == |candidates| && n <= Windows(|candidates|, extent)
    requires SameScores(anchored, aIds, candidates, ids, rawEmpty, extent)
    ensures IdScan(aIds, ids, rawEmpty, extent, noiseFloor, n) == LineScan(anchored, candidates, extent, noiseFloor, n)
  {
    if n > 0 {
      IdScanIsLineScan(anchored, aIds, candidates, ids, rawEmpty, extent, noiseFloor, n - 1);
    }
  }

  ghost predicate Unbroken(candidates: seq<string>) { forall i :: 0 <= i < |candidates| ==> '\n' !in candidates[i] }

  /** What the re-split of the joined window does to lines that are lines. */
  lemma WindowMatchesNaive(anchored: string, window: seq<string>)
    requires Unbroken(window)
    ensures LineSimilarity(anchored, window) == NaiveSimilarity(anchored, Join(window, '\n'))
  {
    RejoinedWindow(window);
  }

  lemma {:induction false} LineScanIsNaive(anchored: string, candidates: seq<string>, extent: nat, noiseFloor: real,
                                           n: nat)
    requires Unbroken(candidates) && n <= Windows(|candidates|, extent)
    ensures LineScan(anchored, candidates, extent, noiseFloor, n) ==
      NaiveScan(anchored, candidates, extent, noiseFloor, n)
  {
    hide LineSimilarity, NaiveSimilarity;
    if n > 0 {
      LineScanIsNaive(anchored, candidates, extent, noiseFloor, n - 1);
      WindowMatchesNaive(anchored, candidates[n - 1..n - 1 + extent]);
    }
  }

  /** The incremental scan is exact: it reports what comparing the lines of every
      window from scratch reports, and, for lines that carry no line feed, what
      joining, re-splitting and comparing every window reports. */
  method JaccardWindowScan(anchored: string, candidates: seq<string>, extent: nat, noiseFloor: real)
    returns (results: seq<Scored>)
    ensures |TextLines(anchored)| + |candidates| <= ID_LIMIT ==>
      results == LineScan(anchored, candidates, extent, noiseFloor, Windows(|candidates|, extent))
    ensures |TextLines(anchored)| + |candidates| <= ID_LIMIT && Unbroken(candidates) ==>
      results == NaiveScan(anchored, candidates, extent, noiseFloor, Windows(|candidates|, extent))
  {
    if extent == 0 || |candidates| < extent {
      return [];
    }
    var aIds, _, interner1 := InternNormalizedLines(TextLines(anchored), map[]);
    var ids, rawEmpty, interner := InternNormalizedLines(candidates, interner1);
    results := JaccardWindowScanInterned(aIds, ids, rawEmpty, extent, noiseFloor);
    if |TextLines(anchored)| + |candidates| <= ID_LIMIT {
      ghost var n := Windows(|candidates|, extent);
      forall w: nat | 0 < extent && w + extent <= |ids|
        ensures Similarity(aIds, EffectiveIds(ids, rawEmpty, w, extent)) ==
          LineSimilarity(anchored, candidates[w..w + extent])
      {
        WindowMatchesLines(anchored, interner, aIds, candidates, ids, rawEmpty, w, extent);
      }
      IdScanIsLineScan(anchored, aIds, candidates, ids, rawEmpty, extent, noiseFloor, n);
      if Unbroken(candidates) {
        LineScanIsNaive(anchored, candidates, extent, noiseFloor, n);
      }
    }
  }
}
