/** Attenuated noisy-or: correlated evidence counts at a discounted rate. */
module Scoring {
  import opened Sorting

  const ATTENUATION: real := 0.55
  const MAX_MERGED_SCORE: real := 0.98

  function Power(k: nat): real { if k == 0 then 1.0 else ATTENUATION * Power(k - 1) }

  /** The chance that the `k`-th piece of evidence misses. */
  function Miss(score: real, k: nat): real { 1.0 - score * Power(k) }

  /** The chance that all evidence from the `k`-th on misses. */
  function MissAll(scores: seq<real>, k: nat, miss: (real, nat) -> real): real {
    if scores == [] then 1.0 else miss(scores[0], k) * MissAll(scores[1..], k + 1, miss)
  }

  function NoisyOr(scores: seq<real>): real { 1.0 - MissAll(scores, 0, Miss) }

  function Capped(score: real): real { if score < MAX_MERGED_SCORE then score else MAX_MERGED_SCORE }

  ghost predicate AreScores(scores: seq<real>) {
    forall i :: 0 <= i < |scores| ==> 0.0 <= scores[i] <= 1.0
  }

  predicate Ge(a: real, b: real) { a >= b }

  // --- Arithmetic ---

  lemma ProductNonNegative(a: real, b: real)
    requires a >= 0.0 && b >= 0.0
    ensures a * b >= 0.0
  {
  }

  lemma MulBounds(a: real, b: real)
    requires 0.0 <= a <= 1.0 && 0.0 <= b <= 1.0
    ensures 0.0 <= a * b <= a && a * b <= b
  {
    ProductNonNegative(a, b);
    ProductNonNegative(a, 1.0 - b);
    ProductNonNegative(b, 1.0 - a);
    assert a * (1.0 - b) == a - a * b && b * (1.0 - a) == b - a * b;
  }

  lemma Regroup(a: real, b: real, c: real)
    ensures a * (b * c) == (a * b) * c
  {
  }

  lemma Scale(f: real, a: real, b: real)
    requires f >= 0.0 && a <= b
    ensures f * a <= f * b
  {
    ProductNonNegative(f, b - a);
    assert f * (b - a) == f * b - f * a;
  }

  // --- What is used of the miss rate ---

  ghost predicate Within(miss: (real, nat) -> real, x: real, k: nat) { 0.0 <= miss(x, k) <= 1.0 }

  ghost predicate Exchanges(miss: (real, nat) -> real, a: real, b: real, k: nat) {
    miss(a, k) * miss(b, k + 1) <= miss(b, k) * miss(a, k + 1)
  }

  /** A rate within [0, 1] for which the stronger evidence is better placed first. */
  ghost predicate Discounts(miss: (real, nat) -> real) {
    && (forall x: real, k: nat :: 0.0 <= x <= 1.0 ==> Within(miss, x, k))
    && (forall a: real, b: real, k: nat :: a >= b ==> Exchanges(miss, a, b, k))
  }

  lemma {:induction false} PowerBounds(k: nat)
    ensures 0.0 < Power(k) <= 1.0
  {
    if k > 0 {
      PowerBounds(k - 1);
    }
  }

  lemma ExpandProduct(a: real, b: real, p: real, q: real)
    ensures (1.0 - a * p) * (1.0 - b * q) == 1.0 - a * p - b * q + (a * b) * (p * q)
  {
  }

  lemma ExchangeAt(a: real, b: real, p: real, q: real)
    requires a >= b && p >= q
    ensures (1.0 - a * p) * (1.0 - b * q) <= (1.0 - b * p) * (1.0 - a * q)
  {
    ProductNonNegative(a - b, p - q);
    assert (a - b) * (p - q) == a * p - b * p - a * q + b * q;
    ExpandProduct(a, b, p, q);
    ExpandProduct(b, a, p, q);
  }

  lemma MissWithin(x: real, k: nat)
    requires 0.0 <= x <= 1.0
    ensures 0.0 <= Miss(x, k) <= 1.0
  {
    PowerBounds(k);
    MulBounds(x, Power(k));
  }

  lemma MissProduct(a: real, b: real, k: nat, p: real, q: real)
    requires p == Power(k) && q == Power(k + 1)
    ensures Miss(a, k) * Miss(b, k + 1) == (1.0 - a * p) * (1.0 - b * q)
  {
  }

  lemma MissExchange(a: real, b: real, k: nat)
    requires a >= b
    ensures Miss(a, k) * Miss(b, k + 1) <= Miss(b, k) * Miss(a, k + 1)
  {
    var p, q := Power(k), Power(k + 1);
    PowerBounds(k);
    MissProduct(a, b, k, p, q);
    MissProduct(b, a, k, p, q);
    ExchangeAt(a, b, p, q);
  }

  lemma MissDiscounts()
    ensures Discounts(Miss)
  {
    forall x: real, k: nat | 0.0 <= x <= 1.0
      ensures Within(Miss, x, k)
    {
      MissWithin(x, k);
    }
    forall a: real, b: real, k: nat | a >= b
      ensures Exchanges(Miss, a, b, k)
    {
      MissExchange(a, b, k);
    }
  }

  lemma {:induction false} MissAllBounds(scores: seq<real>, k: nat, miss: (real, nat) -> real)
    requires Discounts(miss) && AreScores(scores)
    ensures 0.0 <= MissAll(scores, k, miss) <= 1.0
  {
    if scores != [] {
      MissAllBounds(scores[1..], k + 1, miss);
      assert Within(miss, scores[0], k);
      MulBounds(miss(scores[0], k), MissAll(scores[1..], k + 1, miss));
    }
  }

  lemma {:induction false} MissAllSnoc(scores: seq<real>, x: real, k: nat, miss: (real, nat) -> real)
    ensures MissAll(scores + [x], k, miss) == MissAll(scores, k, miss) * miss(x, k + |scores|)
  {
    if scores == [] {
      assert scores + [x] == [x];
      assert MissAll([x], k, miss) == miss(x, k) * MissAll([], k + 1, miss);
    } else {
      assert (scores + [x])[1..] == scores[1..] + [x];
      MissAllSnoc(scores[1..], x, k + 1, miss);
      Regroup(miss(scores[0], k), MissAll(scores[1..], k + 1, miss), miss(x, k + |scores|));
    }
  }

  lemma MissAllUnfold(s: seq<real>, k: nat, miss: (real, nat) -> real)
    requires s != []
    ensures MissAll(s, k, miss) == miss(s[0], k) * MissAll(s[1..], k + 1, miss)
  {
  }

  lemma MissAllCons(x: real, s: seq<real>, k: nat, miss: (real, nat) -> real)
    ensures MissAll([x] + s, k, miss) == miss(x, k) * MissAll(s, k + 1, miss)
  {
    assert ([x] + s)[1..] == s;
  }

  // --- The score of a group ---

  /** The loop of the original: later members count for less. */
  method Combine(scores: seq<real>) returns (score: real)
    ensures score == Capped(NoisyOr(scores))
  {
    score := 0.0;
    var power := 1.0;
    for i := 0 to |scores|
      invariant power == Power(i)
      invariant score == NoisyOr(scores[..i])
    {
      assert scores[..i + 1] == scores[..i] + [scores[i]];
      MissAllSnoc(scores[..i], scores[i], 0, Miss);
      score := 1.0 - (1.0 - score) * (1.0 - scores[i] * power);
      power := ATTENUATION * power;
    }
    assert scores[..|scores|] == scores;
    score := Capped(score);
  }

  /** What a further piece counts for: 55 percent of what the piece before it did. */
  function Weight(n: nat): real { if n == 0 then 1.0 else Weight(n - 1) * 11.0 / 20.0 }

  lemma {:induction false} PowerIsWeight(n: nat)
    ensures Power(n) == Weight(n)
  {
    if n > 0 {
      PowerIsWeight(n - 1);
    }
  }

  lemma Closes(m: real, x: real, w: real)
    ensures 1.0 - m * (1.0 - x * w) == (1.0 - m) + w * x * m
  {
  }

  lemma ClosesPart(before: real, after: real, m: real, f: real, x: real, w: real)
    requires before == 1.0 - m && after == 1.0 - m * f && f == 1.0 - x * w
    ensures after == before + w * x * (1.0 - before)
  {
    Closes(m, x, w);
    Replace(m, f, 1.0 - x * w);
    Replace(w * x, 1.0 - before, m);
  }

  lemma NoEvidence()
    ensures NoisyOr([]) == 0.0
  {
  }

  lemma MissIs(x: real, n: nat)
    ensures Miss(x, n) == 1.0 - x * Power(n)
  {
  }

  /** A further piece closes its part of what is missing from certainty, reduced by
      its weight; together with no score for no evidence this fixes every score. */
  lemma EvidenceCloses(scores: seq<real>, x: real)
    ensures NoisyOr([]) == 0.0
    ensures NoisyOr(scores + [x]) == NoisyOr(scores) + Weight(|scores|) * x * (1.0 - NoisyOr(scores))
  {
    hide MissAll, Miss, Power, Weight;
    var n := |scores|;
    MissAllSnoc(scores, x, 0, Miss);
    PowerIsWeight(n);
    NoEvidence();
    MissIs(x, n);
    ClosesPart(NoisyOr(scores), NoisyOr(scores + [x]), MissAll(scores, 0, Miss), Miss(x, n), x, Weight(n));
  }

  lemma FirstMiss(x: real)
    ensures Miss(x, 0) == 1.0 - x
  {
    assert Power(0) == 1.0;
  }

  lemma RestHelps(x: real, f: real, m: real, all: real)
    requires 0.0 <= x <= 1.0 && 0.0 <= m <= 1.0 && f == 1.0 - x && all == f * m
    ensures x <= 1.0 - all
  {
    MulBounds(f, m);
  }

  /** More evidence never hurts: the merged score is at least the first member's,
      and never above the ceiling. */
  lemma ScoreBounds(scores: seq<real>)
    requires AreScores(scores) && scores != []
    ensures Capped(scores[0]) <= Capped(NoisyOr(scores)) <= MAX_MERGED_SCORE
    ensures scores[0] <= MAX_MERGED_SCORE ==> scores[0] <= Capped(NoisyOr(scores))
  {
    MissDiscounts();
    MissAllBounds(scores[1..], 1, Miss);
    FirstMiss(scores[0]);
    MissAllUnfold(scores, 0, Miss);
    RestHelps(scores[0], Miss(scores[0], 0), MissAll(scores[1..], 1, Miss), MissAll(scores, 0, Miss));
  }

  // --- Descending order is the best order ---

  lemma Replace(f: real, a: real, b: real)
    requires a == b
    ensures f * a == f * b
  {
  }

  /** Exchanging the first two factors of a product. */
  lemma SwapTotals(fy: real, gx: real, fx: real, gy: real, m: real, one: real, two: real, total: real)
    requires fy * gx <= fx * gy && m >= 0.0
    requires one == gx * m && two == gy * m && total == fx * two
    ensures fy * one <= total
  {
    Replace(fy, one, gx * m);
    Replace(fx, two, gy * m);
    Regroup(fy, gx, m);
    Regroup(fx, gy, m);
    Scale(m, fy * gx, fx * gy);
  }

  lemma SwapHeads(x: real, y: real, rest: seq<real>, k: nat, miss: (real, nat) -> real)
    requires Discounts(miss) && y >= x && AreScores(rest)
    ensures miss(y, k) * MissAll([x] + rest, k + 1, miss) <= MissAll([x] + ([y] + rest), k, miss)
  {
    MissAllBounds(rest, k + 2, miss);
    MissAllCons(x, rest, k + 1, miss);
    MissAllCons(y, rest, k + 1, miss);
    MissAllCons(x, [y] + rest, k, miss);
    assert Exchanges(miss, y, x, k);
    SwapTotals(miss(y, k), miss(x, k + 1), miss(x, k), miss(y, k + 1), MissAll(rest, k + 2, miss),
               MissAll([x] + rest, k + 1, miss), MissAll([y] + rest, k + 1, miss),
                 MissAll([x] + ([y] + rest), k, miss));
  }

  /** A total that starts with `f` only grows when its rest does. */
  lemma Chain(total: real, f: real, low: real, high: real, other: real)
    requires total == f * low && f >= 0.0 && low <= high && f * high <= other
    ensures total <= other
  {
    Scale(f, low, high);
  }

  lemma {:induction false} InsertLowersMiss(x: real, s: seq<real>, k: nat, miss: (real, nat) -> real)
    requires Discounts(miss) && AreScores(s) && 0.0 <= x <= 1.0
    ensures MissAll(Insert(x, s, Ge), k, miss) <= MissAll([x] + s, k, miss)
    decreases s
  {
    if s != [] && !Ge(x, s[0]) {
      var y, rest := s[0], s[1..];
      assert s == [y] + rest && Insert(x, s, Ge) == [y] + Insert(x, rest, Ge);
      InsertLowersMiss(x, rest, k + 1, miss);
      MissAllCons(y, Insert(x, rest, Ge), k, miss);
      SwapHeads(x, y, rest, k, miss);
      assert Within(miss, y, k);
      Chain(MissAll([y] + Insert(x, rest, Ge), k, miss), miss(y, k), MissAll(Insert(x, rest, Ge), k + 1, miss),
            MissAll([x] + rest, k + 1, miss), MissAll([x] + ([y] + rest), k, miss));
    }
  }

  lemma SortScores(s: seq<real>)
    requires AreScores(s)
    ensures AreScores(Sort(s, Ge))
  {
    SortPermutes(s, Ge);
    forall i | 0 <= i < |Sort(s, Ge)|
      ensures 0.0 <= Sort(s, Ge)[i] <= 1.0
    {
      assert Sort(s, Ge)[i] in s;
    }
  }

  lemma {:induction false} SortLowersMiss(s: seq<real>, k: nat, miss: (real, nat) -> real)
    requires Discounts(miss) && AreScores(s)
    ensures MissAll(Sort(s, Ge), k, miss) <= MissAll(s, k, miss)
    decreases s
  {
    if s != [] {
      var t := Sort(s[1..], Ge);
      SortLowersMiss(s[1..], k + 1, miss);
      SortScores(s[1..]);
      InsertLowersMiss(s[0], t, k, miss);
      MissAllCons(s[0], t, k, miss);
      MissAllUnfold(s, k, miss);
      assert Within(miss, s[0], k);
      Chain(MissAll([s[0]] + t, k, miss), miss(s[0], k), MissAll(t, k + 1, miss), MissAll(s[1..], k + 1, miss),
        MissAll(s, k, miss));
    }
  }

  lemma GePreorder()
    ensures TotalPreorder(Ge)
  {
  }

  /** No order of the same evidence scores higher than strongest first. */
  lemma DescendingIsBest(sorted: seq<real>, other: seq<real>)
    requires AreScores(other) && Sorted(sorted, Ge) && multiset(sorted) == multiset(other)
    ensures NoisyOr(other) <= NoisyOr(sorted)
  {
    GePreorder();
    SortSorted(other, Ge);
    SortPermutes(other, Ge);
    SortedSame(sorted, Sort(other, Ge), Ge);
    MissDiscounts();
    SortLowersMiss(other, 0, Miss);
  }
}
