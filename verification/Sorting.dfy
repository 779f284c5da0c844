/** Stable sorting as a specification: the library sorts of the original are
    stable, and a stable sort is determined by its input and order. */
module Sorting {

  ghost predicate TotalPreorder<T(!new)>(le: (T, T) -> bool) {
    && (forall a, b :: le(a, b) || le(b, a))
    && (forall a, b, c :: le(a, b) && le(b, c) ==> le(a, c))
  }

  ghost predicate Sorted<T>(s: seq<T>, le: (T, T) -> bool) {
    forall i, j :: 0 <= i < j < |s| ==> le(s[i], s[j])
  }

  function Insert<T>(x: T, s: seq<T>, le: (T, T) -> bool): seq<T> {
    if s == [] || le(x, s[0]) then [x] + s else [s[0]] + Insert(x, s[1..], le)
  }

  function Sort<T>(s: seq<T>, le: (T, T) -> bool): seq<T> {
    if s == [] then [] else Insert(s[0], Sort(s[1..], le), le)
  }

  /** The elements equivalent to `x`, in order of occurrence. */
  function Class<T>(s: seq<T>, x: T, le: (T, T) -> bool): seq<T> {
    if s == [] then []
    else (if le(s[0], x) && le(x, s[0]) then [s[0]] else []) + Class(s[1..], x, le)
  }

  lemma {:induction false} InsertPermutes<T>(x: T, s: seq<T>, le: (T, T) -> bool)
    ensures multiset(Insert(x, s, le)) == multiset{x} + multiset(s)
  {
    if s == [] || le(x, s[0]) {
    } else {
      InsertPermutes(x, s[1..], le);
      assert s == [s[0]] + s[1..];
    }
  }

  lemma {:induction false} SortPermutes<T>(s: seq<T>, le: (T, T) -> bool)
    ensures multiset(Sort(s, le)) == multiset(s)
    ensures |Sort(s, le)| == |s|
    ensures forall x :: x in Sort(s, le) <==> x in s
  {
    if s != [] {
      SortPermutes(s[1..], le);
      InsertPermutes(s[0], Sort(s[1..], le), le);
      assert s == [s[0]] + s[1..];
    }
    assert |multiset(Sort(s, le))| == |multiset(s)|;
    assert forall x :: x in Sort(s, le) <==> x in multiset(Sort(s, le));
    assert forall x :: x in s <==> x in multiset(s);
  }

  lemma {:induction false} InsertSorted<T(!new)>(x: T, s: seq<T>, le: (T, T) -> bool)
    requires TotalPreorder(le) && Sorted(s, le)
    ensures Sorted(Insert(x, s, le), le)
  {
    if s == [] || le(x, s[0]) {
    } else {
      var t := Insert(x, s[1..], le);
      InsertSorted(x, s[1..], le);
      InsertPermutes(x, s[1..], le);
      forall y | y in t
        ensures le(s[0], y)
      {
        assert y in multiset(t);
      }
    }
  }

  lemma {:induction false} SortSorted<T(!new)>(s: seq<T>, le: (T, T) -> bool)
    requires TotalPreorder(le)
    ensures Sorted(Sort(s, le), le)
  {
    if s != [] {
      SortSorted(s[1..], le);
      InsertSorted(s[0], Sort(s[1..], le), le);
    }
  }

  lemma {:induction false} InsertClass<T(!new)>(y: T, s: seq<T>, x: T, le: (T, T) -> bool)
    requires TotalPreorder(le)
    ensures Class(Insert(y, s, le), x, le) == Class([y] + s, x, le)
  {
    if s == [] || le(y, s[0]) {
    } else {
      InsertClass(y, s[1..], x, le);
      assert Insert(y, s, le)[1..] == Insert(y, s[1..], le);
      assert ([y] + s[1..])[1..] == s[1..];
      assert ([y] + s)[1..] == s;
    }
  }

  /** Equivalent elements keep their order. */
  lemma {:induction false} SortStable<T(!new)>(s: seq<T>, x: T, le: (T, T) -> bool)
    requires TotalPreorder(le)
    ensures Class(Sort(s, le), x, le) == Class(s, x, le)
  {
    if s != [] {
      var t := Sort(s[1..], le);
      SortStable(s[1..], x, le);
      InsertClass(s[0], t, x, le);
      assert ([s[0]] + t)[1..] == t;
    }
  }

  lemma {:induction false} ClassMember<T>(s: seq<T>, x: T, le: (T, T) -> bool)
    ensures Class(s, x, le) != [] ==> exists i :: 0 <= i < |s| && le(s[i], x) && le(x, s[i])
  {
    if s != [] && !(le(s[0], x) && le(x, s[0])) {
      ClassMember(s[1..], x, le);
      if Class(s[1..], x, le) != [] {
        var i :| 0 <= i < |s[1..]| && le(s[1..][i], x) && le(x, s[1..][i]);
        assert le(s[i + 1], x) && le(x, s[i + 1]);
      }
    }
  }

  lemma HeadInClass<T(!new)>(s: seq<T>, le: (T, T) -> bool)
    requires TotalPreorder(le)
    ensures s != [] ==> exists x :: Class(s, x, le) != []
  {
    if s != [] {
      assert Class(s, s[0], le) != [];
    }
  }

  lemma HeadBelow<T(!new)>(a: seq<T>, x: T, le: (T, T) -> bool)
    requires TotalPreorder(le) && Sorted(a, le) && a != [] && Class(a, x, le) != []
    ensures le(a[0], x)
  {
    ClassMember(a, x, le);
    var i :| 0 <= i < |a| && le(a[i], x) && le(x, a[i]);
    assert i > 0 ==> le(a[0], a[i]);
  }

  /** A sorted sequence is determined by its classes. */
  lemma {:induction false} SortedDetermined<T(!new)>(a: seq<T>, b: seq<T>, le: (T, T) -> bool)
    requires TotalPreorder(le) && Sorted(a, le) && Sorted(b, le)
    requires forall x :: Class(a, x, le) == Class(b, x, le)
    ensures a == b
  {
    if a == [] {
      HeadInClass(b, le);
    } else {
      assert Class(a, a[0], le)[0] == a[0];
      assert b != [];
      assert Class(b, b[0], le)[0] == b[0];
      HeadBelow(b, a[0], le);
      HeadBelow(a, b[0], le);
      assert Class(b, a[0], le)[0] == b[0];
      forall x
        ensures Class(a[1..], x, le) == Class(b[1..], x, le)
      {
        var h := if le(a[0], x) && le(x, a[0]) then [a[0]] else [];
        assert Class(a, x, le) == h + Class(a[1..], x, le);
        assert Class(b, x, le) == h + Class(b[1..], x, le);
        assert Class(a[1..], x, le) == Class(a, x, le)[|h|..];
        assert Class(b[1..], x, le) == Class(b, x, le)[|h|..];
      }
      SortedDetermined(a[1..], b[1..], le);
      assert a == [a[0]] + a[1..] && b == [b[0]] + b[1..];
    }
  }

  /** What a stable sort promises: sorted, and equivalent elements in their order. */
  ghost predicate StableArrangement<T(!new)>(s: seq<T>, r: seq<T>, le: (T, T) -> bool) {
    Sorted(r, le) && forall x :: Class(r, x, le) == Class(s, x, le)
  }

  /** Any stable sort returns what `Sort` returns. */
  lemma StableSortUnique<T(!new)>(s: seq<T>, r: seq<T>, le: (T, T) -> bool)
    requires TotalPreorder(le)
    ensures StableArrangement(s, r, le) <==> r == Sort(s, le)
  {
    SortSorted(s, le);
    forall x
      ensures Class(Sort(s, le), x, le) == Class(s, x, le)
    {
      SortStable(s, x, le);
    }
    if StableArrangement(s, r, le) {
      SortedDetermined(r, Sort(s, le), le);
    }
  }

  lemma TailMultiset<T>(a: seq<T>)
    requires a != []
    ensures multiset(a[1..]) == multiset(a) - multiset{a[0]}
  {
    assert a == [a[0]] + a[1..];
  }

  lemma SortedTail<T>(a: seq<T>, le: (T, T) -> bool)
    requires Sorted(a, le) && a != []
    ensures Sorted(a[1..], le)
  {
  }

  ghost predicate Antisymmetric<T(!new)>(le: (T, T) -> bool) { forall x, y :: le(x, y) && le(y, x) ==> x == y }

  /** In an antisymmetric order a multiset has one sorted arrangement. */
  lemma {:induction false} SortedSame<T(!new)>(a: seq<T>, b: seq<T>, le: (T, T) -> bool)
    requires TotalPreorder(le) && Sorted(a, le) && Sorted(b, le) && multiset(a) == multiset(b)
    requires Antisymmetric(le)
    ensures a == b
  {
    hide Sorted, TotalPreorder, Antisymmetric;
    if a == [] {
      assert |b| == |multiset(b)| == 0;
    } else {
      SortedSameHead(a, b, le);
      TailMultiset(a);
      TailMultiset(b);
      SortedTail(a, le);
      SortedTail(b, le);
      SortedSame(a[1..], b[1..], le);
      assert a == [a[0]] + a[1..] && b == [b[0]] + b[1..];
    }
  }

  lemma SortedSameHead<T(!new)>(a: seq<T>, b: seq<T>, le: (T, T) -> bool)
    requires TotalPreorder(le) && Sorted(a, le) && Sorted(b, le) && multiset(a) == multiset(b) && a != []
    requires Antisymmetric(le)
    ensures b != [] && a[0] == b[0]
  {
    assert a[0] in multiset(a);
    assert a[0] in b;
    assert b[0] in multiset(b);
    assert b[0] in a;
    var i :| 0 <= i < |b| && b[i] == a[0];
    var j :| 0 <= j < |a| && a[j] == b[0];
    assert i > 0 ==> le(b[0], b[i]);
    assert j > 0 ==> le(a[0], a[j]);
  }

  // --- Distinct keys ---

  ghost predicate DistinctBy<T, K>(s: seq<T>, keyOf: T -> K) {
    forall i, j :: 0 <= i < j < |s| ==> keyOf(s[i]) != keyOf(s[j])
  }

  lemma LastIsNew<T, K>(s: seq<T>, keyOf: T -> K)
    requires DistinctBy(s, keyOf) && s != []
    ensures s[|s| - 1] !in s[..|s| - 1]
  {
  }

  lemma {:induction false} DistinctOnce<T, K>(s: seq<T>, keyOf: T -> K, x: T)
    requires DistinctBy(s, keyOf)
    ensures multiset(s)[x] <= 1
  {
    if s != [] {
      var n := |s| - 1;
      assert s == s[..n] + [s[n]];
      DistinctOnce(s[..n], keyOf, x);
      LastIsNew(s, keyOf);
    }
  }

  lemma TwiceCounted<T>(s: seq<T>, i: nat, j: nat)
    requires i < j < |s| && s[i] == s[j]
    ensures multiset(s)[s[i]] >= 2
  {
    assert s == s[..j] + [s[j]] + s[j + 1..];
    assert s[i] in s[..j];
  }

  lemma SameKeySameIndex<T, K>(s: seq<T>, keyOf: T -> K, i: nat, j: nat)
    requires DistinctBy(s, keyOf) && i < |s| && j < |s| && keyOf(s[i]) == keyOf(s[j])
    ensures i == j
  {
  }

  lemma SameKeySameElement<T, K>(s: seq<T>, keyOf: T -> K, x: T, y: T)
    requires DistinctBy(s, keyOf) && x in s && y in s && keyOf(x) == keyOf(y)
    ensures x == y
  {
    var i :| 0 <= i < |s| && s[i] == x;
    var j :| 0 <= j < |s| && s[j] == y;
    assert !(i < j) && !(j < i);
  }

  /** Sorting keeps distinct keys distinct. */
  lemma SortDistinct<T, K>(s: seq<T>, keyOf: T -> K, le: (T, T) -> bool)
    requires DistinctBy(s, keyOf)
    ensures DistinctBy(Sort(s, le), keyOf)
  {
    var r := Sort(s, le);
    SortPermutes(s, le);
    forall i, j | 0 <= i < j < |r|
      ensures keyOf(r[i]) != keyOf(r[j])
    {
      assert r[i] in multiset(r) && r[j] in multiset(r);
      assert r[i] in s && r[j] in s;
      if keyOf(r[i]) == keyOf(r[j]) {
        SameKeySameElement(s, keyOf, r[i], r[j]);
        TwiceCounted(r, i, j);
        DistinctOnce(s, keyOf, r[i]);
      }
    }
  }

  // --- Strictly ascending sequences ---

  ghost predicate StrictlyAscending<T>(s: seq<T>, lt: (T, T) -> bool) {
    forall i, j :: 0 <= i < j < |s| ==> lt(s[i], s[j])
  }

  ghost predicate Asymmetric<T(!new)>(lt: (T, T) -> bool) {
    forall x, y :: lt(x, y) ==> !lt(y, x)
  }

  lemma AscendingTail<T(!new)>(a: seq<T>, lt: (T, T) -> bool, x: T)
    requires Asymmetric(lt) && StrictlyAscending(a, lt) && a != []
    ensures x in a[1..] <==> x in a && x != a[0]
  {
    assert a == [a[0]] + a[1..];
    if x in a[1..] {
      var i :| 0 <= i < |a[1..]| && a[1..][i] == x;
      assert lt(a[0], a[i + 1]);
    }
  }

  lemma HeadBefore<T(!new)>(a: seq<T>, lt: (T, T) -> bool, x: T)
    requires StrictlyAscending(a, lt) && x in a && x != a[0]
    ensures lt(a[0], x)
  {
    var i :| 0 <= i < |a| && a[i] == x;
  }

  lemma SameHead<T(!new)>(a: seq<T>, b: seq<T>, lt: (T, T) -> bool)
    requires Asymmetric(lt) && StrictlyAscending(a, lt) && StrictlyAscending(b, lt)
    requires a != [] && b != [] && a[0] in b && b[0] in a
    ensures a[0] == b[0]
  {
    if a[0] != b[0] {
      HeadBefore(a, lt, b[0]);
      HeadBefore(b, lt, a[0]);
    }
  }

  /** Strictly ascending sequences with the same elements are equal. */
  lemma {:induction false} StrictlyAscendingUnique<T(!new)>(a: seq<T>, b: seq<T>, lt: (T, T) -> bool)
    requires Asymmetric(lt) && StrictlyAscending(a, lt) && StrictlyAscending(b, lt)
    requires forall x :: x in a <==> x in b
    ensures a == b
  {
    assert (a != [] ==> a[0] in a) && (b != [] ==> b[0] in b);
    if a != [] {
      SameHead(a, b, lt);
      forall x
        ensures x in a[1..] <==> x in b[1..]
      {
        AscendingTail(a, lt, x);
        AscendingTail(b, lt, x);
      }
      StrictlyAscendingUnique(a[1..], b[1..], lt);
      assert a == [a[0]] + a[1..] && b == [b[0]] + b[1..];
    }
  }

  // --- The order of strings ---

  /** Lexicographic order by code point, the order of Rust's `str`. */
  predicate StrLe(a: string, b: string) {
    if a == [] then true
    else if b == [] then false
    else if a[0] == b[0] then StrLe(a[1..], b[1..])
    else a[0] < b[0]
  }

  lemma {:induction false} StrLeAntisymmetric(a: string, b: string)
    requires StrLe(a, b) && StrLe(b, a)
    ensures a == b
  {
    if a != [] && b != [] {
      StrLeAntisymmetric(a[1..], b[1..]);
      assert a == [a[0]] + a[1..] && b == [b[0]] + b[1..];
    }
  }

  lemma {:induction false} StrLeTotal(a: string, b: string)
    ensures StrLe(a, b) || StrLe(b, a)
  {
    if a != [] && b != [] && a[0] == b[0] {
      StrLeTotal(a[1..], b[1..]);
    }
  }

  lemma {:induction false} StrLeTransitive(a: string, b: string, c: string)
    requires StrLe(a, b) && StrLe(b, c)
    ensures StrLe(a, c)
  {
    if a != [] && b != [] && c != [] && a[0] == b[0] == c[0] {
      StrLeTransitive(a[1..], b[1..], c[1..]);
    }
  }

  /** `a` comes before `b` in a dictionary: a proper prefix, or smaller where they
      first differ. */
  ghost predicate Before(a: string, b: string) {
    exists k :: 0 <= k <= |a| && k <= |b| && a[..k] == b[..k] && k < |b| && (k == |a| || a[k] < b[k])
  }

  lemma {:induction false} StrLeIsBefore(a: string, b: string)
    ensures StrLe(a, b) <==> a == b || Before(a, b)
  {
    if a == [] || b == [] {
      assert a == [] && b != [] ==> a[..0] == b[..0] && Before(a, b);
    } else if a[0] == b[0] {
      StrLeIsBefore(a[1..], b[1..]);
      assert a == [a[0]] + a[1..] && b == [b[0]] + b[1..];
      BeforeBehind(a[0], a[1..], b[1..]);
    } else {
      assert a[..0] == b[..0];
      if Before(a, b) {
        var k :| 0 <= k <= |a| && k <= |b| && a[..k] == b[..k] && k < |b| && (k == |a| || a[k] < b[k]);
        if k > 0 {
          SameHeads(a, b, k);
        }
      }
    }
  }

  lemma SameHeads(a: string, b: string, k: nat)
    requires 0 < k <= |a| && k <= |b| && a[..k] == b[..k]
    ensures a[0] == b[0]
  {
    assert a[..k][0] == b[..k][0];
  }

  lemma BeforeBehind(c: char, x: string, y: string)
    ensures Before([c] + x, [c] + y) <==> Before(x, y)
  {
    if Before(x, y) {
      BeforeAhead(c, x, y);
    }
    if Before([c] + x, [c] + y) {
      BeforeTail([c] + x, [c] + y);
      assert ([c] + x)[1..] == x && ([c] + y)[1..] == y;
    }
  }

  lemma BeforeAhead(c: char, x: string, y: string)
    requires Before(x, y)
    ensures Before([c] + x, [c] + y)
  {
    var k :| 0 <= k <= |x| && k <= |y| && x[..k] == y[..k] && k < |y| && (k == |x| || x[k] < y[k]);
    var a, b := [c] + x, [c] + y;
    assert a[..k + 1] == [c] + x[..k] && b[..k + 1] == [c] + y[..k];
    assert k < |x| ==> a[k + 1] == x[k];
    assert b[k + 1] == y[k];
  }

  lemma BeforeTail(a: string, b: string)
    requires a != [] && b != [] && a[0] == b[0] && Before(a, b)
    ensures Before(a[1..], b[1..])
  {
    var k :| 0 <= k <= |a| && k <= |b| && a[..k] == b[..k] && k < |b| && (k == |a| || a[k] < b[k]);
    assert k > 0;
    assert a[1..][..k - 1] == a[..k][1..] && b[1..][..k - 1] == b[..k][1..];
  }

  lemma StrLePreorder()
    ensures TotalPreorder(StrLe)
  {
    forall a, b
      ensures StrLe(a, b) || StrLe(b, a)
    {
      StrLeTotal(a, b);
    }
    forall a, b, c | StrLe(a, b) && StrLe(b, c)
      ensures StrLe(a, c)
    {
      StrLeTransitive(a, b, c);
    }
  }
}
