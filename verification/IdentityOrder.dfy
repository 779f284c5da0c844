/** The canonical (path, start, end) order, and sorted listings of what is selected per identity. */
module IdentityOrder {
  import opened Text
  import opened Sorting
  import opened SpanFormat

  predicate IdLe(a: Identity, b: Identity) {
    if a.path != b.path then StrLe(a.path, b.path)
    else if a.startLine != b.startLine then a.startLine < b.startLine
    else a.endLine <= b.endLine
  }

  predicate IdLt(a: Identity, b: Identity) { IdLe(a, b) && a != b }

  lemma IdLeAntisymmetric(a: Identity, b: Identity)
    requires IdLe(a, b) && IdLe(b, a)
    ensures a == b
  {
    if a.path != b.path {
      StrLeAntisymmetric(a.path, b.path);
    }
  }

  lemma IdLeTotal(a: Identity, b: Identity)
    ensures IdLe(a, b) || IdLe(b, a)
  {
    StrLeTotal(a.path, b.path);
  }

  lemma IdLeTransitive(a: Identity, b: Identity, c: Identity)
    requires IdLe(a, b) && IdLe(b, c)
    ensures IdLe(a, c)
  {
    if a.path != b.path && b.path != c.path {
      StrLeTransitive(a.path, b.path, c.path);
      if a.path == c.path {
        StrLeAntisymmetric(a.path, b.path);
      }
    }
  }

  // --- Sequences keyed by identity ---

  /** Strictly ascending in the identities of the elements. */
  ghost predicate Ascending<T(!new)>(s: seq<T>, idOf: T -> Identity) {
    forall i, j :: 0 <= i < j < |s| ==> IdLt(idOf(s[i]), idOf(s[j]))
  }

  /** `s` holds, in canonical order, what `f` selects for each identity. */
  ghost predicate Listing<T(!new)>(s: seq<T>, idOf: T -> Identity, f: Identity -> Option<T>) {
    Ascending(s, idOf) && forall x :: x in s <==> f(idOf(x)) == Some(x)
  }

  function IdBefore<T>(idOf: T -> Identity): (T, T) -> bool { (x, y) => IdLt(idOf(x), idOf(y)) }

  lemma AscendingUnique<T(!new)>(a: seq<T>, b: seq<T>, idOf: T -> Identity)
    requires Ascending(a, idOf) && Ascending(b, idOf)
    requires forall x :: x in a <==> x in b
    ensures a == b
  {
    var lt := IdBefore(idOf);
    forall x, y | lt(x, y)
      ensures !lt(y, x)
    {
      if lt(y, x) {
        IdLeAntisymmetric(idOf(x), idOf(y));
      }
    }
    StrictlyAscendingUnique(a, b, lt);
  }

  lemma AscendingApart<T(!new)>(a: seq<T>, idOf: T -> Identity, i: int, j: int)
    requires Ascending(a, idOf) && 0 <= i < j < |a|
    ensures idOf(a[i]) != idOf(a[j])
  {
    assert IdLt(idOf(a[i]), idOf(a[j]));
  }

  /** There is one listing, so no traversal order can show in it. */
  lemma ListingUnique<T(!new)>(a: seq<T>, b: seq<T>, idOf: T -> Identity, f: Identity -> Option<T>)
    requires Listing(a, idOf, f) && Listing(b, idOf, f)
    ensures a == b
  {
    AscendingUnique(a, b, idOf);
  }

  lemma SameListing<T(!new)>(a: seq<T>, b: seq<T>, idOf: T -> Identity, f: Identity -> Option<T>,
                      g: Identity -> Option<T>)
    requires Listing(a, idOf, f) && Listing(b, idOf, g)
    requires forall id :: f(id) == g(id)
    ensures a == b
  {
    AscendingUnique(a, b, idOf);
  }

  // --- Sorting an unordered collection of distinct identities ---

  ghost predicate Distinct<T(!new)>(s: seq<T>, idOf: T -> Identity) { DistinctBy(s, idOf) }

  /** `s` holds, in any order, what `f` selects for the identities visited. */
  ghost predicate Gathered<T(!new)>(s: seq<T>, idOf: T -> Identity, visited: set<Identity>, f: Identity -> Option<T>) {
    Distinct(s, idOf) && forall x :: x in s <==> idOf(x) in visited && f(idOf(x)) == Some(x)
  }

  function Optional<T>(o: Option<T>): seq<T> { if o.Some? then [o.value] else [] }

  lemma GatherStep<T(!new)>(s: seq<T>, idOf: T -> Identity, visited: set<Identity>, f: Identity -> Option<T>,
                     id: Identity)
    requires Gathered(s, idOf, visited, f) && id !in visited
    requires f(id).Some? ==> idOf(f(id).value) == id
    ensures Gathered(s + Optional(f(id)), idOf, visited + {id}, f)
  {
    var r := s + Optional(f(id));
    forall i, j | 0 <= i < j < |r|
      ensures idOf(r[i]) != idOf(r[j])
    {
      assert r[i] in s;
    }
  }

  function KeyLe<T>(idOf: T -> Identity): (T, T) -> bool { (a, b) => IdLe(idOf(a), idOf(b)) }

  lemma KeyLePreorder<T(!new)>(idOf: T -> Identity)
    ensures TotalPreorder(KeyLe(idOf))
  {
    var le := KeyLe(idOf);
    forall a, b
      ensures le(a, b) || le(b, a)
    {
      IdLeTotal(idOf(a), idOf(b));
    }
    forall a, b, c | le(a, b) && le(b, c)
      ensures le(a, c)
    {
      IdLeTransitive(idOf(a), idOf(b), idOf(c));
    }
  }

  /** Sorting a complete collection lists it. */
  lemma SortGathered<T(!new)>(s: seq<T>, idOf: T -> Identity, visited: set<Identity>, f: Identity -> Option<T>)
    requires Gathered(s, idOf, visited, f)
    requires forall id :: f(id).Some? ==> id in visited
    ensures Listing(Sort(s, KeyLe(idOf)), idOf, f)
  {
    var r := Sort(s, KeyLe(idOf));
    SortPermutes(s, KeyLe(idOf));
    KeyLePreorder(idOf);
    SortSorted(s, KeyLe(idOf));
    SortDistinct(s, idOf, KeyLe(idOf));
    forall i, j | 0 <= i < j < |r|
      ensures IdLt(idOf(r[i]), idOf(r[j]))
    {
      assert KeyLe(idOf)(r[i], r[j]);
    }
  }
}
