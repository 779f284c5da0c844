/** The identity of a staged tree: what is hashed, and what the hash stands for. */
module TreeIdentity {
  import opened Text
  import opened Sorting
  import opened TreeBuild
  import opened TreeOrder

  // --- Reference: one identity for each trie ---

  function Children(n: Node, oids: map<string, Oid>): (s: set<Child>)
    ensures forall c :: c in s <==> IsChild(n, oids, c)
  {
    (set k | k in n.files :: Child(k, n.files[k].mode, n.files[k].oid))
    + (set k | k in n.dirs && k in oids :: Child(k, DIR_MODE, oids[k]))
  }

  ghost function InSomeOrder<T>(s: set<T>): seq<T> {
    if s == {} then []
    else
      var x :| x in s;
      [x] + InSomeOrder(s - {x})
  }

  predicate KeyLe(a: Child, b: Child) { StrLe(OrderKey(a), OrderKey(b)) }

  /** The children in the order of the original. */
  ghost function Listing(n: Node, oids: map<string, Oid>): seq<Child> { Sort(InSomeOrder(Children(n, oids)), KeyLe) }

  /** Identities of the subtrees first, then the hash of the listed children. The
      object hash is any function of the bytes. */
  ghost function TreeId(n: Node, hash: string -> Oid): Oid {
    hash(TreeBytes(Listing(n, map k | k in n.dirs :: TreeId(n.dirs[k], hash))))
  }

  ghost function Oids(n: Node, hash: string -> Oid): map<string, Oid> {
    map k | k in n.dirs :: TreeId(n.dirs[k], hash)
  }

  // --- The listing is one ---

  lemma {:induction false} InSomeOrderHolds<T>(s: set<T>, x: T)
    ensures x in InSomeOrder(s) <==> x in s
    decreases s
  {
    if s != {} {
      var y := InSomeOrder(s)[0];
      InSomeOrderHolds(s - {y}, x);
    }
  }

  lemma {:induction false} InSomeOrderDistinct<T, K>(s: set<T>, keyOf: T -> K)
    requires forall x, y :: x in s && y in s && keyOf(x) == keyOf(y) ==> x == y
    ensures DistinctBy(InSomeOrder(s), keyOf)
    decreases s
  {
    if s != {} {
      var y := InSomeOrder(s)[0];
      var rest := InSomeOrder(s - {y});
      InSomeOrderDistinct(s - {y}, keyOf);
      forall j | 0 <= j < |rest|
        ensures keyOf(rest[j]) != keyOf(y)
      {
        InSomeOrderHolds(s - {y}, rest[j]);
      }
    }
  }

  lemma KeyLePreorder()
    ensures TotalPreorder(KeyLe)
  {
    forall a, b
      ensures KeyLe(a, b) || KeyLe(b, a)
    {
      StrLeTotal(OrderKey(a), OrderKey(b));
    }
    forall a, b, c | KeyLe(a, b) && KeyLe(b, c)
      ensures KeyLe(a, c)
    {
      StrLeTransitive(OrderKey(a), OrderKey(b), OrderKey(c));
    }
  }

  function NameOf(c: Child): string { c.name }

  /** Sorting the children, collected in any order, lists them. */
  lemma SortLists(n: Node, oids: map<string, Oid>, s: seq<Child>)
    requires DistinctBy(s, NameOf) && forall c :: c in s <==> IsChild(n, oids, c)
    ensures ListsChildren(n, oids, Sort(s, KeyLe))
  {
    KeyLePreorder();
    SortSorted(s, KeyLe);
    SortPermutes(s, KeyLe);
    SortDistinct(s, NameOf, KeyLe);
    var r := Sort(s, KeyLe);
    forall i, j | 0 <= i < j < |r|
      ensures StrLe(OrderKey(r[i]), OrderKey(r[j])) && r[i].name != r[j].name
    {
      assert KeyLe(r[i], r[j]);
      assert NameOf(r[i]) != NameOf(r[j]);
    }
  }

  lemma ListingLists(n: Node, oids: map<string, Oid>)
    requires Nameable(n)
    ensures ListsChildren(n, oids, Listing(n, oids))
  {
    var children := Children(n, oids);
    var s := InSomeOrder(children);
    forall x, y | x in children && y in children && NameOf(x) == NameOf(y)
      ensures x == y
    {
      assert IsChild(n, oids, x) && IsChild(n, oids, y);
    }
    InSomeOrderDistinct(children, NameOf);
    forall c
      ensures c in s <==> IsChild(n, oids, c)
    {
      InSomeOrderHolds(children, c);
    }
    SortLists(n, oids, s);
  }

  /** Whatever order the children are collected in, sorting them gives the listing. */
  lemma SortedChildren(n: Node, oids: map<string, Oid>, s: seq<Child>)
    requires Nameable(n)
    requires DistinctBy(s, NameOf) && forall c :: c in s <==> IsChild(n, oids, c)
    ensures Sort(s, KeyLe) == Listing(n, oids)
  {
    SortLists(n, oids, s);
    ListingLists(n, oids);
    ChildOrderUnique(n, oids, Sort(s, KeyLe), Listing(n, oids));
  }

  // --- Computing it ---

  /** The names of a table in some order, each with its mode and identity. */
  method Collect(table: map<string, Leaf>) returns (s: seq<Child>)
    ensures DistinctBy(s, NameOf)
    ensures forall c: Child :: c in s <==> c.name in table && c == Child(c.name, table[c.name].mode, table[c.name].oid)
  {
    s := [];
    var rest := table.Keys;
    while rest != {}
      invariant rest <= table.Keys && DistinctBy(s, NameOf)
      invariant forall c: Child :: c in s <==>
        c.name in table && c.name !in rest && c == Child(c.name, table[c.name].mode, table[c.name].oid)
      decreases rest
    {
      var k :| k in rest;
      assert forall i :: 0 <= i < |s| ==> s[i] in s && NameOf(s[i]) != k;
      s := s + [Child(k, table[k].mode, table[k].oid)];
      rest := rest - {k};
    }
  }

  lemma {:induction false} TreeBytesSnoc(s: seq<Child>, c: Child)
    ensures TreeBytes(s + [c]) == TreeBytes(s) + (c.mode + [' '] + c.name + ['\0'] + c.oid)
  {
    if s == [] {
      assert s + [c] == [c] && [c][1..] == [];
    } else {
      assert (s + [c])[1..] == s[1..] + [c];
      TreeBytesSnoc(s[1..], c);
    }
  }

  method Encode(s: seq<Child>) returns (bytes: string)
    ensures bytes == TreeBytes(s)
  {
    bytes := [];
    for i := 0 to |s|
      invariant bytes == TreeBytes(s[..i])
    {
      assert s[..i + 1] == s[..i] + [s[i]];
      TreeBytesSnoc(s[..i], s[i]);
      bytes := bytes + (s[i].mode + [' '] + s[i].name + ['\0'] + s[i].oid);
    }
    assert s[..|s|] == s;
  }

  /** The files, and the subtrees done so far, by name. */
  ghost predicate Tabled(n: Node, hash: string -> Oid, rest: set<string>, table: map<string, Leaf>) {
    && rest <= n.dirs.Keys
    && table.Keys == n.files.Keys + (n.dirs.Keys - rest)
    && (forall k :: k in n.files ==> k in table && table[k] == n.files[k])
    && forall k :: k in n.dirs && k !in rest ==> k in table && table[k] == Leaf(DIR_MODE, TreeId(n.dirs[k], hash))
  }

  lemma TabledAll(n: Node, hash: string -> Oid, table: map<string, Leaf>, c: Child)
    requires WellFormed(n) && Tabled(n, hash, {}, table)
    ensures IsChild(n, Oids(n, hash), c) <==>
      c.name in table && c == Child(c.name, table[c.name].mode, table[c.name].oid)
  {
  }

  /** A directory replaces nothing, since no name is both; every subtree is hashed
      before its parent. */
  method HashTree(n: Node, hash: string -> Oid) returns (oid: Oid)
    requires Nameable(n)
    ensures oid == TreeId(n, hash)
    decreases n
  {
    var table, rest := n.files, n.dirs.Keys;
    while rest != {}
      invariant Tabled(n, hash, rest, table)
      decreases rest
    {
      var k :| k in rest;
      ChildNameable(n, k);
      var id := HashTree(n.dirs[k], hash);
      table := table[k := Leaf(DIR_MODE, id)];
      rest := rest - {k};
    }
    var s := Collect(table);
    forall c
      ensures c in s <==> IsChild(n, Oids(n, hash), c)
    {
      TabledAll(n, hash, table, c);
    }
    SortedChildren(n, Oids(n, hash), s);
    var bytes := Encode(Sort(s, KeyLe));
    oid := hash(bytes);
  }

  /** The whole computation: build the trie or refuse, then hash it. */
  method TreeHash(entries: seq<Entry>, hash: string -> Oid) returns (oid: Option<Oid>, ghost built: Result)
    ensures IsBuild(entries, built)
    ensures oid == if built.Ok? then Some(TreeId(built.root, hash)) else None
  {
    var r := BuildTree(entries);
    built := r;
    if r.Ok? {
      BuiltNameable(entries, r.root);
      var id := HashTree(r.root, hash);
      return Some(id), built;
    }
    oid := None;
  }

  /** How Git compares the names of a tree: a directory as if it ended in a slash. */
  function Compared(c: Child): string { c.name + if c.mode == "40000" then "/" else "" }

  lemma ComparedIsKey(c: Child)
    ensures Compared(c) == OrderKey(c)
  {
    assert c.name + "" == c.name;
  }

  /** The listing is in Git's order. */
  lemma ListingInGitOrder(n: Node, oids: map<string, Oid>, i: nat, j: nat)
    requires Nameable(n) && i < j < |Listing(n, oids)|
    ensures Before(Compared(Listing(n, oids)[i]), Compared(Listing(n, oids)[j]))
  {
    var s := Listing(n, oids);
    ListingLists(n, oids);
    ListingAscends(n, oids, s);
    assert ChildLt(s[i], s[j]);
    StrLeIsBefore(OrderKey(s[i]), OrderKey(s[j]));
    ComparedIsKey(s[i]);
    ComparedIsKey(s[j]);
  }

  /** Git's reader of tree objects: a mode up to a space, a name up to a NUL, and an
      identity of fixed width, again and again. */
  function ReadTree(bytes: string, width: nat): Option<seq<Child>>
    decreases |bytes|
  {
    if bytes == [] then Some([])
    else
      var space := NextBreak(bytes, 0, ' ');
      var nul := if space < |bytes| then NextBreak(bytes, space + 1, '\0') else |bytes|;
      if nul + 1 + width > |bytes| || nul == |bytes| then None
      else
        Headed(Child(bytes[space + 1..nul], bytes[..space], bytes[nul + 1..nul + 1 + width]),
          ReadTree(bytes[nul + 1 + width..], width))
  }

  function Headed(child: Child, rest: Option<seq<Child>>): Option<seq<Child>> {
    if rest.None? then None else Some([child] + rest.value)
  }

  lemma ChildBreaks(c: Child, rest: string)
    requires ' ' !in c.mode && '\0' !in c.name
    ensures var bytes, space := c.mode + [' '] + c.name + ['\0'] + c.oid + rest, |c.mode|;
      NextBreak(bytes, 0, ' ') == space && NextBreak(bytes, space + 1, '\0') == space + 1 + |c.name|
  {
    var bytes, space := c.mode + [' '] + c.name + ['\0'] + c.oid + rest, |c.mode|;
    var nul := space + 1 + |c.name|;
    assert forall i :: 0 <= i < space ==> bytes[i] == c.mode[i];
    assert forall i :: space + 1 <= i < nul ==> bytes[i] == c.name[i - space - 1];
    NextBreakUnique(bytes, 0, ' ', space);
    NextBreakUnique(bytes, space + 1, '\0', nul);
  }

  lemma ChildSlices(c: Child, rest: string)
    ensures var bytes, space := c.mode + [' '] + c.name + ['\0'] + c.oid + rest, |c.mode|;
      var nul := space + 1 + |c.name|;
      && bytes[..space] == c.mode && bytes[space + 1..nul] == c.name
      && bytes[nul + 1..nul + 1 + |c.oid|] == c.oid && bytes[nul + 1 + |c.oid|..] == rest
  {
  }

  lemma ReadCut(bytes: string, c: Child, width: nat, space: nat, nul: nat)
    requires space < nul && nul + 1 + width <= |bytes|
    requires NextBreak(bytes, 0, ' ') == space && NextBreak(bytes, space + 1, '\0') == nul
    requires c == Child(bytes[space + 1..nul], bytes[..space], bytes[nul + 1..nul + 1 + width])
    ensures ReadTree(bytes, width) == Headed(c, ReadTree(bytes[nul + 1 + width..], width))
  {
    hide NextBreak, Headed;
  }

  lemma ReadChild(c: Child, rest: string, width: nat)
    requires ' ' !in c.mode && '\0' !in c.name && |c.oid| == width
    ensures ReadTree(c.mode + [' '] + c.name + ['\0'] + c.oid + rest, width) == Headed(c, ReadTree(rest, width))
  {
    hide NextBreak, ReadTree, Headed;
    ChildBreaks(c, rest);
    ChildSlices(c, rest);
    ReadCut(c.mode + [' '] + c.name + ['\0'] + c.oid + rest, c, width, |c.mode|, |c.mode| + 1 + |c.name|);
  }

  /** What is hashed is a Git tree object of the listed children. */
  lemma {:induction false} TreeReadsBack(s: seq<Child>, width: nat)
    requires Encodable(s, width)
    ensures ReadTree(TreeBytes(s), width) == Some(s)
  {
    if s != [] {
      TreeReadsBack(s[1..], width);
      ReadChild(s[0], TreeBytes(s[1..]), width);
      assert s == [s[0]] + s[1..];
    }
  }

  // --- What the identity stands for ---

  /** The byte strings hashed for a trie. */
  ghost function Hashed(n: Node, hash: string -> Oid): set<string> {
    {TreeBytes(Listing(n, Oids(n, hash)))} + set k, x | k in n.dirs && x in Hashed(n.dirs[k], hash) :: x
  }

  ghost predicate CollisionFree(hash: string -> Oid, inputs: set<string>) {
    forall x, y :: x in inputs && y in inputs && hash(x) == hash(y) ==> x == y
  }

  /** Identities have one width. */
  ghost predicate Wide(hash: string -> Oid, width: nat) { forall x :: |hash(x)| == width }

  /** Names without NUL; modes without a space, and none is that of a directory. */
  predicate LeafFits(p: seq<string>, leaf: Leaf, width: nat) {
    && (forall i :: 0 <= i < |p| ==> '\0' !in p[i])
    && ' ' !in leaf.mode && leaf.mode != DIR_MODE && |leaf.oid| == width
  }

  ghost predicate Fits(n: Node, width: nat) {
    Nameable(n) && forall p :: Find(n, p).Some? ==> LeafFits(p, Find(n, p).value, width)
  }

  lemma ChildFits(n: Node, k: string, width: nat)
    requires Fits(n, width) && k in n.dirs
    ensures Fits(n.dirs[k], width)
  {
    ChildNameable(n, k);
    forall p | Find(n.dirs[k], p).Some?
      ensures LeafFits(p, Find(n.dirs[k], p).value, width)
    {
      FindChild(n, k, p);
      assert LeafFits([k] + p, Find(n, [k] + p).value, width);
      assert forall i :: 0 <= i < |p| ==> ([k] + p)[i + 1] == p[i];
    }
  }

  lemma FileFits(n: Node, k: string, width: nat)
    requires Fits(n, width) && k in n.files
    ensures '\0' !in k && ' ' !in n.files[k].mode && n.files[k].mode != DIR_MODE && |n.files[k].oid| == width
  {
    assert Find(n, [k]) == Some(n.files[k]) && [k][0] == k;
  }

  lemma DirFits(n: Node, k: string, width: nat)
    requires Fits(n, width) && k in n.dirs
    ensures '\0' !in k
  {
    var q := LeafOfDir(n, k);
    assert LeafFits([k] + q, Find(n, [k] + q).value, width) && ([k] + q)[0] == k;
  }

  lemma ListingEncodable(n: Node, hash: string -> Oid, width: nat)
    requires Fits(n, width) && Wide(hash, width)
    ensures Encodable(Listing(n, Oids(n, hash)), width)
  {
    var oids := Oids(n, hash);
    var s := Listing(n, oids);
    ListingLists(n, oids);
    forall i | 0 <= i < |s|
      ensures ' ' !in s[i].mode && '\0' !in s[i].name && |s[i].oid| == width
    {
      assert s[i] in s && IsChild(n, oids, s[i]);
      if s[i].name in n.files {
        FileFits(n, s[i].name, width);
      } else {
        DirFits(n, s[i].name, width);
      }
    }
  }

  /** Equal listings have the same files and the same subtree identities. */
  lemma SameChildren(a: Node, b: Node, aOids: map<string, Oid>, bOids: map<string, Oid>, width: nat)
    requires Fits(a, width) && Fits(b, width) && aOids.Keys == a.dirs.Keys && bOids.Keys == b.dirs.Keys
    requires forall c :: IsChild(a, aOids, c) ==> IsChild(b, bOids, c)
    ensures forall k :: k in a.files ==> k in b.files && b.files[k] == a.files[k]
    ensures forall k :: k in a.dirs ==> k in b.dirs && bOids[k] == aOids[k]
  {
    forall k | k in a.files
      ensures k in b.files && b.files[k] == a.files[k]
    {
      FileFits(a, k, width);
      assert IsChild(a, aOids, Child(k, a.files[k].mode, a.files[k].oid));
    }
    forall k | k in a.dirs
      ensures k in b.dirs && bOids[k] == aOids[k]
    {
      assert IsChild(a, aOids, Child(k, DIR_MODE, aOids[k]));
      if k in b.files {
        FileFits(b, k, width);
      }
    }
  }

  lemma TreeIdIs(n: Node, hash: string -> Oid)
    ensures TreeId(n, hash) == hash(TreeBytes(Listing(n, Oids(n, hash))))
    ensures TreeBytes(Listing(n, Oids(n, hash))) in Hashed(n, hash)
  {
  }

  lemma FreeBelow(hash: string -> Oid, a: Node, b: Node, k: string)
    requires CollisionFree(hash, Hashed(a, hash) + Hashed(b, hash)) && k in a.dirs && k in b.dirs
    ensures CollisionFree(hash, Hashed(a.dirs[k], hash) + Hashed(b.dirs[k], hash))
  {
    assert Hashed(a.dirs[k], hash) <= Hashed(a, hash) && Hashed(b.dirs[k], hash) <= Hashed(b, hash);
  }

  lemma FreeApplies(hash: string -> Oid, inputs: set<string>, x: string, y: string)
    requires CollisionFree(hash, inputs) && x in inputs && y in inputs && hash(x) == hash(y)
    ensures x == y
  {
  }

  lemma SameListing(a: Node, b: Node, hash: string -> Oid, width: nat)
    requires Fits(a, width) && Fits(b, width) && Wide(hash, width)
    requires CollisionFree(hash, Hashed(a, hash) + Hashed(b, hash)) && TreeId(a, hash) == TreeId(b, hash)
    ensures Listing(a, Oids(a, hash)) == Listing(b, Oids(b, hash))
  {
    hide Listing, Oids, Fits, Wide, CollisionFree, Hashed, Encodable, TreeId;
    var s, t := Listing(a, Oids(a, hash)), Listing(b, Oids(b, hash));
    TreeIdIs(a, hash);
    TreeIdIs(b, hash);
    FreeApplies(hash, Hashed(a, hash) + Hashed(b, hash), TreeBytes(s), TreeBytes(t));
    ListingEncodable(a, hash, width);
    ListingEncodable(b, hash, width);
    TreeBytesInjective(s, t, width);
  }

  lemma SameNode(a: Node, b: Node, hash: string -> Oid, width: nat)
    requires Fits(a, width) && Fits(b, width) && Listing(a, Oids(a, hash)) == Listing(b, Oids(b, hash))
    ensures a.files == b.files && a.dirs.Keys == b.dirs.Keys
    ensures forall k :: k in a.dirs && k in b.dirs ==> TreeId(a.dirs[k], hash) == TreeId(b.dirs[k], hash)
  {
    var x, y := Oids(a, hash), Oids(b, hash);
    hide Listing, TreeId;
    ListingLists(a, x);
    ListingLists(b, y);
    SameChildren(a, b, x, y, width);
    SameChildren(b, a, y, x, width);
    assert forall k :: k in a.dirs ==> x[k] == TreeId(a.dirs[k], hash);
    assert forall k :: k in b.dirs ==> y[k] == TreeId(b.dirs[k], hash);
  }

  /** Unless the hash collides on what was hashed, one identity means one trie:
      every name, mode and identity at every depth. */
  lemma {:induction false} TreeIdInjective(a: Node, b: Node, hash: string -> Oid, width: nat)
    requires Fits(a, width) && Fits(b, width) && Wide(hash, width)
    requires CollisionFree(hash, Hashed(a, hash) + Hashed(b, hash))
    ensures TreeId(a, hash) == TreeId(b, hash) <==> a == b
  {
    hide Listing, Oids, Fits, Wide, CollisionFree, Hashed, TreeId;
    if TreeId(a, hash) == TreeId(b, hash) {
      SameListing(a, b, hash, width);
      SameNode(a, b, hash, width);
      forall k | k in a.dirs
        ensures a.dirs[k] == b.dirs[k]
      {
        ChildFits(a, k, width);
        ChildFits(b, k, width);
        FreeBelow(hash, a, b, k);
        TreeIdInjective(a.dirs[k], b.dirs[k], hash, width);
      }
      assert a.dirs == b.dirs;
    }
  }

  predicate EntryFits(e: Entry, width: nat) {
    '\0' !in e.path && ' ' !in e.leaf.mode && e.leaf.mode != DIR_MODE && |e.leaf.oid| == width
  }

  lemma {:induction false} LastIsEntry(entries: seq<Entry>, n: nat, p: seq<string>) returns (i: nat)
    requires n <= |entries| && LastAt(entries, n, p).Some?
    ensures i < n && Split(entries[i].path) == p && LastAt(entries, n, p) == Some(entries[i].leaf)
  {
    if Split(entries[n - 1].path) == p {
      i := n - 1;
    } else {
      i := LastIsEntry(entries, n - 1, p);
    }
  }

  lemma BuiltFits(entries: seq<Entry>, root: Node, width: nat)
    requires Built(entries, |entries|, root) && forall e :: e in entries ==> EntryFits(e, width)
    ensures Fits(root, width)
  {
    BuiltNameable(entries, root);
    forall p | Find(root, p).Some?
      ensures LeafFits(p, Find(root, p).value, width)
    {
      var i := LastIsEntry(entries, |entries|, p);
      assert EntryFits(entries[i], width);
      FieldsWithin(entries[i].path, '/', '\0');
    }
  }

  /** Two indexes have the same staged tree identity exactly when they have the
      same entries, in whatever order. */
  lemma TreeHashIsIndex(a: seq<Entry>, b: seq<Entry>, ra: Node, rb: Node, hash: string -> Oid, width: nat)
    requires UniquePaths(a) && Built(a, |a|, ra) && forall e :: e in a ==> EntryFits(e, width)
    requires UniquePaths(b) && Built(b, |b|, rb) && forall e :: e in b ==> EntryFits(e, width)
    requires Wide(hash, width) && CollisionFree(hash, Hashed(ra, hash) + Hashed(rb, hash))
    ensures TreeId(ra, hash) == TreeId(rb, hash) <==> forall e :: e in a <==> e in b
  {
    BuiltFits(a, ra, width);
    BuiltFits(b, rb, width);
    TreeIdInjective(ra, rb, hash, width);
    if ra == rb {
      forall e
        ensures e in a <==> e in b
      {
        FlattenIsEntries(a, ra, e.path, e.leaf);
        FlattenIsEntries(b, rb, e.path, e.leaf);
      }
    }
    if forall e :: e in a <==> e in b {
      BuildOrderIrrelevant(a, b, Result.Ok(ra), Result.Ok(rb));
    }
  }
}
