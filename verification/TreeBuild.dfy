/** The staged tree built from the flat index: a trie of path components. */
module TreeBuild {
  import opened Text

  type Oid = string

  datatype Leaf = Leaf(mode: string, oid: Oid)
  datatype Entry = Entry(path: string, leaf: Leaf)
  datatype Node = Node(files: map<string, Leaf>, dirs: map<string, Node>)

  const EMPTY: Node := Node(map[], map[])

  const MAX_DEPTH: nat := 128

  // --- Paths ---

  /** The components of a path, possibly empty ones. */
  function Split(path: string): (parts: seq<string>)
    ensures parts != []
  {
    Fields(path, '/')
  }

  /** Splitting loses nothing, so distinct paths have distinct components. */
  lemma JoinSplit(path: string)
    ensures Join(Split(path), '/') == path
    ensures forall i :: 0 <= i < |Split(path)| ==> '/' !in Split(path)[i]
  {
    FieldsJoin(path, '/');
  }

  // --- The trie ---

  /** The file at a path, seen from a node. */
  function Find(n: Node, p: seq<string>): Option<Leaf> {
    if p == [] then None
    else if |p| == 1 then if p[0] in n.files then Some(n.files[p[0]]) else None
    else if p[0] in n.dirs then Find(n.dirs[p[0]], p[1..])
    else None
  }

  /** No name is both a file and a directory, and no directory is empty. */
  ghost predicate WellFormed(n: Node) {
    && n.files.Keys !! n.dirs.Keys
    && forall k :: k in n.dirs ==> n.dirs[k] != EMPTY && WellFormed(n.dirs[k])
  }

  /** `None` is the file/directory collision. */
  function Insert(n: Node, p: seq<string>, leaf: Leaf): Option<Node>
    requires p != []
    decreases |p|
  {
    if |p| == 1 then
      if p[0] in n.dirs then None else Some(n.(files := n.files[p[0] := leaf]))
    else if p[0] in n.files then None
    else
      var child := Insert(if p[0] in n.dirs then n.dirs[p[0]] else EMPTY, p[1..], leaf);
      if child.None? then None else Some(n.(dirs := n.dirs[p[0] := child.value]))
  }

  lemma {:induction false} HasLeaf(n: Node) returns (p: seq<string>)
    requires WellFormed(n) && n != EMPTY
    ensures p != [] && Find(n, p).Some?
  {
    if n.files != map[] {
      var k :| k in n.files;
      p := [k];
    } else {
      var k :| k in n.dirs;
      var q := HasLeaf(n.dirs[k]);
      p := [k] + q;
    }
  }

  predicate ProperPrefix(p: seq<string>, q: seq<string>) { p < q && p != [] }

  /** A path meets a file at one of its directories, or a directory at itself. */
  ghost predicate Collides(n: Node, p: seq<string>) {
    exists q :: Find(n, q).Some? && (ProperPrefix(q, p) || ProperPrefix(p, q))
  }

  lemma FindChild(n: Node, k: string, q: seq<string>)
    requires q != []
    ensures Find(n, [k] + q) == if k in n.dirs then Find(n.dirs[k], q) else None
  {
    assert ([k] + q)[1..] == q;
  }

  lemma CollidesBelow(n: Node, p: seq<string>)
    requires |p| > 1 && p[0] in n.dirs && Collides(n.dirs[p[0]], p[1..])
    ensures Collides(n, p)
  {
    var q :| Find(n.dirs[p[0]], q).Some? && (ProperPrefix(q, p[1..]) || ProperPrefix(p[1..], q));
    FindChild(n, p[0], q);
    assert p == [p[0]] + p[1..];
    assert Find(n, [p[0]] + q).Some?;
  }

  lemma CollidesChild(n: Node, p: seq<string>)
    requires |p| > 1 && p[0] !in n.files && Collides(n, p)
    ensures p[0] in n.dirs && Collides(n.dirs[p[0]], p[1..])
  {
    var q :| Find(n, q).Some? && (ProperPrefix(q, p) || ProperPrefix(p, q));
    assert q[0] == p[0];
    assert |q| > 1;
    FindChild(n, p[0], q[1..]);
    assert q == [p[0]] + q[1..];
    assert ProperPrefix(q[1..], p[1..]) || ProperPrefix(p[1..], q[1..]);
  }

  /** An insertion is refused exactly on a collision. */
  lemma {:induction false} InsertFails(n: Node, p: seq<string>, leaf: Leaf)
    requires WellFormed(n) && p != []
    ensures Insert(n, p, leaf).None? <==> Collides(n, p)
    decreases |p|
  {
    if |p| == 1 {
      if p[0] in n.dirs {
        var q := HasLeaf(n.dirs[p[0]]);
        FindChild(n, p[0], q);
        assert Find(n, [p[0]] + q).Some? && ProperPrefix(p, [p[0]] + q);
      }
    } else if p[0] in n.files {
      assert Find(n, [p[0]]).Some? && ProperPrefix([p[0]], p);
    } else {
      var below := if p[0] in n.dirs then n.dirs[p[0]] else EMPTY;
      InsertFails(below, p[1..], leaf);
      if Collides(n, p) {
        CollidesChild(n, p);
      } else if p[0] in n.dirs && Collides(below, p[1..]) {
        CollidesBelow(n, p);
      }
      assert p[0] !in n.dirs ==> !Collides(EMPTY, p[1..]);
    }
  }

  /** A successful insertion sets one path, changes no other, and keeps the trie
      well formed. */
  lemma {:induction false} InsertSets(n: Node, p: seq<string>, leaf: Leaf, q: seq<string>)
    requires WellFormed(n) && p != [] && Insert(n, p, leaf).Some?
    ensures WellFormed(Insert(n, p, leaf).value) && Insert(n, p, leaf).value != EMPTY
    ensures Find(Insert(n, p, leaf).value, q) == if q == p then Some(leaf) else Find(n, q)
    decreases |p|
  {
    var r := Insert(n, p, leaf).value;
    if |p| == 1 {
      assert q == p <==> |q| == 1 && q[0] == p[0];
      assert p[0] in r.files;
    } else {
      var below := if p[0] in n.dirs then n.dirs[p[0]] else EMPTY;
      var tail := if |q| > 1 then q[1..] else [];
      InsertSets(below, p[1..], leaf, tail);
      assert p[0] in r.dirs;
      if |q| > 1 && q[0] == p[0] {
        assert q == p <==> tail == p[1..];
      }
    }
  }

  /** A well-formed trie is determined by the files in it. */
  lemma {:induction false} TrieUnique(a: Node, b: Node)
    requires WellFormed(a) && WellFormed(b)
    requires forall p :: Find(a, p) == Find(b, p)
    ensures a == b
  {
    forall k
      ensures k in a.files <==> k in b.files
      ensures k in a.files ==> a.files[k] == b.files[k]
    {
      assert Find(a, [k]) == Find(b, [k]);
    }
    assert a.files == b.files;
    forall k
      ensures k in a.dirs <==> k in b.dirs
      ensures k in a.dirs ==> a.dirs[k] == b.dirs[k]
    {
      SameDirs(a, b, k);
      SameDirs(b, a, k);
      if k in a.dirs {
        forall p
          ensures Find(a.dirs[k], p) == Find(b.dirs[k], p)
        {
          if p != [] {
            FindChild(a, k, p);
            FindChild(b, k, p);
          }
        }
        TrieUnique(a.dirs[k], b.dirs[k]);
      }
    }
    assert a.dirs == b.dirs;
  }

  lemma DirOfLeaf(n: Node, k: string, p: seq<string>)
    requires p != [] && Find(n, [k] + p).Some?
    ensures k in n.dirs
  {
    FindChild(n, k, p);
  }

  lemma LeafOfDir(n: Node, k: string) returns (p: seq<string>)
    requires WellFormed(n) && k in n.dirs
    ensures p != [] && Find(n, [k] + p).Some?
  {
    p := HasLeaf(n.dirs[k]);
    FindChild(n, k, p);
  }

  lemma SameDirs(a: Node, b: Node, k: string)
    requires WellFormed(a) && forall p :: Find(a, p) == Find(b, p)
    ensures k in a.dirs ==> k in b.dirs
  {
    hide Find, WellFormed;
    if k in a.dirs {
      var p := LeafOfDir(a, k);
      DirOfLeaf(b, k, p);
    }
  }

  // --- Building ---

  datatype Result = Ok(root: Node) | TooDeep | Collision

  /** The last of the first `n` entries at a path. */
  function LastAt(entries: seq<Entry>, n: nat, p: seq<string>): Option<Leaf>
    requires n <= |entries|
  {
    if n == 0 then None
    else if Split(entries[n - 1].path) == p then Some(entries[n - 1].leaf)
    else LastAt(entries, n - 1, p)
  }

  ghost predicate TwoCollide(entries: seq<Entry>, n: nat)
    requires n <= |entries|
  {
    exists i, j :: 0 <= i < n && 0 <= j < n && ProperPrefix(Split(entries[i].path), Split(entries[j].path))
  }

  ghost predicate AnyTooDeep(entries: seq<Entry>, n: nat)
    requires n <= |entries|
  {
    exists i :: 0 <= i < n && |Split(entries[i].path)| > MAX_DEPTH
  }

  ghost predicate Built(entries: seq<Entry>, n: nat, root: Node)
    requires n <= |entries|
  {
    && WellFormed(root)
    && !TwoCollide(entries, n) && !AnyTooDeep(entries, n)
    && forall p :: Find(root, p) == LastAt(entries, n, p)
  }

  lemma {:induction false} LastAtEntry(entries: seq<Entry>, n: nat, p: seq<string>)
    requires n <= |entries|
    ensures LastAt(entries, n, p).Some? <==> exists i :: 0 <= i < n && Split(entries[i].path) == p
  {
    if n > 0 && Split(entries[n - 1].path) != p {
      LastAtEntry(entries, n - 1, p);
    }
  }

  lemma CollisionIsPair(entries: seq<Entry>, n: nat, root: Node)
    requires n < |entries| && Built(entries, n, root)
    ensures Collides(root, Split(entries[n].path)) <==> TwoCollide(entries, n + 1)
  {
    var p := Split(entries[n].path);
    if Collides(root, p) {
      var q :| Find(root, q).Some? && (ProperPrefix(q, p) || ProperPrefix(p, q));
      LastAtEntry(entries, n, q);
      var i :| 0 <= i < n && Split(entries[i].path) == q;
      assert ProperPrefix(Split(entries[i].path), Split(entries[n].path)) ||
        ProperPrefix(Split(entries[n].path), Split(entries[i].path));
    }
    if TwoCollide(entries, n + 1) {
      var i, j :| 0 <= i < n + 1 && 0 <= j < n + 1 && ProperPrefix(Split(entries[i].path), Split(entries[j].path));
      assert i == n || j == n;
      var other := if i == n then j else i;
      LastAtEntry(entries, n, Split(entries[other].path));
      assert Find(root, Split(entries[other].path)).Some?;
    }
  }

  lemma BuildStep(entries: seq<Entry>, n: nat, root: Node)
    requires n < |entries| && Built(entries, n, root) && |Split(entries[n].path)| <= MAX_DEPTH
    ensures var r := Insert(root, Split(entries[n].path), entries[n].leaf);
      (r.None? <==> TwoCollide(entries, n + 1)) && (r.Some? ==> Built(entries, n + 1, r.value))
  {
    var p, leaf := Split(entries[n].path), entries[n].leaf;
    CollisionIsPair(entries, n, root);
    InsertFails(root, p, leaf);
    var r := Insert(root, p, leaf);
    if r.Some? {
      InsertSets(root, p, leaf, p);
      forall q
        ensures Find(r.value, q) == LastAt(entries, n + 1, q)
      {
        InsertSets(root, p, leaf, q);
      }
    }
  }

  /** A successful build holds exactly the entries; a refusal has its reason. */
  ghost predicate IsBuild(entries: seq<Entry>, r: Result) {
    && (r.Ok? ==> Built(entries, |entries|, r.root))
    && (r.Collision? ==> TwoCollide(entries, |entries|))
    && (r.TooDeep? ==> AnyTooDeep(entries, |entries|))
  }

  /** Inserting entry by entry fails exactly when one path is a directory of
      another (or one is too deep); otherwise the trie holds exactly the entries. */
  method BuildTree(entries: seq<Entry>) returns (r: Result)
    ensures IsBuild(entries, r)
  {
    var root := EMPTY;
    for n := 0 to |entries|
      invariant Built(entries, n, root)
    {
      var parts := Split(entries[n].path);
      if |parts| > MAX_DEPTH {
        return TooDeep;
      }
      BuildStep(entries, n, root);
      var after := Insert(root, parts, entries[n].leaf);
      if after.None? {
        return Collision;
      }
      root := after.value;
    }
    r := Ok(root);
  }

  // --- Order does not matter ---

  ghost predicate UniquePaths(entries: seq<Entry>) {
    forall i, j :: 0 <= i < j < |entries| ==> entries[i].path != entries[j].path
  }

  lemma {:induction false} LastAtOfUnique(entries: seq<Entry>, n: nat, i: nat)
    requires UniquePaths(entries) && i < n <= |entries|
    ensures LastAt(entries, n, Split(entries[i].path)) == Some(entries[i].leaf)
  {
    if i < n - 1 {
      JoinSplit(entries[i].path);
      JoinSplit(entries[n - 1].path);
      LastAtOfUnique(entries, n - 1, i);
    }
  }

  lemma LastCarriesOver(a: seq<Entry>, b: seq<Entry>, p: seq<string>)
    requires UniquePaths(a) && UniquePaths(b) && forall e :: e in a ==> e in b
    requires LastAt(a, |a|, p).Some?
    ensures LastAt(b, |b|, p) == LastAt(a, |a|, p)
  {
    LastAtEntry(a, |a|, p);
    var i :| 0 <= i < |a| && Split(a[i].path) == p;
    assert a[i] in b;
    var j :| 0 <= j < |b| && b[j] == a[i];
    LastAtOfUnique(a, |a|, i);
    LastAtOfUnique(b, |b|, j);
  }

  lemma SameLast(a: seq<Entry>, b: seq<Entry>, p: seq<string>)
    requires UniquePaths(a) && UniquePaths(b) && forall e :: e in a <==> e in b
    ensures LastAt(a, |a|, p) == LastAt(b, |b|, p)
  {
    if LastAt(a, |a|, p).Some? {
      LastCarriesOver(a, b, p);
    } else if LastAt(b, |b|, p).Some? {
      LastCarriesOver(b, a, p);
    }
  }

  lemma RefusedBoth(a: seq<Entry>, b: seq<Entry>)
    requires forall e :: e in a ==> e in b
    ensures TwoCollide(a, |a|) ==> TwoCollide(b, |b|)
    ensures AnyTooDeep(a, |a|) ==> AnyTooDeep(b, |b|)
  {
    if TwoCollide(a, |a|) {
      var i, j :| 0 <= i < |a| && 0 <= j < |a| && ProperPrefix(Split(a[i].path), Split(a[j].path));
      assert a[i] in b && a[j] in b;
      var k, l :| 0 <= k < |b| && 0 <= l < |b| && b[k] == a[i] && b[l] == a[j];
      assert ProperPrefix(Split(b[k].path), Split(b[l].path));
    }
    if AnyTooDeep(a, |a|) {
      var i :| 0 <= i < |a| && |Split(a[i].path)| > MAX_DEPTH;
      assert a[i] in b;
      var k :| 0 <= k < |b| && b[k] == a[i];
      assert |Split(b[k].path)| > MAX_DEPTH;
    }
  }

  /** Reordering the entries changes neither the verdict nor the tree. */
  lemma BuildOrderIrrelevant(a: seq<Entry>, b: seq<Entry>, r: Result, q: Result)
    requires UniquePaths(a) && UniquePaths(b) && forall e :: e in a <==> e in b
    requires IsBuild(a, r) && IsBuild(b, q)
    ensures r.Ok? <==> q.Ok?
    ensures r.Ok? ==> r == q
  {
    RefusedBoth(a, b);
    RefusedBoth(b, a);
    if r.Ok? && q.Ok? {
      forall p
        ensures Find(r.root, p) == Find(q.root, p)
      {
        SameLast(a, b, p);
      }
      TrieUnique(r.root, q.root);
    }
  }

  /** Reading the trie back gives exactly the entries. */
  lemma FlattenIsEntries(entries: seq<Entry>, root: Node, path: string, leaf: Leaf)
    requires UniquePaths(entries) && Built(entries, |entries|, root)
    ensures Find(root, Split(path)) == Some(leaf) <==> Entry(path, leaf) in entries
  {
    var p := Split(path);
    LastAtEntry(entries, |entries|, p);
    JoinSplit(path);
    if Find(root, p) == Some(leaf) {
      var i :| 0 <= i < |entries| && Split(entries[i].path) == p;
      JoinSplit(entries[i].path);
      LastAtOfUnique(entries, |entries|, i);
      assert entries[i] == Entry(path, leaf);
    }
    if Entry(path, leaf) in entries {
      var i :| 0 <= i < |entries| && entries[i] == Entry(path, leaf);
      LastAtOfUnique(entries, |entries|, i);
    }
  }
}
