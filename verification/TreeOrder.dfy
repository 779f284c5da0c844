/** The order of a tree's children, and the bytes a tree object hashes. */
module TreeOrder {
  import opened Text
  import opened Sorting
  import opened TreeBuild

  datatype Child = Child(name: string, mode: string, oid: Oid)

  const DIR_MODE: string := "40000"

  /** Directories compare as if their name ended in a slash. */
  function OrderKey(c: Child): string { if c.mode == DIR_MODE then c.name + "/" else c.name }

  predicate ChildLt(a: Child, b: Child) { OrderKey(a) != OrderKey(b) && StrLe(OrderKey(a), OrderKey(b)) }

  lemma ChildLtAsymmetric()
    ensures Asymmetric(ChildLt)
  {
    forall a, b | ChildLt(a, b)
      ensures !ChildLt(b, a)
    {
      if ChildLt(b, a) {
        StrLeAntisymmetric(OrderKey(a), OrderKey(b));
      }
    }
  }

  /** `c` is a child of `n`; `oids` gives the identities of its subtrees. */
  predicate IsChild(n: Node, oids: map<string, Oid>, c: Child) {
    || (c.name in n.files && c == Child(c.name, n.files[c.name].mode, n.files[c.name].oid))
    || (c.name in n.dirs && c.name in oids && c == Child(c.name, DIR_MODE, oids[c.name]))
  }

  predicate SlashFree(p: seq<string>) { forall i :: 0 <= i < |p| ==> '/' !in p[i] }

  /** Every path in the trie comes from splitting at slashes. */
  ghost predicate Nameable(n: Node) { WellFormed(n) && forall p :: Find(n, p).Some? ==> SlashFree(p) }

  lemma NameSlashFree(n: Node, k: string)
    requires Nameable(n) && k in n.files.Keys + n.dirs.Keys
    ensures '/' !in k
  {
    if k in n.files {
      assert Find(n, [k]).Some? && [k][0] == k;
    } else {
      var q := LeafOfDir(n, k);
      assert SlashFree([k] + q) && ([k] + q)[0] == k;
    }
  }

  lemma ChildNameable(n: Node, k: string)
    requires Nameable(n) && k in n.dirs
    ensures Nameable(n.dirs[k])
  {
    forall p | Find(n.dirs[k], p).Some?
      ensures SlashFree(p)
    {
      FindChild(n, k, p);
      assert SlashFree([k] + p);
      assert forall i :: 0 <= i < |p| ==> ([k] + p)[i + 1] == p[i];
    }
  }

  /** A built tree has such paths, at its root and below. */
  lemma BuiltNameable(entries: seq<Entry>, root: Node)
    requires Built(entries, |entries|, root)
    ensures Nameable(root)
  {
    forall p | Find(root, p).Some?
      ensures SlashFree(p)
    {
      LastAtEntry(entries, |entries|, p);
      var i :| 0 <= i < |entries| && Split(entries[i].path) == p;
      JoinSplit(entries[i].path);
    }
  }

  lemma KeyInjective(n: Node, oids: map<string, Oid>, a: Child, b: Child)
    requires Nameable(n) && IsChild(n, oids, a) && IsChild(n, oids, b) && OrderKey(a) == OrderKey(b)
    ensures a == b
  {
    NameSlashFree(n, a.name);
    NameSlashFree(n, b.name);
    assert '/' in a.name + "/" && '/' in b.name + "/" by {
      assert (a.name + "/")[|a.name|] == '/' && (b.name + "/")[|b.name|] == '/';
    }
    assert a.mode == DIR_MODE <==> b.mode == DIR_MODE;
    if a.mode == DIR_MODE {
      assert a.name == OrderKey(a)[..|a.name|] && b.name == OrderKey(b)[..|b.name|];
    }
  }

  /** On the children of a node the order is strict and total. */
  lemma ChildOrderTotal(n: Node, oids: map<string, Oid>, a: Child, b: Child)
    requires Nameable(n) && IsChild(n, oids, a) && IsChild(n, oids, b) && a != b
    ensures ChildLt(a, b) != ChildLt(b, a)
  {
    if OrderKey(a) == OrderKey(b) {
      KeyInjective(n, oids, a, b);
    }
    StrLeTotal(OrderKey(a), OrderKey(b));
    ChildLtAsymmetric();
  }

  lemma ChildOrderTransitive(a: Child, b: Child, c: Child)
    requires ChildLt(a, b) && ChildLt(b, c)
    ensures ChildLt(a, c)
  {
    StrLeTransitive(OrderKey(a), OrderKey(b), OrderKey(c));
    if OrderKey(a) == OrderKey(c) {
      StrLeAntisymmetric(OrderKey(a), OrderKey(b));
    }
  }

  /** `s` lists the children of `n` as the original sorts them. */
  ghost predicate ListsChildren(n: Node, oids: map<string, Oid>, s: seq<Child>) {
    && Sorted(s, (a: Child, b: Child) => StrLe(OrderKey(a), OrderKey(b)))
    && (forall i, j :: 0 <= i < j < |s| ==> s[i].name != s[j].name)
    && forall c :: c in s <==> IsChild(n, oids, c)
  }

  /** There is one child order, whatever order the children were collected in. */
  lemma ChildOrderUnique(n: Node, oids: map<string, Oid>, s: seq<Child>, t: seq<Child>)
    requires Nameable(n) && ListsChildren(n, oids, s) && ListsChildren(n, oids, t)
    ensures s == t
  {
    ChildLtAsymmetric();
    ListingAscends(n, oids, s);
    ListingAscends(n, oids, t);
    StrictlyAscendingUnique(s, t, ChildLt);
  }

  lemma ListingAscends(n: Node, oids: map<string, Oid>, s: seq<Child>)
    requires Nameable(n) && ListsChildren(n, oids, s)
    ensures StrictlyAscending(s, ChildLt)
  {
    var le := (a: Child, b: Child) => StrLe(OrderKey(a), OrderKey(b));
    forall i, j | 0 <= i < j < |s|
      ensures ChildLt(s[i], s[j])
    {
      assert s[i] in s && s[j] in s;
      assert le(s[i], s[j]);
      if OrderKey(s[i]) == OrderKey(s[j]) {
        KeyInjective(n, oids, s[i], s[j]);
      }
    }
  }

  // --- The hashed bytes ---

  /** `mode name NUL oid`, child after child. */
  function TreeBytes(s: seq<Child>): string {
    if s == [] then [] else s[0].mode + [' '] + s[0].name + ['\0'] + s[0].oid + TreeBytes(s[1..])
  }

  /** Modes have no space, names no NUL, and identities one width. */
  ghost predicate Encodable(s: seq<Child>, width: nat) {
    forall i :: 0 <= i < |s| ==> ' ' !in s[i].mode && '\0' !in s[i].name && |s[i].oid| == width
  }

  lemma TreeBytesHead(s: seq<Child>)
    requires s != []
    ensures TreeBytes(s) == s[0].mode + [' '] + (s[0].name + ['\0'] + (s[0].oid + TreeBytes(s[1..])))
  {
  }

  lemma EncodableTail(s: seq<Child>, width: nat)
    requires Encodable(s, width) && s != []
    ensures ' ' !in s[0].mode && '\0' !in s[0].name && |s[0].oid| == width && Encodable(s[1..], width)
  {
  }

  /** Different child lists hash different bytes: the identity of a tree speaks
      for every name, mode and identity in it. */
  lemma {:induction false} TreeBytesInjective(s: seq<Child>, t: seq<Child>, width: nat)
    requires Encodable(s, width) && Encodable(t, width) && TreeBytes(s) == TreeBytes(t)
    ensures s == t
  {
    if s != [] && t != [] {
      TreeBytesHead(s);
      TreeBytesHead(t);
      EncodableTail(s, width);
      EncodableTail(t, width);
      hide TreeBytes, Encodable;
      var x, y := s[0].oid + TreeBytes(s[1..]), t[0].oid + TreeBytes(t[1..]);
      CutAt(s[0].mode, s[0].name + ['\0'] + x, t[0].mode, t[0].name + ['\0'] + y, ' ');
      CutAt(s[0].name, x, t[0].name, y, '\0');
      assert s[0].oid == x[..width] && t[0].oid == y[..width];
      assert TreeBytes(s[1..]) == x[width..] && TreeBytes(t[1..]) == y[width..];
      TreeBytesInjective(s[1..], t[1..], width);
      assert s == [s[0]] + s[1..] && t == [t[0]] + t[1..];
    }
  }
}
