/** The identity of a note's document: its canonical JSON text. */
module NotesJson {
  import opened Sorting

  /** Numbers keep their text. Objects keep their members in some order. */
  datatype Json = Null | Bool(b: bool) | Number(text: string) | Str(s: string) | Array(items: seq<Json>)
                | Object(members: seq<Member>)
  datatype Member = Member(key: string, value: Json)

  const KEY: Member -> string := (m: Member) => m.key

  predicate MemberLe(a: Member, b: Member) { StrLe(a.key, b.key) }

  predicate IsNumberChar(c: char) { '0' <= c <= '9' || c == '-' || c == '+' || c == '.' || c == 'e' || c == 'E' }

  /** Decoded documents: object keys are distinct, numbers have number syntax. */
  ghost predicate WellFormed(v: Json) {
    match v
    case Number(text) =>
      && text != [] && (text[0] == '-' || '0' <= text[0] <= '9')
      && forall i :: 0 <= i < |text| ==> IsNumberChar(text[i])
    case Array(items) => forall i :: 0 <= i < |items| ==> WellFormed(items[i])
    case Object(members) => DistinctBy(members, KEY) && forall i :: 0 <= i < |members| ==> WellFormed(members[i].value)
    case _ => true
  }

  // --- Sorting object keys at every depth ---

  function Canon(v: Json): Json {
    match v
    case Array(items) => Array(CanonItems(items))
    case Object(members) => Object(Sort(CanonMembers(members), MemberLe))
    case _ => v
  }

  function CanonItems(items: seq<Json>): seq<Json> {
    if items == [] then [] else [Canon(items[0])] + CanonItems(items[1..])
  }

  function CanonMembers(members: seq<Member>): seq<Member> {
    if members == [] then [] else [Member(members[0].key, Canon(members[0].value))] + CanonMembers(members[1..])
  }

  /** Equal up to the order of object members, at every depth. */
  ghost predicate Equivalent(a: Json, b: Json) {
    match (a, b)
    case (Array(s), Array(t)) => |s| == |t| && forall i :: 0 <= i < |s| ==> Equivalent(s[i], t[i])
    case (Object(s), Object(t)) =>
      && (forall k :: HasKey(s, k) <==> HasKey(t, k))
      && (forall i, j :: 0 <= i < |s| && 0 <= j < |t| && s[i].key == t[j].key ==> Equivalent(s[i].value, t[j].value))
    case _ => a == b
  }

  ghost predicate HasKey(members: seq<Member>, k: string) {
    exists i :: 0 <= i < |members| && members[i].key == k
  }

  lemma {:induction false} CanonItemsAt(items: seq<Json>)
    ensures |CanonItems(items)| == |items|
    ensures forall i :: 0 <= i < |items| ==> CanonItems(items)[i] == Canon(items[i])
  {
    if items != [] {
      CanonItemsAt(items[1..]);
    }
  }

  lemma {:induction false} CanonMembersAt(members: seq<Member>)
    ensures |CanonMembers(members)| == |members|
    ensures forall i :: 0 <= i < |members| ==>
      CanonMembers(members)[i] == Member(members[i].key, Canon(members[i].value))
  {
    if members != [] {
      CanonMembersAt(members[1..]);
    }
  }

  lemma MemberLePreorder()
    ensures TotalPreorder(MemberLe)
  {
    StrLePreorder();
    forall a, b
      ensures MemberLe(a, b) || MemberLe(b, a)
    {
      StrLeTotal(a.key, b.key);
    }
    forall a, b, c | MemberLe(a, b) && MemberLe(b, c)
      ensures MemberLe(a, c)
    {
      StrLeTransitive(a.key, b.key, c.key);
    }
  }

  /** The canonical members are those of the object, in dictionary order of the keys. */
  lemma CanonInOrder(members: seq<Member>)
    requires DistinctBy(members, KEY)
    ensures var r := Canon(Object(members)).members;
      && |r| == |members| && (forall i, j :: 0 <= i < j < |r| ==> Before(r[i].key, r[j].key))
      && forall i :: 0 <= i < |members| ==> Member(members[i].key, Canon(members[i].value)) in r
  {
    var s := CanonMembers(members);
    CanonMembersAt(members);
    assert DistinctBy(s, KEY) by {
      assert forall i :: 0 <= i < |s| ==> KEY(s[i]) == KEY(members[i]);
    }
    SortedMembers(s);
    SortPermutes(s, MemberLe);
    var r := Sort(s, MemberLe);
    forall i, j | 0 <= i < j < |r|
      ensures Before(r[i].key, r[j].key)
    {
      assert MemberLt(r[i], r[j]);
      StrLeIsBefore(r[i].key, r[j].key);
    }
    forall i | 0 <= i < |members|
      ensures Member(members[i].key, Canon(members[i].value)) in r
    {
      assert s[i] in s;
    }
  }

  predicate MemberLt(a: Member, b: Member) { MemberLe(a, b) && a.key != b.key }

  lemma MemberLtAsymmetric()
    ensures Asymmetric(MemberLt)
  {
    forall a, b | MemberLt(a, b)
      ensures !MemberLt(b, a)
    {
      if MemberLt(b, a) {
        StrLeAntisymmetric(a.key, b.key);
      }
    }
  }

  lemma SortedMembers(s: seq<Member>)
    requires DistinctBy(s, KEY)
    ensures StrictlyAscending(Sort(s, MemberLe), MemberLt)
    ensures forall m :: m in Sort(s, MemberLe) <==> m in s
  {
    var r := Sort(s, MemberLe);
    MemberLePreorder();
    SortSorted(s, MemberLe);
    SortDistinct(s, KEY, MemberLe);
    SortPermutes(s, MemberLe);
    forall i, j | 0 <= i < j < |r|
      ensures MemberLt(r[i], r[j])
    {
      assert KEY(r[i]) != KEY(r[j]);
    }
  }

  lemma CanonMembersDistinct(members: seq<Member>)
    requires DistinctBy(members, KEY)
    ensures DistinctBy(CanonMembers(members), KEY)
  {
    CanonMembersAt(members);
    forall i, j | 0 <= i < j < |members|
      ensures KEY(CanonMembers(members)[i]) != KEY(CanonMembers(members)[j])
    {
      assert KEY(members[i]) != KEY(members[j]);
    }
  }

  // --- Canonical forms are equal exactly for equivalent documents ---

  lemma {:induction false} EquivalentCanon(a: Json, b: Json)
    requires WellFormed(a) && WellFormed(b) && Equivalent(a, b)
    ensures Canon(a) == Canon(b)
  {
    match (a, b)
    case (Array(s), Array(t)) =>
      CanonItemsAt(s);
      CanonItemsAt(t);
      forall i | 0 <= i < |s|
        ensures CanonItems(s)[i] == CanonItems(t)[i]
      {
        EquivalentCanon(s[i], t[i]);
      }
    case (Object(s), Object(t)) =>
      forall i, j | 0 <= i < |s| && 0 <= j < |t| && s[i].key == t[j].key
        ensures Canon(s[i].value) == Canon(t[j].value)
      {
        EquivalentCanon(s[i].value, t[j].value);
      }
      SameMembers(s, t);
      CanonMembersDistinct(s);
      CanonMembersDistinct(t);
      SortedMembers(CanonMembers(s));
      SortedMembers(CanonMembers(t));
      MemberLtAsymmetric();
      StrictlyAscendingUnique(Sort(CanonMembers(s), MemberLe), Sort(CanonMembers(t), MemberLe), MemberLt);
    case _ =>
  }

  lemma SomeMembers(s: seq<Member>, t: seq<Member>, m: Member)
    requires forall k :: HasKey(s, k) ==> HasKey(t, k)
    requires forall i, j :: 0 <= i < |s| && 0 <= j < |t| && s[i].key == t[j].key ==>
      Canon(s[i].value) == Canon(t[j].value)
    ensures m in CanonMembers(s) ==> m in CanonMembers(t)
  {
    CanonMembersAt(s);
    CanonMembersAt(t);
    if m in CanonMembers(s) {
      var i :| 0 <= i < |s| && CanonMembers(s)[i] == m;
      assert HasKey(s, s[i].key);
      var j :| 0 <= j < |t| && t[j].key == s[i].key;
      assert CanonMembers(t)[j] == m;
    }
  }

  lemma SameMembers(s: seq<Member>, t: seq<Member>)
    requires forall k :: HasKey(s, k) <==> HasKey(t, k)
    requires forall i, j :: 0 <= i < |s| && 0 <= j < |t| && s[i].key == t[j].key ==>
      Canon(s[i].value) == Canon(t[j].value)
    ensures forall m :: m in CanonMembers(s) <==> m in CanonMembers(t)
  {
    forall m
      ensures m in CanonMembers(s) <==> m in CanonMembers(t)
    {
      SomeMembers(s, t, m);
      SomeMembers(t, s, m);
    }
  }

  lemma {:induction false} CanonEquivalent(a: Json, b: Json)
    requires WellFormed(a) && WellFormed(b) && Canon(a) == Canon(b)
    ensures Equivalent(a, b)
  {
    match (a, b)
    case (Array(s), Array(t)) =>
      CanonItemsAt(s);
      CanonItemsAt(t);
      forall i | 0 <= i < |s|
        ensures Equivalent(s[i], t[i])
      {
        assert CanonItems(s)[i] == CanonItems(t)[i];
        CanonEquivalent(s[i], t[i]);
      }
    case (Object(s), Object(t)) =>
      CanonMembersDistinct(s);
      CanonMembersDistinct(t);
      SortedMembers(CanonMembers(s));
      SortedMembers(CanonMembers(t));
      forall k
        ensures HasKey(s, k) <==> HasKey(t, k)
      {
        KeysFollow(s, t, k);
        KeysFollow(t, s, k);
      }
      forall i, j | 0 <= i < |s| && 0 <= j < |t| && s[i].key == t[j].key
        ensures Equivalent(s[i].value, t[j].value)
      {
        SameValue(s, t, i, j);
        CanonEquivalent(s[i].value, t[j].value);
      }
    case _ =>
  }

  lemma KeysFollow(s: seq<Member>, t: seq<Member>, k: string)
    requires forall m :: m in CanonMembers(s) ==> m in CanonMembers(t)
    ensures HasKey(s, k) ==> HasKey(t, k)
  {
    CanonMembersAt(s);
    CanonMembersAt(t);
    if HasKey(s, k) {
      var i :| 0 <= i < |s| && s[i].key == k;
      assert CanonMembers(s)[i] in CanonMembers(t);
      var j :| 0 <= j < |t| && CanonMembers(t)[j] == CanonMembers(s)[i];
      assert t[j].key == k;
    }
  }

  lemma SameValue(s: seq<Member>, t: seq<Member>, i: nat, j: nat)
    requires forall m :: m in CanonMembers(s) ==> m in CanonMembers(t)
    requires DistinctBy(CanonMembers(t), KEY)
    requires i < |s| && j < |t| && s[i].key == t[j].key
    ensures Canon(s[i].value) == Canon(t[j].value)
  {
    CanonMembersAt(s);
    CanonMembersAt(t);
    var m, n := CanonMembers(s)[i], CanonMembers(t)[j];
    assert m in CanonMembers(s);
    SameKeySameElement(CanonMembers(t), KEY, m, n);
  }

  /** Canonicalising changes nothing but the order of members. */
  lemma {:induction false} CanonKeepsDocument(v: Json)
    requires WellFormed(v)
    ensures WellFormed(Canon(v)) && Equivalent(Canon(v), v)
  {
    match v
    case Array(items) =>
      CanonItemsAt(items);
      forall i | 0 <= i < |items|
        ensures WellFormed(CanonItems(items)[i]) && Equivalent(CanonItems(items)[i], items[i])
      {
        CanonKeepsDocument(items[i]);
      }
    case Object(members) =>
      var c := CanonMembers(members);
      var r := Sort(c, MemberLe);
      CanonMembersAt(members);
      CanonMembersDistinct(members);
      SortedMembers(c);
      SortDistinct(c, KEY, MemberLe);
      forall i | 0 <= i < |r|
        ensures exists j :: 0 <= j < |members| && r[i] == Member(members[j].key, Canon(members[j].value))
      {
        assert r[i] in c;
        var j :| 0 <= j < |c| && c[j] == r[i];
      }
      forall i | 0 <= i < |r|
        ensures WellFormed(r[i].value)
        ensures forall j :: 0 <= j < |members| && r[i].key == members[j].key ==>
          Equivalent(r[i].value, members[j].value)
      {
        var j :| 0 <= j < |members| && r[i] == Member(members[j].key, Canon(members[j].value));
        CanonKeepsDocument(members[j].value);
        forall k | 0 <= k < |members| && r[i].key == members[k].key
          ensures k == j
        {
          SameKeySameIndex(members, KEY, k, j);
        }
      }
      forall k
        ensures HasKey(r, k) <==> HasKey(members, k)
      {
        SortedHasKey(members, c, r, k);
      }
    case _ =>
  }

  lemma SortedHasKey(members: seq<Member>, c: seq<Member>, r: seq<Member>, k: string)
    requires c == CanonMembers(members) && forall m :: m in r <==> m in c
    ensures HasKey(r, k) <==> HasKey(members, k)
  {
    CanonMembersAt(members);
    if HasKey(r, k) {
      var i :| 0 <= i < |r| && r[i].key == k;
      assert r[i] in c;
      var j :| 0 <= j < |c| && c[j] == r[i];
      assert members[j].key == k;
    }
    if HasKey(members, k) {
      var j :| 0 <= j < |members| && members[j].key == k;
      assert c[j] in r;
      var i :| 0 <= i < |r| && r[i] == c[j];
      assert r[i].key == k;
    }
  }
}
