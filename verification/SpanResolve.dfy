/** Three-way resolution of the parts of a span file that are not anchors. */
module SpanResolve {
  import opened Text
  import opened Sorting
  import opened SpanFormat
  import opened IdentityOrder

  /** The policy for prose and configuration: an unchanged side yields to the
      changed one, a divergence is kept as ours and flagged. */
  function ResolveField<T(==)>(base: Option<T>, ours: T, theirs: T): (r: (T, bool))
    ensures r.1 <==> ours != theirs && base != Some(ours) && base != Some(theirs)
    ensures base == Some(theirs) ==> r.0 == ours
    ensures base == Some(ours) ==> r.0 == theirs
    ensures r.0 == ours || r.0 == theirs
  {
    match base
    case Some(b) =>
      var oursChanged, theirsChanged := ours != b, theirs != b;
      if !oursChanged && !theirsChanged then (b, false)
      else if !theirsChanged then (ours, false)
      else if !oursChanged then (theirs, false)
      else (ours, ours != theirs)
    case None => (ours, ours != theirs)
  }

  // --- The [resolved] section ---

  const RECORD_ID: Record -> Identity := (r: Record) => RecordIdentity(r)

  /** First record wins. */
  function First(records: seq<Record>, id: Identity): (r: Option<Record>)
    ensures r.Some? ==> RecordIdentity(r.value) == id && r.value in records
  {
    if records == [] then None
    else if RecordIdentity(records[0]) == id then Some(records[0])
    else First(records[1..], id)
  }

  function BaseRecord(base: Option<SpanFile>, id: Identity): Option<Record> {
    if base.None? then None else First(base.value.resolved, id)
  }

  /** The record kept for one identity, and whether the sides diverge there. */
  function Choose(hasBase: bool, b: Option<Record>, o: Option<Record>, t: Option<Record>): (Option<Record>, bool) {
    if hasBase then
      if o == t then (o, false)
      else if o == b then (t, false)
      else if t == b then (o, false)
      else (o, true)
    else
      match (o, t)
      case (Some(x), Some(y)) => (o, x != y)
      case (Some(_), None) => (o, false)
      case (None, _) => (t, false)
  }

  function ChooseAt(base: Option<SpanFile>, ours: SpanFile, theirs: SpanFile, id: Identity): (Option<Record>, bool) {
    Choose(base.Some?, BaseRecord(base, id), First(ours.resolved, id), First(theirs.resolved, id))
  }

  function KeptAt(base: Option<SpanFile>, ours: SpanFile, theirs: SpanFile): Identity -> Option<Record> {
    id => ChooseAt(base, ours, theirs, id).0
  }

  /** What the section resolves to: nothing is reordered or dropped when the
      sides agree; otherwise one record per identity, in canonical order. */
  ghost predicate IsResolved(base: Option<SpanFile>, ours: SpanFile, theirs: SpanFile, merged: seq<Record>,
                             diverged: bool)
  {
    if ours.resolved == theirs.resolved then merged == ours.resolved && !diverged
    else
      && Listing(merged, RECORD_ID, KeptAt(base, ours, theirs))
      && (diverged <==> exists id :: ChooseAt(base, ours, theirs, id).1)
  }

  lemma {:induction false} FirstSnoc(records: seq<Record>, n: nat, id: Identity)
    requires n < |records|
    ensures First(records[..n + 1], id) ==
      if First(records[..n], id).Some? then First(records[..n], id)
      else if RecordIdentity(records[n]) == id then Some(records[n])
      else None
  {
    assert records[..n + 1][0] == records[0];
    if n > 0 {
      assert records[..n + 1][1..] == records[1..][..n];
      assert records[..n][1..] == records[1..][..n - 1];
      FirstSnoc(records[1..], n - 1, id);
    }
  }

  ghost predicate IsIndex(records: seq<Record>, m: map<Identity, Record>) {
    forall id :: First(records, id) == if id in m then Some(m[id]) else None
  }

  method Index(records: seq<Record>) returns (m: map<Identity, Record>)
    ensures IsIndex(records, m)
  {
    m := map[];
    for n := 0 to |records|
      invariant IsIndex(records[..n], m)
    {
      forall id {
        FirstSnoc(records, n, id);
      }
      var id := RecordIdentity(records[n]);
      if id !in m {
        m := m[id := records[n]];
      }
    }
    assert records[..|records|] == records;
  }

  function Lookup(m: map<Identity, Record>, id: Identity): Option<Record> { if id in m then Some(m[id]) else None }

  const SELF: Identity -> Identity := (id: Identity) => id

  function In(ids: set<Identity>): Identity -> Option<Identity> { id => if id in ids then Some(id) else None }

  /** The members of an ordered set in iteration order. */
  method InOrder(ids: set<Identity>) returns (keys: seq<Identity>)
    ensures Ascending(keys, SELF) && forall id :: id in keys <==> id in ids
  {
    var rest, out := ids, [];
    ghost var visited: set<Identity> := {};
    while rest != {}
      invariant visited + rest == ids && visited !! rest
      invariant Gathered(out, SELF, visited, In(ids))
      decreases rest
    {
      var id :| id in rest;
      GatherStep(out, SELF, visited, In(ids), id);
      out, rest, visited := out + [id], rest - {id}, visited + {id};
    }
    SortGathered(out, SELF, visited, In(ids));
    keys := Sort(out, KeyLe(SELF));
    forall id
      ensures id in keys <==> id in ids
    {
      assert SELF(id) == id;
    }
  }

  /** Records kept for the first `n` keys. */
  ghost predicate Resolving(keys: seq<Identity>, n: nat, f: Identity -> Option<Record>, merged: seq<Record>)
    requires n <= |keys|
  {
    && Ascending(merged, RECORD_ID)
    && forall r :: r in merged <==>
      f(RecordIdentity(r)) == Some(r) && exists k :: 0 <= k < n && keys[k] == RecordIdentity(r)
  }

  lemma ResolveStep(keys: seq<Identity>, n: nat, f: Identity -> Option<Record>, merged: seq<Record>)
    requires Ascending(keys, SELF) && n < |keys| && Resolving(keys, n, f, merged)
    requires f(keys[n]).Some? ==> RecordIdentity(f(keys[n]).value) == keys[n]
    ensures Resolving(keys, n + 1, f, merged + Optional(f(keys[n])))
  {
    var after := merged + Optional(f(keys[n]));
    forall i, j | 0 <= i < j < |after|
      ensures IdLt(RecordIdentity(after[i]), RecordIdentity(after[j]))
    {
      if j == |merged| {
        assert merged[i] in merged;
        var k :| 0 <= k < n && keys[k] == RecordIdentity(merged[i]);
        assert IdLt(SELF(keys[k]), SELF(keys[n]));
      } else {
        assert IdLt(RecordIdentity(merged[i]), RecordIdentity(merged[j]));
      }
    }
    forall r
      ensures r in after <==>
        f(RecordIdentity(r)) == Some(r) && exists k :: 0 <= k < n + 1 && keys[k] == RecordIdentity(r)
    {
      if r in after && r !in merged {
        assert keys[n] == RecordIdentity(r);
      }
    }
  }

  method KeysOf(base: Option<SpanFile>, ours: SpanFile, theirs: SpanFile) returns (keys: seq<Identity>)
    ensures Ascending(keys, SELF) && forall id :: id in keys <==> id in AllIds(base, ours, theirs)
  {
    keys := InOrder(AllIds(base, ours, theirs));
  }

  method IndexBase(base: Option<SpanFile>) returns (m: map<Identity, Record>)
    ensures base.Some? ==> IsIndex(base.value.resolved, m)
    ensures base.None? ==> m == map[]
  {
    m := map[];
    if base.Some? {
      m := Index(base.value.resolved);
    }
  }

  function Ids(records: seq<Record>): set<Identity> { set r | r in records :: RecordIdentity(r) }

  function AllIds(base: Option<SpanFile>, ours: SpanFile, theirs: SpanFile): set<Identity> {
    Ids(ours.resolved) + Ids(theirs.resolved) + if base.Some? then Ids(base.value.resolved) else {}
  }

  function DivergesAt(base: Option<SpanFile>, ours: SpanFile, theirs: SpanFile): Identity -> bool {
    id => ChooseAt(base, ours, theirs, id).1
  }

  /** The three indices stand for the choice `f`, `d` of each identity. */
  ghost predicate Indexed(hasBase: bool, b: map<Identity, Record>, o: map<Identity, Record>, t: map<Identity, Record>,
                          f: Identity -> Option<Record>, d: Identity -> bool)
  {
    && (forall id :: Choose(hasBase, Lookup(b, id), Lookup(o, id), Lookup(t, id)) == (f(id), d(id)))
    && (forall id :: f(id).Some? ==> RecordIdentity(f(id).value) == id)
  }

  lemma IndicesStand(base: Option<SpanFile>, ours: SpanFile, theirs: SpanFile,
                     b: map<Identity, Record>, o: map<Identity, Record>, t: map<Identity, Record>)
    requires if base.Some? then IsIndex(base.value.resolved, b) else b == map[]
    requires IsIndex(ours.resolved, o) && IsIndex(theirs.resolved, t)
    ensures Indexed(base.Some?, b, o, t, KeptAt(base, ours, theirs), DivergesAt(base, ours, theirs))
  {
    hide First, Choose;
    var f, d := KeptAt(base, ours, theirs), DivergesAt(base, ours, theirs);
    forall id
      ensures Choose(base.Some?, Lookup(b, id), Lookup(o, id), Lookup(t, id)) == (f(id), d(id))
      ensures f(id).Some? ==> RecordIdentity(f(id).value) == id
    {
      ChosenIsGiven(base.Some?, Lookup(b, id), Lookup(o, id), Lookup(t, id));
    }
  }

  lemma ChosenIsGiven(hasBase: bool, b: Option<Record>, o: Option<Record>, t: Option<Record>)
    ensures Choose(hasBase, b, o, t).0 in {b, o, t}
  {
  }

  lemma ResolveStart(keys: seq<Identity>, f: Identity -> Option<Record>)
    ensures Resolving(keys, 0, f, [])
  {
  }

  /** The per-identity loop over the union of the keys. */
  method MergeKeys(keys: seq<Identity>, hasBase: bool, b: map<Identity, Record>, o: map<Identity, Record>,
                   t: map<Identity, Record>,
                   ghost f: Identity -> Option<Record>, ghost d: Identity -> bool)
    returns (merged: seq<Record>, diverged: bool)
    requires Ascending(keys, SELF) && Indexed(hasBase, b, o, t, f, d)
    ensures Resolving(keys, |keys|, f, merged)
    ensures diverged <==> exists k :: 0 <= k < |keys| && d(keys[k])
  {
    hide Choose, Resolving;
    merged, diverged := [], false;
    ResolveStart(keys, f);
    for n := 0 to |keys|
      invariant Resolving(keys, n, f, merged)
      invariant diverged <==> exists k :: 0 <= k < n && d(keys[k])
    {
      var key := keys[n];
      var chosen := Choose(hasBase, Lookup(b, key), Lookup(o, key), Lookup(t, key));
      assert chosen == (f(key), d(key));
      ResolveStep(keys, n, f, merged);
      diverged := diverged || chosen.1;
      merged := merged + Optional(chosen.0);
    }
  }

  method ResolveResolvedSection(base: Option<SpanFile>, ours: SpanFile, theirs: SpanFile)
    returns (merged: seq<Record>, diverged: bool)
    ensures IsResolved(base, ours, theirs, merged, diverged)
  {
    if ours.resolved == theirs.resolved {
      return ours.resolved, false;
    }
    var keys := KeysOf(base, ours, theirs);
    var oursIndex := Index(ours.resolved);
    var theirsIndex := Index(theirs.resolved);
    var baseIndex := IndexBase(base);
    IndicesStand(base, ours, theirs, baseIndex, oursIndex, theirsIndex);
    merged, diverged := MergeKeys(keys, base.Some?, baseIndex, oursIndex, theirsIndex,
                                  KeptAt(base, ours, theirs), DivergesAt(base, ours, theirs));
    ResolvedAll(base, ours, theirs, keys, merged, diverged);
  }

  lemma ResolvedAll(base: Option<SpanFile>, ours: SpanFile, theirs: SpanFile, keys: seq<Identity>,
                    merged: seq<Record>, diverged: bool)
    requires ours.resolved != theirs.resolved
    requires forall id :: id in keys <==> id in AllIds(base, ours, theirs)
    requires Resolving(keys, |keys|, KeptAt(base, ours, theirs), merged)
    requires diverged <==> exists k :: 0 <= k < |keys| && DivergesAt(base, ours, theirs)(keys[k])
    ensures IsResolved(base, ours, theirs, merged, diverged)
  {
    forall id | ChooseAt(base, ours, theirs, id).0.Some? || ChooseAt(base, ours, theirs, id).1
      ensures exists k :: 0 <= k < |keys| && keys[k] == id
    {
      assert id in keys;
    }
    if exists id :: ChooseAt(base, ours, theirs, id).1 {
      var id :| ChooseAt(base, ours, theirs, id).1;
      var k :| 0 <= k < |keys| && keys[k] == id;
    }
  }

  // --- Laws ---

  /** With a base, each identity is merged like any other field: a change on one
      side wins, an equal change is kept, anything else is flagged. */
  lemma ChooseIsThreeWay(b: Option<Record>, o: Option<Record>, t: Option<Record>)
    ensures Choose(true, b, o, t) == ResolveField(Some(b), o, t)
  {
  }

  /** Without a base a record present on one side only survives. */
  lemma OneSidedSurvives(ours: SpanFile, theirs: SpanFile, merged: seq<Record>, diverged: bool, r: Record)
    requires IsResolved(None, ours, theirs, merged, diverged)
    requires var o, t := First(ours.resolved, RecordIdentity(r)), First(theirs.resolved, RecordIdentity(r));
      (o == Some(r) && t == None) || (o == None && t == Some(r))
    ensures r in merged
  {
    if ours.resolved != theirs.resolved {
      assert KeptAt(None, ours, theirs)(RECORD_ID(r)) == Some(r);
    }
  }

  lemma ChooseSwap(hasBase: bool, b: Option<Record>, o: Option<Record>, t: Option<Record>)
    ensures Choose(hasBase, b, o, t).1 == Choose(hasBase, b, t, o).1
    ensures !Choose(hasBase, b, o, t).1 ==> Choose(hasBase, b, o, t) == Choose(hasBase, b, t, o)
  {
  }

  lemma ChooseAtSwap(base: Option<SpanFile>, ours: SpanFile, theirs: SpanFile, id: Identity)
    ensures ChooseAt(base, ours, theirs, id).1 == ChooseAt(base, theirs, ours, id).1
    ensures !ChooseAt(base, ours, theirs, id).1 ==> KeptAt(base, ours, theirs)(id) == KeptAt(base, theirs, ours)(id)
  {
    ChooseSwap(base.Some?, BaseRecord(base, id), First(ours.resolved, id), First(theirs.resolved, id));
  }

  /** Swapping the sides keeps the flag and, unless it is raised, the records. */
  lemma ResolvedSwap(base: Option<SpanFile>, ours: SpanFile, theirs: SpanFile, m1: seq<Record>, d1: bool,
                     m2: seq<Record>, d2: bool)
    requires IsResolved(base, ours, theirs, m1, d1) && IsResolved(base, theirs, ours, m2, d2)
    ensures d1 == d2
    ensures !d1 ==> m1 == m2
  {
    if ours.resolved != theirs.resolved {
      var f, g := KeptAt(base, ours, theirs), KeptAt(base, theirs, ours);
      forall id
        ensures ChooseAt(base, ours, theirs, id).1 == ChooseAt(base, theirs, ours, id).1
        ensures !ChooseAt(base, ours, theirs, id).1 ==> f(id) == g(id)
      {
        ChooseAtSwap(base, ours, theirs, id);
      }
      if !d1 {
        assert forall id :: f(id) == g(id);
        SameListing(m1, m2, RECORD_ID, f, g);
      }
    }
  }

  lemma ResolvedDeterministic(base: Option<SpanFile>, ours: SpanFile, theirs: SpanFile, m1: seq<Record>, d1: bool,
                              m2: seq<Record>, d2: bool)
    requires IsResolved(base, ours, theirs, m1, d1) && IsResolved(base, ours, theirs, m2, d2)
    ensures m1 == m2 && d1 == d2
  {
    if ours.resolved != theirs.resolved {
      ListingUnique(m1, m2, RECORD_ID, KeptAt(base, ours, theirs));
    }
  }
}
