/** Rename resolution: historical names to their latest name. */
module AliasMap {
  import opened Text

  datatype Rename = Rename(source: string, target: string)

  type Aliases = map<string, string>

  // --- Reference: one name, followed forward on its own ---

  /** What the name `f` has become after the first `n` renames; `None` while no
      rename has mentioned it as a source. */
  function Trace(rs: seq<Rename>, n: nat, f: string): Option<string>
    requires n <= |rs|
  {
    if n == 0 then None
    else
      var before, r := Trace(rs, n - 1, f), rs[n - 1];
      if f == r.source || before == Some(r.source) then Some(r.target) else before
  }

  /** Renames of all commits in order. */
  function Flatten(commits: seq<seq<Rename>>): seq<Rename> {
    if commits == [] then [] else Flatten(commits[..|commits| - 1]) + commits[|commits| - 1]
  }

  function Get(m: Aliases, f: string): Option<string> { if f in m then Some(m[f]) else None }

  /** `alias.get(f) ?? f` */
  function Apply(m: Aliases, f: string): string { if f in m then m[f] else f }

  ghost predicate Follows(m: Aliases, rs: seq<Rename>, n: nat)
    requires n <= |rs|
  {
    forall f :: Get(m, f) == Trace(rs, n, f)
  }

  /** One rename: everything that is now `source` becomes `target`, and so does `source`. */
  function Repoint(m: Aliases, source: string, target: string): Aliases {
    map f | f in m.Keys + {source} :: if f == source || m[f] == source then target else m[f]
  }

  lemma {:induction false} TracePrefix(rs: seq<Rename>, more: seq<Rename>, n: nat, f: string)
    requires n <= |rs|
    ensures Trace(rs + more, n, f) == Trace(rs, n, f)
  {
    if n > 0 {
      TracePrefix(rs, more, n - 1, f);
    }
  }

  lemma RepointFollows(m: Aliases, rs: seq<Rename>, n: nat)
    requires n < |rs| && Follows(m, rs, n)
    ensures Follows(Repoint(m, rs[n].source, rs[n].target), rs, n + 1)
  {
    var after := Repoint(m, rs[n].source, rs[n].target);
    forall f
      ensures Get(after, f) == Trace(rs, n + 1, f)
    {
      assert Get(m, f) == Trace(rs, n, f);
    }
  }

  /** The inner loop over the map being edited, in any order of its keys. */
  method RepointAll(m: Aliases, source: string, target: string) returns (alias: Aliases)
    ensures alias == Repoint(m, source, target)
  {
    alias := m;
    var rest := m.Keys;
    while rest != {}
      invariant rest <= m.Keys == alias.Keys
      invariant forall f :: f in m ==> alias[f] == if f !in rest && m[f] == source then target else m[f]
      decreases rest
    {
      var historical :| historical in rest;
      if alias[historical] == source {
        alias := alias[historical := target];
      }
      rest := rest - {historical};
    }
    alias := alias[source := target];
  }

  /** The map agrees with the trace of every single name, and is single-hop
      exactly when no name is left stranded. */
  method BuildAliasMap(commits: seq<seq<Rename>>) returns (alias: Aliases)
    ensures Follows(alias, Flatten(commits), |Flatten(commits)|)
    ensures Idempotent(alias) <==> StrandsNone(Flatten(commits))
  {
    alias := map[];
    for i := 0 to |commits|
      invariant Follows(alias, Flatten(commits[..i]), |Flatten(commits[..i])|)
    {
      ghost var done, all := Flatten(commits[..i]), Flatten(commits[..i]) + commits[i];
      assert commits[..i + 1][..i] == commits[..i];
      StartOver(alias, done, commits[i]);
      for k := 0 to |commits[i]|
        invariant Follows(alias, all, |done| + k)
      {
        assert all[|done| + k] == commits[i][k];
        RepointFollows(alias, all, |done| + k);
        alias := RepointAll(alias, commits[i][k].source, commits[i][k].target);
      }
    }
    assert commits[..|commits|] == commits;
    SingleHopIff(alias, Flatten(commits));
  }

  lemma StartOver(alias: Aliases, done: seq<Rename>, more: seq<Rename>)
    requires Follows(alias, done, |done|)
    ensures Follows(alias, done + more, |done|)
  {
    forall f
      ensures Get(alias, f) == Trace(done + more, |done|, f)
    {
      TracePrefix(done, more, |done|, f);
    }
  }

  // --- When is one application enough? ---

  ghost predicate Idempotent(m: Aliases) {
    forall f :: Apply(m, Apply(m, f)) == Apply(m, f)
  }

  /** The new name has no history of its own, or its history ends at the file
      being renamed or at that very name. */
  predicate Takeable(m: Aliases, source: string, target: string) {
    target == source || target !in m || m[target] == source || m[target] == target
  }

  /** One rename keeps the map idempotent exactly when the name it takes is free. */
  lemma RepointIdempotent(m: Aliases, source: string, target: string)
    requires Idempotent(m)
    ensures Idempotent(Repoint(m, source, target)) <==> Takeable(m, source, target)
  {
    var after := Repoint(m, source, target);
    if Takeable(m, source, target) {
      forall f
        ensures Apply(after, Apply(after, f)) == Apply(after, f)
      {
        assert Apply(m, Apply(m, f)) == Apply(m, f);
      }
    } else {
      assert Apply(after, source) == target;
      assert Apply(after, Apply(after, source)) != Apply(after, source);
    }
  }

  function Start(): Aliases { map[] }

  /** The map after the first `n` renames. */
  function AfterRenames(rs: seq<Rename>, n: nat): Aliases
    requires n <= |rs|
  {
    if n == 0 then Start() else Repoint(AfterRenames(rs, n - 1), rs[n - 1].source, rs[n - 1].target)
  }

  lemma {:induction false} AfterRenamesFollows(rs: seq<Rename>, n: nat)
    requires n <= |rs|
    ensures Follows(AfterRenames(rs, n), rs, n)
  {
    if n > 0 {
      AfterRenamesFollows(rs, n - 1);
      RepointFollows(AfterRenames(rs, n - 1), rs, n - 1);
    }
  }

  /** Rename `k` takes a free name, judged by the trace of that name alone. */
  predicate TakesFreeName(rs: seq<Rename>, k: nat)
    requires k < |rs|
  {
    var past := Trace(rs, k, rs[k].target);
    rs[k].target == rs[k].source || past == None || past == Some(rs[k].source) || past == Some(rs[k].target)
  }

  lemma {:induction false} StaysIdempotent(rs: seq<Rename>, n: nat)
    requires n <= |rs| && forall k :: 0 <= k < n ==> TakesFreeName(rs, k)
    ensures Idempotent(AfterRenames(rs, n))
  {
    if n > 0 {
      StaysIdempotent(rs, n - 1);
      AfterRenamesFollows(rs, n - 1);
      assert TakesFreeName(rs, n - 1);
      var m := AfterRenames(rs, n - 1);
      assert Get(m, rs[n - 1].target) == Trace(rs, n - 1, rs[n - 1].target);
      RepointIdempotent(m, rs[n - 1].source, rs[n - 1].target);
    }
  }

  ghost predicate AlwaysIdempotent(rs: seq<Rename>) {
    forall n :: 0 <= n <= |rs| ==> Idempotent(AfterRenames(rs, n))
  }

  ghost predicate NamesAreFree(rs: seq<Rename>) {
    forall k :: 0 <= k < |rs| ==> TakesFreeName(rs, k)
  }

  lemma IdempotentStepIsFree(rs: seq<Rename>, k: nat)
    requires k < |rs| && Idempotent(AfterRenames(rs, k)) && Idempotent(AfterRenames(rs, k + 1))
    ensures TakesFreeName(rs, k)
  {
    AfterRenamesFollows(rs, k);
    var m := AfterRenames(rs, k);
    assert Get(m, rs[k].target) == Trace(rs, k, rs[k].target);
    RepointIdempotent(m, rs[k].source, rs[k].target);
  }

  /** Applying the map twice is applying it once, at every point of the history,
      exactly when every rename takes a free name. */
  lemma IdempotentIff(rs: seq<Rename>)
    ensures AlwaysIdempotent(rs) <==> NamesAreFree(rs)
  {
    if NamesAreFree(rs) {
      forall n | 0 <= n <= |rs|
        ensures Idempotent(AfterRenames(rs, n))
      {
        StaysIdempotent(rs, n);
      }
    }
    if AlwaysIdempotent(rs) {
      forall k | 0 <= k < |rs|
        ensures TakesFreeName(rs, k)
      {
        IdempotentStepIsFree(rs, k);
      }
    }
  }

  // --- When is the finished map single-hop? ---

  /** Rename `k` moves the file once called `f`. */
  predicate Carries(rs: seq<Rename>, k: nat, f: string)
    requires k < |rs|
  {
    f == rs[k].source || Trace(rs, k, f) == Some(rs[k].source)
  }

  /** No rename from `k` on, before `n`, has source `f`. */
  predicate Rests(rs: seq<Rename>, k: nat, n: nat, f: string)
    requires k <= n <= |rs|
  {
    forall m :: k <= m < n ==> rs[m].source != f
  }

  /** The name rename `j` started from is left two hops from its latest: rename `k`
      takes it to a name with a history that ended elsewhere, neither is
      renamed again, and that history is never led back to the taken name. */
  predicate Stranded(rs: seq<Rename>, j: nat, k: nat)
    requires j <= k < |rs|
  {
    var f, taken := rs[j].source, rs[k].target;
    && !TakesFreeName(rs, k) && Carries(rs, k, f)
    && Rests(rs, k + 1, |rs|, f) && Rests(rs, k + 1, |rs|, taken)
    && Trace(rs, |rs|, taken) != Some(taken)
  }

  predicate StrandsNone(rs: seq<Rename>) {
    forall j, k :: 0 <= j <= k < |rs| ==> !Stranded(rs, j, k)
  }

  /** A name once reached stays the name while neither end is renamed. */
  lemma {:induction false} RestsKeeps(rs: seq<Rename>, k: nat, n: nat, f: string, t: string)
    requires k <= n <= |rs| && Rests(rs, k, n, f) && Rests(rs, k, n, t) && Trace(rs, k, f) == Some(t)
    ensures Trace(rs, n, f) == Some(t)
  {
    if k < n {
      RestsKeeps(rs, k, n - 1, f, t);
      assert rs[n - 1].source != f && rs[n - 1].source != t;
    }
  }

  /** Once a name has a trace it keeps one. */
  lemma {:induction false} TraceStays(rs: seq<Rename>, k: nat, n: nat, f: string)
    requires k <= n <= |rs| && Trace(rs, k, f).Some?
    ensures Trace(rs, n, f).Some?
  {
    if k < n {
      TraceStays(rs, k, n - 1, f);
    }
  }

  /** Every trace has a last rename that moved it and a first that mentioned it. */
  lemma {:induction false} LastMove(rs: seq<Rename>, n: nat, f: string) returns (j: nat, k: nat)
    requires n <= |rs| && Trace(rs, n, f).Some?
    ensures j <= k < n && rs[j].source == f && Carries(rs, k, f)
    ensures Trace(rs, n, f) == Some(rs[k].target)
    ensures Rests(rs, k + 1, n, f) && Rests(rs, k + 1, n, rs[k].target)
  {
    if f == rs[n - 1].source {
      j, k := n - 1, n - 1;
    } else {
      j, k := LastMove(rs, n - 1, f);
      if Carries(rs, n - 1, f) {
        k := n - 1;
      }
    }
  }

  /** A free name, left alone after it is taken, leads nowhere else. */
  lemma FreeNameRests(rs: seq<Rename>, k: nat, n: nat)
    requires k < n <= |rs| && TakesFreeName(rs, k) && Rests(rs, k + 1, n, rs[k].target)
    ensures Trace(rs, n, rs[k].target) == None || Trace(rs, n, rs[k].target) == Some(rs[k].target)
  {
    var taken := rs[k].target;
    if Trace(rs, k + 1, taken) == None {
      UnmentionedRests(rs, k + 1, n, taken);
    } else {
      RestsKeeps(rs, k + 1, n, taken, taken);
    }
  }

  lemma {:induction false} UnmentionedRests(rs: seq<Rename>, k: nat, n: nat, f: string)
    requires k <= n <= |rs| && Rests(rs, k, n, f) && Trace(rs, k, f) == None
    ensures Trace(rs, n, f) == None
  {
    if k < n {
      UnmentionedRests(rs, k, n - 1, f);
      assert rs[n - 1].source != f;
    }
  }

  /** The finished map is single-hop, as its documentation says it always is,
      exactly when no name is left stranded. */
  lemma SingleHopIff(alias: Aliases, rs: seq<Rename>)
    requires Follows(alias, rs, |rs|)
    ensures Idempotent(alias) <==> StrandsNone(rs)
  {
    var n := |rs|;
    if StrandsNone(rs) {
      forall f
        ensures Apply(alias, Apply(alias, f)) == Apply(alias, f)
      {
        HopsOnce(alias, rs, f);
      }
    } else {
      var j, k :| 0 <= j <= k < n && Stranded(rs, j, k);
      var f, taken := rs[j].source, rs[k].target;
      assert Trace(rs, k + 1, f) == Some(taken);
      RestsKeeps(rs, k + 1, n, f, taken);
      TraceStays(rs, k, n, taken);
      assert Get(alias, f) == Trace(rs, n, f) && Get(alias, taken) == Trace(rs, n, taken);
      assert Apply(alias, Apply(alias, f)) != Apply(alias, f);
    }
  }

  lemma HopsOnce(alias: Aliases, rs: seq<Rename>, f: string)
    requires Follows(alias, rs, |rs|) && StrandsNone(rs)
    ensures Apply(alias, Apply(alias, f)) == Apply(alias, f)
  {
    assert Get(alias, f) == Trace(rs, |rs|, f);
    if f in alias {
      var j, k := LastMove(rs, |rs|, f);
      assert !Stranded(rs, j, k);
      if TakesFreeName(rs, k) {
        FreeNameRests(rs, k, |rs|);
      }
      assert Get(alias, rs[k].target) == Trace(rs, |rs|, rs[k].target);
    }
  }

  /** Taking free names only is enough, and so is never reusing a source name. */
  lemma FreshNamesIdempotent(alias: Aliases, rs: seq<Rename>)
    requires Follows(alias, rs, |rs|)
    ensures NamesAreFree(rs) ==> Idempotent(alias)
    ensures (forall j, k :: 0 <= j < k < |rs| ==> rs[j].source != rs[k].target) ==> NamesAreFree(rs)
  {
    SingleHopIff(alias, rs);
    if forall j, k :: 0 <= j < k < |rs| ==> rs[j].source != rs[k].target {
      forall k | 0 <= k < |rs|
        ensures TakesFreeName(rs, k)
      {
        UnmentionedRests(rs, 0, k, rs[k].target);
      }
    }
  }

  /** Reusing a name breaks it: `a` becomes `b`, then another file takes `a`. */
  lemma ReusedNameNeedsTwo(alias: Aliases)
    requires Follows(alias, [Rename("a", "b"), Rename("c", "a")], 2)
    ensures Apply(alias, "c") == "a" && Apply(alias, Apply(alias, "c")) == "b"
  {
    var rs := [Rename("a", "b"), Rename("c", "a")];
    assert Trace(rs, 1, "c") == None && Trace(rs, 1, "a") == Some("b");
    assert Get(alias, "c") == Trace(rs, 2, "c") && Get(alias, "a") == Trace(rs, 2, "a");
  }

  /** A later rename can mend it: once `a` is renamed again, one hop is enough,
      although a name was taken that was not free. */
  lemma LaterRenameMends(alias: Aliases, rs: seq<Rename>)
    requires rs == [Rename("a", "b"), Rename("c", "a"), Rename("a", "x")] && Follows(alias, rs, |rs|)
    ensures Idempotent(alias) && !NamesAreFree(rs)
  {
    assert Trace(rs, 1, "a") == Some("b");
    assert !TakesFreeName(rs, 1);
    assert rs[2].source == rs[1].target && !Rests(rs, 2, 3, rs[1].target);
    assert Trace(rs, 1, "x") == None && Trace(rs, 2, "x") == None;
    assert TakesFreeName(rs, 0) && TakesFreeName(rs, 2);
    SingleHopIff(alias, rs);
  }
}
