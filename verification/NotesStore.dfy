/** The notes table: identifiers allocated in transactions and never reused. */
module NotesStore {
  import opened Text
  import opened NotesJson
  import opened NotesText

  const MAX_NOTE_ID: nat := 9_007_199_254_740_991

  datatype Row = Row(commit: string, document: Json, canonical: string)

  /** The table and its allocation sequence. */
  datatype State = State(rows: map<nat, Row>, sequence: nat)

  const PRISTINE: State := State(map[], 0)

  datatype Note = Note(id: nat, commit: string, document: Json)

  datatype Error = BadCommit | BadIdentity | BadId | NoSuchNote | Corrupt | Exhausted

  datatype Result<+T> = Ok(value: T) | Err(error: Error)

  predicate ShaOk(sha: string) {
    (|sha| == 40 || |sha| == 64) && forall i :: 0 <= i < |sha| ==> '0' <= sha[i] <= '9' || 'a' <= sha[i] <= 'f'
  }

  predicate IdOk(id: nat) { 1 <= id <= MAX_NOTE_ID }

  predicate SameNote(a: Row, b: Row) { a.commit == b.commit && a.canonical == b.canonical }

  /** The table's own constraints, which the database engine enforces. */
  ghost predicate Constrained(rows: map<nat, Row>) {
    && (forall id :: id in rows ==> IdOk(id))
    && (forall a, b :: a in rows && b in rows && SameNote(rows[a], rows[b]) ==> a == b)
  }

  lemma NothingConstrained()
    ensures Constrained(map[])
  {
  }

  lemma InsertConstrained(rows: map<nat, Row>, id: nat, row: Row)
    requires Constrained(rows) && IdOk(id) && id !in rows
    requires forall k :: !Matches(rows, k, row.commit, row.canonical)
    ensures Constrained(rows[id := row])
  {
    var after := rows[id := row];
    forall a, b | a in after && b in after && SameNote(after[a], after[b])
      ensures a == b
    {
      assert !Matches(rows, a, row.commit, row.canonical) && !Matches(rows, b, row.commit, row.canonical);
    }
  }

  /** The check made of the sequence before every use. */
  predicate SequenceOk(s: State) {
    s.sequence <= MAX_NOTE_ID && forall id :: id in s.rows ==> id <= s.sequence
  }

  function Decode(id: nat, row: Row): Result<Note> {
    if IdOk(id) && ShaOk(row.commit) && Canonicalize(row.document) == row.canonical
    then Ok(Note(id, row.commit, row.document)) else Err(Corrupt)
  }

  predicate Matches(rows: map<nat, Row>, id: nat, commit: string, canonical: string) {
    id in rows && rows[id].commit == commit && rows[id].canonical == canonical
  }

  // --- Transactions as relations between states ---

  ghost predicate Present(s: State, commit: string, canonical: string) {
    exists id :: Matches(s.rows, id, commit, canonical)
  }

  function Opened(s: Option<State>): State { if s.Some? then s.value else PRISTINE }

  /** `s2`, `r` are the outcome of adding to `s`; an absent store is created. */
  ghost predicate Adds(s: Option<State>, commit: string, doc: Json, canonical: string, s2: Option<State>,
                       r: Result<Note>)
  {
    var t := Opened(s);
    if !ShaOk(commit) then s2 == s && r == Err(BadCommit)
    else if Canonicalize(doc) != canonical then s2 == s && r == Err(BadIdentity)
    else if !SequenceOk(t) then s2 == s && r == Err(Corrupt)
    else if Present(t, commit, canonical) then
      s2 == Some(t) && exists id :: Matches(t.rows, id, commit, canonical) && r == Decode(id, t.rows[id])
    else if t.sequence >= MAX_NOTE_ID then s2 == Some(t) && r == Err(Exhausted)
    else
      var id := t.sequence + 1;
      s2 == Some(State(t.rows[id := Row(commit, doc, canonical)], id)) && r == Ok(Note(id, commit, doc))
  }

  ghost predicate Removes(s: Option<State>, id: nat, s2: Option<State>, r: Result<Note>) {
    if !IdOk(id) then s2 == s && r == Err(BadId)
    else if s.None? then s2 == s && r == Err(NoSuchNote)
    else if !SequenceOk(s.value) then s2 == s && r == Err(Corrupt)
    else if id !in s.value.rows then s2 == s && r == Err(NoSuchNote)
    else
      && r == Decode(id, s.value.rows[id])
      && s2 == if r.Ok? then Some(State(s.value.rows - {id}, s.value.sequence)) else s
  }

  /** `None` selects every commit. */
  predicate Selected(selection: Option<set<string>>, commit: string) {
    selection.None? || commit in selection.value
  }

  ghost predicate Lists(s: State, selection: Option<set<string>>, notes: seq<Note>) {
    && (forall i, j :: 0 <= i < j < |notes| ==> notes[i].id < notes[j].id)
    && (forall n :: n in notes <==>
      n.id in s.rows && Decode(n.id, s.rows[n.id]) == Ok(n) && Selected(selection, n.commit))
  }

  /** A commit is named by its full lowercase hash. */
  lemma ShaExactly(sha: string)
    ensures ShaOk(sha) <==> |sha| in {40, 64} && forall c :: c in sha ==> c in "0123456789abcdef"
  {
    assert forall c: char :: '0' <= c <= '9' || 'a' <= c <= 'f' <==> c in "0123456789abcdef" by {
      forall c: char
        ensures '0' <= c <= '9' || 'a' <= c <= 'f' <==> c in "0123456789abcdef"
      {
        HexChars(c);
      }
    }
    if forall c :: c in sha ==> c in "0123456789abcdef" {
      assert forall i :: 0 <= i < |sha| ==> sha[i] in sha;
    }
  }

  lemma HexChars(c: char)
    ensures '0' <= c <= '9' || 'a' <= c <= 'f' <==> c in "0123456789abcdef"
  {
    var s := "0123456789abcdef";
    if '0' <= c <= '9' {
      assert s[c as int - '0' as int] == c;
    } else if 'a' <= c <= 'f' {
      assert s[c as int - 'a' as int + 10] == c;
    }
  }

  /** A selection lists, of all the notes, those of the selected commits. */
  lemma SelectionFilters(s: State, commits: set<string>, some: seq<Note>, all: seq<Note>, n: Note)
    requires Lists(s, Some(commits), some) && Lists(s, None, all)
    ensures n in some <==> n in all && n.commit in commits
  {
  }

  /** The listing of the rows below `id`. */
  ghost predicate ListedBelow(s: State, selection: Option<set<string>>, id: nat, notes: seq<Note>) {
    && (forall i, j :: 0 <= i < j < |notes| ==> notes[i].id < notes[j].id)
    && (forall n :: n in notes <==>
         n.id < id && n.id in s.rows && Decode(n.id, s.rows[n.id]) == Ok(n) && Selected(selection, n.commit))
  }

  lemma ListStep(s: State, selection: Option<set<string>>, id: nat, notes: seq<Note>)
    requires ListedBelow(s, selection, id, notes) && id in s.rows && Decode(id, s.rows[id]).Ok?
    ensures var note := Decode(id, s.rows[id]).value;
      ListedBelow(s, selection, id + 1, if Selected(selection, note.commit) then notes + [note] else notes)
  {
    assert forall i :: 0 <= i < |notes| ==> notes[i] in notes;
  }

  // --- The store ---

  class Store {
    /** `None` while the database file does not exist. */
    var state: Option<State>

    constructor ()
      ensures state == None
    {
      state := None;
    }

    ghost predicate Valid()
      reads this
    {
      state.Some? ==> Constrained(state.value.rows)
    }

    method Add(commit: string, doc: Json, canonical: string) returns (r: Result<Note>)
      requires Valid()
      modifies this
      ensures Valid()
      ensures Adds(old(state), commit, doc, canonical, state, r)
    {
      if !ShaOk(commit) {
        return Err(BadCommit);
      }
      if Canonicalize(doc) != canonical {
        return Err(BadIdentity);
      }
      var t := Opened(state);
      if !SequenceOk(t) {
        return Err(Corrupt);
      }
      var existing := SelectPair(t.rows, commit, canonical);
      if existing.Some? {
        state := Some(t);
        return Decode(existing.value, t.rows[existing.value]);
      }
      if t.sequence >= MAX_NOTE_ID {
        state := Some(t);
        return Err(Exhausted);
      }
      var id := t.sequence + 1;
      InsertConstrained(t.rows, id, Row(commit, doc, canonical));
      state := Some(State(t.rows[id := Row(commit, doc, canonical)], id));
      r := Ok(Note(id, commit, doc));
    }

    method Remove(id: nat) returns (r: Result<Note>)
      requires Valid()
      modifies this
      ensures Valid()
      ensures Removes(old(state), id, state, r)
    {
      if !IdOk(id) {
        return Err(BadId);
      }
      if state.None? {
        return Err(NoSuchNote);
      }
      if !SequenceOk(state.value) {
        return Err(Corrupt);
      }
      if id !in state.value.rows {
        return Err(NoSuchNote);
      }
      r := Decode(id, state.value.rows[id]);
      if r.Ok? {
        state := Some(state.value.(rows := state.value.rows - {id}));
      }
    }

    /** One ascending pass over the table; a row that does not decode fails it. */
    method List(selection: Option<set<string>>) returns (r: Result<seq<Note>>)
      requires Valid()
      ensures state.None? ==> r == Ok([])
      ensures state.Some? && !SequenceOk(state.value) ==> r.Err?
      ensures state.Some? && r.Ok? ==> Lists(state.value, selection, r.value)
      ensures state.Some? && SequenceOk(state.value) ==>
        (r.Err? <==> exists id :: id in state.value.rows && Decode(id, state.value.rows[id]).Err?)
    {
      if state.None? {
        return Ok([]);
      }
      var s := state.value;
      if !SequenceOk(s) {
        return Err(Corrupt);
      }
      var notes: seq<Note> := [];
      for id := 0 to s.sequence + 1
        invariant ListedBelow(s, selection, id, notes)
        invariant forall k :: 0 <= k < id && k in s.rows ==> Decode(k, s.rows[k]).Ok?
      {
        if id in s.rows {
          var note := Decode(id, s.rows[id]);
          if note.Err? {
            return Err(Corrupt);
          }
          ListStep(s, selection, id, notes);
          if Selected(selection, note.value.commit) {
            notes := notes + [note.value];
          }
        }
      }
      r := Ok(notes);
    }
  }

  method SelectPair(rows: map<nat, Row>, commit: string, canonical: string) returns (id: Option<nat>)
    ensures id.Some? ==> Matches(rows, id.value, commit, canonical)
    ensures id.None? ==> forall k :: !Matches(rows, k, commit, canonical)
  {
    var rest := rows.Keys;
    while rest != {}
      invariant rest <= rows.Keys
      invariant forall k :: k in rows && k !in rest ==> !Matches(rows, k, commit, canonical)
      decreases rest
    {
      var k :| k in rest;
      if Matches(rows, k, commit, canonical) {
        return Some(k);
      }
      rest := rest - {k};
    }
    id := None;
  }

  // --- One transaction ---

  /** What every transaction preserves. */
  ghost predicate Sound(s: Option<State>) {
    s.Some? ==>
      && Constrained(s.value.rows) && SequenceOk(s.value)
      && forall id :: id in s.value.rows ==> Decode(id, s.value.rows[id]).Ok?
  }

  lemma AddKeepsSound(s: Option<State>, commit: string, doc: Json, canonical: string, s2: Option<State>,
                      r: Result<Note>)
    requires Sound(s) && Adds(s, commit, doc, canonical, s2, r)
    ensures Sound(s2) && Opened(s).sequence <= Opened(s2).sequence
  {
    hide Canonicalize, ShaOk, Constrained;
    NothingConstrained();
    var t := Opened(s);
    if ShaOk(commit) && Canonicalize(doc) == canonical && !Present(t, commit, canonical) && t.sequence < MAX_NOTE_ID {
      InsertConstrained(t.rows, t.sequence + 1, Row(commit, doc, canonical));
    }
  }

  lemma RemoveKeepsSound(s: Option<State>, id: nat, s2: Option<State>, r: Result<Note>)
    requires Sound(s) && Removes(s, id, s2, r)
    ensures Sound(s2) && Opened(s).sequence == Opened(s2).sequence
  {
  }

  /** Adding what is there changes nothing and returns the note that is there. */
  lemma AddPresent(s: State, commit: string, doc: Json, id: nat, s2: Option<State>, r: Result<Note>)
    requires Sound(Some(s)) && Matches(s.rows, id, commit, Canonicalize(doc)) &&
      Adds(Some(s), commit, doc, Canonicalize(doc), s2, r)
    ensures s2 == Some(s) && r == Ok(Note(id, commit, s.rows[id].document))
  {
    assert Decode(id, s.rows[id]).Ok?;
  }

  /** Documents that differ only in member order are one note. */
  lemma EquivalentDocumentsShareNote(s: State, commit: string, doc: Json, other: Json, id: nat, s2: Option<State>,
                                     r: Result<Note>)
    requires Sound(Some(s)) && Matches(s.rows, id, commit, Canonicalize(doc))
    requires WellFormed(doc) && WellFormed(other) && Adds(Some(s), commit, other, Canonicalize(other), s2, r)
    ensures Equivalent(doc, other) ==> s2 == Some(s) && r.Ok? && r.value.id == id
    ensures !Equivalent(doc, other) && r.Ok? ==> r.value.id != id
  {
    CanonicalIdentity(doc, other);
    if Equivalent(doc, other) {
      AddPresent(s, commit, other, id, s2, r);
    }
  }

  // --- Runs ---

  datatype Op = AddOp(commit: string, document: Json, canonical: string) | RemoveOp(id: nat)

  ghost predicate Step(s: Option<State>, op: Op, s2: Option<State>, r: Result<Note>) {
    match op
    case AddOp(commit, doc, canonical) => Adds(s, commit, doc, canonical, s2, r)
    case RemoveOp(id) => Removes(s, id, s2, r)
  }

  /** Any interleaving of atomic transactions, from a store that does not exist. */
  ghost predicate IsRun(states: seq<Option<State>>, ops: seq<Op>, results: seq<Result<Note>>) {
    && |states| == |ops| + 1 && |results| == |ops|
    && states[0] == None
    && forall i :: 0 <= i < |ops| ==> Step(states[i], ops[i], states[i + 1], results[i])
  }

  lemma {:induction false} RunSound(states: seq<Option<State>>, ops: seq<Op>, results: seq<Result<Note>>, i: nat,
                                    j: nat)
    requires IsRun(states, ops, results) && i <= j < |states|
    ensures Sound(states[j]) && Opened(states[i]).sequence <= Opened(states[j]).sequence
  {
    if j > 0 {
      RunSound(states, ops, results, if i < j then i else j - 1, j - 1);
      assert Step(states[j - 1], ops[j - 1], states[j], results[j - 1]);
      match ops[j - 1] {
        case AddOp(commit, doc, canonical) => AddKeepsSound(states[j - 1], commit, doc, canonical, states[j],
          results[j - 1]);
        case RemoveOp(id) => RemoveKeepsSound(states[j - 1], id, states[j], results[j - 1]);
      }
    }
  }

  /** Step `i` allocated the identifier `id`. */
  ghost predicate Issues(states: seq<Option<State>>, ops: seq<Op>, results: seq<Result<Note>>, i: nat, id: nat)
    requires IsRun(states, ops, results) && i < |ops|
  {
    ops[i].AddOp? && results[i].Ok? && results[i].value.id == id && id !in Opened(states[i]).rows
  }

  lemma IssuedIsNext(states: seq<Option<State>>, ops: seq<Op>, results: seq<Result<Note>>, i: nat, id: nat)
    requires IsRun(states, ops, results) && i < |ops| && Issues(states, ops, results, i, id)
    ensures id == Opened(states[i]).sequence + 1 == Opened(states[i + 1]).sequence
  {
    RunSound(states, ops, results, 0, i);
    assert Step(states[i], ops[i], states[i + 1], results[i]);
  }

  /** Every identifier exceeds all issued before it, removed or not. */
  lemma IdsNeverReused(states: seq<Option<State>>, ops: seq<Op>, results: seq<Result<Note>>, i: nat, j: nat, a: nat,
                       b: nat)
    requires IsRun(states, ops, results) && i < j < |ops|
    requires Issues(states, ops, results, i, a) && Issues(states, ops, results, j, b)
    ensures a < b <= MAX_NOTE_ID
  {
    IssuedIsNext(states, ops, results, i, a);
    IssuedIsNext(states, ops, results, j, b);
    RunSound(states, ops, results, i + 1, j);
    RunSound(states, ops, results, j, j + 1);
  }

  /** Exhaustion is an error that changes nothing, and it is permanent. */
  lemma ExhaustionIsFinal(states: seq<Option<State>>, ops: seq<Op>, results: seq<Result<Note>>, i: nat, j: nat, id: nat)
    requires IsRun(states, ops, results) && i <= j < |ops|
    requires states[i].Some? && states[i].value.sequence == MAX_NOTE_ID
    ensures results[i] == Err(Exhausted) ==> states[i + 1] == states[i]
    ensures !Issues(states, ops, results, j, id)
  {
    RunSound(states, ops, results, i, j);
    RunSound(states, ops, results, j, j + 1);
    assert Step(states[i], ops[i], states[i + 1], results[i]);
    if Issues(states, ops, results, j, id) {
      IssuedIsNext(states, ops, results, j, id);
    }
  }
}
