/** The reference-counted SIGPIPE guard, sequentially and under interleaving. */
module Sigpipe {
  import opened Text

  datatype Disposition = Default | Ignore | Handler(id: nat)

  /** The mutex-held pair, and the process-wide disposition. */
  datatype Shared = Shared(depth: nat, saved: Disposition, disposition: Disposition)

  // --- One critical section at a time ---

  /** `base` was in force before the outermost guard. */
  ghost predicate Settled(s: Shared, base: Disposition) {
    if s.depth == 0 then s.disposition == base else s.disposition == Ignore && s.saved == base
  }

  function Entered(s: Shared): Shared {
    Shared(s.depth + 1, if s.depth == 0 then s.disposition else s.saved, if s.depth == 0 then Ignore else s.disposition)
  }

  function Left(s: Shared): Shared
    requires s.depth > 0
  {
    Shared(s.depth - 1, s.saved, if s.depth == 1 then s.saved else s.disposition)
  }

  class Guards {
    var depth: nat
    var saved: Disposition
    var disposition: Disposition

    constructor (base: Disposition)
      ensures State() == Shared(0, Default, base)
    {
      depth, saved, disposition := 0, Default, base;
    }

    function State(): Shared
      reads this
    {
      Shared(depth, saved, disposition)
    }

    method Signal(installed: Disposition) returns (previous: Disposition)
      modifies this`disposition
      ensures previous == old(disposition) && disposition == installed
    {
      previous := disposition;
      disposition := installed;
    }

    method Enter(ghost base: Disposition)
      requires Settled(State(), base)
      modifies this
      ensures State() == Entered(old(State())) && Settled(State(), base)
    {
      if depth == 0 {
        saved := Signal(Ignore);
      }
      depth := depth + 1;
    }

    method Leave(ghost base: Disposition)
      requires depth > 0 && Settled(State(), base)
      modifies this
      ensures State() == Left(old(State())) && Settled(State(), base)
    {
      depth := depth - 1;
      if depth == 0 {
        var previous := saved;
        var displaced := Signal(previous);
      }
    }
  }

  // --- Any number of threads, step by step ---

  /** Where a thread is. Between `Locked` and the release it holds the mutex. */
  datatype Pc = Outside
              | WaitEnter | EnterLocked | EnterSignalled(previous: Disposition) | EnterSaved | EnterDone
              | WaitLeave | LeaveLocked | LeaveCounted | LeaveDone

  /** `guards` are the live guards the thread owns: counted in and not yet counted
      out, whoever created them. */
  datatype Thread = Thread(pc: Pc, guards: nat)

  datatype System = System(shared: Shared, holder: Option<nat>, threads: seq<Thread>)

  predicate Critical(pc: Pc) { !pc.Outside? && !pc.WaitEnter? && !pc.WaitLeave? }

  function At(s: System, t: nat, pc: Pc): System
    requires t < |s.threads|
  {
    s.(threads := s.threads[t := s.threads[t].(pc := pc)])
  }

  function Counting(s: System, t: nat, pc: Pc, guards: nat): System
    requires t < |s.threads|
  {
    s.(threads := s.threads[t := Thread(pc, guards)])
  }

  /** Thread `t` moves one of its guards to thread `u`, which will drop it. */
  function HandedOver(s: System, t: nat, u: nat): System
    requires t < |s.threads| && u < |s.threads| && s.threads[t].guards > 0
  {
    var given := s.threads[t := s.threads[t].(guards := s.threads[t].guards - 1)];
    s.(threads := given[u := given[u].(guards := given[u].guards + 1)])
  }

  /** A guard is a value: between its own calls a thread may send it elsewhere. */
  ghost predicate HandOver(s: System, t: nat, s2: System) {
    && t < |s.threads| && s.threads[t].pc.Outside? && s.threads[t].guards > 0
    && exists u: nat :: u < |s.threads| && s2 == HandedOver(s, t, u)
  }

  /** One step of thread `t`. */
  ghost predicate Step(s: System, t: nat, s2: System) {
    HandOver(s, t, s2) || Call(s, t, s2)
  }

  /** One step of thread `t` within the creation or the drop of a guard. */
  ghost predicate Call(s: System, t: nat, s2: System) {
    && t < |s.threads|
    && var th, sh := s.threads[t], s.shared;
    match th.pc
    case Outside => s2 == At(s, t, WaitEnter) || (th.guards > 0 && s2 == At(s, t, WaitLeave))
    case WaitEnter => s.holder == None && s2 == At(s, t, EnterLocked).(holder := Some(t))
    case WaitLeave => s.holder == None && s2 == At(s, t, LeaveLocked).(holder := Some(t))
    case EnterLocked =>
      if sh.depth == 0 then s2 == At(s, t, EnterSignalled(sh.disposition)).(shared := sh.(disposition := Ignore))
      else s2 == At(s, t, EnterSaved)
    case EnterSignalled(previous) => s2 == At(s, t, EnterSaved).(shared := sh.(saved := previous))
    case EnterSaved => s2 == Counting(s, t, EnterDone, th.guards + 1).(shared := sh.(depth := sh.depth + 1))
    case EnterDone => s2 == At(s, t, Outside).(holder := None)
    case LeaveLocked =>
      th.guards > 0 && sh.depth > 0 &&
        s2 == Counting(s, t, LeaveCounted, th.guards - 1).(shared := sh.(depth := sh.depth - 1))
    case LeaveCounted =>
      s2 == At(s, t, LeaveDone).(shared := if sh.depth == 0 then sh.(disposition := sh.saved) else sh)
    case LeaveDone => s2 == At(s, t, Outside).(holder := None)
  }

  function LiveGuards(threads: seq<Thread>): nat {
    if threads == [] then 0 else LiveGuards(threads[..|threads| - 1]) + threads[|threads| - 1].guards
  }

  lemma {:induction false} GuardsUpdated(threads: seq<Thread>, t: nat, th: Thread)
    requires t < |threads|
    ensures LiveGuards(threads[t := th]) == LiveGuards(threads) - threads[t].guards + th.guards
    ensures threads[t].guards <= LiveGuards(threads)
  {
    var n := |threads| - 1;
    if t < n {
      GuardsUpdated(threads[..n], t, th);
      assert threads[t := th][..n] == threads[..n][t := th];
    } else {
      assert threads[t := th][..n] == threads[..n];
    }
  }

  /** What the shared state looks like while the mutex is held at `pc`. */
  ghost predicate Phase(sh: Shared, pc: Pc, base: Disposition) {
    match pc
    case EnterSignalled(previous) => sh.depth == 0 && sh.disposition == Ignore && previous == base
    case EnterSaved => sh.disposition == Ignore && sh.saved == base
    case LeaveCounted => sh.disposition == Ignore && sh.saved == base
    case _ => Settled(sh, base)
  }

  /** A thread is in its critical section exactly when it holds the mutex, and
      about to drop a guard only when it has one. */
  ghost predicate ThreadOk(t: nat, th: Thread, holder: Option<nat>) {
    && (Critical(th.pc) <==> holder == Some(t))
    && (th.pc.WaitLeave? || th.pc.LeaveLocked? ==> th.guards > 0)
  }

  ghost predicate ThreadsOk(threads: seq<Thread>, holder: Option<nat>) {
    && (holder.Some? ==> holder.value < |threads|)
    && forall t :: 0 <= t < |threads| ==> ThreadOk(t, threads[t], holder)
  }

  ghost predicate SharedOk(sh: Shared, threads: seq<Thread>, holder: Option<nat>, base: Disposition) {
    if holder.Some? && holder.value < |threads| then Phase(sh, threads[holder.value].pc, base) else Settled(sh, base)
  }

  ghost predicate Inv(s: System, base: Disposition) {
    && ThreadsOk(s.threads, s.holder)
    && s.shared.depth == LiveGuards(s.threads)
    && SharedOk(s.shared, s.threads, s.holder, base)
  }

  ghost predicate Start(s: System, base: Disposition) {
    && s.shared.depth == 0 && s.shared.disposition == base && s.holder == None
    && forall t :: 0 <= t < |s.threads| ==> s.threads[t] == Thread(Outside, 0)
  }

  lemma {:induction false} NoGuards(threads: seq<Thread>)
    requires forall t :: 0 <= t < |threads| ==> threads[t].guards == 0
    ensures LiveGuards(threads) == 0
  {
    if threads != [] {
      NoGuards(threads[..|threads| - 1]);
    }
  }

  lemma StartInv(s: System, base: Disposition)
    requires Start(s, base)
    ensures Inv(s, base)
  {
    NoGuards(s.threads);
  }

  lemma StepInv(s: System, t: nat, s2: System, base: Disposition)
    requires Inv(s, base) && Step(s, t, s2)
    ensures Inv(s2, base)
  {
    if HandOver(s, t, s2) {
      var u: nat :| u < |s.threads| && s2 == HandedOver(s, t, u);
      HandOverInv(s, t, u, base);
    } else {
      CallInv(s, t, s2, base);
    }
  }

  lemma HandOverInv(s: System, t: nat, u: nat, base: Disposition)
    requires Inv(s, base) && t < |s.threads| && u < |s.threads|
    requires s.threads[t].pc.Outside? && s.threads[t].guards > 0
    ensures Inv(HandedOver(s, t, u), base)
  {
    var less := s.threads[t].(guards := s.threads[t].guards - 1);
    var given := s.threads[t := less];
    var more := given[u].(guards := given[u].guards + 1);
    GuardsUpdated(s.threads, t, less);
    ThreadChanged(s.threads, s.holder, t, less, s.holder);
    GuardsUpdated(given, u, more);
    ThreadChanged(given, s.holder, u, more, s.holder);
  }

  /** Only one thread changes, and the mutex is only ever passed to or from it. */
  lemma ThreadChanged(threads: seq<Thread>, holder: Option<nat>, t: nat, th: Thread, after: Option<nat>)
    requires ThreadsOk(threads, holder) && t < |threads| && ThreadOk(t, th, after)
    requires after == holder || ({holder, after} <= {None, Some(t)})
    ensures ThreadsOk(threads[t := th], after)
  {
  }

  lemma CallInv(s: System, t: nat, s2: System, base: Disposition)
    requires Inv(s, base) && Call(s, t, s2)
    ensures Inv(s2, base)
  {
    if Counts(s.threads[t].pc) {
      CountingInv(s, t, s2, base);
    } else {
      PassingInv(s, t, s2, base);
    }
  }

  predicate Counts(pc: Pc) { pc.EnterSaved? || pc.LeaveLocked? }

  /** The two steps that change the count. */
  lemma CountingInv(s: System, t: nat, s2: System, base: Disposition)
    requires Inv(s, base) && Call(s, t, s2) && Counts(s.threads[t].pc)
    ensures Inv(s2, base)
  {
    var th := s2.threads[t];
    assert s2.threads == s.threads[t := th];
    assert ThreadOk(t, s.threads[t], s.holder);
    GuardsUpdated(s.threads, t, th);
    ThreadChanged(s.threads, s.holder, t, th, s2.holder);
  }

  /** Every other step leaves it alone. */
  lemma PassingInv(s: System, t: nat, s2: System, base: Disposition)
    requires Inv(s, base) && Call(s, t, s2) && !Counts(s.threads[t].pc)
    ensures Inv(s2, base)
  {
    var th := s2.threads[t];
    assert s2.threads == s.threads[t := th] && th.guards == s.threads[t].guards;
    assert ThreadOk(t, s.threads[t], s.holder);
    GuardsUpdated(s.threads, t, th);
    ThreadChanged(s.threads, s.holder, t, th, s2.holder);
  }

  /** A thread about to count a guard out is never blocked by the count itself:
      the decrement cannot underflow. */
  lemma LeaveNeverUnderflows(s: System, t: nat, base: Disposition)
    requires Inv(s, base) && t < |s.threads| && s.threads[t].pc.LeaveLocked?
    ensures s.shared.depth > 0 && exists s2 :: Step(s, t, s2)
  {
    GuardsUpdated(s.threads, t, s.threads[t]);
    var less := s.shared.(depth := s.shared.depth - 1);
    assert Step(s, t, Counting(s, t, LeaveCounted, s.threads[t].guards - 1).(shared := less));
  }

  // --- Whole runs ---

  /** An interleaving: each state follows from the one before by a step of some thread. */
  ghost predicate IsRun(states: seq<System>, who: seq<nat>, base: Disposition) {
    && |states| == |who| + 1
    && Start(states[0], base)
    && forall i :: 0 <= i < |who| ==> Step(states[i], who[i], states[i + 1])
  }

  lemma {:induction false} RunInv(states: seq<System>, who: seq<nat>, base: Disposition, i: nat)
    requires IsRun(states, who, base) && i < |states|
    ensures Inv(states[i], base)
  {
    if i == 0 {
      StartInv(states[0], base);
    } else {
      RunInv(states, who, base, i - 1);
      assert Step(states[i - 1], who[i - 1], states[i]);
      StepInv(states[i - 1], who[i - 1], states[i], base);
    }
  }

  /** At every instant of every interleaving: the depth counts the live guards;
      while one is live SIGPIPE is ignored and the disposition to restore is the
      one in force before the outermost guard. */
  lemma GuardedMeansIgnored(states: seq<System>, who: seq<nat>, base: Disposition, i: nat)
    requires IsRun(states, who, base) && i < |states|
    ensures states[i].shared.depth == LiveGuards(states[i].threads)
    ensures states[i].shared.depth > 0 ==> states[i].shared.disposition == Ignore && states[i].shared.saved == base
    ensures forall t :: 0 <= t < |states[i].threads| && states[i].threads[t].guards > 0 ==>
      states[i].shared.disposition == Ignore
  {
    RunInv(states, who, base, i);
    forall t | 0 <= t < |states[i].threads| && states[i].threads[t].guards > 0
      ensures states[i].shared.depth > 0
    {
      GuardsUpdated(states[i].threads, t, states[i].threads[t]);
    }
  }

  /** With no live guard and the mutex free, what was there before is back. So the
      signal is ignored exactly while a guard is live, unless it was ignored
      already. */
  lemma UnguardedMeansRestored(states: seq<System>, who: seq<nat>, base: Disposition, i: nat)
    requires IsRun(states, who, base) && i < |states| && states[i].holder == None
    ensures LiveGuards(states[i].threads) == 0 ==> states[i].shared.disposition == base
    ensures base != Ignore ==> (states[i].shared.disposition == Ignore <==> LiveGuards(states[i].threads) > 0)
  {
    RunInv(states, who, base, i);
  }

  // --- Critical sections are atomic ---

  /** No other thread touches the shared state while one holds the mutex. */
  lemma HolderIsAlone(s: System, t: nat, s2: System, base: Disposition)
    requires Inv(s, base) && Step(s, t, s2) && s.holder.Some? && s.holder != Some(t)
    ensures s2.shared == s.shared && s2.holder == s.holder
  {
  }

  /** Run to completion, the three steps of an entry are the sequential one. */
  lemma EntryIsAtomic(s: System, t: nat, a: System, b: System, c: System)
    requires t < |s.threads| && s.threads[t].pc == EnterLocked
    requires Step(s, t, a) && Step(a, t, b)
    requires if s.shared.depth == 0 then Step(b, t, c) else c == b
    ensures c.shared == Entered(s.shared) && c.threads[t] == Thread(EnterDone, s.threads[t].guards + 1)
  {
  }

  lemma ExitIsAtomic(s: System, t: nat, a: System, b: System)
    requires t < |s.threads| && s.threads[t].pc == LeaveLocked
    requires Step(s, t, a) && Step(a, t, b)
    ensures s.shared.depth > 0 && b.shared == Left(s.shared)
    ensures b.threads[t] == Thread(LeaveDone, s.threads[t].guards - 1)
  {
  }
}
