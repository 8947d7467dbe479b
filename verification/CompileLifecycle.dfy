/** The compile lifecycle: slots of the per-box limiter, the table of active compilations, the active
    counter with its drift reset, and the metrics history, over every interleaving of starts, stops,
    process exits, safety timers and spawn failures. */
module CompileLifecycle {
  import opened Common

  type Project = string
  type Id = nat

  const HISTORY_MAX := 300

  datatype Rec = Rec(duration: int, success: bool)
  datatype Compile = Compile(project: Project, settled: bool)
  datatype Metrics = Metrics(total: nat, success: nat, failed: nat, active: nat, history: seq<Rec>)

  /** `compiles` are the compiles that were let through, `slots` what the limiter has recorded, `released`
      the releases so far, `table` is `activeCompilations`. */
  datatype State = State(
    compiles: map<Id, Compile>, slots: set<Id>, released: seq<Id>, table: map<Project, Id>, metrics: Metrics)

  /** The limiter counts, once it has pruned the slots it presumes dead; or it lets everything through
      because the call to Redis failed, with the slot recorded or not. */
  datatype Gate = Counted(limit: nat, pruned: set<Id>) | FailOpen(recorded: bool)

  /** A new compile first kills the one its project has running, then waits: that kill is a `Stop` of
      its own, since other handlers run during the wait. `ready` is whether the main file was found,
      `freed` whether a release reached the limiter. */
  datatype Event =
    | Start(project: Project, id: Id, ready: bool, gate: Gate, spawned: bool, freed: bool)
    | Exit(id: Id, success: bool, duration: int, freed: bool)
    | SafetyTimer(id: Id, freed: bool)
    | Stop(project: Project)
    | AbortAll
    | DriftReset

  const EMPTY := State(map[], {}, [], map[], Metrics(0, 0, 0, 0, []))

  function Decrement(n: nat): nat { if n == 0 then 0 else n - 1 }

  function Record(m: Metrics, r: Rec): Metrics {
    var h := m.history + [r];
    Metrics(m.total + 1, if r.success then m.success + 1 else m.success, if r.success then m.failed else m.failed + 1,
            m.active, if |h| > HISTORY_MAX then h[1..] else h)
  }

  /** What every settlement path does: the compile is done, its slot is given back, the counter drops. */
  function Settle(s: State, id: Id, freed: bool): State
    requires id in s.compiles
  {
    s.(compiles := s.compiles[id := s.compiles[id].(settled := true)],
       slots := if freed then s.slots - {id} else s.slots, released := s.released + [id],
       metrics := s.metrics.(active := Decrement(s.metrics.active)))
  }

  function Admits(g: Gate, slots: set<Id>): bool { g.FailOpen? || |slots - g.pruned| < g.limit }

  /** The recorded slots after asking for one more. */
  function Acquired(g: Gate, slots: set<Id>, id: Id): set<Id> {
    match g
    case Counted(limit, pruned) => if |slots - pruned| < limit then slots - pruned + {id} else slots - pruned
    case FailOpen(recorded) => if recorded then slots + {id} else slots
  }

  /** A compile that was let through. */
  function Admit(s: State, p: Project, id: Id): State {
    s.(compiles := s.compiles[id := Compile(p, false)], metrics := s.metrics.(active := s.metrics.active + 1))
  }

  predicate Enabled(s: State, e: Event) {
    match e
    case Start(_, id, _, _, _, _) => id !in s.compiles
    case Exit(id, _, _, _) => id in s.compiles
    case SafetyTimer(id, _) => id in s.compiles
    case _ => true
  }

  /** Exit and the safety timer delete whatever the project's entry is; a spawn failure deletes nothing. */
  function Next(s: State, e: Event): State
    requires Enabled(s, e)
  {
    match e
    case Start(p, id, ready, gate, spawned, freed) =>
      if !ready then s
      else
        var asked := s.(slots := Acquired(gate, s.slots, id));
        if !Admits(gate, s.slots) then asked
        else
          var t := Admit(asked, p, id);
          if spawned then t.(table := t.table[p := id]) else Settle(t, id, freed)
    case Exit(id, success, duration, freed) =>
      if s.compiles[id].settled then s
      else
        var t := Settle(s.(table := s.table - {s.compiles[id].project}), id, freed);
        t.(metrics := Record(t.metrics, Rec(duration, success)))
    case SafetyTimer(id, freed) =>
      if s.compiles[id].settled then s else Settle(s.(table := s.table - {s.compiles[id].project}), id, freed)
    case Stop(p) => s.(table := s.table - {p})
    case AbortAll => s.(table := map[])
    case DriftReset => s.(metrics := s.metrics.(active := Min(s.metrics.active, |s.table|)))
  }

  // ---------------------------------------------------------------- the invariant

  ghost function Running(compiles: map<Id, Compile>): set<Id> { set id | id in compiles && !compiles[id].settled }

  /** A slot has been released once if its compile settled, never otherwise. */
  ghost predicate ReleasedOnce(s: State) {
    forall id :: multiset(s.released)[id] == if id in s.compiles && s.compiles[id].settled then 1 else 0
  }

  /** Table entries are running compiles of their own project. */
  ghost predicate TableLive(s: State) {
    forall p :: p in s.table ==> s.table[p] in s.compiles && s.compiles[s.table[p]] == Compile(p, false)
  }

  ghost predicate Sound(s: State) {
    && ReleasedOnce(s) && TableLive(s)
    && s.metrics.active <= |Running(s.compiles)|
    && s.metrics.total == s.metrics.success + s.metrics.failed
  }

  lemma {:induction false} TableFits(table: map<Project, Id>, running: set<Id>, compiles: map<Id, Compile>)
    requires forall p :: p in table ==> table[p] in running && table[p] in compiles && compiles[table[p]].project == p
    ensures |table| <= |running|
  {
    if table != map[] {
      var p :| p in table;
      var rest := table - {p};
      assert table.Keys == rest.Keys + {p};
      TableFits(rest, running - {table[p]}, compiles);
    }
  }

  lemma OneMoreRuns(compiles: map<Id, Compile>, p: Project, id: Id)
    requires id !in compiles
    ensures Running(compiles[id := Compile(p, false)]) == Running(compiles) + {id}
    ensures |Running(compiles[id := Compile(p, false)])| == |Running(compiles)| + 1
  {
    assert Running(compiles[id := Compile(p, false)]) == Running(compiles) + {id};
  }

  lemma OneFewerRuns(compiles: map<Id, Compile>, id: Id)
    requires id in compiles && !compiles[id].settled
    ensures var after := compiles[id := compiles[id].(settled := true)];
            Running(after) == Running(compiles) - {id} && |Running(after)| == |Running(compiles)| - 1
  {
    assert Running(compiles[id := compiles[id].(settled := true)]) == Running(compiles) - {id};
  }

  lemma SettleKeepsSound(s: State, id: Id, freed: bool)
    requires Sound(s) && id in s.compiles && !s.compiles[id].settled && (forall p :: p in s.table ==> s.table[p] != id)
    ensures Sound(Settle(s, id, freed))
  {
    OneFewerRuns(s.compiles, id);
    var t := Settle(s, id, freed);
    assert multiset(t.released) == multiset(s.released) + multiset{id};
  }

  lemma AdmitKeepsSound(s: State, p: Project, id: Id)
    requires Sound(s) && id !in s.compiles
    ensures Sound(Admit(s, p, id))
  {
    OneMoreRuns(s.compiles, p, id);
  }

  /** Every event keeps the invariant. */
  lemma StepKeepsSound(s: State, e: Event)
    requires Sound(s) && Enabled(s, e)
    ensures Sound(Next(s, e))
  {
    match e
    case Start(p, id, ready, gate, spawned, freed) =>
      var asked := s.(slots := Acquired(gate, s.slots, id));
      AdmitKeepsSound(asked, p, id);
      if !spawned { SettleKeepsSound(Admit(asked, p, id), id, freed); }
    case Exit(id, _, _, freed) =>
      if !s.compiles[id].settled { SettleKeepsSound(s.(table := s.table - {s.compiles[id].project}), id, freed); }
    case SafetyTimer(id, freed) =>
      if !s.compiles[id].settled { SettleKeepsSound(s.(table := s.table - {s.compiles[id].project}), id, freed); }
    case Stop(_) =>
    case AbortAll =>
    case DriftReset =>
  }

  ghost predicate IsRun(trace: seq<State>, es: seq<Event>) {
    && |trace| == |es| + 1 && trace[0] == EMPTY
    && forall i :: 0 <= i < |es| ==> Enabled(trace[i], es[i]) && trace[i + 1] == Next(trace[i], es[i])
  }

  /** Over every run: each slot is released exactly once, and only when its compile settles; table entries
      are running compiles; the counter never exceeds the compiles running; and the totals add up. */
  lemma {:induction false} RunsAreSound(trace: seq<State>, es: seq<Event>, i: nat)
    requires IsRun(trace, es) && i <= |es|
    ensures Sound(trace[i])
  {
    if i > 0 {
      RunsAreSound(trace, es, i - 1);
      StepKeepsSound(trace[i - 1], es[i - 1]);
    }
  }

  // ---------------------------------------------------------------- the slots and the compiles running

  /** The events that keep recorded slots and running compiles the same: none is pruned while it runs, none
      runs unrecorded, and every recorded slot that is given back reaches the limiter. */
  predicate KeepsSlots(s: State, e: Event)
    requires Enabled(s, e)
  {
    match e
    case Start(_, id, ready, gate, spawned, freed) =>
      ready ==>
        && (gate.Counted? ==> gate.pruned * s.slots == {})
        && (gate == FailOpen(false) ==> !spawned)
        && (Admits(gate, s.slots) && !spawned && gate != FailOpen(false) ==> freed)
    case Exit(id, _, _, freed) => s.compiles[id].settled || freed
    case SafetyTimer(id, freed) => s.compiles[id].settled || freed
    case _ => true
  }

  lemma StartKeepsSlotsIff(s: State, e: Event)
    requires s.slots == Running(s.compiles) && Enabled(s, e) && e.Start? && e.ready
    ensures Next(s, e).slots == Running(Next(s, e).compiles) <==> KeepsSlots(s, e)
  {
    OneMoreRuns(s.compiles, e.project, e.id);
    var slots, id := s.slots, e.id;
    assert id !in slots;
    if e.gate.Counted? {
      assert e.gate.pruned * slots == {} <==> slots - e.gate.pruned == slots;
    }
    if Admits(e.gate, slots) && !e.spawned {
      OneFewerRuns(s.compiles[id := Compile(e.project, false)], id);
      assert slots + {id} - {id} == slots;
    }
  }

  /** In a state where the slots are exactly the running compiles, they stay so exactly under these events. */
  lemma StepKeepsSlotsIff(s: State, e: Event)
    requires s.slots == Running(s.compiles) && Enabled(s, e)
    ensures Next(s, e).slots == Running(Next(s, e).compiles) <==> KeepsSlots(s, e)
  {
    match e
    case Start(_, _, ready, _, _, _) => if ready { StartKeepsSlotsIff(s, e); }
    case Exit(id, _, _, _) => if !s.compiles[id].settled { OneFewerRuns(s.compiles, id); }
    case SafetyTimer(id, _) => if !s.compiles[id].settled { OneFewerRuns(s.compiles, id); }
    case _ =>
  }

  /** Held slots are exactly the unsettled compiles throughout a run if and only if each event keeps them so. */
  lemma RunsHoldExactSlotsIff(trace: seq<State>, es: seq<Event>)
    requires IsRun(trace, es)
    ensures (forall k :: 0 <= k <= |es| ==> trace[k].slots == Running(trace[k].compiles))
            <==> (forall k :: 0 <= k < |es| ==> KeepsSlots(trace[k], es[k]))
  {
    if forall k :: 0 <= k < |es| ==> KeepsSlots(trace[k], es[k]) {
      forall k: nat | k <= |es| ensures trace[k].slots == Running(trace[k].compiles) { SlotsStayExact(trace, es, k); }
    }
    if forall k :: 0 <= k <= |es| ==> trace[k].slots == Running(trace[k].compiles) {
      forall k | 0 <= k < |es| ensures KeepsSlots(trace[k], es[k]) {
        assert trace[k + 1].slots == Running(trace[k + 1].compiles);
        StepKeepsSlotsIff(trace[k], es[k]);
      }
    }
  }

  lemma {:induction false} SlotsStayExact(trace: seq<State>, es: seq<Event>, i: nat)
    requires IsRun(trace, es) && i <= |es| && forall k :: 0 <= k < i ==> KeepsSlots(trace[k], es[k])
    ensures trace[i].slots == Running(trace[i].compiles)
  {
    if i > 0 {
      SlotsStayExact(trace, es, i - 1);
      StepKeepsSlotsIff(trace[i - 1], es[i - 1]);
    }
  }

  // ---------------------------------------------------------------- the limit, the counter, the history

  /** The limiter counts against one limit and prunes no compile that still runs. */
  predicate Counts(s: State, e: Event, limit: nat) {
    e.Start? ==> e.gate.Counted? && e.gate.limit == limit
                 && forall id :: id in e.gate.pruned && id in s.compiles ==> s.compiles[id].settled
  }

  /** Then no more than that many compiles run, even if releases are missed. */
  lemma {:induction false} CountedRunsStayInBudget(trace: seq<State>, es: seq<Event>, i: nat, limit: nat)
    requires IsRun(trace, es) && i <= |es| && forall k :: 0 <= k < i ==> Counts(trace[k], es[k], limit)
    ensures Running(trace[i].compiles) <= trace[i].slots && |trace[i].slots| <= limit
    ensures |Running(trace[i].compiles)| <= limit
  {
    if i > 0 {
      CountedRunsStayInBudget(trace, es, i - 1, limit);
      SlotsStep(trace[i - 1], es[i - 1], limit);
    }
    SubsetSize(Running(trace[i].compiles), trace[i].slots);
  }

  lemma AcquiredStaysInBudget(slots: set<Id>, pruned: set<Id>, limit: nat, id: Id)
    requires |slots| <= limit
    ensures |Acquired(Counted(limit, pruned), slots, id)| <= limit
  {
    SubsetSize(slots - pruned, slots);
  }

  lemma SlotsStep(s: State, e: Event, limit: nat)
    requires Enabled(s, e) && Counts(s, e, limit) && Running(s.compiles) <= s.slots && |s.slots| <= limit
    ensures Running(Next(s, e).compiles) <= Next(s, e).slots && |Next(s, e).slots| <= limit
  {
    match e
    case Start(p, id, ready, gate, spawned, freed) =>
      OneMoreRuns(s.compiles, p, id);
      OneFewerRuns(s.compiles[id := Compile(p, false)], id);
      AcquiredStaysInBudget(s.slots, gate.pruned, limit, id);
      SubsetSize(Acquired(gate, s.slots, id) - {id}, Acquired(gate, s.slots, id));
    case Exit(id, _, _, _) => SettledStaysInBudget(s, id);
    case SafetyTimer(id, _) => SettledStaysInBudget(s, id);
    case _ =>
  }

  lemma SettledStaysInBudget(s: State, id: Id)
    requires id in s.compiles && Running(s.compiles) <= s.slots
    ensures |s.slots - {id}| <= |s.slots|
    ensures !s.compiles[id].settled ==> Running(s.compiles[id := s.compiles[id].(settled := true)]) <= s.slots - {id}
  {
    SubsetSize(s.slots - {id}, s.slots);
    if !s.compiles[id].settled { OneFewerRuns(s.compiles, id); }
  }

  /** Without a drift reset the counter is exact. */
  lemma {:induction false} CounterIsExactWithoutReset(trace: seq<State>, es: seq<Event>, i: nat)
    requires IsRun(trace, es) && i <= |es| && forall k :: 0 <= k < i ==> !es[k].DriftReset?
    ensures trace[i].metrics.active == |Running(trace[i].compiles)|
  {
    if i > 0 {
      CounterIsExactWithoutReset(trace, es, i - 1);
      ExactStep(trace[i - 1], es[i - 1]);
    }
  }

  lemma ExactStep(s: State, e: Event)
    requires Enabled(s, e) && !e.DriftReset? && s.metrics.active == |Running(s.compiles)|
    ensures Next(s, e).metrics.active == |Running(Next(s, e).compiles)|
  {
    match e
    case Start(p, id, _, _, _, _) =>
      OneMoreRuns(s.compiles, p, id);
      OneFewerRuns(s.compiles[id := Compile(p, false)], id);
    case Exit(id, _, _, _) => if !s.compiles[id].settled { OneFewerRuns(s.compiles, id); }
    case SafetyTimer(id, _) => if !s.compiles[id].settled { OneFewerRuns(s.compiles, id); }
    case _ =>
  }

  /** After a drift reset the counter is exact if and only if it was, and every running compile is in the table. */
  lemma ResetIsExactIff(s: State)
    requires Sound(s)
    ensures Next(s, DriftReset).metrics.active == |Running(s.compiles)|
            <==> s.metrics.active == |Running(s.compiles)| == |s.table|
  {
    TableFits(s.table, Running(s.compiles), s.compiles);
  }

  /** An exit that settles leaves another running compile's table entry in place exactly when the two are
      of different projects. */
  lemma ExitKeepsEntryIff(s: State, late: Id, p: Project, success: bool, duration: int, freed: bool)
    requires Sound(s) && late in s.compiles && !s.compiles[late].settled && p in s.table && s.table[p] != late
    ensures var t := Next(s, Exit(late, success, duration, freed));
            p in t.table && t.table[p] == s.table[p] <==> s.compiles[late].project != p
  {
  }

  /** So a stopped compile that exits late deletes the entry of its project's newer compile: that one keeps
      running, cannot be stopped any more, and the next drift reset stops counting it. */
  lemma LateExitOrphansNewerCompile(
    s: State, p: Project, late: Id, newer: Id, success: bool, duration: int, freed: bool)
    requires Sound(s) && late != newer && late in s.compiles && s.compiles[late] == Compile(p, false)
    requires p in s.table && s.table[p] == newer
    ensures var t := Next(s, Exit(late, success, duration, freed));
            && newer in Running(t.compiles) && p !in t.table && Next(t, Stop(p)) == t
            && Next(t, DriftReset).metrics.active < |Running(t.compiles)|
  {
    OrphanIsUncounted(s, p, late, newer);
    OneFewerRuns(s.compiles, late);
  }

  /** Without its entry the newer compile is not in the table any more, and the older one is done. */
  lemma OrphanIsUncounted(s: State, p: Project, late: Id, newer: Id)
    requires TableLive(s) && late != newer && late in s.compiles && s.compiles[late] == Compile(p, false)
    requires p in s.table && s.table[p] == newer
    ensures |s.table - {p}| < |Running(s.compiles) - {late}|
  {
    var rest, others := s.table - {p}, Running(s.compiles) - {late} - {newer};
    forall q | q in rest ensures rest[q] in others { assert s.compiles[s.table[q]].project == q; }
    TableFits(rest, others, s.compiles);
    assert newer in Running(s.compiles) - {late};
  }

  /** Stopping a project's compile takes its entry away and leaves the compile itself to its exit; so does
      aborting all of them. */
  lemma StopIsExact(s: State, p: Project, q: Project)
    ensures var t := Next(s, Stop(p));
            && (q in t.table <==> q in s.table && q != p) && (q in t.table ==> t.table[q] == s.table[q])
            && t.compiles == s.compiles && t.slots == s.slots && t.released == s.released && t.metrics == s.metrics
    ensures Next(s, AbortAll) == s.(table := map[])
  {
  }

  /** Exit and the safety timer settle a running compile for good: its slot is released, and only the exit
      records an outcome. */
  lemma SettlementIsExact(s: State, id: Id, success: bool, duration: int, freed: bool)
    requires id in s.compiles
    ensures var exit, timer := Next(s, Exit(id, success, duration, freed)), Next(s, SafetyTimer(id, freed));
            if s.compiles[id].settled then exit == timer == s
            else
              && exit.compiles == timer.compiles == s.compiles[id := Compile(s.compiles[id].project, true)]
              && exit.table == timer.table == s.table - {s.compiles[id].project}
              && exit.released == timer.released == s.released + [id]
              && exit.slots == timer.slots == s.slots - (if freed then {id} else {})
              && exit.metrics.total == timer.metrics.total + 1 == s.metrics.total + 1
              && exit.metrics.active == timer.metrics.active == Max(0, s.metrics.active - 1)
  {
  }

  /** The limiter lets a compile through: its main file was found, and a slot is free or not counted. */
  ghost predicate Through(s: State, ready: bool, gate: Gate) {
    ready && (gate.Counted? ==> |s.slots - gate.pruned| < gate.limit)
  }

  /** A compile that is let through runs with an entry in the table and in the counter. */
  lemma StartIsExact(s: State, p: Project, id: Id, ready: bool, gate: Gate, freed: bool)
    requires id !in s.compiles && Through(s, ready, gate)
    ensures var t := Next(s, Start(p, id, ready, gate, true, freed));
            && t.compiles == s.compiles[id := Compile(p, false)] && t.table == s.table[p := id]
            && t.released == s.released && t.metrics == s.metrics.(active := s.metrics.active + 1)
            && (gate.Counted? ==> t.slots == s.slots - gate.pruned + {id})
  {
  }

  /** If its process does not spawn, it is settled at once: its slot is released, and no other trace is left. */
  lemma SpawnFailureIsSettled(s: State, p: Project, id: Id, ready: bool, gate: Gate, freed: bool)
    requires id !in s.compiles && Through(s, ready, gate)
    ensures var t := Next(s, Start(p, id, ready, gate, false, freed));
            && t.compiles == s.compiles[id := Compile(p, true)] && t.table == s.table && t.metrics == s.metrics
            && t.released == s.released + [id] && (freed ==> id !in t.slots)
  {
  }

  /** A refused compile never was, and only the limiter's pruning remains. */
  lemma RefusalLeavesNothing(s: State, p: Project, id: Id, ready: bool, gate: Gate, spawned: bool, freed: bool)
    requires id !in s.compiles && !Through(s, ready, gate)
    ensures Next(s, Start(p, id, ready, gate, spawned, freed))
         == if ready then s.(slots := s.slots - gate.pruned) else s
  {
  }

  function Launch(p: Project, id: Id, limit: nat): Event { Start(p, id, true, Counted(limit, {}), true, true) }

  /** Such a state is reached when the first of two compiles ignores its kill for longer than the wait. */
  lemma LateExitIsReachable(p: Project, late: Id, newer: Id, limit: nat)
    requires late != newer && limit >= 2
    ensures var s := Next(Next(Next(EMPTY, Launch(p, late, limit)), Stop(p)), Launch(p, newer, limit));
            && Sound(s) && late in s.compiles && s.compiles[late] == Compile(p, false)
            && p in s.table && s.table[p] == newer
  {
    var s1 := Next(EMPTY, Launch(p, late, limit));
    var s2 := Next(s1, Stop(p));
    assert Sound(EMPTY);
    StepKeepsSound(EMPTY, Launch(p, late, limit));
    StepKeepsSound(s1, Stop(p));
    StepKeepsSound(s2, Launch(p, newer, limit));
  }

  /** The outcome an event records, if any. */
  function Recorded(s: State, e: Event): seq<Rec>
    requires Enabled(s, e)
  {
    if e.Exit? && !s.compiles[e.id].settled then [Rec(e.duration, e.success)] else []
  }

  /** All outcomes recorded in the first `i` steps of a run. */
  ghost function Records(trace: seq<State>, es: seq<Event>, i: nat): seq<Rec>
    requires IsRun(trace, es) && i <= |es|
  {
    if i == 0 then [] else Records(trace, es, i - 1) + Recorded(trace[i - 1], es[i - 1])
  }

  function Count(rs: seq<Rec>, success: bool): nat {
    if rs == [] then 0 else Count(rs[..|rs| - 1], success) + if rs[|rs| - 1].success == success then 1 else 0
  }

  /** The last min(n, |rs|) elements. */
  function Last(rs: seq<Rec>, n: nat): seq<Rec> { rs[|rs| - Min(n, |rs|)..] }

  lemma LastAppend(rs: seq<Rec>, r: Rec, n: nat)
    requires n > 0
    ensures Last(rs + [r], n) == var h := Last(rs, n) + [r]; if |h| > n then h[1..] else h
  {
    if |rs| >= n {
      assert Last(rs + [r], n) == (rs[|rs| - n..] + [r])[1..];
    } else {
      assert Last(rs, n) == rs;
    }
  }

  /** The history is the last min(300, total) outcomes, and the counters count all of them. */
  ghost predicate Reflects(m: Metrics, all: seq<Rec>) {
    && m.history == Last(all, 300) && m.total == |all|
    && m.success == Count(all, true) && m.failed == Count(all, false)
  }

  lemma RecordReflects(m: Metrics, all: seq<Rec>, r: Rec)
    requires Reflects(m, all)
    ensures Reflects(Record(m, r), all + [r])
  {
    assert (all + [r])[..|all|] == all;
    LastAppend(all, r, HISTORY_MAX);
  }

  lemma StepReflects(s: State, e: Event, all: seq<Rec>)
    requires Enabled(s, e) && Reflects(s.metrics, all)
    ensures Reflects(Next(s, e).metrics, all + Recorded(s, e))
  {
    if e.Exit? && !s.compiles[e.id].settled {
      RecordReflects(s.metrics.(active := Decrement(s.metrics.active)), all, Rec(e.duration, e.success));
    } else {
      assert all + Recorded(s, e) == all;
    }
  }

  lemma {:induction false} RunsReflectRecords(trace: seq<State>, es: seq<Event>, i: nat)
    requires IsRun(trace, es) && i <= |es|
    ensures Reflects(trace[i].metrics, Records(trace, es, i))
  {
    if i > 0 {
      RunsReflectRecords(trace, es, i - 1);
      StepReflects(trace[i - 1], es[i - 1], Records(trace, es, i - 1));
    }
  }

  // ---------------------------------------------------------------- in the code's own form

  class CompileService {
    var compiles: map<Id, Compile>
    var slots: set<Id>
    var released: seq<Id>
    var activeCompilations: map<Project, Id>
    var metrics: Metrics

    constructor ()
      ensures Current() == EMPTY
    {
      compiles, slots, released, activeCompilations, metrics := map[], {}, [], map[], Metrics(0, 0, 0, 0, []);
    }

    function Current(): State
      reads this
    {
      State(compiles, slots, released, activeCompilations, metrics)
    }

    method AcquireCompileSlot(id: Id, gate: Gate) returns (ok: bool)
      modifies this`slots
      ensures ok == Admits(gate, old(slots)) && slots == Acquired(gate, old(slots), id)
    {
      match gate {
        case FailOpen(recorded) =>
          if recorded { slots := slots + {id}; }
          return true;
        case Counted(limit, pruned) =>
          slots := slots - pruned;
          if |slots| >= limit { return false; }
          slots := slots + {id};
          return true;
      }
    }

    method RecordCompile(success: bool, duration: int)
      modifies this`metrics
      ensures metrics == Record(old(metrics), Rec(duration, success))
    {
      metrics := metrics.(total := metrics.total + 1);
      if success {
        metrics := metrics.(success := metrics.success + 1);
      } else {
        metrics := metrics.(failed := metrics.failed + 1);
      }
      metrics := metrics.(history := metrics.history + [Rec(duration, success)]);
      if |metrics.history| > HISTORY_MAX { metrics := metrics.(history := metrics.history[1..]); }
    }

    /** The lines shared by the three settlement paths. */
    method SettleCompile(id: Id, freed: bool)
      requires id in compiles
      modifies this`compiles, this`metrics, this`slots, this`released
      ensures Current() == Settle(old(Current()), id, freed)
    {
      compiles := compiles[id := compiles[id].(settled := true)];
      metrics := metrics.(active := Max(0, metrics.active - 1));
      released := released + [id];
      if freed { slots := slots - {id}; }
    }

    method DoCompile(project: Project, id: Id, ready: bool, gate: Gate, spawned: bool, freed: bool)
      returns (started: bool)
      requires id !in compiles
      modifies this
      ensures Current() == Next(old(Current()), Start(project, id, ready, gate, spawned, freed))
      ensures started
              <==> ready && spawned && (gate.Counted? ==> |old(slots) - gate.pruned| < gate.limit)
      ensures activeCompilations == if started then old(activeCompilations)[project := id] else old(activeCompilations)
    {
      if !ready { return false; }
      var ok := AcquireCompileSlot(id, gate);
      if !ok { return false; }
      compiles := compiles[id := Compile(project, false)];
      metrics := metrics.(active := metrics.active + 1);
      if !spawned {
        SettleCompile(id, freed);
        return false;
      }
      activeCompilations := activeCompilations[project := id];
      return true;
    }

    method OnCompilerExit(id: Id, success: bool, duration: int, freed: bool)
      requires id in compiles
      modifies this
      ensures Current() == Next(old(Current()), Exit(id, success, duration, freed))
    {
      if compiles[id].settled { return; }
      activeCompilations := activeCompilations - {compiles[id].project};
      SettleCompile(id, freed);
      RecordCompile(success, duration);
    }

    method OnSafetyTimer(id: Id, freed: bool)
      requires id in compiles
      modifies this
      ensures Current() == Next(old(Current()), SafetyTimer(id, freed))
    {
      if compiles[id].settled { return; }
      activeCompilations := activeCompilations - {compiles[id].project};
      SettleCompile(id, freed);
    }

    method StopCompilation(project: Project) returns (found: bool)
      modifies this`activeCompilations
      ensures found == (project in old(activeCompilations))
      ensures Current() == Next(old(Current()), Stop(project))
      ensures activeCompilations == old(activeCompilations) - {project}
    {
      found := project in activeCompilations;
      activeCompilations := activeCompilations - {project};
    }

    method AbortAllCompilations() returns (count: nat)
      modifies this`activeCompilations
      ensures count == |old(activeCompilations)|
      ensures Current() == Next(old(Current()), AbortAll)
      ensures activeCompilations == map[]
    {
      count := |activeCompilations|;
      activeCompilations := map[];
    }

    method ResetDrift()
      modifies this`metrics
      ensures Current() == Next(old(Current()), DriftReset)
      ensures metrics == old(metrics).(active := Min(old(metrics).active, |activeCompilations|))
    {
      var actual := |activeCompilations|;
      if metrics.active > actual { metrics := metrics.(active := actual); }
    }
  }
}
