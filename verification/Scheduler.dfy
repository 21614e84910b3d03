/** `CoopScheduler`: round-robin scheduling, and the timer interrupt that drives it. */
module Scheduler {
  import opened Outcomes
  import opened Processes

  /** What the scheduler holds. */
  datatype Sched = Sched(table: Table, current: nat, ready: seq<nat>)

  function SetState(procs: map<nat, Process>, id: nat, state: State): map<nat, Process>
    requires id in procs
  {
    procs[id := procs[id].(state := state)]
  }

  /** `resched`: the current process goes to the back of the queue if it still runs, and
      the process at the front becomes current. */
  function Resched(s: Sched): Result<Sched> {
    if s.ready == [] then Ok(s)
    else if s.current !in s.table.procs then Panic(NoSuchProcess)
    else
      var running := s.table.procs[s.current].state == Current;
      var procs := if running then SetState(s.table.procs, s.current, Ready) else s.table.procs;
      var ready := if running then s.ready + [s.current] else s.ready;
      var next := ready[0];
      if next == s.current then Ok(Sched(s.table.(procs := procs), s.current, ready[1..]))
      else if next !in procs then Panic(NoSuchProcess)
      else Ok(Sched(s.table.(procs := SetState(procs, next, Current)), next, ready[1..]))
  }

  /** The process marked free, and its stack dropped. */
  function MarkFree(s: Sched, id: nat): Sched {
    s.(table := s.table.(procs := s.table.procs[id := Process(Free, false)]))
  }

  /** `kill`: mark the process free and call `resched`. */
  function Kill(s: Sched, id: nat): Result<Sched> {
    if id !in s.table.procs then Panic(NoSuchProcess) else Resched(MarkFree(s, id))
  }

  /** Process-table part of `create`; the pid is what `ProcessList.Add` returns. */
  ghost predicate Created(max: nat, t: Table, pid: nat, t': Table) {
    exists t1 :: Step(max, t, Adding(Some(pid)), t1) && pid in t1.procs
                 && t' == t1.(procs := t1.procs[pid := t1.procs[pid].(hasStack := true)])
  }

  class CoopScheduler {
    const table: ProcessList
    var current: nat
    var ready: seq<nat>

    /** Nothing but the null process, which runs. */
    constructor (max: nat)
      requires max >= 1
      ensures fresh(table) && table.Valid() && table.max == max
      ensures View() == Sched(Table(map[NULL_PID := Process(Current, true)], 1), NULL_PID, [])
    {
      table := new ProcessList(max);
      current := NULL_PID;
      ready := [];
    }

    ghost function View(): Sched
      reads this, table
    {
      Sched(Table(table.procs, table.next), current, ready)
    }

    /** `create`: a new suspended process with a stack, or the error of a full table. */
    method Create() returns (r: Option<nat>)
      requires table.Valid()
      modifies table
      ensures table.Valid()
      ensures r.None? <==> AllTaken(old(table.procs), SearchStart(old(table.next), table.max), table.max)
      ensures r.None? ==> table.procs == old(table.procs)
      ensures r.Some? ==> Created(table.max, old(View().table), r.value, View().table)
    {
      ghost var before := View().table;
      r := table.Add();
      if r.Some? {
        ghost var added := View().table;
        assert Step(table.max, before, Adding(r), added);
        table.procs := table.procs[r.value := table.procs[r.value].(hasStack := true)];
      }
    }

    /** `ready`. */
    method MakeReady(id: nat)
      modifies this`ready
      ensures ready == old(ready) + [id]
    {
      ready := ready + [id];
    }

    /** `resched`, up to the context switch. */
    method DoResched() returns (r: Result<()>)
      requires table.Valid()
      modifies this, table
      ensures var spec := Resched(old(View()));
              if spec.Panic? then r == Panic(spec.why) else r.Ok? && View() == spec.value && table.Valid()
    {
      if ready == [] {
        return Ok(());
      }
      var prev := table.Get(current);
      if prev.None? {
        return Panic(NoSuchProcess);
      }
      if prev.value.state == Current {
        table.procs := table.procs[current := prev.value.(state := Ready)];
        ready := ready + [current];
      }
      var id := ready[0];
      ready := ready[1..];
      if id != current {
        var next := table.Get(id);
        if next.None? {
          return Panic(NoSuchProcess);
        }
        table.procs := table.procs[id := next.value.(state := Current)];
        current := id;
      }
      r := Ok(());
    }

    /** `kill`. */
    method DoKill(id: nat) returns (r: Result<()>)
      requires table.Valid()
      modifies this, table
      ensures var spec := Kill(old(View()), id);
              if spec.Panic? then r == Panic(spec.why) else r.Ok? && View() == spec.value && table.Valid()
    {
      var p := table.Get(id);
      if p.None? {
        return Panic(NoSuchProcess);
      }
      table.procs := table.procs[id := Process(Free, false)];
      assert View() == MarkFree(old(View()), id);
      r := DoResched();
    }
  }

  /** The scheduler and the tick counter of the timer. */
  datatype Kernel = Kernel(sched: Sched, ticks: nat)

  /** What happens to it: a timer interrupt, a `create` system call (which pairs `create`
      with `ready`), or the current process returning, which kills it. */
  datatype Event = Interrupt | Spawn(pid: nat) | Return

  /** The event calls `resched`. */
  predicate Switches(k: Kernel, e: Event) { e.Return? || (e.Interrupt? && k.ticks >= 10) }

  ghost predicate Happens(max: nat, k: Kernel, e: Event, k': Kernel) {
    match e
    case Interrupt =>
      if k.ticks >= 10 then Resched(k.sched) == Ok(k'.sched) && k'.ticks == 0
      else k' == k.(ticks := k.ticks + 1)
    case Spawn(pid) =>
      && Created(max, k.sched.table, pid, k'.sched.table)
      && k'.sched.ready == k.sched.ready + [pid] && k'.sched.current == k.sched.current && k'.ticks == k.ticks
    case Return =>
      // only processes made by `create` return; the null process is not one of them
      k.sched.current != NULL_PID && Kill(k.sched, k.sched.current) == Ok(k'.sched) && k'.ticks == k.ticks
  }

  /** Conservation: exactly one process is current and it is `current`; the queue has no
      duplicates and not the current process; the processes that are not free are the
      current one and those in the queue, each with its stack; the null process is among
      them. */
  ghost predicate Inv(max: nat, k: Kernel) {
    var s, procs := k.sched, k.sched.table.procs;
    && max >= 1 && TableOk(max, s.table) && k.ticks <= 10
    && s.current in procs && procs[s.current].state == Current && s.current !in s.ready
    && (forall p :: p in procs && procs[p].state == Current ==> p == s.current)
    && (forall i :: 0 <= i < |s.ready| ==> s.ready[i] in procs && procs[s.ready[i]].state != Free)
    && (forall i, j :: 0 <= i < j < |s.ready| ==> s.ready[i] != s.ready[j])
    && (forall p :: p in procs && procs[p].state != Free ==> (p == s.current || p in s.ready) && procs[p].hasStack)
    && (s.current == NULL_PID || NULL_PID in s.ready)
  }

  /** The state `resched` is called in: as `Inv`, but the current process may just have
      been marked free. */
  ghost predicate Runnable(s: Sched) {
    var procs := s.table.procs;
    && s.current in procs && procs[s.current].state in {Current, Free} && s.current !in s.ready && s.ready != []
    && (forall p :: p in procs && procs[p].state == Current ==> p == s.current)
    && (forall i :: 0 <= i < |s.ready| ==> s.ready[i] in procs && procs[s.ready[i]].state != Free)
    && (forall i, j :: 0 <= i < j < |s.ready| ==> s.ready[i] != s.ready[j])
    && (forall p :: p in procs && procs[p].state != Free ==> (p == s.current || p in s.ready) && procs[p].hasStack)
  }

  /** From there `resched` never panics, the front of the queue becomes current, and the
      rest moves up, followed by the process that was current unless it is free. */
  lemma ReschedRotates(max: nat, s: Sched)
    requires Runnable(s) && TableOk(max, s.table)
    ensures var running := s.table.procs[s.current].state == Current;
            && Resched(s).Ok?
            && var s' := Resched(s).value;
            && s'.current == s.ready[0] && s'.ready == s.ready[1..] + (if running then [s.current] else [])
            && TableOk(max, s'.table) && s'.table.procs.Keys == s.table.procs.Keys
            && (forall p :: p in s.table.procs ==>
                  && (s'.table.procs[p].state == Free <==> s.table.procs[p].state == Free)
                  && s'.table.procs[p].hasStack == s.table.procs[p].hasStack)
            && (running ==> s'.table.procs[s.current].state == Ready)
            && s'.table.procs[s'.current] == s.table.procs[s'.current].(state := Current)
            && (forall p :: p in s.table.procs && p != s'.current && !(running && p == s.current) ==>
                  s'.table.procs[p] == s.table.procs[p])
            && s'.table.next == s.table.next
            && s'.current in s'.table.procs && s'.table.procs[s'.current].state == Current
            && (forall p :: p in s'.table.procs && s'.table.procs[p].state == Current ==> p == s'.current)
  {
    var running := s.table.procs[s.current].state == Current;
    var ready := if running then s.ready + [s.current] else s.ready;
    assert ready[0] == s.ready[0] && ready[0] != s.current by { assert s.ready[0] in s.ready; }
    assert ready[1..] == s.ready[1..] + if running then [s.current] else [];
    assert Resched(s).value.table.procs.Keys == s.table.procs.Keys;
  }

  /** The queue after the front has left it and `tail` joined: no duplicates, and the
      same members otherwise. */
  lemma QueueRotates(ready: seq<nat>, tail: seq<nat>, p: nat)
    requires ready != [] && |tail| <= 1 && (forall i, j :: 0 <= i < j < |ready| ==> ready[i] != ready[j])
    requires forall i :: 0 <= i < |tail| ==> tail[i] !in ready
    ensures forall i, j :: 0 <= i < j < |ready[1..] + tail| ==> (ready[1..] + tail)[i] != (ready[1..] + tail)[j]
    ensures p in ready[1..] + tail <==> (p in ready && p != ready[0]) || p in tail
  {
    var moved := ready[1..] + tail;
    forall i | 0 <= i < |moved|
      ensures moved[i] == if i < |ready| - 1 then ready[i + 1] else tail[0]
    {
    }
    assert ready == [ready[0]] + ready[1..];
  }

  /** After `resched` the invariant holds (again). */
  lemma ReschedKeeps(max: nat, s: Sched, ticks: nat)
    requires max >= 1 && Runnable(s) && TableOk(max, s.table) && ticks <= 10
    requires NULL_PID in s.ready || (s.current == NULL_PID && s.table.procs[NULL_PID].state == Current)
    ensures Resched(s).Ok? && Inv(max, Kernel(Resched(s).value, ticks))
  {
    hide Resched;
    ReschedRotates(max, s);
    var s' := Resched(s).value;
    var tail := if s.table.procs[s.current].state == Current then [s.current] else [];
    forall p
      ensures p in s'.ready <==> (p in s.ready && p != s.ready[0]) || p in tail
    {
      if p >= 0 {
        QueueRotates(s.ready, tail, p);
      }
    }
    QueueRotates(s.ready, tail, 0);
    QueueMembers(s, s', tail);
  }

  lemma QueueMembers(s: Sched, s': Sched, tail: seq<nat>)
    requires Runnable(s) && tail == (if s.table.procs[s.current].state == Current then [s.current] else [])
    requires forall p :: p in s'.ready <==> (p in s.ready && p != s.ready[0]) || p in tail
    requires s'.current == s.ready[0] && s'.table.procs.Keys == s.table.procs.Keys
    requires forall p :: p in s.table.procs ==> (s'.table.procs[p].state == Free <==> s.table.procs[p].state == Free)
    ensures s'.current !in s'.ready
    ensures forall i :: 0 <= i < |s'.ready| ==>
              s'.ready[i] in s'.table.procs && s'.table.procs[s'.ready[i]].state != Free
    ensures forall p :: p in s'.table.procs && s'.table.procs[p].state != Free ==> p == s'.current || p in s'.ready
  {
    forall i | 0 <= i < |s'.ready|
      ensures s'.ready[i] in s'.table.procs && s'.table.procs[s'.ready[i]].state != Free
    {
      assert s'.ready[i] in s'.ready;
    }
  }

  /** Marking the current process free leaves a state in which `resched` can run. */
  lemma KillRunnable(max: nat, k: Kernel)
    requires Inv(max, k) && k.sched.current != NULL_PID
    ensures var s := MarkFree(k.sched, k.sched.current);
            Runnable(s) && TableOk(max, s.table) && Kill(k.sched, k.sched.current) == Resched(s)
  {
  }

  lemma SpawnKeeps(max: nat, k: Kernel, pid: nat, k': Kernel)
    requires Inv(max, k) && Happens(max, k, Spawn(pid), k')
    ensures Inv(max, k') && pid !in k.sched.table.procs
    ensures pid in k'.sched.table.procs && k'.sched.table.procs[pid] == Process(Suspended, true)
    ensures forall p :: p in k.sched.table.procs ==>
        p in k'.sched.table.procs && k'.sched.table.procs[p] == k.sched.table.procs[p]
  {
    var t1 :| Step(max, k.sched.table, Adding(Some(pid)), t1) && pid in t1.procs
              && k'.sched.table == t1.(procs := t1.procs[pid := t1.procs[pid].(hasStack := true)]);
    StepOk(max, k.sched.table, Adding(Some(pid)), t1);
    var ready := k.sched.ready;
    assert forall i :: 0 <= i < |ready| ==> ready[i] in ready;
  }

  /** Every event keeps the invariant. */
  lemma HappensKeeps(max: nat, k: Kernel, e: Event, k': Kernel)
    requires Inv(max, k) && Happens(max, k, e, k')
    ensures Inv(max, k')
  {
    match e
    case Interrupt =>
      if k.ticks >= 10 && k.sched.ready != [] {
        ReschedKeeps(max, k.sched, 0);
      }
    case Spawn(pid) => SpawnKeeps(max, k, pid, k');
    case Return =>
      var s := MarkFree(k.sched, k.sched.current);
      KillRunnable(max, k);
      ReschedKeeps(max, s, k.ticks);
  }

  /** In no such state does `resched`, or `kill` of the current process, panic. */
  lemma NeverPanics(max: nat, k: Kernel)
    requires Inv(max, k)
    ensures Resched(k.sched).Ok?
    ensures k.sched.current != NULL_PID ==> Kill(k.sched, k.sched.current).Ok?
  {
    if k.sched.ready != [] {
      ReschedKeeps(max, k.sched, 0);
    }
    if k.sched.current != NULL_PID {
      KillRunnable(max, k);
      ReschedRotates(max, MarkFree(k.sched, k.sched.current));
    }
  }

  /** A run of events, with the states before and after each. */
  ghost predicate Trace(max: nat, ks: seq<Kernel>, es: seq<Event>) {
    |ks| == |es| + 1 && forall i {:trigger es[i]} :: 0 <= i < |es| ==> Happens(max, ks[i], es[i], ks[i + 1])
  }

  function Start(): Kernel { Kernel(Sched(Table(map[NULL_PID := Process(Current, true)], 1), NULL_PID, []), 0) }

  lemma {:induction false} TraceInv(max: nat, ks: seq<Kernel>, es: seq<Event>, i: nat)
    requires Trace(max, ks, es) && Inv(max, ks[0]) && i < |ks|
    ensures Inv(max, ks[i])
  {
    if i > 0 {
      TraceInv(max, ks, es, i - 1);
      assert Happens(max, ks[i - 1], es[i - 1], ks[i]);
      HappensKeeps(max, ks[i - 1], es[i - 1], ks[i]);
    }
  }

  /** Scheduler conservation in every state that the kernel reaches from its start. */
  lemma ReachableInv(max: nat, ks: seq<Kernel>, es: seq<Event>, i: nat)
    requires max >= 1 && Trace(max, ks, es) && ks[0] == Start() && i < |ks|
    ensures Inv(max, ks[i])
  {
    TraceInv(max, ks, es, i);
  }

  ghost predicate IsFree(k: Kernel, pid: nat) { pid in k.sched.table.procs && k.sched.table.procs[pid].state == Free }

  lemma FreeStaysFree(max: nat, k: Kernel, e: Event, k': Kernel, pid: nat)
    requires Inv(max, k) && Happens(max, k, e, k') && IsFree(k, pid)
    ensures IsFree(k', pid)
  {
    match e
    case Interrupt =>
      if k.ticks >= 10 && k.sched.ready != [] {
        ReschedRotates(max, k.sched);
      }
    case Spawn(p) => SpawnKeeps(max, k, p, k');
    case Return =>
      KillRunnable(max, k);
      ReschedRotates(max, MarkFree(k.sched, k.sched.current));
  }

  /** A process that returns loses the CPU at once: the queue is not empty, because the
      null process is in it. */
  lemma ReturnSwitches(max: nat, k: Kernel, k': Kernel)
    requires Inv(max, k) && Happens(max, k, Return, k')
    ensures k'.sched.current != k.sched.current && IsFree(k', k.sched.current)
    ensures !k'.sched.table.procs[k.sched.current].hasStack
    ensures k.sched.ready != [] && k'.sched.current == k.sched.ready[0]
  {
    KillRunnable(max, k);
    ReschedRotates(max, MarkFree(k.sched, k.sched.current));
    assert k.sched.ready[0] in k.sched.ready;
  }

  /** ... and it is never current and never in the queue again, in any continuation. */
  lemma {:induction false} ReturnedNeverRuns(max: nat, ks: seq<Kernel>, es: seq<Event>, i: nat, j: nat)
    requires Trace(max, ks, es) && Inv(max, ks[0]) && i < j < |ks| && es[i] == Return
    ensures var pid := ks[i].sched.current;
            IsFree(ks[j], pid) && ks[j].sched.current != pid && pid !in ks[j].sched.ready
    decreases j
  {
    hide Resched, Kill;
    var pid := ks[i].sched.current;
    TraceInv(max, ks, es, j - 1);
    TraceInv(max, ks, es, j);
    assert Happens(max, ks[j - 1], es[j - 1], ks[j]);
    if j == i + 1 {
      ReturnSwitches(max, ks[i], ks[j]);
    } else {
      ReturnedNeverRuns(max, ks, es, i, j - 1);
      FreeStaysFree(max, ks[j - 1], es[j - 1], ks[j], pid);
    }
  }

  /** How many of the first `n` events switched. */
  function SwitchCount(ks: seq<Kernel>, es: seq<Event>, n: nat): nat
    requires |ks| == |es| + 1 && n <= |es|
  {
    if n == 0 then 0 else SwitchCount(ks, es, n - 1) + if Switches(ks[n - 1], es[n - 1]) then 1 else 0
  }

  /** One event moves the queue up by one if it switches, and not at all otherwise. */
  lemma QueueMoves(max: nat, k: Kernel, e: Event, k': Kernel)
    requires Inv(max, k) && Happens(max, k, e, k') && k.sched.ready != []
    ensures if Switches(k, e) then k'.sched.current == k.sched.ready[0] && k.sched.ready[1..] <= k'.sched.ready
            else k.sched.ready <= k'.sched.ready && k'.sched.current == k.sched.current
  {
    match e
    case Interrupt =>
      if k.ticks >= 10 {
        ReschedRotates(max, k.sched);
      }
    case Spawn(pid) =>
    case Return =>
      KillRunnable(max, k);
      ReschedRotates(max, MarkFree(k.sched, k.sched.current));
  }

  /** A waiting process moves up by one place per switch, whatever is created meanwhile. */
  lemma {:induction false} PlaceInQueue(max: nat, ks: seq<Kernel>, es: seq<Event>, place: nat, n: nat)
    requires Trace(max, ks, es) && Inv(max, ks[0]) && place < |ks[0].sched.ready| && n <= |es|
    requires SwitchCount(ks, es, n) <= place
    ensures place - SwitchCount(ks, es, n) < |ks[n].sched.ready|
    ensures ks[n].sched.ready[place - SwitchCount(ks, es, n)] == ks[0].sched.ready[place]
  {
    hide Inv, Happens;
    if n > 0 {
      PlaceInQueue(max, ks, es, place, n - 1);
      TraceInv(max, ks, es, n - 1);
      assert Happens(max, ks[n - 1], es[n - 1], ks[n]);
      QueueMoves(max, ks[n - 1], es[n - 1], ks[n]);
    }
  }

  lemma {:induction false} SwitchCountMonotone(ks: seq<Kernel>, es: seq<Event>, i: nat, n: nat)
    requires |ks| == |es| + 1 && i <= n <= |es|
    ensures SwitchCount(ks, es, i) <= SwitchCount(ks, es, n)
  {
    if i < n {
      SwitchCountMonotone(ks, es, i, n - 1);
    }
  }

  /** Round robin: the process at a place in the queue becomes current with exactly the
      switch of that number, counting from 0, and not before ... */
  lemma BecomesCurrent(max: nat, ks: seq<Kernel>, es: seq<Event>, place: nat, n: nat)
    requires Trace(max, ks, es) && Inv(max, ks[0]) && place < |ks[0].sched.ready| && n < |es|
    requires SwitchCount(ks, es, n) == place && Switches(ks[n], es[n])
    ensures ks[n + 1].sched.current == ks[0].sched.ready[place]
    ensures forall i :: 0 <= i <= n ==> ks[i].sched.current != ks[0].sched.ready[place]
  {
    forall i | 0 <= i <= n
      ensures ks[i].sched.current != ks[0].sched.ready[place]
    {
      StillWaiting(max, ks, es, place, n, i);
    }
    PlaceInQueue(max, ks, es, place, n);
    TraceInv(max, ks, es, n);
    assert Happens(max, ks[n], es[n], ks[n + 1]);
    QueueMoves(max, ks[n], es[n], ks[n + 1]);
  }

  lemma StillWaiting(max: nat, ks: seq<Kernel>, es: seq<Event>, place: nat, n: nat, i: nat)
    requires Trace(max, ks, es) && Inv(max, ks[0]) && place < |ks[0].sched.ready| && i <= n <= |es|
    requires SwitchCount(ks, es, n) <= place
    ensures ks[i].sched.current != ks[0].sched.ready[place]
  {
    SwitchCountMonotone(ks, es, i, n);
    PlaceInQueue(max, ks, es, place, i);
    TraceInv(max, ks, es, i);
    assert ks[0].sched.ready[place] in ks[i].sched.ready;
  }

  function InterruptCount(es: seq<Event>, n: nat): nat
    requires n <= |es|
  {
    if n == 0 then 0 else InterruptCount(es, n - 1) + if es[n - 1].Interrupt? then 1 else 0
  }

  /** How many of the first `n` events were timer interrupts that called `resched`. */
  function TimerSwitches(ks: seq<Kernel>, es: seq<Event>, n: nat): nat
    requires |ks| == |es| + 1 && n <= |es|
  {
    if n == 0 then 0
    else TimerSwitches(ks, es, n - 1) + if es[n - 1].Interrupt? && Switches(ks[n - 1], es[n - 1]) then 1 else 0
  }

  /** Exactly every eleventh timer interrupt switches. */
  lemma {:induction false} ElevenTicks(max: nat, ks: seq<Kernel>, es: seq<Event>, n: nat)
    requires Trace(max, ks, es) && Inv(max, ks[0]) && n <= |es|
    ensures ks[0].ticks + InterruptCount(es, n) == 11 * TimerSwitches(ks, es, n) + ks[n].ticks
    ensures ks[n].ticks <= 10 && TimerSwitches(ks, es, n) <= SwitchCount(ks, es, n)
  {
    TraceInv(max, ks, es, n);
    hide Resched, Kill, Created;
    if n > 0 {
      ElevenTicks(max, ks, es, n - 1);
      TraceInv(max, ks, es, n - 1);
      assert Happens(max, ks[n - 1], es[n - 1], ks[n]);
    }
  }

  lemma {:induction false} SwitchNumber(ks: seq<Kernel>, es: seq<Event>, n: nat, place: nat) returns (i: nat)
    requires |ks| == |es| + 1 && n <= |es| && place < SwitchCount(ks, es, n)
    ensures i < n && SwitchCount(ks, es, i) == place && Switches(ks[i], es[i])
  {
    if place < SwitchCount(ks, es, n - 1) {
      i := SwitchNumber(ks, es, n - 1, place);
    } else {
      i := n - 1;
    }
  }

  /** ... hence within 11 * (place + 1) timer interrupts, however many processes are
      created and return meanwhile. */
  lemma RunsWithin(max: nat, ks: seq<Kernel>, es: seq<Event>, place: nat) returns (i: nat)
    requires Trace(max, ks, es) && Inv(max, ks[0]) && place < |ks[0].sched.ready|
    requires InterruptCount(es, |es|) >= 11 * (place + 1)
    ensures i < |es| && ks[i + 1].sched.current == ks[0].sched.ready[place]
  {
    ElevenTicks(max, ks, es, |es|);
    TraceInv(max, ks, es, |es|);
    i := SwitchNumber(ks, es, |es|, place);
    BecomesCurrent(max, ks, es, place, i);
  }

  /** Why `kill` is only ever called on the current process: killing the process at the
      front of the queue does not take it out, so `resched` runs it, without its stack. */
  lemma KillingTheNextRunsIt(max: nat, k: Kernel)
    requires Inv(max, k) && k.sched.ready != []
    ensures Kill(k.sched, k.sched.ready[0]).Ok?
    ensures var s' := Kill(k.sched, k.sched.ready[0]).value;
            && s'.current == k.sched.ready[0] && s'.current in s'.table.procs
            && s'.table.procs[s'.current] == Process(Current, false)
  {
    var id := k.sched.ready[0];
    assert id in k.sched.ready;
    var ready := k.sched.ready + [k.sched.current];
    assert ready[0] == id;
  }

  /** The timer interrupt: `PIT_TICKS` counts to ten, and the next interrupt reschedules. */
  class Timer {
    var ticks: nat

    constructor ()
      ensures ticks == 0
    {
      ticks := 0;
    }

    method Handle(c: CoopScheduler) returns (r: Result<()>)
      requires c.table.Valid()
      modifies this, c, c.table
      ensures r.Ok? ==> c.table.Valid()
      ensures r.Ok? ==>
        Happens(c.table.max, Kernel(old(c.View()), old(ticks)), Interrupt, Kernel(c.View(), ticks))
      ensures r.Panic? <==> old(ticks) >= 10 && Resched(old(c.View())).Panic?
    {
      var before := ticks;
      ticks := ticks + 1;
      r := Ok(());
      if before >= 10 {
        ticks := 0;
        r := c.DoResched();
      }
    }
  }

  /** The `create` system call: `create` and `ready` together. */
  method SpawnProcess(c: CoopScheduler, ghost ticks: nat) returns (r: Result<nat>)
    requires c.table.Valid()
    modifies c, c.table
    ensures r.Ok? ==> c.table.Valid()
    ensures r.Ok? ==>
      Happens(c.table.max, Kernel(old(c.View()), ticks), Spawn(r.value), Kernel(c.View(), ticks))
    ensures r.Panic? <==> AllTaken(old(c.table.procs), SearchStart(old(c.table.next), c.table.max), c.table.max)
  {
    var pid := c.Create();
    if pid.None? {
      return Panic(TableFull);
    }
    c.MakeReady(pid.value);
    r := Ok(pid.value);
  }

  /** `process_return`: the current process kills itself. */
  method ProcessReturn(c: CoopScheduler, ghost ticks: nat) returns (r: Result<()>)
    requires c.table.Valid() && Inv(c.table.max, Kernel(c.View(), ticks)) && c.current != NULL_PID
    modifies c, c.table
    ensures r.Ok? && Inv(c.table.max, Kernel(c.View(), ticks)) && c.current != old(c.current)
    ensures Happens(c.table.max, Kernel(old(c.View()), ticks), Return, Kernel(c.View(), ticks))
  {
    ghost var k := Kernel(c.View(), ticks);
    NeverPanics(c.table.max, k);
    r := c.DoKill(c.current);
    HappensKeeps(c.table.max, k, Return, Kernel(c.View(), ticks));
    ReturnSwitches(c.table.max, k, Kernel(c.View(), ticks));
  }
}
