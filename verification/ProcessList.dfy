/** `ProcessList`: the process table and its next-fit search for a free pid. */
module Processes {
  import opened Outcomes

  datatype State = Free | Current | Suspended | Ready

  /** A process: its state, and whether it still holds a stack. */
  datatype Process = Process(state: State, hasStack: bool)

  const NULL_PID := 0

  /** The least pid from `start` on that is not in use. */
  ghost predicate LeastFree(used: set<nat>, start: nat, pid: nat) {
    start <= pid && pid !in used && forall p :: start <= p < pid ==> p in used
  }

  /** Where a search begins: `next`, or 1 once the end of the table is reached. */
  function SearchStart(next: nat, max: nat): nat { if next >= max then 1 else next }

  ghost predicate AllTaken(procs: map<nat, Process>, start: nat, max: nat) {
    forall p :: start <= p < max ==> p in procs
  }

  class ProcessList {
    var procs: map<nat, Process>
    var next: nat
    const max: nat

    ghost predicate Valid()
      reads this
    {
      && 1 <= next <= max && forall p :: p in procs ==> p < max
    }

    /** The table with the null process, which runs. */
    constructor (max: nat)
      requires max >= 1
      ensures Valid() && this.max == max && next == 1 && procs == map[NULL_PID := Process(Current, true)]
    {
      procs := map[NULL_PID := Process(Current, true)];
      next := 1;
      this.max := max;
    }

    method Get(id: nat) returns (r: Option<Process>)
      ensures r == if id in procs then Some(procs[id]) else None
    {
      r := if id in procs then Some(procs[id]) else None;
    }

    /** `add`: the least free pid from where the search begins, or an error exactly when
        every pid from there to the end is taken. */
    method Add() returns (r: Option<nat>)
      requires Valid()
      modifies this
      ensures Valid()
      ensures var start := SearchStart(old(next), max);
              && (r.None? <==> AllTaken(old(procs), start, max))
              && (r.None? ==> procs == old(procs) && next == max)
              && (r.Some? ==> && LeastFree(old(procs).Keys, start, r.value) && r.value < max && r.value != NULL_PID
                              && procs == old(procs)[r.value := Process(Suspended, false)] && next == r.value + 1)
    {
      if next >= max {
        next := 1;
      }
      ghost var start := next;
      while next in procs
        invariant procs == old(procs) && start <= next <= max && forall p :: start <= p < next ==> p in procs
        decreases max - next
      {
        next := next + 1;
      }
      if next >= max {
        return None;
      }
      r := Some(next);
      next := next + 1;
      procs := procs[r.value := Process(Suspended, false)];
    }

    method Remove(id: nat) returns (r: Option<Process>)
      requires Valid()
      modifies this`procs
      ensures Valid() && procs == old(procs) - {id}
      ensures r == if id in old(procs) then Some(old(procs)[id]) else None
    {
      r := if id in procs then Some(procs[id]) else None;
      procs := procs - {id};
    }
  }

  /** The table as a value, with what is needed to follow a run of calls. */
  datatype Table = Table(procs: map<nat, Process>, next: nat)

  datatype Call = Adding(result: Option<nat>) | Removing(id: nat)

  /** One call of `add` (as `Add` specifies it) or `remove`. */
  ghost predicate Step(max: nat, t: Table, call: Call, t': Table) {
    match call
    case Adding(r) =>
      var start := SearchStart(t.next, max);
      if AllTaken(t.procs, start, max)
      then r == None && t' == Table(t.procs, max)
      else && r.Some? && LeastFree(t.procs.Keys, start, r.value)
           && t' == Table(t.procs[r.value := Process(Suspended, false)], r.value + 1)
    case Removing(id) => t' == Table(t.procs - {id}, t.next)
  }

  /** A run: the tables before and after each call. */
  ghost predicate Run(max: nat, tables: seq<Table>, calls: seq<Call>) {
    && |tables| == |calls| + 1
    && tables[0] == Table(map[NULL_PID := Process(Current, true)], 1)
    && forall i :: 0 <= i < |calls| ==> Step(max, tables[i], calls[i], tables[i + 1])
  }

  predicate TableOk(max: nat, t: Table) {
    1 <= t.next <= max && forall p :: p in t.procs ==> p < max
  }

  lemma {:induction false} RunOk(max: nat, tables: seq<Table>, calls: seq<Call>, i: nat)
    requires max >= 1 && Run(max, tables, calls) && i < |tables|
    ensures TableOk(max, tables[i])
  {
    if i > 0 {
      RunOk(max, tables, calls, i - 1);
      assert Step(max, tables[i - 1], calls[i - 1], tables[i]);
      StepOk(max, tables[i - 1], calls[i - 1], tables[i]);
    }
  }

  lemma StepOk(max: nat, t: Table, call: Call, t': Table)
    requires max >= 1 && TableOk(max, t) && Step(max, t, call, t')
    ensures TableOk(max, t')
    ensures call.Adding? && call.result.Some? ==> 1 <= call.result.value < max && call.result.value !in t.procs
  {
    if call.Adding? && call.result.Some? {
      var start := SearchStart(t.next, max);
      var p :| start <= p < max && p !in t.procs;
      assert call.result.value <= p;
    }
  }

  /** In every run `add` never hands out pid 0 or a pid in use. */
  lemma AddNeverReissues(max: nat, tables: seq<Table>, calls: seq<Call>, i: nat)
    requires max >= 1 && Run(max, tables, calls) && i < |calls| && calls[i].Adding? && calls[i].result.Some?
    ensures var pid := calls[i].result.value; pid != NULL_PID && pid < max && pid !in tables[i].procs
  {
    RunOk(max, tables, calls, i);
    StepOk(max, tables[i], calls[i], tables[i + 1]);
  }

  /** Two errors in a row mean that every pid is taken, whatever was removed before. */
  lemma TwoErrorsMeanFull(max: nat, tables: seq<Table>, calls: seq<Call>, i: nat)
    requires max >= 1 && Run(max, tables, calls) && i + 1 < |calls|
    requires calls[i] == Adding(None) && calls[i + 1] == Adding(None)
    ensures AllTaken(tables[i + 2].procs, 1, max)
  {
    assert Step(max, tables[i], calls[i], tables[i + 1]);
    assert Step(max, tables[i + 1], calls[i + 1], tables[i + 2]);
  }

  /** Without removals every pid below `next` is taken. */
  lemma {:induction false} NoneBelowNextFree(max: nat, tables: seq<Table>, calls: seq<Call>, i: nat)
    requires max >= 1 && Run(max, tables, calls) && i < |tables| && forall j :: 0 <= j < i ==> calls[j].Adding?
    ensures forall p :: 0 <= p < tables[i].next ==> p in tables[i].procs
  {
    if i > 0 {
      NoneBelowNextFree(max, tables, calls, i - 1);
      RunOk(max, tables, calls, i - 1);
      assert calls[i - 1].Adding? && Step(max, tables[i - 1], calls[i - 1], tables[i]);
    }
  }

  /** As long as nothing is removed, which the kernel never does, one error of `add` means
      that every pid is taken. */
  lemma OneErrorMeansFull(max: nat, tables: seq<Table>, calls: seq<Call>, i: nat)
    requires max >= 1 && Run(max, tables, calls) && i < |calls| && calls[i] == Adding(None)
    requires forall j :: 0 <= j < i ==> calls[j].Adding?
    ensures AllTaken(tables[i + 1].procs, 0, max)
  {
    NoneBelowNextFree(max, tables, calls, i);
    assert Step(max, tables[i], calls[i], tables[i + 1]);
  }

  /** Whatever was removed, one error means that every pid is taken exactly if those below
      the place where its search began are. */
  lemma OneErrorFullIff(max: nat, tables: seq<Table>, calls: seq<Call>, i: nat)
    requires max >= 1 && Run(max, tables, calls) && i < |calls| && calls[i] == Adding(None)
    ensures AllTaken(tables[i + 1].procs, 1, max) <==> AllTaken(tables[i].procs, 1, SearchStart(tables[i].next, max))
  {
    RunOk(max, tables, calls, i);
    assert Step(max, tables[i], calls[i], tables[i + 1]);
  }

  /** Once something is removed it may not mean that: after these calls pid 1 is free, and still `add` fails. */
  lemma OneErrorMayHideFreePid() returns (tables: seq<Table>)
    ensures var calls := [Adding(Some(1)), Adding(Some(2)), Removing(1), Adding(Some(1)), Removing(1), Adding(None)];
            Run(3, tables, calls) && 1 !in tables[6].procs
  {
    var added := Process(Suspended, false);
    var t0 := Table(map[NULL_PID := Process(Current, true)], 1);
    var t1 := Table(t0.procs[1 := added], 2);
    var t2 := Table(t1.procs[2 := added], 3);
    var t3 := Table(t2.procs - {1}, 3);
    var t4 := Table(t3.procs[1 := added], 2);
    var t5 := Table(t4.procs - {1}, 2);
    var t6 := Table(t5.procs, 3);
    tables := [t0, t1, t2, t3, t4, t5, t6];
    assert Step(3, t0, Adding(Some(1)), t1) by { assert 1 !in t0.procs; }
    assert Step(3, t1, Adding(Some(2)), t2) by { assert 2 !in t1.procs; }
    assert Step(3, t3, Adding(Some(1)), t4) by { assert 1 !in t3.procs; }
  }
}
