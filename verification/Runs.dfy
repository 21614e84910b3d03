/** Whole runs of paging operations on the machine: however they are mixed, nothing stale is
    ever cached between two of them. */
module Runs {
  import opened Outcomes
  import opened Entries
  import opened Hierarchy
  import opened Mapping
  import opened Detour
  import opened Tlb
  import opened Leftovers
  import opened Machines
  import opened ActiveTables
  import opened Separation
  import opened Stacks

  /** What the kernel does with its active table and with the tables it made. */
  datatype Command =
    | MapPage(page: nat, flags: Flags)                            // map, and flush
    | MapPageTo(page: nat, frame: Frame, flags: Flags)            // map_to, and flush
    | UnmapPage(page: nat)                                        // unmap
    | MakeTable(temp: nat)                                        // InactivePageTable::new
    | FillTable(table: Frame, temp: nat, reqs: seq<Request>)      // with
    | SwitchTo(table: Frame)                                      // switch

  /** The system and the P4 table in cr3. */
  datatype Running = Running(system: System, cr3: Frame)

  /** A command as an operation on the active hierarchy. */
  function OpOf(cr3: Frame, cmd: Command): Op
    requires !cmd.SwitchTo?
  {
    match cmd
    case MapPage(page, flags) => MapFresh(cr3, page, flags)
    case MapPageTo(page, frame, flags) => MapFrame(cr3, page, frame, flags)
    case UnmapPage(page) => Remove(cr3, page)
    case MakeTable(temp) => Create(cr3, temp)
    case FillTable(table, temp, reqs) => Fill(cr3, table, temp, reqs)
  }

  function Perform(s: Running, cmd: Command): Result<Running> {
    if cmd.SwitchTo? then Ok(s.(cr3 := cmd.table)) else
    var system :- Apply(s.system, OpOf(s.cr3, cmd));
    Ok(s.(system := system))
  }

  function PerformAll(s: Running, cmds: seq<Command>): Result<Running> {
    if cmds == [] then Ok(s) else
    var s1 :- PerformAll(s, cmds[..|cmds| - 1]);
    Perform(s1, cmds[|cmds| - 1])
  }

  /** The command is on tables that exist, outside the window. */
  predicate Fine(s: Running, cmd: Command) {
    if cmd.SwitchTo? then cmd.table in s.system.roots else Allowed(s.system.roots, OpOf(s.cr3, cmd))
  }

  ghost predicate AllFine(s: Running, cmds: seq<Command>) {
    forall i {:trigger cmds[i]} :: 0 <= i < |cmds| && PerformAll(s, cmds[..i]).Ok? ==>
      Fine(PerformAll(s, cmds[..i]).value, cmds[i])
  }

  /** The P4 tables made so far are roots of hierarchies, in frames that fit an entry. */
  ghost predicate RootsOk(m: Memory, own: Owners, roots: set<Frame>) {
    forall r {:trigger Hierarchical(m, own, r)} :: r in roots ==> Hierarchical(m, own, r) && r < FRAME_LIMIT
  }

  /** The machine is in this state, nothing stale is cached, and the frames still to be
      allocated hold no PRESENT words. */
  ghost predicate InState(c: Machine, s: Running)
    reads c, c.alloc
  {
    && c.Valid() && c.Root() == c.cr3 && c.State() == s.system.kernel && c.cr3 == s.cr3 && s.cr3 in s.system.roots
    && CleanSupply(c.State()) && RootsOk(c.mem, c.own, s.system.roots)
  }

  lemma MapToClean(k: Kernel, own: Owners, root: Frame, page: nat, frame: Frame, flags: Flags)
    requires Good(k, own) && CleanSupply(k) && root in own && own[root].Top? && Plain(page)
    requires MapTo(k, root, page, frame, flags).Ok?
    ensures CleanSupply(MapTo(k, root, page, frame, flags).value)
  {
    hide MapTo, Good, CleanSupply, Walk;
    var own' := MapToPoint(k, own, root, page, frame, flags);
    CleanKept(k, own, MapTo(k, root, page, frame, flags).value, own', root);
  }

  lemma TailClean(k: Kernel)
    requires CleanSupply(k) && k.free != []
    ensures CleanSupply(k.(free := k.free[1..]))
  {
    hide NonePresent;
  }

  lemma TailGood(k: Kernel, own: Owners)
    requires Good(k, own) && k.free != []
    ensures Good(k.(free := k.free[1..]), own) && k.free[0] !in k.free[1..]
    ensures k.free[0] in k.mem && k.free[0] !in own && k.free[0] < FRAME_LIMIT
  {
    hide Tree, SlotsToRoots;
  }

  /** Every operation leaves the supply clean. */
  lemma ApplyClean(s: System, own: Owners, op: Op)
    requires Sound(s, own) && Allowed(s.roots, op) && Apply(s, op).Ok? && CleanSupply(s.kernel)
    ensures CleanSupply(Apply(s, op).value.kernel)
  {
    hide MapTo, Unmap, Detour.With, Detour.NewInactive, Good, CleanSupply, Recursive, Plain;
    var k := s.kernel;
    match op
    case MapFresh(root, page, flags) =>
      assert Hierarchical(k.mem, own, root);
      TailGood(k, own);
      TailClean(k);
      MapToClean(k.(free := k.free[1..]), own, root, page, k.free[0], flags);
    case MapFrame(root, page, frame, flags) =>
      assert Hierarchical(k.mem, own, root);
      MapToClean(k, own, root, page, frame, flags);
    case Remove(root, page) =>
      assert Hierarchical(k.mem, own, root);
      CleanUnmap(k, own, root, page);
    case Create(cr3, temp) =>
      assert Hierarchical(k.mem, own, cr3);
      TailGood(k, own);
      TailClean(k);
      CleanNew(k.(free := k.free[1..]), own, cr3, temp, k.free[0]);
    case Fill(cr3, table, temp, reqs) =>
      assert Hierarchical(k.mem, own, cr3) && Hierarchical(k.mem, own, table);
      WithFits(k, cr3, table, temp, reqs);
      CleanAfterWith(k, own, cr3, table, temp, reqs);
  }

  /** What an operation leaves behind, for the places that the machine keeps. */
  lemma ApplyRoots(s: System, own: Owners, op: Op, own': Owners)
    requires Good(s.kernel, own) && RootsOk(s.kernel.mem, own, s.roots) && Allowed(s.roots, op) && Apply(s, op).Ok?
    requires CleanSupply(s.kernel) && Kept(own, own') && !op.Create?
    ensures RootsOk(Apply(s, op).value.kernel.mem, own', s.roots) && CleanSupply(Apply(s, op).value.kernel)
    ensures Apply(s, op).value.roots == s.roots
  {
    hide Apply, Good, CleanSupply, Recursive, Separated, Allowed;
    var ownX := ApplySeparates(s, own, op);
    ApplyClean(s, own, op);
    SameRoots(s, op);
    forall r | r in s.roots
      ensures Hierarchical(Apply(s, op).value.kernel.mem, own', r) && r < FRAME_LIMIT
    {
      assert Hierarchical(s.kernel.mem, own, r) && Hierarchical(Apply(s, op).value.kernel.mem, ownX, r);
    }
  }

  lemma SameRoots(s: System, op: Op)
    requires Apply(s, op).Ok? && !op.Create?
    ensures Apply(s, op).value.roots == s.roots
  {
    hide MapTo, Unmap, Detour.With;
  }

  /** `map` and `map_to` with the flush of the page. */
  method DoMap(c: Machine, ghost s: Running, page: nat, flags: Flags) returns (r: Result<()>)
    requires InState(c, s) && Plain(page)
    modifies c, c.alloc
    ensures var spec := Perform(s, MapPage(page, flags));
            if spec.Panic? then r == Panic(spec.why) else r.Ok? && InState(c, spec.value)
  {
    hide Mapping.Map, Good, CleanSupply, Recursive, HarmlessMap, RootsOk, Coherent;
    ghost var own, op := c.own, MapFresh(c.cr3, page, flags);
    CleanMap(c.State(), c.cr3, page, flags);
    var flush := c.Map(page, flags, true);
    if flush.Panic? {
      return Panic(flush.why);
    }
    c.Flush(flush.value.page);
    ApplyRoots(s.system, own, op, c.own);
    r := Ok(());
  }

  method DoMapTo(c: Machine, ghost s: Running, page: nat, frame: Frame, flags: Flags) returns (r: Result<()>)
    requires InState(c, s) && Plain(page)
    modifies c, c.alloc
    ensures var spec := Perform(s, MapPageTo(page, frame, flags));
            if spec.Panic? then r == Panic(spec.why) else r.Ok? && InState(c, spec.value)
  {
    hide Mapping.MapTo, Good, CleanSupply, Recursive, Harmless, RootsOk, Coherent;
    ghost var own, op := c.own, MapFrame(c.cr3, page, frame, flags);
    CleanHarmless(c.State(), c.cr3, c.cr3, Request(page, frame, flags), true);
    var flush := c.MapTo(page, frame, flags, true);
    if flush.Panic? {
      return Panic(flush.why);
    }
    c.Flush(flush.value.page);
    ApplyRoots(s.system, own, op, c.own);
    r := Ok(());
  }

  method DoUnmap(c: Machine, ghost s: Running, page: nat) returns (r: Result<()>)
    requires InState(c, s) && Plain(page)
    modifies c, c.alloc
    ensures var spec := Perform(s, UnmapPage(page));
            if spec.Panic? then r == Panic(spec.why) else r.Ok? && InState(c, spec.value)
  {
    hide Mapping.Unmap, Good, CleanSupply, Recursive, RootsOk, Coherent;
    ghost var own, op := c.own, Remove(c.cr3, page);
    var flush := c.Unmap(page);
    if flush.Panic? {
      return Panic(flush.why);
    }
    c.Flush(flush.value.page);
    ApplyRoots(s.system, own, op, c.own);
    r := Ok(());
  }

  lemma RootAt(m: Memory, own: Owners, roots: set<Frame>, table: Frame)
    requires RootsOk(m, own, roots) && table in roots
    ensures Hierarchical(m, own, table) && table < FRAME_LIMIT
  {
  }

  method DoFill(c: Machine, ghost s: Running, table: Frame, temp: nat, reqs: seq<Request>) returns (r: Result<()>)
    requires InState(c, s) && Fine(s, FillTable(table, temp, reqs))
    modifies c, c.alloc
    ensures var spec := Perform(s, FillTable(table, temp, reqs));
            if spec.Panic? then r == Panic(spec.why) else r.Ok? && InState(c, spec.value)
  {
    hide Detour.With, Good, CleanSupply, Recursive, RootsOk, Coherent, HarmlessWith, Plain, AllPlain;
    ghost var own, op := c.own, Fill(c.cr3, table, temp, reqs);
    RootAt(c.mem, c.own, s.system.roots, table);
    RootAt(c.mem, c.own, s.system.roots, c.cr3);
    CleanWith(c.State(), c.own, c.cr3, table, temp, reqs);
    r := ActiveTables.With(c, table, temp, reqs);
    if r.Ok? {
      ApplyRoots(s.system, own, op, c.own);
    }
  }

  method DoSwitch(c: Machine, ghost s: Running, table: Frame)
    requires InState(c, s) && table in s.system.roots
    modifies c
    ensures InState(c, s.(cr3 := table))
  {
    hide Good, CleanSupply, Recursive, RootsOk, Coherent;
    RootAt(c.mem, c.own, s.system.roots, table);
    var previous := Switch(c, table);
  }

  /** The new table is a root as well. */
  lemma CreateRoots(s: System, own: Owners, cr3: Frame, temp: nat, own': Owners)
    requires Good(s.kernel, own) && RootsOk(s.kernel.mem, own, s.roots) && cr3 in s.roots && Plain(temp)
    requires CleanSupply(s.kernel) && Kept(own, own') && Apply(s, Create(cr3, temp)).Ok?
    requires Hierarchical(Apply(s, Create(cr3, temp)).value.kernel.mem, own', s.kernel.free[0])
    ensures var s' := Apply(s, Create(cr3, temp)).value;
            && RootsOk(s'.kernel.mem, own', s'.roots) && CleanSupply(s'.kernel)
            && s'.roots == s.roots + {s.kernel.free[0]}
  {
    hide Detour.NewInactive, Good, CleanSupply, Recursive, Separated, Plain;
    var op, s' := Create(cr3, temp), Apply(s, Create(cr3, temp)).value;
    var ownX := ApplySeparates(s, own, op);
    ApplyClean(s, own, op);
    TailGood(s.kernel, own);
    forall r | r in s'.roots
      ensures Hierarchical(s'.kernel.mem, own', r) && r < FRAME_LIMIT
    {
      if r in s.roots {
        assert Hierarchical(s.kernel.mem, own, r) && Hierarchical(s'.kernel.mem, ownX, r);
      }
    }
  }

  method DoMake(c: Machine, ghost s: Running, temp: nat) returns (r: Result<()>)
    requires InState(c, s) && Plain(temp)
    modifies c, c.alloc
    ensures var spec := Perform(s, MakeTable(temp));
            if spec.Panic? then r == Panic(spec.why) else r.Ok? && InState(c, spec.value)
  {
    hide Detour.NewInactive, Good, CleanSupply, Recursive, RootsOk, Coherent, Harmless, Plain;
    ghost var k, own, cr3 := c.State(), c.own, c.cr3;
    var frame := c.alloc.AllocateFrame(1);
    if frame.None? {
      return Panic(OutOfMemory);
    }
    assert c.State() == k.(free := k.free[1..]) && frame.value == k.free[0];
    TailGood(k, own);
    TailClean(k);
    CleanHarmless(c.State(), cr3, cr3, Request(temp, frame.value, WRITABLE), true);
    r := ActiveTables.NewInactive(c, frame.value, temp);
    if r.Ok? {
      CreateRoots(s.system, own, cr3, temp, c.own);
    }
  }

  method Do(c: Machine, ghost s: Running, cmd: Command) returns (r: Result<()>)
    requires InState(c, s) && Fine(s, cmd)
    modifies c, c.alloc
    ensures var spec := Perform(s, cmd);
            if spec.Panic? then r == Panic(spec.why) else r.Ok? && InState(c, spec.value)
  {
    hide Perform, InState;
    match cmd {
      case MapPage(page, flags) => r := DoMap(c, s, page, flags);
      case MapPageTo(page, frame, flags) => r := DoMapTo(c, s, page, frame, flags);
      case UnmapPage(page) => r := DoUnmap(c, s, page);
      case MakeTable(temp) => r := DoMake(c, s, temp);
      case FillTable(table, temp, reqs) => r := DoFill(c, s, table, temp, reqs);
      case SwitchTo(table) =>
        SwitchPerforms(s, table);
        DoSwitch(c, s, table);
        r := Ok(());
    }
  }

  lemma SwitchPerforms(s: Running, table: Frame)
    ensures Perform(s, SwitchTo(table)) == Ok(s.(cr3 := table))
  {
  }

  lemma {:induction false} PanicStays(s: Running, cmds: seq<Command>, i: nat)
    requires i <= |cmds| && PerformAll(s, cmds[..i]).Panic?
    ensures PerformAll(s, cmds) == Panic(PerformAll(s, cmds[..i]).why)
    decreases |cmds|
  {
    hide Perform;
    if i == |cmds| {
      assert cmds[..i] == cmds;
    } else {
      assert cmds[..|cmds| - 1][..i] == cmds[..i];
      PanicStays(s, cmds[..|cmds| - 1], i);
    }
  }

  /** Any run of `map` and `map_to` with their flushes, `unmap`, `InactivePageTable::new`, `with`
      and `switch`, from a supply without PRESENT words: the machine does through its recursive
      addresses and its cache what the functions say, and nothing stale is cached, after any
      number of commands. */
  method Execute(c: Machine, ghost s: Running, cmds: seq<Command>) returns (r: Result<()>)
    requires InState(c, s) && AllFine(s, cmds)
    modifies c, c.alloc
    ensures var spec := PerformAll(s, cmds);
            if spec.Panic? then r == Panic(spec.why) else r.Ok? && InState(c, spec.value)
    ensures r.Ok? ==> Coherent(c.mem, c.cr3, c.tlb)
  {
    InStateCoherent(c, s);
    hide InState, Perform, Fine, Coherent;
    ghost var now := s;
    for i := 0 to |cmds|
      invariant PerformAll(s, cmds[..i]) == Ok(now) && InState(c, now) && Coherent(c.mem, c.cr3, c.tlb)
    {
      assert cmds[..i + 1][..i] == cmds[..i];
      r := Do(c, now, cmds[i]);
      if r.Panic? {
        PanicStays(s, cmds, i + 1);
        return;
      }
      now := Perform(now, cmds[i]).value;
      InStateCoherent(c, now);
    }
    assert cmds[..|cmds|] == cmds;
    r := Ok(());
  }

  lemma InStateCoherent(c: Machine, s: Running)
    requires InState(c, s)
    ensures Coherent(c.mem, c.cr3, c.tlb)
  {
  }
}
