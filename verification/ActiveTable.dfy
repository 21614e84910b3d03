/** `TemporaryPage`, `ActivePageTable` and `paging::init` on the machine: the order of
    writes and flushes, and the addresses they go through. */
module ActiveTables {
  import opened Outcomes
  import opened Entries
  import opened Pages
  import opened Hierarchy
  import opened Mapping
  import opened Detour
  import opened Tlb
  import opened Leftovers
  import opened Machines
  import opened Boot
  import opened Translation
  import opened FrameAllocator
  import opened Separation

  /** `TemporaryPage::map`, flush included; returns the address of the page. */
  method MapTemporary(c: Machine, temp: nat, frame: Frame) returns (r: Result<nat>)
    requires c.Valid() && c.Root() == c.cr3 && Plain(temp) && HarmlessTemporary(c.State(), c.cr3, temp, frame)
    modifies c, c.alloc
    ensures var spec := Detour.MapTemporary(old(c.State()), old(c.cr3), temp, frame);
            if spec.Panic? then r == Panic(spec.why)
            else && r == Ok(temp * PAGE_SIZE)
                 && c.Valid() && c.State() == spec.value && c.cr3 == old(c.cr3) && c.Root() == c.cr3
                 && Added(old(c.alloc.Upcoming()), old(c.own), c.alloc.Upcoming(), c.own)
  {
    hide Walk, Mapping.MapTo, Good, Recursive, Harmless;
    var t := c.TranslatePage(temp);
    if t.value.Some? {
      return Panic(TemporaryInUse);
    }
    var flush := c.MapTo(temp, frame, WRITABLE, true);
    if flush.Panic? {
      return Panic(flush.why);
    }
    c.Flush(flush.value.page);
    r := Ok(temp * PAGE_SIZE);
  }

  /** Mapping the temporary page leaves every hierarchy one. */
  lemma TemporaryRooted(k: Kernel, own: Owners, k1: Kernel, own1: Owners, cr3: Frame, temp: nat, frame: Frame,
      table: Frame)
    requires Good(k, own) && Hierarchical(k.mem, own, cr3) && Plain(temp) && Kept(own, own1)
    requires Detour.MapTemporary(k, cr3, temp, frame) == Ok(k1) && Hierarchical(k.mem, own, table)
    ensures Hierarchical(k1.mem, own1, table)
  {
    hide Mapping.MapTo, Walk, Good, Grown;
    var own' := MapToPoint(k, own, cr3, temp, frame, WRITABLE);
    GrownRooted(k, own, k1, own', cr3);
    assert Hierarchical(k1.mem, own', table);
  }

  /** The recursive slot of the active P4 table, which is reached at `p4`, is set to lead to
      `to`, and everything flushed. */
  method SetSlot(c: Machine, p4: nat, to: Frame)
    requires c.Valid() && to < FRAME_LIMIT && to in c.own && c.own[to] == Top(to)
    requires to != c.cr3 ==> Recursive(c.mem, to, to)
    requires FrameOf(Walk(c.mem, c.cr3, p4 / PAGE_SIZE)) == Some(c.cr3)
    modifies c
    ensures SetRecursive(old(c.State()), old(c.cr3), to) == Ok(c.State())
    ensures c.Valid() && c.cr3 == old(c.cr3) && c.Root() == to && c.own == old(c.own)
  {
    hide Walk, Supply, Tree, SlotsToRoots, Heading, Settled;
    ghost var k := c.State();
    SetRecursiveKeeps(k, c.own, c.cr3, to);
    c.HereTracks();
    c.StoreEntry(p4, RECURSIVE, TableEntry(to), c.cr3, c.Here());
    c.WriteCr3(c.cr3);
    assert Get(c.mem, c.cr3, RECURSIVE) == TableEntry(to);
    assert to != c.cr3 ==> Get(c.mem, to, RECURSIVE) == Get(k.mem, to, RECURSIVE);
  }

  /** `with` up to the closure: the active P4 table at the temporary page, the recursive
      slot led to `table`, everything flushed. */
  method EnterDetour(c: Machine, table: Frame, temp: nat) returns (r: Result<nat>)
    requires c.Valid() && c.Root() == c.cr3 && Hierarchical(c.mem, c.own, table) && table != c.cr3
    requires table < FRAME_LIMIT && Plain(temp) && HarmlessTemporary(c.State(), c.cr3, temp, c.cr3)
    modifies c, c.alloc
    ensures var spec := Enter(old(c.State()), old(c.cr3), table, temp);
            if spec.Panic? then r == Panic(spec.why)
            else && r == Ok(temp * PAGE_SIZE)
                 && c.Valid() && c.State() == spec.value && c.cr3 == old(c.cr3) && c.Root() == table
                 && Added(old(c.alloc.Upcoming()), old(c.own), c.alloc.Upcoming(), c.own)
  {
    hide Walk, Detour.MapTemporary, SetRecursive, Good, Harmless, Coherent;
    ghost var k, own := c.State(), c.own;
    var p4 := MapTemporary(c, temp, c.cr3);
    if p4.Panic? {
      return Panic(p4.why);
    }
    TemporaryRooted(k, own, c.State(), c.own, c.cr3, temp, c.cr3, table);
    ActiveAddress(c.mem, c.cr3);
    SetSlot(c, P4_ADDRESS, table);
    r := p4;
  }

  lemma ActiveAddress(m: Memory, cr3: Frame)
    requires Recursive(m, cr3, cr3)
    ensures FrameOf(Walk(m, cr3, P4_ADDRESS / PAGE_SIZE)) == Some(cr3)
  {
    hide Walk, Recursive;
    TopTable(m, cr3);
    RecursiveAddress(m, cr3, Top(cr3));
  }

  /** The closure of `with`: its `map_to` calls, whose flushes are ignored. */
  method RunClosure(c: Machine, reqs: seq<Request>) returns (r: Result<()>)
    requires c.Valid() && AllPlain(reqs) && HarmlessRun(c.State(), c.cr3, c.Root(), reqs)
    modifies c, c.alloc
    ensures var spec := MapAll(old(c.State()), old(c.Root()), reqs);
            if spec.Panic? then r == Panic(spec.why)
            else && r.Ok? && c.Valid() && c.State() == spec.value && c.cr3 == old(c.cr3) && c.Root() == old(c.Root())
                 && Added(old(c.alloc.Upcoming()), old(c.own), c.alloc.Upcoming(), c.own)
  {
    hide Walk, Mapping.MapTo, Good, Recursive, Coherent, Added;
    AddedSame(c.alloc.Upcoming(), c.own);
    ghost var k, root, own := c.State(), c.Root(), c.own;
    for i := 0 to |reqs|
      invariant c.Valid() && c.cr3 == old(c.cr3) && c.Root() == root && Added(k.free, own, c.alloc.Upcoming(), c.own)
      invariant MapAll(k, root, reqs[..i]) == Ok(c.State())
    {
      assert reqs[..i + 1][..i] == reqs[..i];
      ghost var free, before := c.alloc.Upcoming(), c.own;
      var flush := c.MapTo(reqs[i].page, reqs[i].frame, reqs[i].flags, false);
      if flush.Panic? {
        PanicStays(k, root, reqs, i + 1);
        return Panic(flush.why);
      }
      AddedTrans(k.free, own, free, before, c.alloc.Upcoming(), c.own);
    }
    assert reqs[..|reqs|] == reqs;
    r := Ok(());
  }

  lemma {:induction false} PanicStays(k: Kernel, root: Frame, reqs: seq<Request>, i: nat)
    requires i <= |reqs| && MapAll(k, root, reqs[..i]).Panic?
    ensures MapAll(k, root, reqs) == Panic(MapAll(k, root, reqs[..i]).why)
    decreases |reqs|
  {
    hide Mapping.MapTo;
    if i == |reqs| {
      assert reqs[..i] == reqs;
    } else {
      assert reqs[..|reqs| - 1][..i] == reqs[..i];
      PanicStays(k, root, reqs[..|reqs| - 1], i);
    }
  }

  /** `with` after the closure: the slot restored, the temporary page unmapped. */
  method LeaveDetour(c: Machine, p4: nat, temp: nat) returns (r: Result<()>)
    requires c.Valid() && Plain(temp) && p4 == temp * PAGE_SIZE && c.cr3 < FRAME_LIMIT
    requires FrameOf(Walk(c.mem, c.cr3, temp)) == Some(c.cr3)
    modifies c, c.alloc
    ensures var spec := Leave(old(c.State()), old(c.cr3), temp);
            if spec.Panic? then r == Panic(spec.why)
            else && r.Ok? && c.Valid() && c.State() == spec.value && c.cr3 == old(c.cr3) && c.Root() == c.cr3
                 && c.own == old(c.own)
  {
    hide Walk, Mapping.Unmap, SetRecursive, Good, Recursive;
    SetSlot(c, p4, c.cr3);
    var flush := c.Unmap(temp);
    if flush.Panic? {
      return Panic(flush.why);
    }
    c.Flush(flush.value.page);
    r := Ok(());
  }

  /** `ActivePageTable::with`. */
  method With(c: Machine, table: Frame, temp: nat, reqs: seq<Request>) returns (r: Result<()>)
    requires c.Valid() && c.Root() == c.cr3 && Hierarchical(c.mem, c.own, table) && table != c.cr3
    requires table < FRAME_LIMIT && Plain(temp) && AllPlain(reqs) && HarmlessWith(c.State(), c.cr3, table, temp, reqs)
    modifies c, c.alloc
    ensures var spec := Detour.With(old(c.State()), old(c.cr3), table, temp, reqs);
            if spec.Panic? then r == Panic(spec.why)
            else && r.Ok? && c.Valid() && c.State() == spec.value && c.cr3 == old(c.cr3) && c.Root() == c.cr3
                 && Added(old(c.alloc.Upcoming()), old(c.own), c.alloc.Upcoming(), c.own)
  {
    hide Walk, Detour.With, Enter, Leave, MapAll, Good, Recursive, Coherent, Added;
    ghost var k, own, cr3 := c.State(), c.own, c.cr3;
    WithIsDetour(k, cr3, table, temp, reqs);
    var p4 := EnterDetour(c, table, temp);
    if p4.Panic? {
      return Panic(p4.why);
    }
    ghost var own1 := c.own;
    ghost var k2 := c.State();
    var run := RunClosure(c, reqs);
    if run.Panic? {
      return Panic(run.why);
    }
    AddedTrans(k.free, own, k2.free, own1, c.alloc.Upcoming(), c.own);
    TemporaryStays(k, own, k2, c.State(), cr3, table, temp, reqs);
    LeaveKeepsFree(c.State(), cr3, temp);
    r := LeaveDetour(c, p4.value, temp);
  }

  lemma LeaveKeepsFree(k: Kernel, cr3: Frame, temp: nat)
    ensures Leave(k, cr3, temp).Ok? ==> Leave(k, cr3, temp).value.free == k.free
  {
  }

  /** The closure does not touch the active hierarchy, so the temporary page still leads
      to the active P4 table. */
  lemma TemporaryStays(k: Kernel, own: Owners, k2: Kernel, k3: Kernel, cr3: Frame, table: Frame, temp: nat,
      reqs: seq<Request>)
    requires Good(k, own) && Hierarchical(k.mem, own, cr3) && Hierarchical(k.mem, own, table) && cr3 != table
    requires Plain(temp) && AllPlain(reqs) && table < FRAME_LIMIT
    requires Enter(k, cr3, table, temp) == Ok(k2) && MapAll(k2, table, reqs) == Ok(k3)
    ensures FrameOf(Walk(k3.mem, cr3, temp)) == Some(cr3) && cr3 < FRAME_LIMIT
  {
    hide Walk, MapAll, Mapping.MapTo;
    MapToExact(k, own, cr3, temp, cr3, WRITABLE);
    var own2 := EnterMaps(k, own, cr3, table, temp);
    var own3 := MapAllGains(k2, own2, table, reqs);
    assert Walk(k2.mem, cr3, temp) == Some(TableEntry(cr3));
    assert Walk(k3.mem, cr3, temp) == Walk(k2.mem, cr3, temp);
  }

  /** A table written in a frame outside of every hierarchy is not seen by any walk. */
  lemma OutsideWritten(k: Kernel, own: Owners, cr3: Frame, root: Frame, f: Frame, t: Table, tlb: Cache)
    requires Good(k, own) && cr3 in own && own[cr3] == Top(cr3) && f in k.mem && f !in own && f !in k.free
    requires Coherent(k.mem, cr3, tlb) && Recursive(k.mem, cr3, root) && root in own
    ensures var k' := k.(mem := k.mem[f := t]);
            Good(k', own) && Coherent(k'.mem, cr3, tlb) && Recursive(k'.mem, cr3, root)
  {
    hide Walk;
    OutsideIrrelevant(k, own, f, t);
    forall p | p in tlb
      ensures Walk(k.mem[f := t], cr3, p) == Some(tlb[p])
    {
      OutsideUnseen(k.mem, own, cr3, f, t, p);
    }
  }

  /** Such a frame, mapped at a page, is reached there whatever it holds. */
  lemma OutsideReached(k: Kernel, own: Owners, cr3: Frame, f: Frame, address: nat)
    requires Good(k, own) && cr3 in own && own[cr3].Top? && f in k.mem && f !in own
    requires FrameOf(Walk(k.mem, cr3, address / PAGE_SIZE)) == Some(f)
    ensures ReachedAt(k.mem, cr3, address, f)
  {
    hide Walk;
    var page := address / PAGE_SIZE;
    forall c: Table {:trigger k.mem[f := c]}
      ensures FrameOf(Walk(k.mem[f := c], cr3, page)) == Some(f)
    {
      OutsideUnseen(k.mem, own, cr3, f, c, page);
    }
  }

  /** `table.zero()` and `table[511].set(frame)` through the temporary page. */
  method WriteRoot(c: Machine, table: nat, frame: Frame)
    requires c.Valid() && frame in c.mem && frame !in c.own && frame !in c.State().free
    requires FrameOf(Walk(c.mem, c.cr3, table / PAGE_SIZE)) == Some(frame)
    modifies c
    ensures c.Valid() && c.State() == old(c.State()).(mem := old(c.mem)[frame := RootTable(frame)])
    ensures c.cr3 == old(c.cr3) && c.Root() == old(c.Root()) && c.own == old(c.own)
  {
    hide Walk, Supply, Tree, SlotsToRoots;
    ghost var k, aim := c.State(), c.Here();
    OutsideReached(k, c.own, c.cr3, frame, table);
    OutsideUnseen(k.mem, c.own, c.cr3, frame, EmptyTable(), table / PAGE_SIZE);
    c.Zero(table, frame, aim);
    c.StoreEntry(table, RECURSIVE, TableEntry(frame), frame, aim);
    assert c.mem == k.mem[frame := RootTable(frame)];
    OutsideWritten(k, c.own, c.cr3, Get(k.mem, c.cr3, RECURSIVE).frame, frame, RootTable(frame), c.tlb);
  }

  lemma InactiveWritable(k: Kernel, own: Owners, k1: Kernel, own1: Owners, cr3: Frame, temp: nat, frame: Frame)
    requires Good(k, own) && Hierarchical(k.mem, own, cr3) && Plain(temp) && Added(k.free, own, k1.free, own1)
    requires frame in k.mem && frame !in own && frame !in k.free && Detour.MapTemporary(k, cr3, temp, frame) == Ok(k1)
    ensures frame in k1.mem && frame !in own1 && frame !in k1.free && FrameOf(Walk(k1.mem, cr3, temp)) == Some(frame)
  {
    hide Walk, Mapping.MapTo;
    var own' := MapToPoint(k, own, cr3, temp, frame, WRITABLE);
    assert Walk(k1.mem, cr3, temp) == Some(TableEntry(frame));
  }

  /** The finished table is the root of a hierarchy of its own. */
  lemma InactiveRooted(k: Kernel, own: Owners, k': Kernel, cr3: Frame, temp: nat, frame: Frame)
    requires Good(k, own) && Hierarchical(k.mem, own, cr3) && Plain(temp) && frame in k.mem && frame !in own
    requires frame !in k.free
    requires k.mem[frame] == RootTable(frame) && Mapping.Unmap(k, cr3, temp) == Ok(k')
    ensures Good(k', own[frame := Top(frame)]) && Hierarchical(k'.mem, own[frame := Top(frame)], frame)
  {
    hide Walk, Mapping.Unmap;
    UnmapPoint(k, own, cr3, temp);
    UnmapKeepsFrame(k, own, cr3, temp, frame);
    AddRoot(k', own, frame);
  }

  /** The end of `InactivePageTable::new`: the temporary page is unmapped. */
  method FinishInactive(c: Machine, frame: Frame, temp: nat) returns (r: Result<()>)
    requires c.Valid() && c.Root() == c.cr3 && Plain(temp)
    requires frame in c.mem && frame !in c.own && frame !in c.State().free && c.mem[frame] == RootTable(frame)
    modifies c, c.alloc
    ensures var spec := Mapping.Unmap(old(c.State()), old(c.cr3), temp);
            if spec.Panic? then r == Panic(spec.why)
            else && r.Ok? && c.Valid() && c.State() == spec.value && c.cr3 == old(c.cr3) && c.Root() == c.cr3
                 && c.own == old(c.own)[frame := Top(frame)] && Hierarchical(c.mem, c.own, frame)
  {
    hide Walk, Mapping.Unmap, Good;
    ghost var k := c.State();
    var flush := c.Unmap(temp);
    if flush.Panic? {
      return Panic(flush.why);
    }
    c.Flush(flush.value.page);
    InactiveRooted(k, c.own, c.State(), c.cr3, temp, frame);
    c.own := c.own[frame := Top(frame)];
    r := Ok(());
  }

  /** `InactivePageTable::new`. */
  method NewInactive(c: Machine, frame: Frame, temp: nat) returns (r: Result<()>)
    requires c.Valid() && c.Root() == c.cr3 && Plain(temp)
    requires frame in c.mem && frame !in c.own && frame !in c.State().free
    requires HarmlessTemporary(c.State(), c.cr3, temp, frame)
    modifies c, c.alloc
    ensures var spec := Detour.NewInactive(old(c.State()), old(c.cr3), temp, frame);
            if spec.Panic? then r == Panic(spec.why)
            else && r.Ok? && c.Valid() && c.State() == spec.value && c.cr3 == old(c.cr3) && c.Root() == c.cr3
                 && Kept(old(c.own), c.own) && Hierarchical(c.mem, c.own, frame)
  {
    hide Walk, Mapping.Unmap, Detour.MapTemporary, Good, Recursive, Coherent;
    ghost var k, own := c.State(), c.own;
    var table := MapTemporary(c, temp, frame);
    if table.Panic? {
      return Panic(table.why);
    }
    InactiveWritable(k, own, c.State(), c.own, c.cr3, temp, frame);
    WriteRoot(c, table.value, frame);
    r := FinishInactive(c, frame, temp);
  }

  /** `ActivePageTable::switch`; returns the P4 frame in use before. */
  method Switch(c: Machine, table: Frame) returns (previous: Frame)
    requires c.Valid() && Hierarchical(c.mem, c.own, table)
    modifies c
    ensures previous == old(c.cr3) && c.cr3 == table && c.Root() == table
    ensures c.Valid() && c.State() == old(c.State()) && c.own == old(c.own)
  {
    previous := c.cr3;
    c.WriteCr3(table);
  }

  /** The mappings of `paging::init` can do no harm. */
  ghost predicate HarmlessInit(k: Kernel, cr3: Frame, sections: seq<Section>, start: nat, end: nat) {
    var reqs := BootMaps(sections, start, end);
    && HarmlessPrepare(k, cr3)
    && (Prepare(k, cr3).Ok? && SectionsAligned(sections) && AllLow(reqs) ==>
          var (k1, p4) := Prepare(k, cr3).value;
          HarmlessWith(k1, cr3, p4, TEMPORARY, reqs))
  }

  ghost predicate HarmlessPrepare(k: Kernel, cr3: Frame) {
    k.free != [] ==> HarmlessTemporary(k.(free := k.free[1..]), cr3, TEMPORARY, k.free[0])
  }

  /** With a clean supply `paging::init` can do no harm, and it leaves the supply clean. */
  lemma CleanInit(k: Kernel, own: Owners, cr3: Frame, sections: seq<Section>, start: nat, end: nat)
    requires Good(k, own) && CleanSupply(k) && Hierarchical(k.mem, own, cr3)
    ensures HarmlessInit(k, cr3, sections, start, end)
    ensures Init(k, cr3, sections, start, end).Ok? ==> CleanSupply(Init(k, cr3, sections, start, end).value.0)
  {
    hide Prepare, Finish, Harmless, CleanSupply, BootMaps, HarmlessWith, Walk, Recursive, SectionsAligned;
    var reqs := BootMaps(sections, start, end);
    CleanPrepare(k, own, cr3);
    if Prepare(k, cr3).Ok? && AllLow(reqs) {
      assert AllPlain(reqs);
      var (k1, p4) := Prepare(k, cr3).value;
      var own1 := PrepareEmpty(k, own, cr3);
      CleanWith(k1, own1, cr3, p4, TEMPORARY, reqs);
      if Finish(k1, cr3, p4, reqs).Ok? {
        CleanFinish(k1, own1, cr3, p4, reqs);
      }
    }
  }

  lemma CleanPrepare(k: Kernel, own: Owners, cr3: Frame)
    requires Good(k, own) && CleanSupply(k) && Hierarchical(k.mem, own, cr3)
    ensures HarmlessPrepare(k, cr3)
    ensures Prepare(k, cr3).Ok? ==> CleanSupply(Prepare(k, cr3).value.0)
  {
    hide Detour.NewInactive, Harmless, Walk, Recursive, NonePresent, Tree, SlotsToRoots;
    if k.free != [] {
      var k0 := k.(free := k.free[1..]);
      assert k.free[0] !in k0.free;
      CleanHarmless(k0, cr3, cr3, Request(TEMPORARY, k.free[0], WRITABLE), true);
      if Prepare(k, cr3).Ok? {
        CleanNew(k0, own, cr3, TEMPORARY, k.free[0]);
      }
    }
  }

  lemma CleanFinish(k: Kernel, own: Owners, cr3: Frame, p4: Frame, reqs: seq<Request>)
    requires Good(k, own) && CleanSupply(k) && Hierarchical(k.mem, own, cr3) && Hierarchical(k.mem, own, p4)
    requires cr3 != p4 && p4 < FRAME_LIMIT && AllLow(reqs) && Finish(k, cr3, p4, reqs).Ok?
    ensures CleanSupply(Finish(k, cr3, p4, reqs).value)
  {
    hide Detour.With, Mapping.Unmap, Walk, CleanSupply, Good, Recursive;
    assert AllPlain(reqs);
    var own' := WithFaithful(k, own, cr3, p4, TEMPORARY, reqs);
    CleanAfterWith(k, own, cr3, p4, TEMPORARY, reqs);
    LowIsPlain(cr3);
    CleanUnmap(Detour.With(k, cr3, p4, TEMPORARY, reqs).value, own', p4, cr3);
  }

  /** `paging::init` on the machine: the result is that of `Boot.Init`, whose mappings
      `InitExact` describes, with the new table active and nothing stale cached. */
  method InitPaging(c: Machine, sections: seq<Section>, start: nat, end: nat) returns (r: Result<()>)
    requires c.Valid() && c.Root() == c.cr3 && HarmlessInit(c.State(), c.cr3, sections, start, end)
    modifies c, c.alloc
    ensures var spec := Init(old(c.State()), old(c.cr3), sections, start, end);
            if spec.Panic? then r == Panic(spec.why)
            else && r.Ok? && c.Valid() && c.State() == spec.value.0 && c.cr3 == spec.value.1 && c.Root() == c.cr3
                 && (forall q: nat {:trigger Walk(c.mem, c.cr3, q)} :: Plain(q) ==>
                       FrameOf(Walk(c.mem, c.cr3, q)) ==
                       if Covered(sections, start, end, q) && q != old(c.cr3) then Some(q) else None)
                 && RightsOk(c.mem, c.cr3, old(c.cr3), sections, start, end)
  {
    hide Walk, Finish, Prepare, Good, Coherent, Covered, BootMaps, AllLow, SectionsAligned, RightsOk;
    ghost var k, own := c.State(), c.own;
    var old4 := c.cr3;
    var p4 := PrepareTable(c);
    if p4.Panic? {
      return Panic(p4.why);
    }
    var reqs := BootMaps(sections, start, end);
    if !SectionsAligned(sections) {
      return Panic(Unaligned);
    }
    if !AllLow(reqs) {
      return Panic(NonCanonical);
    }
    r := FinishTable(c, p4.value, reqs);
    if r.Ok? {
      ghost var own' := InitExact(k, own, old4, sections, start, end);
      InitRights(k, own, old4, sections, start, end);
    }
  }

  method PrepareTable(c: Machine) returns (r: Result<Frame>)
    requires c.Valid() && c.Root() == c.cr3 && HarmlessPrepare(c.State(), c.cr3)
    modifies c, c.alloc
    ensures var spec := Prepare(old(c.State()), old(c.cr3));
            if spec.Panic? then r == Panic(spec.why)
            else && r == Ok(spec.value.1) && c.Valid() && c.State() == spec.value.0 && c.cr3 == old(c.cr3)
                 && c.Root() == c.cr3
                 && Hierarchical(c.mem, c.own, r.value) && r.value != c.cr3 && r.value < FRAME_LIMIT
  {
    hide Walk, Detour.NewInactive, Recursive, Coherent;
    ghost var k := c.State();
    GoodHead(k, c.own);
    var frame := c.alloc.AllocateFrame(1);
    if frame.None? {
      return Panic(OutOfMemory);
    }
    assert c.State().free == k.free[1..];
    var made := NewInactive(c, frame.value, TEMPORARY);
    if made.Panic? {
      return Panic(made.why);
    }
    r := Ok(frame.value);
  }

  method FinishTable(c: Machine, p4: Frame, reqs: seq<Request>) returns (r: Result<()>)
    requires c.Valid() && c.Root() == c.cr3 && Hierarchical(c.mem, c.own, p4) && p4 != c.cr3
    requires p4 < FRAME_LIMIT && AllLow(reqs) && HarmlessWith(c.State(), c.cr3, p4, TEMPORARY, reqs)
    modifies c, c.alloc
    ensures var spec := Finish(old(c.State()), old(c.cr3), p4, reqs);
            if spec.Panic? then r == Panic(spec.why)
            else r.Ok? && c.Valid() && c.State() == spec.value && c.cr3 == p4 && c.Root() == c.cr3
  {
    hide Walk, Detour.With, Mapping.Unmap, Coherent, HarmlessWith, Good, Recursive, Gained;
    assert AllPlain(reqs);
    ghost var k, own, cr3 := c.State(), c.own, c.cr3;
    var filled := With(c, p4, TEMPORARY, reqs);
    if filled.Panic? {
      return filled;
    }
    ghost var own' := WithFaithful(k, own, cr3, p4, TEMPORARY, reqs);
    var previous := Switch(c, p4);
    if previous >= LOW_HALF {
      return Panic(NonCanonical);
    }
    var flush := c.Unmap(previous);
    if flush.Panic? {
      return Panic(flush.why);
    }
    c.Flush(flush.value.page);
    r := Ok(());
  }

  /** The kernel as the assembly code leaves it, with frames for the first mapping that
      `paging::init` makes: the new P4 table at the temporary page. */
  ghost predicate AtBoot(k: Kernel, p4: Frame, p3: Frame, p2: Frame) {
    BootTables(k.mem, p4, p3, p2) && Supply(k, BootOwners(p4, p3, p2)) && |k.free| >= 4
  }

  function FirstRequest(k: Kernel): Request
    requires k.free != []
  {
    Request(TEMPORARY, k.free[0], WRITABLE)
  }

  /** The translations that hardware may cache while that mapping is made are right after
      these pages are flushed. */
  ghost predicate FirstMapCoherent(k: Kernel, p4: Frame, flushed: set<nat>)
    requires k.free != []
  {
    var k0, req := k.(free := k.free[1..]), FirstRequest(k);
    && MapTo(k0, p4, TEMPORARY, k.free[0], WRITABLE).Ok?
    && AlwaysCoherent([k0.mem] + Stores(k0, p4, 4, req), MapTo(k0, p4, TEMPORARY, k.free[0], WRITABLE).value.mem, p4,
                      flushed)
  }

  /** The mapping is made, in three fresh tables; when it leaves nothing stale. */
  lemma FirstMap(k: Kernel, p4: Frame, p3: Frame, p2: Frame, flush: bool)
    requires AtBoot(k, p4, p3, p2)
    ensures var k0 := k.(free := k.free[1..]);
            && MapTo(k0, p4, TEMPORARY, k.free[0], WRITABLE).Ok?
            && Missing(k0.mem, p4, 4, TEMPORARY) == 3 && Walk(k0.mem, p4, TEMPORARY).None?
            && (FirstMapCoherent(k, p4, if flush then {TEMPORARY} else {}) <==>
                Harmless(k0, p4, p4, FirstRequest(k), flush))
  {
    hide Walk, MapTo, Stores, Harmless, Recursive;
    var k0, own := k.(free := k.free[1..]), BootOwners(p4, p3, p2);
    BootReady(k0, p4, p3, p2);
    LowIsPlain(TEMPORARY);
    TopTable(k0.mem, p4);
    assert Missing(k0.mem, p4, 4, TEMPORARY) == 3 by {
      assert Index(TEMPORARY, 4) == 25;
    }
    MapToExact(k0, own, p4, TEMPORARY, k.free[0], WRITABLE);
    MapCoherentIff(k0, own, p4, p4, FirstRequest(k), flush);
  }

  /** At boot: a PRESENT word left over in the frame of the first P3 table, not on the way of
      the temporary page, can stay cached although that page is flushed. */
  lemma LeftoverSurvivesFlush(k: Kernel, p4: Frame, p3: Frame, p2: Frame, x: nat)
    requires AtBoot(k, p4, p3, p2) && x < ENTRY_COUNT && x != Index(TEMPORARY, 3)
    requires Get(k.mem, k.free[1], x).Present()
    ensures MapTo(k.(free := k.free[1..]), p4, TEMPORARY, k.free[0], WRITABLE).Ok?
    ensures !FirstMapCoherent(k, p4, {TEMPORARY})
  {
    hide Walk, MapTo, Missing, FirstMapCoherent;
    FirstMap(k, p4, p3, p2, true);
    assert !HarmlessWord(k.(free := k.free[1..]), p4, p4, FirstRequest(k), true, 3, 3, x);
  }

  /** At boot: if the only PRESENT word is the page's own in the frame of the first P1 table,
      and not the entry to be set, then flushing the page is enough and needed. */
  lemma FlushIsNeeded(k: Kernel, p4: Frame, p3: Frame, p2: Frame)
    requires AtBoot(k, p4, p3, p2) && NonePresent(k.mem[k.free[1]]) && NonePresent(k.mem[k.free[2]])
    requires forall x :: 0 <= x < ENTRY_COUNT ==> (k.mem[k.free[3]][x].Present() <==> x == Index(TEMPORARY, 1))
    requires k.mem[k.free[3]][Index(TEMPORARY, 1)] != FirstRequest(k).Leaf()
    ensures FirstMapCoherent(k, p4, {TEMPORARY}) && !FirstMapCoherent(k, p4, {})
  {
    hide Walk, MapTo, Missing, FirstMapCoherent;
    var k0 := k.(free := k.free[1..]);
    FirstMap(k, p4, p3, p2, true);
    FirstMap(k, p4, p3, p2, false);
    forall level, x | 1 <= level <= 3 && 0 <= x < ENTRY_COUNT
      ensures HarmlessWord(k0, p4, p4, FirstRequest(k), true, 3, level, x)
    {
      assert k0.free[3 - level] == k.free[4 - level];
    }
    assert !HarmlessWord(k0, p4, p4, FirstRequest(k), false, 3, 1, Index(TEMPORARY, 1));
  }

  /** Boot tables in frames 1 to 3, and four frames to be allocated, the second of which
      still holds a PRESENT word. */
  function LeftoverKernel(): Kernel {
    var p4 := EmptyTable()[0 := TableEntry(2)][RECURSIVE := TableEntry(1)];
    var p3 := EmptyTable()[0 := TableEntry(3)];
    var p2 := seq(512, i requires 0 <= i < 512 => Entry(i * 512, HUGE_FLAGS));
    var leftover := EmptyTable()[0 := TableEntry(9)];
    Kernel(map[1 := p4, 2 := p3, 3 := p2, 4 := EmptyTable(), 5 := leftover, 6 := EmptyTable(), 7 := EmptyTable()],
           [4, 5, 6, 7])
  }

  /** There it happens. */
  lemma LeftoverExample()
    ensures AtBoot(LeftoverKernel(), 1, 2, 3) && !FirstMapCoherent(LeftoverKernel(), 1, {TEMPORARY})
  {
    hide FirstMapCoherent;
    assert Index(TEMPORARY, 3) != 0;
    LeftoverSurvivesFlush(LeftoverKernel(), 1, 2, 3, 0);
  }

  /** The machine as the assembly code leaves it: the boot tables active, the allocator
      over RAM of any contents. */
  method PowerOn(mem: Memory, p4: Frame, p3: Frame, p2: Frame, alloc: AreaFrameAllocator) returns (c: Machine)
    requires BootTables(mem, p4, p3, p2) && alloc.Valid()
    requires forall f: nat :: alloc.layout.Usable(f) && f >= alloc.nextFree ==>
               f in mem && f < FRAME_LIMIT && f != p4 && f != p3 && f != p2
    ensures fresh(c) && c.Valid() && c.Root() == c.cr3 == p4 && c.mem == mem && c.alloc == alloc
    ensures Walk(c.mem, c.cr3, TEMPORARY).None?
  {
    ghost var own := BootOwners(p4, p3, p2);
    c := new Machine(mem, p4, alloc, own);
    AllocatorSupplies(alloc.layout, alloc.nextFree, mem, own);
    BootReady(c.State(), p4, p3, p2);
  }
}
