/** The machine the kernel runs on, and the paging code as it runs there: every table is
    read and written through a virtual address, which the TLB or a walk resolves. */
module Machines {
  import opened Outcomes
  import opened Entries
  import opened Pages
  import opened Hierarchy
  import opened Translation
  import opened Mapping
  import opened Detour
  import opened Tlb
  import opened Leftovers
  import opened FrameAllocator

  /** The promise to flush a page that `map_to` and `unmap` return. */
  datatype MapperFlush = MapperFlush(page: nat)

  /** Where an operation in progress is heading: the memory and the places of the tables in
      the end, and the page whose cached translation does not matter. */
  datatype Aim = Aim(mem: Memory, own: Owners, but: Option<nat>)

  /** The table found at a path is in its place. */
  lemma PlaceOf(m: Memory, own: Owners, cr3: Frame, n: Path)
    requires Tree(m, own) && SlotsToRoots(m, own) && cr3 in own && own[cr3] == Top(cr3)
    requires ValidPath(n) && PlainPath(n) && 1 <= Level(n) && TableAt(m, n).Some?
    requires RootOf(n) in own && own[RootOf(n)] == Top(RootOf(n)) && Recursive(m, cr3, RootOf(n))
    ensures InPlace(m, own, cr3, TableAt(m, n).value) && own[TableAt(m, n).value] == n
  {
    TableAtOwner(m, own, n);
    assert NodeOk(m, own, TableAt(m, n).value);
  }

  lemma GoodPlace(k: Kernel, own: Owners, cr3: Frame, n: Path)
    requires Good(k, own) && cr3 in own && own[cr3] == Top(cr3)
    requires ValidPath(n) && PlainPath(n) && 1 <= Level(n) && TableAt(k.mem, n).Some?
    requires RootOf(n) in own && own[RootOf(n)] == Top(RootOf(n)) && Recursive(k.mem, cr3, RootOf(n))
    ensures InPlace(k.mem, own, cr3, TableAt(k.mem, n).value) && own[TableAt(k.mem, n).value] == n
  {
    hide Tree, SlotsToRoots, Recursive, InPlace;
    PlaceOf(k.mem, own, cr3, n);
  }

  /** The P1 table of a page: where it is, and that it is read at its recursive address. */
  lemma LeafAt(k: Kernel, own: Owners, cr3: Frame, root: Frame, page: nat)
    requires Good(k, own) && cr3 in own && own[cr3] == Top(cr3) && root in own && own[root] == Top(root)
    requires Plain(page) && Recursive(k.mem, cr3, root) && TableAt(k.mem, PathOf(root, page, 1)).Some?
    ensures var f, table := TableAt(k.mem, PathOf(root, page, 1)).value, TableAddress(PathOf(root, page, 1));
            && OnWay(k, own, f, 1, root, page) && f in k.mem
            && FrameOf(Walk(k.mem, cr3, table / PAGE_SIZE)) == Some(f)
            && Load(k.mem, cr3, table, Index(page, 1)) == Ok(Get(k.mem, f, Index(page, 1)))
  {
    hide Walk, Index, TableAddress, Load, Tree, SlotsToRoots, Recursive;
    var n := PathOf(root, page, 1);
    PathPlain(root, page);
    GoodPlace(k, own, cr3, n);
    RecursiveAddress(k.mem, cr3, n);
    LoadAt(k.mem, cr3, n, Index(page, 1));
  }

  lemma GoodHead(k: Kernel, own: Owners)
    requires Good(k, own)
    ensures k.free != [] ==> k.free[0] in k.mem && k.free[0] !in own && k.free[0] < FRAME_LIMIT
  {
    hide Tree, SlotsToRoots;
  }

  lemma SlotKinds(k: Kernel, own: Owners, f: Frame, i: nat)
    requires Good(k, own) && f in own && i < ENTRY_COUNT
    ensures f in k.mem && (Get(k.mem, f, i) == UNUSED || Get(k.mem, f, i).Present())
  {
    assert NodeOk(k.mem, own, f) && SlotOk(k.mem, own, f, i);
  }

  /** What the machine's invariant needs after `next_table_create` made a table. */
  lemma AfterLink(k: Kernel, own: Owners, cr3: Frame, f: Frame, i: nat)
    requires Good(k, own) && InPlace(k.mem, own, cr3, f) && k.free != [] && Unlinked(k.mem, own, f, i, k.free[0])
    ensures var k', own' := Kernel(Link(k.mem, f, i, k.free[0]), k.free[1..]), own[k.free[0] := Child(own[f], i)];
            && Good(k', own') && Recursive(k'.mem, cr3, RootOf(own[f]))
            && TableAt(k'.mem, Child(own[f], i)) == Some(k.free[0])
  {
    LinkKeepsGood(k, own, f, i);
    LinkedPath(k.mem, own, cr3, f, i, k.free[0], Link(k.mem, f, i, k.free[0]));
  }

  /** Between setting the entry and zeroing, the new table is reached at its address. */
  lemma AfterLinked(m: Memory, own: Owners, cr3: Frame, f: Frame, i: nat, t: Frame)
    requires InPlace(m, own, cr3, f) && Unlinked(m, own, f, i, t)
    ensures var m1 := Linked(m, f, i, t);
            && t in m1 && ReachedAt(m1, cr3, TableAddress(Child(own[f], i)), t)
            && m1[t := EmptyTable()] == Link(m, f, i, t)
  {
    hide Walk, TableAddress;
    var m1, page := Linked(m, f, i, t), TableAddress(Child(own[f], i)) / PAGE_SIZE;
    forall c: Table {:trigger m1[t := c]}
      ensures FrameOf(Walk(m1[t := c], cr3, page)) == Some(t)
    {
      LinkedPath(m, own, cr3, f, i, t, m1[t := c]);
      RecursiveAddress(m1[t := c], cr3, Child(own[f], i));
    }
  }

  /** Frame `t` is reached at a virtual address, whatever it holds. */
  ghost predicate ReachedAt(m: Memory, cr3: Frame, address: nat, t: Frame) {
    forall c: Table {:trigger m[t := c]} :: FrameOf(Walk(m[t := c], cr3, address / PAGE_SIZE)) == Some(t)
  }

  /** In a tree every huge frame is aligned. */
  lemma {:induction false} NeverMisaligned(m: Memory, own: Owners, f: Frame, level: nat, page: nat)
    requires Tree(m, own) && f in own && 1 <= level <= 4 && Plain(page) && own[f] == PathOf(RootOf(own[f]), page, level)
    ensures !Misaligned(m, f, level, page)
    decreases level
  {
    EntryKinds(m, own, f, level, page);
    if level > 1 && Get(m, f, Index(page, level)).IsTable() {
      StepDown(m, own, f, level, page);
      NeverMisaligned(m, own, Get(m, f, Index(page, level)).frame, level - 1, page);
    }
  }

  lemma PathPrefix(m: Memory, root: Frame, page: nat)
    ensures TableAt(m, PathOf(root, page, 1)).Some? ==> TableAt(m, PathOf(root, page, 2)).Some?
    ensures TableAt(m, PathOf(root, page, 2)).Some? ==> TableAt(m, PathOf(root, page, 3)).Some?
  {
  }

  lemma AddedAfterPop(free: seq<Frame>, rest: seq<Frame>, own: Owners, free': seq<Frame>, own': Owners, ok: bool)
    requires free != [] && rest == free[1..] && (ok ==> Added(rest, own, free', own'))
    ensures ok ==> Added(free, own, free', own')
  {
  }

  /** The same for `map`, which takes its data frame first. */
  ghost predicate HarmlessMap(k: Kernel, cr3: Frame, root: Frame, page: nat, flags: Flags, flush: bool) {
    k.free != [] ==> Harmless(k.(free := k.free[1..]), cr3, root, Request(page, k.free[0], flags), flush)
  }

  /** The address of a table is not in the page set aside, which is outside the window. */
  lemma NotBut(aim: Aim, n: Path)
    requires (aim.but.Some? ==> Plain(aim.but.value)) && ValidPath(n) && 1 <= Level(n)
    ensures aim.but != Some(TableAddress(n) / PAGE_SIZE)
  {
    TableAddressInWindow(n);
  }

  /** The aim of `map_to`. */
  ghost function MapAim(k: Kernel, own: Owners, root: Frame, req: Request, flush: bool): Aim {
    Aim(Reach(k, root, 4, req).mem, ReachOwners(k, own, root, 4, root, req), But(req, flush))
  }

  /** At the start of `map_to` the machine is on course. */
  lemma OnCourse(k: Kernel, own: Owners, cr3: Frame, root: Frame, req: Request, flush: bool, tlb: Cache)
    requires Good(k, own) && cr3 in own && own[cr3] == Top(cr3) && root in own && own[root] == Top(root)
    requires Plain(req.page) && Harmless(k, cr3, root, req, flush) && Coherent(k.mem, cr3, tlb)
    ensures var aim := MapAim(k, own, root, req, flush);
            && Tree(aim.mem, aim.own) && SlotsToRoots(aim.mem, aim.own) && cr3 in aim.own && aim.own[cr3] == Top(cr3)
            && Heading(k.mem, aim.mem, aim.own, cr3, aim.but) && Settled(aim.mem, cr3, tlb, aim.but)
  {
    hide Walk, Reach, ReachOwners, Harmless, Heading;
    var aim := MapAim(k, own, root, req, flush);
    ReachGrows(k, own, root, 4, root, req);
    HarmlessHeads(k, own, cr3, root, req, flush);
    CoherentSettles(k.mem, aim.mem, aim.own, cr3, aim.but, tlb);
  }

  /** The next link on the way of a page is as it is in the end. */
  lemma AimLinks(k: Kernel, own: Owners, f: Frame, level: nat, root: Frame, req: Request)
    requires OnWay(k, own, f, level, root, req.page) && level > 1
    ensures Get(k.mem, f, Index(req.page, level)) == UNUSED && k.free != [] ==>
              Get(Reach(k, f, level, req).mem, f, Index(req.page, level)) == TableEntry(k.free[0])
  {
    assert NodeOk(k.mem, own, f);
    if Get(k.mem, f, Index(req.page, level)) == UNUSED && k.free != [] {
      ReachLinks(k, own, f, level, root, req);
    }
  }

  lemma TopTable(m: Memory, root: Frame)
    ensures TableAddress(Top(root)) == P4_ADDRESS && TableAt(m, Top(root)) == Some(root)
  {
  }

  class Machine {
    var mem: Memory
    var cr3: Frame
    var tlb: Cache
    const alloc: AreaFrameAllocator
    ghost var own: Owners

    /** A machine with nothing cached. */
    constructor (mem: Memory, cr3: Frame, alloc: AreaFrameAllocator, ghost own: Owners)
      ensures this.mem == mem && this.cr3 == cr3 && this.alloc == alloc && this.own == own && tlb == map[]
    {
      this.mem, this.cr3, this.alloc, this.own := mem, cr3, alloc, own;
      tlb := map[];
    }

    ghost function State(): Kernel
      reads this, alloc
    {
      Kernel(mem, alloc.Upcoming())
    }

    /** The P4 table the recursive addresses lead to. */
    function Root(): Frame
      reads this
    {
      Get(mem, cr3, RECURSIVE).frame
    }

    /** The tables are in order; in `with`, `Root()` is not the active table. */
    ghost predicate Framed()
      reads this, alloc
    {
      && alloc.Valid() && Good(State(), own)
      && cr3 in own && own[cr3] == Top(cr3) && Root() in own && own[Root()] == Top(Root())
      && Recursive(mem, cr3, Root())
    }

    /** The machine between two operations: nothing stale is cached. */
    ghost predicate Valid()
      reads this, alloc
    {
      Framed() && Coherent(mem, cr3, tlb)
    }

    /** Until a page is flushed: nothing stale is cached but for that page. */
    ghost predicate Pending(but: Option<nat>)
      reads this, alloc
    {
      Framed() && Settled(mem, cr3, tlb, but)
    }

    /** Whatever is cached now, or can be, is right in the end, the page set aside excepted. */
    ghost predicate Tracks(aim: Aim)
      reads this
    {
      && Tree(aim.mem, aim.own) && SlotsToRoots(aim.mem, aim.own) && cr3 in aim.own && aim.own[cr3] == Top(cr3)
      && (aim.but.Some? ==> Plain(aim.but.value))
      && Heading(mem, aim.mem, aim.own, cr3, aim.but) && Settled(aim.mem, cr3, tlb, aim.but)
    }

    /** The machine while an operation is in progress. */
    ghost predicate Busy(aim: Aim)
      reads this, alloc
    {
      Framed() && Tracks(aim)
    }

    /** The aim of an operation that changes no table. */
    ghost function Here(): Aim
      reads this
    {
      Aim(mem, own, None)
    }

    lemma HereTracks()
      requires Valid()
      ensures Tracks(Here())
    {
      hide Walk;
    }

    /** Hardware caches whatever it likes of the current translations. */
    method Speculate(ghost aim: Aim)
      requires Tracks(aim)
      modifies this`tlb
      ensures Tracks(aim)
    {
      hide Walk, Heading;
      var fills: nat :| fills >= 0;
      for i := 0 to fills
        invariant Tracks(aim)
      {
        var page: nat :| page >= 0;
        var f := Walk(mem, cr3, page);
        if Canonical(page) && f.Some? {
          if aim.but != Some(page) {
            WalkHeads(mem, aim.mem, aim.own, cr3, aim.but, page);
          }
          tlb := tlb[page := f.value];
        }
      }
    }

    /** The translation of an access to a mapped page: a cached one wins over the walk. */
    method Resolve(page: nat, ghost aim: Aim) returns (f: Entry)
      requires Tracks(aim) && Walk(mem, cr3, page).Some? && aim.but != Some(page)
      modifies this`tlb
      ensures Tracks(aim) && Walk(mem, cr3, page) == Some(f)
    {
      hide Walk, Heading;
      Speculate(aim);
      if page in tlb {
        WalkHeads(mem, aim.mem, aim.own, cr3, aim.but, page);
        f := tlb[page];
      } else {
        f := Walk(mem, cr3, page).value;
      }
    }

    /** Read entry `index` of the table at a virtual address. */
    method LoadEntry(table: nat, index: nat, ghost aim: Aim) returns (e: Entry)
      requires Tracks(aim) && index < ENTRY_COUNT && aim.but != Some(table / PAGE_SIZE)
      requires Load(mem, cr3, table, index).Ok?
      modifies this`tlb
      ensures Tracks(aim) && Load(mem, cr3, table, index) == Ok(e)
    {
      var f := Resolve(table / PAGE_SIZE, aim);
      e := Get(mem, f.frame, index);
    }

    /** The same between two operations. */
    method ReadEntry(table: nat, index: nat) returns (e: Entry)
      requires Valid() && index < ENTRY_COUNT && Load(mem, cr3, table, index).Ok?
      modifies this`tlb
      ensures Valid() && Load(mem, cr3, table, index) == Ok(e)
    {
      hide Walk;
      e := LoadEntry(table, index, Here());
    }

    /** Write it. The operation stays on its course if the entry is cleared, set to what it
        is in the end, or not in a table. */
    method StoreEntry(table: nat, index: nat, e: Entry, ghost f: Frame, ghost aim: Aim)
      requires Tracks(aim) && index < ENTRY_COUNT && aim.but != Some(table / PAGE_SIZE)
      requires FrameOf(Walk(mem, cr3, table / PAGE_SIZE)) == Some(f) && f in mem
      modifies this`tlb, this`mem
      ensures mem == Put(old(mem), f, index, e)
      ensures (f in aim.own && e.Present() ==> e == Get(aim.mem, f, index)) ==> Tracks(aim)
    {
      hide Walk, Heading;
      var target := Resolve(table / PAGE_SIZE, aim);
      if f in aim.own && e.Present() ==> e == Get(aim.mem, f, index) {
        StoreHeads(mem, aim.mem, aim.own, cr3, aim.but, f, index, e);
      }
      mem := Put(mem, target.frame, index, e);
    }

    /** `Table::zero` of the table at a virtual address. */
    method Zero(table: nat, ghost t: Frame, ghost aim: Aim)
      requires Tracks(aim) && t in mem && ReachedAt(mem, cr3, table, t) && aim.but != Some(table / PAGE_SIZE)
      modifies this`tlb, this`mem
      ensures mem == old(mem)[t := EmptyTable()] && Tracks(aim)
    {
      hide Walk, Tracks;
      ghost var m0 := mem;
      for i := 0 to ENTRY_COUNT
        invariant t in mem && mem == m0[t := mem[t]] && Tracks(aim)
        invariant forall j :: 0 <= j < i ==> mem[t][j] == UNUSED
      {
        StoreEntry(table, i, UNUSED, t, aim);
        assert mem == m0[t := mem[t]];
      }
      assert mem[t] == EmptyTable();
    }

    /** `invlpg`. */
    method Flush(page: nat)
      modifies this`tlb
      ensures tlb == old(tlb) - {page} && (old(Pending(Some(page)) || Valid()) ==> Valid())
    {
      tlb := tlb - {page};
    }

    /** A write to `cr3`, which drops every cached translation. */
    method WriteCr3(frame: Frame)
      modifies this`tlb, this`cr3
      ensures cr3 == frame && tlb == map[] && Coherent(mem, cr3, tlb)
    {
      cr3, tlb := frame, map[];
    }

    /** The stores of `next_table_create`: the entry is set, and then the table zeroed. */
    method LinkTable(table: nat, index: nat, frame: Frame, ghost n: Path, ghost f: Frame, ghost aim: Aim)
      requires Tracks(aim) && InPlace(mem, own, cr3, f) && own[f] == n && Unlinked(mem, own, f, index, frame)
      requires table == TableAddress(n) && Get(aim.mem, f, index) == TableEntry(frame)
      modifies this`tlb, this`mem
      ensures Tracks(aim) && mem == Link(old(mem), f, index, frame)
    {
      hide Walk, TableAt, Recursive, Heading, Settled, Tree, SlotsToRoots;
      RecursiveAddress(mem, cr3, n);
      NotBut(aim, n);
      NotBut(aim, Child(n, index));
      AfterLinked(mem, own, cr3, f, index, frame);
      StoreEntry(table, index, TableEntry(frame), f, aim);
      Zero(NextAddress(table, index), frame, aim);
    }

    /** The branch of `next_table_create` that makes a table below an unused entry. */
    method MakeTable(table: nat, index: nat, ghost n: Path, ghost f: Frame, ghost aim: Aim) returns (r: Result<nat>)
      requires Busy(aim) && InPlace(mem, own, cr3, f) && own[f] == n && RootOf(n) == Root()
      requires TableSlot(own, f, index) && Get(mem, f, index) == UNUSED && table == TableAddress(n)
      requires alloc.Upcoming() != [] ==> Get(aim.mem, f, index) == TableEntry(alloc.Upcoming()[0])
      modifies this, alloc
      ensures var k := old(State());
              if k.free == [] then r == Panic(OutOfMemory)
              else && r == Ok(NextAddress(table, index))
                   && Busy(aim) && State() == Kernel(Link(k.mem, f, index, k.free[0]), k.free[1..])
                   && cr3 == old(cr3) && Root() == old(Root())
                   && TableAt(mem, Child(n, index)) == Some(k.free[0])
                   && Added(old(alloc.Upcoming()), old(own), alloc.Upcoming(), own)
    {
      hide Walk, TableAt, Supply, Link, Heading, Settled, SlotsToRoots, HoldsRam;
      ghost var k := State();
      GoodHead(k, own);
      var frame := alloc.AllocateFrame(1);
      if frame.None? {
        return Panic(OutOfMemory);
      }
      assert frame.value == k.free[0];
      LinkTable(table, index, frame.value, n, f, aim);
      AfterLink(k, own, cr3, f, index);
      own := own[frame.value := Child(n, index)];
      r := Ok(NextAddress(table, index));
    }

    /** `Table::next_table_create` of the table whose path is `n`. */
    method NextTableCreate(table: nat, index: nat, ghost n: Path, ghost aim: Aim) returns (r: Result<nat>)
      requires Busy(aim) && index < ENTRY_COUNT && ValidPath(n) && 2 <= Level(n) && PlainPath(Child(n, index))
      requires RootOf(n) == Root() && TableAt(mem, n).Some? && table == TableAddress(n)
      requires var f := TableAt(mem, n).value;
               Get(mem, f, index) == UNUSED && alloc.Upcoming() != [] ==>
                 Get(aim.mem, f, index) == TableEntry(alloc.Upcoming()[0])
      modifies this, alloc
      ensures var spec := Mapping.NextTableCreate(old(State()), TableAt(old(mem), n).value, index);
              if spec.Panic? then r == Panic(spec.why)
              else && r == Ok(TableAddress(Child(n, index)))
                   && Busy(aim) && State() == spec.value.0 && cr3 == old(cr3) && Root() == old(Root())
                   && TableAt(mem, Child(n, index)) == Some(spec.value.1)
                   && Added(old(alloc.Upcoming()), old(own), alloc.Upcoming(), own)
    {
      hide Walk, Good, Heading, Settled, Tree, SlotsToRoots, Recursive;
      ghost var f := TableAt(mem, n).value;
      GoodPlace(State(), own, cr3, n);
      LoadAt(mem, cr3, n, index);
      NotBut(aim, n);
      SlotKinds(State(), own, f, index);
      GoodHead(State(), own);
      var e := LoadEntry(table, index, aim);
      if e.IsTable() {
        return Ok(NextAddress(table, index));
      }
      if e.flags.huge {
        return Panic(HugePage);
      }
      r := MakeTable(table, index, n, f, aim);
    }

    /** One of the three `next_table_create` calls of `map_to`. */
    method NextOnWay(table: nat, level: nat, req: Request, ghost aim: Aim) returns (r: Result<nat>)
      requires Busy(aim) && 2 <= level <= 4 && Plain(req.page) && TableAt(mem, PathOf(Root(), req.page, level)).Some?
      requires table == TableAddress(PathOf(Root(), req.page, level))
      requires aim.mem == Reach(State(), TableAt(mem, PathOf(Root(), req.page, level)).value, level, req).mem
      modifies this, alloc
      ensures var root, page := old(Root()), req.page;
              var f := TableAt(old(mem), PathOf(root, page, level)).value;
              var spec := Mapping.NextTableCreate(old(State()), f, Index(page, level));
              if spec.Panic? then r == Panic(spec.why)
              else && r == Ok(TableAddress(PathOf(root, page, level - 1)))
                   && Busy(aim) && State() == spec.value.0 && cr3 == old(cr3) && Root() == root
                   && TableAt(mem, PathOf(root, page, level - 1)) == Some(spec.value.1)
                   && aim.mem == Reach(State(), spec.value.1, level - 1, req).mem
                   && Added(old(alloc.Upcoming()), old(own), alloc.Upcoming(), own)
    {
      hide Walk, Tracks, Reach, Mapping.NextTableCreate, TableAddress, Supply, Tree, SlotsToRoots, Recursive;
      ghost var n := PathOf(Root(), req.page, level);
      ghost var k, f := State(), TableAt(mem, n).value;
      PathPlainAt(Root(), req.page, level);
      PathPlainAt(Root(), req.page, level - 1);
      PlaceOf(mem, own, cr3, n);
      AimLinks(k, own, f, level, Root(), req);
      ReachStep(k, f, level, req);
      r := NextTableCreate(table, Index(req.page, level), n, aim);
    }

    /** `Mapper::map_to` on the hierarchy that the recursive addresses lead to. `flush` says
        whether the caller flushes the page or ignores the promise to do so. */
    method MapTo(page: nat, frame: Frame, flags: Flags, ghost flush: bool) returns (r: Result<MapperFlush>)
      requires Valid() && Plain(page) && Harmless(State(), cr3, Root(), Request(page, frame, flags), flush)
      modifies this, alloc
      ensures var spec := Mapping.MapTo(old(State()), old(Root()), page, frame, flags);
              if spec.Panic? then r == Panic(spec.why)
              else && r == Ok(MapperFlush(page))
                   && Pending(if flush then Some(page) else None) && (!flush ==> Valid())
                   && State() == spec.value && cr3 == old(cr3) && Root() == old(Root())
                   && Added(old(alloc.Upcoming()), old(own), alloc.Upcoming(), own)
    {
      hide Walk, Mapping.MapTo, Mapping.Descend, SetLeaf, Added, Reach, Harmless, Heading, Settled, Tree, SlotsToRoots;
      hide Supply, Recursive, Index;
      var req := Request(page, frame, flags);
      ghost var root := Root();
      ghost var aim := MapAim(State(), own, root, req, flush);
      OnCourse(State(), own, cr3, root, req, flush, tlb);
      assert Busy(aim);
      MapToIsDescend(State(), root, page, frame, flags);
      var p1 := Descend(req, aim);
      if p1.Panic? {
        return Panic(p1.why);
      }
      r := SetLeafEntry(p1.value, req, aim);
      if r.Ok? && !flush {
        NothingAside(mem, cr3, tlb);
      }
    }

    /** The `next_table_create` calls of `map_to`. */
    method Descend(req: Request, ghost aim: Aim) returns (r: Result<nat>)
      requires Busy(aim) && Plain(req.page) && aim.mem == Reach(State(), Root(), 4, req).mem
      modifies this, alloc
      ensures var root, page := old(Root()), req.page;
              var spec := Mapping.Descend(old(State()), root, page);
              if spec.Panic? then r == Panic(spec.why)
              else && r == Ok(TableAddress(PathOf(root, page, 1)))
                   && Busy(aim) && State() == spec.value.0 && cr3 == old(cr3) && Root() == root
                   && TableAt(mem, PathOf(root, page, 1)) == Some(spec.value.1)
                   && aim.mem == Reach(State(), spec.value.1, 1, req).mem
                   && Added(old(alloc.Upcoming()), old(own), alloc.Upcoming(), own)
    {
      hide Walk, Mapping.NextTableCreate, Good, Added, Reach, Tracks, Recursive;
      ghost var root, free, owners := Root(), alloc.Upcoming(), own;
      TopTable(mem, root);
      var p3 := NextOnWay(P4_ADDRESS, 4, req, aim);
      if p3.Panic? {
        return Panic(p3.why);
      }
      ghost var free3, own3 := alloc.Upcoming(), own;
      var p2 := NextOnWay(p3.value, 3, req, aim);
      if p2.Panic? {
        return Panic(p2.why);
      }
      AddedTrans(free, owners, free3, own3, alloc.Upcoming(), own);
      ghost var free2, own2 := alloc.Upcoming(), own;
      r := NextOnWay(p2.value, 2, req, aim);
      if r.Ok? {
        AddedTrans(free, owners, free2, own2, alloc.Upcoming(), own);
      }
    }

    /** The last step of `map_to`. */
    method SetLeafEntry(table: nat, req: Request, ghost aim: Aim) returns (r: Result<MapperFlush>)
      requires Busy(aim) && Plain(req.page) && TableAt(mem, PathOf(Root(), req.page, 1)).Some?
      requires table == TableAddress(PathOf(Root(), req.page, 1))
      requires aim.mem == Reach(State(), TableAt(mem, PathOf(Root(), req.page, 1)).value, 1, req).mem
      modifies this
      ensures var f := TableAt(old(mem), PathOf(old(Root()), req.page, 1)).value;
              var spec := SetLeaf(old(State()), f, req.page, req.frame, req.flags);
              if spec.Panic? then r == Panic(spec.why)
              else && r == Ok(MapperFlush(req.page))
                   && Pending(aim.but) && State() == spec.value && cr3 == old(cr3) && Root() == old(Root())
                   && own == old(own)
    {
      hide Walk, TableAddress, Index, Good, Grown, Tracks, Reach, SetLeaf, TableAt, PathOf, Recursive, Settled;
      ghost var k, f := State(), TableAt(mem, PathOf(Root(), req.page, 1)).value;
      LeafAt(k, own, cr3, Root(), req.page);
      LeafReached(k, own, f, Root(), req);
      TracksPlain(aim);
      NotBut(aim, PathOf(Root(), req.page, 1));
      var e := LoadEntry(table, Index(req.page, 1), aim);
      if e != UNUSED {
        return Panic(AlreadyMapped);
      }
      if req.frame >= FRAME_LIMIT {
        return Panic(BadFrame);
      }
      StoreLeaf(table, req, f, aim);
      r := Ok(MapperFlush(req.page));
    }

    lemma TracksPlain(aim: Aim)
      requires Tracks(aim)
      ensures aim.but.Some? ==> Plain(aim.but.value)
    {
    }

    method StoreLeaf(table: nat, req: Request, ghost f: Frame, ghost aim: Aim)
      requires Busy(aim) && OnWay(State(), own, f, 1, Root(), req.page) && req.frame < FRAME_LIMIT
      requires Get(mem, f, Index(req.page, 1)) == UNUSED && aim.mem == Reach(State(), f, 1, req).mem
      requires FrameOf(Walk(mem, cr3, table / PAGE_SIZE)) == Some(f) && aim.but != Some(table / PAGE_SIZE)
      modifies this
      ensures SetLeaf(old(State()), f, req.page, req.frame, req.flags) == Ok(State())
      ensures Pending(aim.but) && cr3 == old(cr3) && Root() == old(Root()) && own == old(own)
    {
      hide Walk, Index, Good, Heading, Settled, Tree, SlotsToRoots, Reach, SetLeaf, PathOf, Grown;
      ghost var k := State();
      LeafReached(k, own, f, Root(), req);
      StoreEntry(table, Index(req.page, 1), req.Leaf(), f, aim);
      assert mem == aim.mem;
      assert Get(mem, cr3, RECURSIVE) == Get(k.mem, cr3, RECURSIVE);
      assert Get(mem, Root(), RECURSIVE) == Get(k.mem, Root(), RECURSIVE);
    }

    /** `Table::next_table` of the table whose path is `n`. */
    method NextTable(table: nat, index: nat, ghost n: Path) returns (r: Option<nat>)
      requires Valid() && index < ENTRY_COUNT && ValidPath(n) && 2 <= Level(n) && RootOf(n) == Root()
      requires TableAt(mem, n).Some? && table == TableAddress(n)
      modifies this`tlb
      ensures Valid() && Translation.NextTable(mem, cr3, table, index) == Ok(r)
      ensures r == if TableAt(mem, Child(n, index)).Some? then Some(TableAddress(Child(n, index))) else None
    {
      NextTableAt(mem, cr3, n, index);
      var e := ReadEntry(table, index);
      r := if e.IsTable() then Some(NextAddress(table, index)) else None;
    }

    /** The chain of `next_table` calls in `translate_page`. */
    method SmallPage(p3: nat, page: nat) returns (r: Option<Frame>)
      requires Valid() && TableAt(mem, PathOf(Root(), page, 3)).Some? && p3 == TableAddress(PathOf(Root(), page, 3))
      modifies this`tlb
      ensures Valid() && Translation.SmallPage(mem, cr3, p3, page) == Ok(r)
    {
      hide Walk, Good, Coherent, Load, TableAt, TableAddress;
      var p2 := NextTable(p3, Index(page, 3), PathOf(Root(), page, 3));
      if p2.None? {
        return None;
      }
      var p1 := NextTable(p2.value, Index(page, 2), PathOf(Root(), page, 2));
      if p1.None? {
        return None;
      }
      LoadAt(mem, cr3, PathOf(Root(), page, 1), Index(page, 1));
      var e := ReadEntry(p1.value, Index(page, 1));
      r := if e.Present() then Some(e.frame) else None;
    }

    /** The `huge_page` closure of `translate_page`. */
    method LargePage(p3: nat, page: nat) returns (r: Result<Option<Frame>>)
      requires Valid() && TableAt(mem, PathOf(Root(), page, 3)).Some? && p3 == TableAddress(PathOf(Root(), page, 3))
      modifies this`tlb
      ensures Valid() && Translation.LargePage(mem, cr3, p3, page) == r
    {
      hide Walk, Good, Coherent, Load, TableAt, TableAddress, InHuge;
      LoadAt(mem, cr3, PathOf(Root(), page, 3), Index(page, 3));
      var e3 := ReadEntry(p3, Index(page, 3));
      if e3.Present() && e3.flags.huge {
        return InHuge(e3, 3, Index(page, 2) * ENTRY_COUNT + Index(page, 1));
      }
      var p2 := NextTable(p3, Index(page, 3), PathOf(Root(), page, 3));
      if p2.None? {
        return Ok(None);
      }
      LoadAt(mem, cr3, PathOf(Root(), page, 2), Index(page, 2));
      var e2 := ReadEntry(p2.value, Index(page, 2));
      r := if e2.Present() && e2.flags.huge then InHuge(e2, 2, Index(page, 1)) else Ok(None);
    }

    /** `Mapper::translate_page`: what the MMU would do from the P4 table in use. */
    method TranslatePage(page: nat) returns (r: Result<Option<Frame>>)
      requires Valid()
      modifies this`tlb
      ensures Valid()
      ensures r == if Misaligned(mem, Root(), 4, page) then Panic(MisalignedHuge)
                   else Ok(FrameOf(Walk(mem, Root(), page)))
      ensures Plain(page) ==> r.Ok?
    {
      if Plain(page) {
        NeverMisaligned(mem, own, Root(), 4, page);
      }
      TranslateIsWalk(mem, cr3, Root(), page);
      TopTable(mem, Root());
      hide Walk, Good, Recursive, Coherent, Load, TableAt, TableAddress, Translation.SmallPage,
          Translation.LargePage;
      var p3 := NextTable(P4_ADDRESS, Index(page, 4), Top(Root()));
      if p3.None? {
        return Ok(None);
      }
      var small := SmallPage(p3.value, page);
      if small.Some? {
        return Ok(small);
      }
      r := LargePage(p3.value, page);
    }

    /** `Mapper::map`: the frame is the next one the allocator returns. */
    method Map(page: nat, flags: Flags, ghost flush: bool) returns (r: Result<MapperFlush>)
      requires Valid() && Plain(page) && HarmlessMap(State(), cr3, Root(), page, flags, flush)
      modifies this, alloc
      ensures var spec := Mapping.Map(old(State()), old(Root()), page, flags);
              if spec.Panic? then r == Panic(spec.why)
              else && r == Ok(MapperFlush(page))
                   && Pending(if flush then Some(page) else None) && (!flush ==> Valid())
                   && State() == spec.value && cr3 == old(cr3) && Root() == old(Root())
                   && Added(old(alloc.Upcoming()), old(own), alloc.Upcoming(), own)
    {
      hide Walk, Mapping.MapTo, Recursive, Coherent, Harmless;
      ghost var k := State();
      var frame := alloc.AllocateFrame(1);
      if frame.None? {
        return Panic(OutOfMemory);
      }
      assert State() == k.(free := k.free[1..]);
      ghost var rest := alloc.Upcoming();
      r := MapTo(page, frame.value, flags, flush);
      AddedAfterPop(old(alloc.Upcoming()), rest, old(own), alloc.Upcoming(), own, r.Ok?);
    }

    /** The chain of `next_table_mut` calls in `unmap`. */
    method LeafTable(page: nat) returns (r: Option<nat>)
      requires Valid()
      modifies this`tlb
      ensures Valid()
      ensures r == if TableAt(mem, PathOf(Root(), page, 1)).Some? then Some(TableAddress(PathOf(Root(), page, 1)))
                   else None
    {
      TopTable(mem, Root());
      PathPrefix(mem, Root(), page);
      hide Walk, Good, Recursive, Coherent, Load, TableAt, TableAddress;
      var p3 := NextTable(P4_ADDRESS, Index(page, 4), Top(Root()));
      if p3.None? {
        return None;
      }
      var p2 := NextTable(p3.value, Index(page, 3), PathOf(Root(), page, 3));
      if p2.None? {
        return None;
      }
      r := NextTable(p2.value, Index(page, 2), PathOf(Root(), page, 2));
    }

    /** The end of `unmap`: `set_unused` and the flush. */
    method ClearLeaf(table: nat, page: nat) returns (r: Result<MapperFlush>)
      requires Valid() && Plain(page) && Mapping.Unmap(State(), Root(), page).Ok?
      requires table == TableAddress(PathOf(Root(), page, 1))
      modifies this
      ensures r == Ok(MapperFlush(page))
      ensures Valid() && State() == Mapping.Unmap(old(State()), old(Root()), page).value
      ensures cr3 == old(cr3) && Root() == old(Root()) && own == old(own)
    {
      hide Walk, SlotsToRoots, Tree, Supply, Index, Heading;
      ghost var k, n, root := State(), PathOf(Root(), page, 1), Root();
      PathPlain(root, page);
      GoodPlace(k, own, cr3, n);
      RecursiveAddress(mem, cr3, n);
      UnmapPoint(k, own, root, page);
      UnmapKeepsRoots(k, own, root, page);
      UnmapHeads(k, own, cr3, root, page);
      ghost var aim := Aim(Mapping.Unmap(k, root, page).value.mem, own, if root == cr3 then Some(page) else None);
      CoherentSettles(mem, aim.mem, own, cr3, aim.but, tlb);
      NotBut(aim, n);
      StoreEntry(table, Index(page, 1), UNUSED, TableAt(mem, n).value, aim);
      assert mem == aim.mem;
      Flush(page);
      r := Ok(MapperFlush(page));
    }

    /** `Mapper::unmap`, with the flush it does itself. */
    method Unmap(page: nat) returns (r: Result<MapperFlush>)
      requires Valid() && Plain(page)
      modifies this, alloc
      ensures var spec := Mapping.Unmap(old(State()), old(Root()), page);
              if spec.Panic? then r == Panic(spec.why)
              else && r == Ok(MapperFlush(page))
                   && Valid() && State() == spec.value && cr3 == old(cr3) && Root() == old(Root()) && own == old(own)
    {
      ghost var k := State();
      UnmapPoint(k, own, Root(), page);
      var t := TranslatePage(page);
      if t.value.None? {
        return Panic(NotMapped);
      }
      var p1 := LeafTable(page);
      if p1.None? {
        return Panic(HugePage);
      }
      r := ClearLeaf(p1.value, page);
    }
  }
}
