/** What fresh frames still hold matters: `map_to` store by store, the translations that
    hardware may cache between the stores, and when flushing one page is enough. */
module Leftovers {
  import opened Outcomes
  import opened Entries
  import opened Pages
  import opened Hierarchy
  import opened Mapping
  import opened Detour
  import opened Tlb

  /** Memory and supply when `map_to`, from the table of `level` on, returns or panics. */
  function Reach(k: Kernel, f: Frame, level: nat, req: Request): Kernel
    requires 1 <= level <= 4
    decreases level
  {
    if level == 1 then
      var r := SetLeaf(k, f, req.page, req.frame, req.flags);
      if r.Ok? then r.value else k
    else
      var r := NextTableCreate(k, f, Index(req.page, level));
      if r.Ok? then Reach(r.value.0, r.value.1, level - 1, req) else k
  }

  /** The places of the tables after `next_table_create` on the way of a page. */
  function OwnersBelow(k: Kernel, own: Owners, f: Frame, level: nat, root: Frame, page: nat): Owners
    requires 2 <= level <= 4
  {
    if Get(k.mem, f, Index(page, level)).IsTable() || k.free == [] then own
    else own[k.free[0] := PathOf(root, page, level - 1)]
  }

  function ReachOwners(k: Kernel, own: Owners, f: Frame, level: nat, root: Frame, req: Request): Owners
    requires 1 <= level <= 4
    decreases level
  {
    if level == 1 then own else
    var r := NextTableCreate(k, f, Index(req.page, level));
    if r.Panic? then own
    else ReachOwners(r.value.0, OwnersBelow(k, own, f, level, root, req.page), r.value.1, level - 1, root, req)
  }

  /** The table in `f` is the one that a walk for the page meets at `level`. */
  ghost predicate OnWay(k: Kernel, own: Owners, f: Frame, level: nat, root: Frame, page: nat) {
    && Good(k, own) && 1 <= level <= 4 && Plain(page)
    && f in own && own[f] == PathOf(root, page, level)
  }

  lemma StepBelow(k: Kernel, own: Owners, f: Frame, level: nat, root: Frame, page: nat)
    requires OnWay(k, own, f, level, root, page) && level > 1 && NextTableCreate(k, f, Index(page, level)).Ok?
    ensures var (k', t) := NextTableCreate(k, f, Index(page, level)).value;
            var own' := OwnersBelow(k, own, f, level, root, page);
            && OnWay(k', own', t, level - 1, root, page) && Grown(k, own, k', own', root)
            && Get(k'.mem, f, Index(page, level)).IsTable() && Get(k'.mem, f, Index(page, level)).frame == t
  {
    CreateStep(k, own, f, Index(page, level));
  }

  /** The last store of `map_to`. */
  lemma LeafReached(k: Kernel, own: Owners, f: Frame, root: Frame, req: Request)
    requires OnWay(k, own, f, 1, root, req.page)
    ensures var r := SetLeaf(k, f, req.page, req.frame, req.flags);
            if Get(k.mem, f, Index(req.page, 1)) != UNUSED then r == Panic(AlreadyMapped)
            else if req.frame >= FRAME_LIMIT then r == Panic(BadFrame)
            else && f in k.mem && r == Ok(k.(mem := Put(k.mem, f, Index(req.page, 1), req.Leaf())))
                 && Reach(k, f, 1, req) == r.value && Good(r.value, own) && Grown(k, own, r.value, own, root)
                 && SlotsSame(k.mem, r.value.mem, own)
  {
    hide Index, Tree, Supply, SlotsToRoots, Grown;
    InMemory(k, own, f);
    if Get(k.mem, f, Index(req.page, 1)) == UNUSED && req.frame < FRAME_LIMIT {
      LeafGrows(k, own, f, Index(req.page, 1), req.Leaf());
    }
  }

  lemma InMemory(k: Kernel, own: Owners, f: Frame)
    requires Good(k, own) && f in own
    ensures f in k.mem
  {
    assert NodeOk(k.mem, own, f);
  }

  /** The recursive slots are as before. */
  ghost predicate SlotsSame(m: Memory, m': Memory, own: Owners) {
    forall r {:trigger Get(m', r, RECURSIVE)} :: r in own && own[r].Top? ==>
      Get(m', r, RECURSIVE) == Get(m, r, RECURSIVE)
  }

  /** However far `map_to` gets, the tables form trees and present entries are kept. */
  lemma {:induction false} ReachGrows(k: Kernel, own: Owners, f: Frame, level: nat, root: Frame, req: Request)
    requires OnWay(k, own, f, level, root, req.page)
    ensures var k', own' := Reach(k, f, level, req), ReachOwners(k, own, f, level, root, req);
            Good(k', own') && Grown(k, own, k', own', root)
    decreases level
  {
    hide NextTableCreate, OwnersBelow, Good, Grown, Index, SetLeaf;
    GrownRefl(k, own, root);
    if level == 1 {
      LeafReached(k, own, f, root, req);
    } else {
      var r := NextTableCreate(k, f, Index(req.page, level));
      if r.Ok? {
        StepBelow(k, own, f, level, root, req.page);
        var own1 := OwnersBelow(k, own, f, level, root, req.page);
        ReachGrows(r.value.0, own1, r.value.1, level - 1, root, req);
        GrownTrans(k, own, r.value.0, own1, Reach(k, f, level, req), ReachOwners(k, own, f, level, root, req), root);
      }
    }
  }

  lemma {:induction false} ReachIsMapFrom(k: Kernel, f: Frame, level: nat, req: Request)
    requires 1 <= level <= 4
    ensures MapFrom(k, f, level, req.page, req.frame, req.flags).Ok? ==>
              Reach(k, f, level, req) == MapFrom(k, f, level, req.page, req.frame, req.flags).value
    decreases level
  {
    if level > 1 {
      var r := NextTableCreate(k, f, Index(req.page, level));
      if r.Ok? {
        ReachIsMapFrom(r.value.0, r.value.1, level - 1, req);
      }
    }
  }

  lemma StepKeeps(k: Kernel, own: Owners, f: Frame, level: nat, root: Frame, page: nat, g: Frame)
    requires OnWay(k, own, f, level, root, page) && level > 1 && g in own && Level(own[g]) > level
    requires NextTableCreate(k, f, Index(page, level)).Ok?
    ensures var k' := NextTableCreate(k, f, Index(page, level)).value.0;
            var own' := OwnersBelow(k, own, f, level, root, page);
            && g in own' && own'[g] == own[g]
            && forall x :: 0 <= x < ENTRY_COUNT ==> Get(k'.mem, g, x) == Get(k.mem, g, x)
  {
    hide Index, Tree, SlotsToRoots, PathOf;
  }

  lemma ReachStep(k: Kernel, f: Frame, level: nat, req: Request)
    requires 2 <= level <= 4
    ensures var r := NextTableCreate(k, f, Index(req.page, level));
            Reach(k, f, level, req) == if r.Ok? then Reach(r.value.0, r.value.1, level - 1, req) else k
  {
    hide Index, NextTableCreate;
  }

  /** Tables above the level are left alone. */
  lemma {:induction false} ReachKeeps(k: Kernel, own: Owners, f: Frame, level: nat, root: Frame, req: Request, g: Frame)
    requires OnWay(k, own, f, level, root, req.page) && g in own && Level(own[g]) > level
    ensures forall x :: 0 <= x < ENTRY_COUNT ==> Get(Reach(k, f, level, req).mem, g, x) == Get(k.mem, g, x)
    decreases level
  {
    hide NextTableCreate, OwnersBelow, Good, Index, Reach, Grown, PathOf, SetLeaf;
    if level == 1 {
      LeafKeeps(k, f, req, g);
    } else {
      ReachStep(k, f, level, req);
      var r := NextTableCreate(k, f, Index(req.page, level));
      if r.Ok? {
        StepBelow(k, own, f, level, root, req.page);
        StepKeeps(k, own, f, level, root, req.page, g);
        ReachKeeps(r.value.0, OwnersBelow(k, own, f, level, root, req.page), r.value.1, level - 1, root, req, g);
      }
    }
  }

  lemma LeafKeeps(k: Kernel, f: Frame, req: Request, g: Frame)
    requires g != f
    ensures forall x :: 0 <= x < ENTRY_COUNT ==> Get(Reach(k, f, 1, req).mem, g, x) == Get(k.mem, g, x)
  {
    hide Index;
  }

  /** What `map_to` stores in the page's entry of a table, if it is unused, when these
      frames are still to be allocated. */
  function Stored(free: seq<Frame>, level: nat, req: Request): Entry {
    if level == 1 then if req.frame < FRAME_LIMIT then req.Leaf() else UNUSED
    else if free == [] then UNUSED else TableEntry(free[0])
  }

  /** The fresh table itself: empty but for the entry on the page's way. */
  lemma FreshTop(k: Kernel, own: Owners, f: Frame, level: nat, root: Frame, req: Request)
    requires OnWay(k, own, f, level, root, req.page) && f in k.mem && k.mem[f] == EmptyTable()
    ensures forall x :: 0 <= x < ENTRY_COUNT ==>
              Get(Reach(k, f, level, req).mem, f, x) ==
              if x == Index(req.page, level) then Stored(k.free, level, req) else UNUSED
  {
    if level > 1 {
      var i := Index(req.page, level);
      var r := NextTableCreate(k, f, i);
      if r.Ok? {
        StepBelow(k, own, f, level, root, req.page);
        ReachKeeps(r.value.0, OwnersBelow(k, own, f, level, root, req.page), r.value.1, level - 1, root, req, f);
      }
    }
  }

  /** Word `x` of the fresh frame that becomes the table of `level`, when `need` tables
      are missing. */
  function Leftover(k: Kernel, need: nat, level: nat, x: nat): Entry
    requires 1 <= level <= need && need - level < |k.free| && x < ENTRY_COUNT
  {
    Get(k.mem, k.free[need - level], x)
  }

  /** Frame `g` is the fresh table of level `at`: which frame of the supply it is, when
      `need` tables are missing, where it hangs, and what it holds in the end. */
  ghost predicate FreshAt(free: seq<Frame>, need: nat, goal: Memory, places: Owners, root: Frame, req: Request,
      g: Frame, at: nat)
  {
    && 1 <= at <= need && at <= 4 && need - at < |free| && g == free[need - at]
    && g in places && places[g] == PathOf(root, req.page, at)
    && forall x {:trigger Get(goal, g, x)} :: 0 <= x < ENTRY_COUNT ==>
         Get(goal, g, x) == if x == Index(req.page, at) then Stored(free[need - at + 1..], at, req) else UNUSED
  }

  lemma FreshShift(free: seq<Frame>, need: nat, goal: Memory, places: Owners, root: Frame, req: Request,
      g: Frame, at: nat)
    requires free != [] && FreshAt(free[1..], need, goal, places, root, req, g, at)
    ensures FreshAt(free, need + 1, goal, places, root, req, g, at)
  {
    assert free[1..][need - at + 1..] == free[need + 1 - at + 1..];
  }

  /** Every table that was not there before is such a table. */
  lemma {:induction false} FreshTable(k: Kernel, own: Owners, f: Frame, level: nat, root: Frame, req: Request, g: Frame)
      returns (at: nat)
    requires OnWay(k, own, f, level, root, req.page)
    requires g in ReachOwners(k, own, f, level, root, req) && g !in own
    ensures FreshAt(k.free, Missing(k.mem, f, level, req.page), Reach(k, f, level, req).mem,
                    ReachOwners(k, own, f, level, root, req), root, req, g, at)
    decreases level
  {
    StepBelow(k, own, f, level, root, req.page);
    OneUnfolded(k, own, f, level, root, req);
    var own' := OwnersBelow(k, own, f, level, root, req.page);
    if g in own' {
      at := level - 1;
      FreshFirst(k, own, f, level, root, req);
    } else {
      hide NextTableCreate, OwnersBelow, Missing, Reach, ReachOwners, FreshAt, Good, Index, Grown;
      var (k', t) := NextTableCreate(k, f, Index(req.page, level)).value;
      at := FreshTable(k', own', t, level - 1, root, req, g);
      if !Get(k.mem, f, Index(req.page, level)).IsTable() {
        FreshShift(k.free, level - 2, Reach(k, f, level, req).mem, ReachOwners(k, own, f, level, root, req),
                   root, req, g, at);
      }
    }
  }

  /** One step of the recursions along the way of a page. */
  lemma OneUnfolded(k: Kernel, own: Owners, f: Frame, level: nat, root: Frame, req: Request)
    requires 2 <= level <= 4 && NextTableCreate(k, f, Index(req.page, level)).Ok?
    ensures var (k', t) := NextTableCreate(k, f, Index(req.page, level)).value;
            var own' := OwnersBelow(k, own, f, level, root, req.page);
            && Reach(k, f, level, req) == Reach(k', t, level - 1, req)
            && ReachOwners(k, own, f, level, root, req) == ReachOwners(k', own', t, level - 1, root, req)
            && if Get(k.mem, f, Index(req.page, level)).IsTable()
               then && k' == k && own' == own
                    && Missing(k.mem, f, level, req.page) == Missing(k.mem, t, level - 1, req.page)
               else && Missing(k.mem, f, level, req.page) == level - 1
                    && Missing(k'.mem, t, level - 1, req.page) == level - 2
                    && k.free != [] && t == k.free[0] && k'.free == k.free[1..]
  {
    var (k', t) := NextTableCreate(k, f, Index(req.page, level)).value;
    if !Get(k.mem, f, Index(req.page, level)).IsTable() {
      NoneBelow(k'.mem, t, level - 1, req.page);
    }
  }

  lemma NoneBelow(m: Memory, t: Frame, level: nat, page: nat)
    requires 1 <= level <= 4 && t in m && m[t] == EmptyTable()
    ensures Missing(m, t, level, page) == level - 1
  {
  }

  lemma FreshFirst(k: Kernel, own: Owners, f: Frame, level: nat, root: Frame, req: Request)
    requires OnWay(k, own, f, level, root, req.page) && level > 1
    requires !Get(k.mem, f, Index(req.page, level)).IsTable() && NextTableCreate(k, f, Index(req.page, level)).Ok?
    ensures FreshAt(k.free, level - 1, Reach(k, f, level, req).mem, ReachOwners(k, own, f, level, root, req),
                    root, req, k.free[0], level - 1)
  {
    var (k', t) := NextTableCreate(k, f, Index(req.page, level)).value;
    var own' := OwnersBelow(k, own, f, level, root, req.page);
    StepBelow(k, own, f, level, root, req.page);
    FreshTop(k', own', t, level - 1, root, req);
    ReachGrows(k', own', t, level - 1, root, req);
  }

  /** A word left over in a fresh frame does no harm: it has no PRESENT bit, no walk reads
      it, it is just what `map_to` will store there, or it is only seen through the page
      itself, which is flushed. */
  predicate HarmlessWord(k: Kernel, cr3: Frame, root: Frame, req: Request, flush: bool, need: nat, level: nat, x: nat)
    requires 1 <= level <= need && need - level < |k.free| && x < ENTRY_COUNT
  {
    var e := Leftover(k, need, level, x);
    || !e.Present()
    || (level == 1 && cr3 != root)
    || (x == Index(req.page, level) && (e == Stored(k.free[need - level + 1..], level, req) || (flush && level == 1)))
  }

  /** The same of all words of the frames in which `map_to` makes tables; it makes none for
      a page that has a translation. */
  ghost predicate Harmless(k: Kernel, cr3: Frame, root: Frame, req: Request, flush: bool) {
    var need := Missing(k.mem, root, 4, req.page);
    Walk(k.mem, root, req.page).None? ==>
      forall level, x {:trigger HarmlessWord(k, cr3, root, req, flush, need, level, x)} ::
        1 <= level <= need && need - level < |k.free| && 0 <= x < ENTRY_COUNT ==>
          HarmlessWord(k, cr3, root, req, flush, need, level, x)
  }

  lemma {:induction false} NoneMade(k: Kernel, own: Owners, f: Frame, level: nat, root: Frame, req: Request)
    requires 1 <= level <= 4 && WalkFrom(k.mem, f, level, req.page).Some?
    ensures ReachOwners(k, own, f, level, root, req) == own
    decreases level
  {
    if level > 1 && Get(k.mem, f, Index(req.page, level)).IsTable() {
      NoneMade(k, own, Get(k.mem, f, Index(req.page, level)).frame, level - 1, root, req);
    }
  }

  function But(req: Request, flush: bool): Option<nat> { if flush then Some(req.page) else None }

  /** The way to where `map_to` ends is free of stale translations from the start. */
  lemma HarmlessHeads(k: Kernel, own: Owners, cr3: Frame, root: Frame, req: Request, flush: bool)
    requires OnWay(k, own, root, 4, root, req.page) && Harmless(k, cr3, root, req, flush)
    ensures Heading(k.mem, Reach(k, root, 4, req).mem, ReachOwners(k, own, root, 4, root, req), cr3, But(req, flush))
  {
    hide Walk;
    var goal, own' := Reach(k, root, 4, req).mem, ReachOwners(k, own, root, 4, root, req);
    ReachGrows(k, own, root, 4, root, req);
    if Walk(k.mem, root, req.page).Some? {
      WalkIs(k.mem, root, req.page);
      NoneMade(k, own, root, 4, root, req);
    }
    forall g, i | g in own' && 0 <= i < ENTRY_COUNT && Get(k.mem, g, i).Present()
        && !Spared(own', cr3, But(req, flush), g, i)
      ensures Get(k.mem, g, i) == Get(goal, g, i)
    {
      if g !in own {
        var at := FreshTable(k, own, root, 4, root, req, g);
        assert HarmlessWord(k, cr3, root, req, flush, Missing(k.mem, root, 4, req.page), at, i);
      }
    }
  }

  /** A table with its first `n` entries zeroed. */
  function ZeroedTo(m: Memory, t: Frame, n: nat): Table {
    seq(512, i requires 0 <= i < ENTRY_COUNT => if i < n then UNUSED else Get(m, t, i))
  }

  /** The memories that zeroing frame `t` entry by entry goes through. */
  function Zeroing(m: Memory, t: Frame): seq<Memory> {
    seq(512, n requires 0 <= n < ENTRY_COUNT => m[t := ZeroedTo(m, t, n + 1)])
  }

  /** The memories after each store of `map_to`, from the table of `level` on. */
  function Stores(k: Kernel, f: Frame, level: nat, req: Request): seq<Memory>
    requires 1 <= level <= 4
    decreases level
  {
    if level == 1 then
      var r := SetLeaf(k, f, req.page, req.frame, req.flags);
      if r.Ok? then [r.value.mem] else []
    else
      var i := Index(req.page, level);
      var r := NextTableCreate(k, f, i);
      if r.Panic? then []
      else if Get(k.mem, f, i).IsTable() then Stores(k, r.value.1, level - 1, req)
      else
        var (k', t) := r.value;
        var m1 := Linked(k.mem, f, i, t);
        [m1] + Zeroing(m1, t) + Stores(k', t, level - 1, req)
  }

  lemma ZeroHeads(m: Memory, goal: Memory, own: Owners, cr3: Frame, but: Option<nat>, t: Frame, c: Table)
    requires Heading(m, goal, own, cr3, but)
    requires forall i :: 0 <= i < ENTRY_COUNT && c[i].Present() ==> c[i] == Get(m, t, i)
    ensures Heading(m[t := c], goal, own, cr3, but)
  {
    forall g, j | g in own && 0 <= j < ENTRY_COUNT && Get(m[t := c], g, j).Present() && !Spared(own, cr3, but, g, j)
      ensures Get(m[t := c], g, j) == Get(goal, g, j)
    {
      assert Get(m[t := c], g, j) == Get(m, g, j);
    }
  }

  /** The link that `next_table_create` sets stays to the end. */
  lemma ReachLinks(k: Kernel, own: Owners, f: Frame, level: nat, root: Frame, req: Request)
    requires OnWay(k, own, f, level, root, req.page) && level > 1
    requires !Get(k.mem, f, Index(req.page, level)).IsTable() && NextTableCreate(k, f, Index(req.page, level)).Ok?
    ensures Get(Reach(k, f, level, req).mem, f, Index(req.page, level)) == TableEntry(k.free[0])
  {
    var (k', t) := NextTableCreate(k, f, Index(req.page, level)).value;
    StepBelow(k, own, f, level, root, req.page);
    var own' := OwnersBelow(k, own, f, level, root, req.page);
    assert Get(k'.mem, f, Index(req.page, level)) == TableEntry(t);
    hide NextTableCreate, OwnersBelow, Good;
    ReachGrows(k', own', t, level - 1, root, req);
  }

  /** The stores that link a table keep the course, and so do those that zero it. */
  lemma LinkHeads(m: Memory, goal: Memory, own: Owners, cr3: Frame, but: Option<nat>, f: Frame, i: nat, t: Frame)
    requires Heading(m, goal, own, cr3, but) && f in m && i < ENTRY_COUNT && Get(goal, f, i) == TableEntry(t)
    ensures Heading(Linked(m, f, i, t), goal, own, cr3, but)
    ensures forall m' :: m' in Zeroing(Linked(m, f, i, t), t) ==> Heading(m', goal, own, cr3, but)
    ensures Heading(Link(m, f, i, t), goal, own, cr3, but)
  {
    var m1 := Linked(m, f, i, t);
    StoreHeads(m, goal, own, cr3, but, f, i, TableEntry(t));
    hide Heading;
    forall m' | m' in Zeroing(m1, t)
      ensures Heading(m', goal, own, cr3, but)
    {
      var n :| 0 <= n < ENTRY_COUNT && m' == m1[t := ZeroedTo(m1, t, n + 1)];
      ZeroHeads(m1, goal, own, cr3, but, t, ZeroedTo(m1, t, n + 1));
    }
    ZeroHeads(m1, goal, own, cr3, but, t, EmptyTable());
  }

  /** Every store of `map_to` keeps the course to where it ends. */
  lemma {:induction false} StoresHead(k: Kernel, own: Owners, f: Frame, level: nat, root: Frame, req: Request,
      places: Owners, cr3: Frame, but: Option<nat>, m: Memory)
    requires OnWay(k, own, f, level, root, req.page) && m in Stores(k, f, level, req)
    requires Heading(k.mem, Reach(k, f, level, req).mem, places, cr3, but)
    ensures Heading(m, Reach(k, f, level, req).mem, places, cr3, but)
    decreases level, 1
  {
    hide Heading, Reach, Stores, NextTableCreate, OwnersBelow, Good, Index, PathOf;
    if level == 1 {
      LeafHeads(k, f, req, places, cr3, but, m);
    } else if Get(k.mem, f, Index(req.page, level)).IsTable() {
      SameStores(k, f, level, req);
      ReachStep(k, f, level, req);
      TableBelow(k, own, f, level, root, req.page);
      StoresHead(k, own, Get(k.mem, f, Index(req.page, level)).frame, level - 1, root, req, places, cr3, but, m);
    } else {
      StoresHeadHere(k, own, f, level, root, req, places, cr3, but, m);
    }
  }

  lemma TableBelow(k: Kernel, own: Owners, f: Frame, level: nat, root: Frame, page: nat)
    requires OnWay(k, own, f, level, root, page) && level > 1 && Get(k.mem, f, Index(page, level)).IsTable()
    ensures OnWay(k, own, Get(k.mem, f, Index(page, level)).frame, level - 1, root, page)
  {
    hide Index;
    StepDown(k.mem, own, f, level, page);
  }

  lemma {:induction false} StoresHeadHere(k: Kernel, own: Owners, f: Frame, level: nat, root: Frame, req: Request,
      places: Owners, cr3: Frame, but: Option<nat>, m: Memory)
    requires OnWay(k, own, f, level, root, req.page) && m in Stores(k, f, level, req) && level > 1
    requires !Get(k.mem, f, Index(req.page, level)).IsTable()
    requires Heading(k.mem, Reach(k, f, level, req).mem, places, cr3, but)
    ensures Heading(m, Reach(k, f, level, req).mem, places, cr3, but)
    decreases level, 0
  {
    hide Heading, Reach, Stores, NextTableCreate, OwnersBelow, Good, Index, PathOf, Zeroing, Linked, Link, Grown;
    StoresBelow(k, f, level, req);
    ReachStep(k, f, level, req);
    StepBelow(k, own, f, level, root, req.page);
    ReachLinks(k, own, f, level, root, req);
    var (k', t) := NextTableCreate(k, f, Index(req.page, level)).value;
    LinkHeads(k.mem, Reach(k, f, level, req).mem, places, cr3, but, f, Index(req.page, level), t);
    if m in Stores(k', t, level - 1, req) {
      StoresHead(k', OwnersBelow(k, own, f, level, root, req.page), t, level - 1, root, req, places, cr3, but, m);
    }
  }

  lemma LeafHeads(k: Kernel, f: Frame, req: Request, places: Owners, cr3: Frame, but: Option<nat>, m: Memory)
    requires m in Stores(k, f, 1, req) && Heading(k.mem, Reach(k, f, 1, req).mem, places, cr3, but)
    ensures Heading(m, Reach(k, f, 1, req).mem, places, cr3, but)
  {
    hide Heading, Index;
    StoreHeads(k.mem, Reach(k, f, 1, req).mem, places, cr3, but, f, Index(req.page, 1), req.Leaf());
  }

  /** One step of the stores: none, or those that link and zero a table. */
  lemma StoresBelow(k: Kernel, f: Frame, level: nat, req: Request)
    requires 2 <= level <= 4
    ensures var i := Index(req.page, level);
            var r := NextTableCreate(k, f, i);
            if r.Panic? then Stores(k, f, level, req) == []
            else if Get(k.mem, f, i).IsTable() then Stores(k, f, level, req) == Stores(k, r.value.1, level - 1, req)
            else && f in k.mem && k.free != [] && r.value.1 == k.free[0]
                 && r.value.0.mem == Link(k.mem, f, i, k.free[0])
                 && Stores(k, f, level, req) ==
                    [Linked(k.mem, f, i, k.free[0])] + Zeroing(Linked(k.mem, f, i, k.free[0]), k.free[0])
                    + Stores(r.value.0, k.free[0], level - 1, req)
  {
    hide Index, Zeroing, Linked, Link;
  }

  /** A page was translated like this at some moment. */
  ghost predicate Seen(ms: seq<Memory>, cr3: Frame, page: nat, e: Entry) {
    exists j :: 0 <= j < |ms| && Walk(ms[j], cr3, page) == Some(e)
  }

  /** A cache that hardware may hold after these memories: each entry was right once. */
  ghost predicate CachedDuring(ms: seq<Memory>, cr3: Frame, tlb: Cache) {
    forall p {:trigger tlb[p]} {:trigger p in tlb} :: p in tlb ==> Canonical(p) && Seen(ms, cr3, p, tlb[p])
  }

  /** Whatever was cached, after these pages are flushed nothing stale is left. */
  ghost predicate AlwaysCoherent(ms: seq<Memory>, m: Memory, cr3: Frame, flushed: set<nat>) {
    forall tlb: Cache {:trigger CachedDuring(ms, cr3, tlb)} :: CachedDuring(ms, cr3, tlb) ==>
      Coherent(m, cr3, tlb - flushed)
  }

  /** The moment at which a fresh table has been linked and not yet zeroed. */
  ghost predicate LinkedMoment(ms: seq<Memory>, m: Memory, k: Kernel, cr3: Frame, root: Frame, n: Path, t: Frame)
    requires ValidPath(n)
  {
    && m in ms && Recursive(m, cr3, root) && TableAt(m, n) == Some(t)
    && forall x {:trigger Get(m, t, x)} :: 0 <= x < ENTRY_COUNT ==> Get(m, t, x) == Get(k.mem, t, x)
  }

  lemma InPlaceBelow(k: Kernel, own: Owners, f: Frame, level: nat, root: Frame, page: nat, cr3: Frame)
    requires OnWay(k, own, f, level, root, page) && level > 1 && InPlace(k.mem, own, cr3, f)
    requires NextTableCreate(k, f, Index(page, level)).Ok?
    ensures var (k', t) := NextTableCreate(k, f, Index(page, level)).value;
            InPlace(k'.mem, OwnersBelow(k, own, f, level, root, page), cr3, t)
  {
    var i := Index(page, level);
    var (k', t) := NextTableCreate(k, f, i).value;
    var own' := OwnersBelow(k, own, f, level, root, page);
    StepBelow(k, own, f, level, root, page);
    assert SlotOk(k.mem, own, f, i) && NodeOk(k'.mem, own', t);
    if !Get(k.mem, f, i).IsTable() {
      LinkedPath(k.mem, own, cr3, f, i, t, k'.mem);
    }
  }

  /** `map_to` is at the table in `f`, which is reached at its place, and will succeed. */
  ghost predicate Under(k: Kernel, own: Owners, f: Frame, level: nat, root: Frame, req: Request, cr3: Frame) {
    && OnWay(k, own, f, level, root, req.page) && InPlace(k.mem, own, cr3, f)
    && MapFrom(k, f, level, req.page, req.frame, req.flags).Ok?
  }

  /** It is at the table below after one `next_table_create`. */
  lemma OneBelow(k: Kernel, own: Owners, f: Frame, level: nat, root: Frame, req: Request, cr3: Frame)
    requires Under(k, own, f, level, root, req, cr3) && level > 1
    ensures NextTableCreate(k, f, Index(req.page, level)).Ok?
    ensures var (k', t) := NextTableCreate(k, f, Index(req.page, level)).value;
            var own' := OwnersBelow(k, own, f, level, root, req.page);
            && Under(k', own', t, level - 1, root, req, cr3)
            && Reach(k, f, level, req) == Reach(k', t, level - 1, req)
            && ReachOwners(k, own, f, level, root, req) == ReachOwners(k', own', t, level - 1, root, req)
            && if Get(k.mem, f, Index(req.page, level)).IsTable()
               then && k' == k && own' == own
                    && Missing(k.mem, f, level, req.page) == Missing(k.mem, t, level - 1, req.page)
               else && Missing(k.mem, f, level, req.page) == level - 1
                    && Missing(k'.mem, t, level - 1, req.page) == level - 2
                    && k.free != [] && t == k.free[0] && k'.free == k.free[1..]
  {
    hide Good, InPlace, Grown;
    StepBelow(k, own, f, level, root, req.page);
    InPlaceBelow(k, own, f, level, root, req.page, cr3);
    OneUnfolded(k, own, f, level, root, req);
  }

  /** There is such a moment for the fresh table of every level. */
  lemma {:induction false} FreshLinked(k: Kernel, own: Owners, f: Frame, level: nat, root: Frame, req: Request,
      cr3: Frame, at: nat) returns (m: Memory)
    requires Under(k, own, f, level, root, req, cr3)
    requires var need := Missing(k.mem, f, level, req.page); 1 <= at <= need && need - at < |k.free|
    ensures at <= 3
    ensures LinkedMoment(Stores(k, f, level, req), m, k, cr3, root, PathOf(root, req.page, at),
                         k.free[Missing(k.mem, f, level, req.page) - at])
    decreases level, 1
  {
    hide NextTableCreate, OwnersBelow, Missing, Reach, ReachOwners, MapFrom, LinkedMoment, InPlace, Good, Stores, Index;
    MissingBound(k.mem, f, level, req.page);
    OneBelow(k, own, f, level, root, req, cr3);
    if Get(k.mem, f, Index(req.page, level)).IsTable() {
      SameStores(k, f, level, req);
      m := FreshLinked(k, own, Get(k.mem, f, Index(req.page, level)).frame, level - 1, root, req, cr3, at);
    } else {
      m := FreshLinkedHere(k, own, f, level, root, req, cr3, at);
    }
  }

  lemma {:induction false} FreshLinkedHere(k: Kernel, own: Owners, f: Frame, level: nat, root: Frame, req: Request,
      cr3: Frame, at: nat) returns (m: Memory)
    requires Under(k, own, f, level, root, req, cr3) && !Get(k.mem, f, Index(req.page, level)).IsTable()
    requires 1 <= at <= level - 1 < |k.free| + at
    ensures LinkedMoment(Stores(k, f, level, req), m, k, cr3, root, PathOf(root, req.page, at), k.free[level - 1 - at])
    decreases level, 0
  {
    hide NextTableCreate, OwnersBelow, Missing, Reach, ReachOwners, MapFrom, LinkedMoment, InPlace, Good, Stores, Index;
    OneBelow(k, own, f, level, root, req, cr3);
    if at == level - 1 {
      m := FirstMoment(k, own, f, level, root, req, cr3);
    } else {
      var (k', t) := NextTableCreate(k, f, Index(req.page, level)).value;
      var own' := OwnersBelow(k, own, f, level, root, req.page);
      m := FreshLinked(k', own', t, level - 1, root, req, cr3, at);
      LaterMoment(k, own, f, level, root, req, cr3, at, m);
    }
  }

  lemma SameStores(k: Kernel, f: Frame, level: nat, req: Request)
    requires 2 <= level <= 4 && Get(k.mem, f, Index(req.page, level)).IsTable()
    ensures Stores(k, f, level, req) == Stores(k, Get(k.mem, f, Index(req.page, level)).frame, level - 1, req)
    ensures NextTableCreate(k, f, Index(req.page, level)) == Ok((k, Get(k.mem, f, Index(req.page, level)).frame))
  {
  }

  lemma FirstMoment(k: Kernel, own: Owners, f: Frame, level: nat, root: Frame, req: Request, cr3: Frame)
      returns (m: Memory)
    requires OnWay(k, own, f, level, root, req.page) && level > 1 && InPlace(k.mem, own, cr3, f)
    requires !Get(k.mem, f, Index(req.page, level)).IsTable() && NextTableCreate(k, f, Index(req.page, level)).Ok?
    ensures LinkedMoment(Stores(k, f, level, req), m, k, cr3, root, PathOf(root, req.page, level - 1), k.free[0])
  {
    var i, t := Index(req.page, level), k.free[0];
    m := Linked(k.mem, f, i, t);
    assert SlotOk(k.mem, own, f, i);
    LinkedPath(k.mem, own, cr3, f, i, t, m);
    assert Stores(k, f, level, req)[0] == m;
  }

  lemma LaterMoment(k: Kernel, own: Owners, f: Frame, level: nat, root: Frame, req: Request, cr3: Frame, at: nat,
      m: Memory)
    requires OnWay(k, own, f, level, root, req.page) && 1 <= at < level - 1 < |k.free| + at
    requires !Get(k.mem, f, Index(req.page, level)).IsTable() && NextTableCreate(k, f, Index(req.page, level)).Ok?
    requires var (k', t) := NextTableCreate(k, f, Index(req.page, level)).value;
             LinkedMoment(Stores(k', t, level - 1, req), m, k', cr3, root, PathOf(root, req.page, at),
                          k.free[level - 1 - at])
    ensures LinkedMoment(Stores(k, f, level, req), m, k, cr3, root, PathOf(root, req.page, at), k.free[level - 1 - at])
  {
    hide Zeroing, Linked, Recursive, TableAt, PathOf, Tree, SlotsToRoots;
    var g := k.free[level - 1 - at];
    assert g != k.free[0] && g != f;
  }

  /** Where the fresh table of every level is in the end, and what it holds. */
  lemma {:induction false} FreshEnd(k: Kernel, own: Owners, f: Frame, level: nat, root: Frame, req: Request,
      cr3: Frame, at: nat)
    requires Under(k, own, f, level, root, req, cr3) && 1 <= at <= 4
    requires var need := Missing(k.mem, f, level, req.page); at <= need && need - at < |k.free|
    ensures var need, goal := Missing(k.mem, f, level, req.page), Reach(k, f, level, req).mem;
            && FreshAt(k.free, need, goal, ReachOwners(k, own, f, level, root, req), root, req, k.free[need - at], at)
            && TableAt(goal, PathOf(root, req.page, at)) == Some(k.free[need - at])
    decreases level, 1
  {
    hide NextTableCreate, OwnersBelow, Missing, Reach, ReachOwners, MapFrom, FreshAt, InPlace, Good, TableAt;
    hide Index, PathOf;
    MissingBound(k.mem, f, level, req.page);
    OneBelow(k, own, f, level, root, req, cr3);
    if Get(k.mem, f, Index(req.page, level)).IsTable() {
      SameStores(k, f, level, req);
      FreshEnd(k, own, Get(k.mem, f, Index(req.page, level)).frame, level - 1, root, req, cr3, at);
    } else {
      FreshEndHere(k, own, f, level, root, req, cr3, at);
    }
  }

  lemma {:induction false} FreshEndHere(k: Kernel, own: Owners, f: Frame, level: nat, root: Frame, req: Request,
      cr3: Frame, at: nat)
    requires Under(k, own, f, level, root, req, cr3) && !Get(k.mem, f, Index(req.page, level)).IsTable()
    requires 1 <= at <= level - 1 < |k.free| + at
    ensures var goal, t := Reach(k, f, level, req).mem, k.free[level - 1 - at];
            && FreshAt(k.free, level - 1, goal, ReachOwners(k, own, f, level, root, req), root, req, t, at)
            && TableAt(goal, PathOf(root, req.page, at)) == Some(t)
    decreases level, 0
  {
    hide NextTableCreate, OwnersBelow, Missing, Reach, ReachOwners, MapFrom, FreshAt, InPlace, Good, TableAt, Index;
    OneBelow(k, own, f, level, root, req, cr3);
    var (k', t) := NextTableCreate(k, f, Index(req.page, level)).value;
    var own' := OwnersBelow(k, own, f, level, root, req.page);
    if at == level - 1 {
      FreshFirst(k, own, f, level, root, req);
      ReachPath(k', own', t, level - 1, root, req, cr3);
    } else {
      FreshEnd(k', own', t, level - 1, root, req, cr3, at);
      FreshShift(k.free, level - 2, Reach(k, f, level, req).mem, ReachOwners(k, own, f, level, root, req),
                 root, req, k.free[level - 1 - at], at);
    }
  }

  lemma ReachPath(k: Kernel, own: Owners, f: Frame, level: nat, root: Frame, req: Request, cr3: Frame)
    requires OnWay(k, own, f, level, root, req.page) && InPlace(k.mem, own, cr3, f)
    ensures TableAt(Reach(k, f, level, req).mem, PathOf(root, req.page, level)) == Some(f)
    ensures Recursive(Reach(k, f, level, req).mem, cr3, root)
  {
    hide Reach, ReachOwners;
    ReachGrows(k, own, f, level, root, req);
    var goal := Reach(k, f, level, req).mem;
    TableAtKept(k.mem, goal, own, own[f]);
    assert Get(goal, cr3, RECURSIVE) == Get(k.mem, cr3, RECURSIVE);
    assert Get(goal, root, RECURSIVE) == Get(k.mem, root, RECURSIVE);
  }

  /** A word that does harm translates, between linking its table and zeroing it, a page
      that is not flushed, and not as it is in the end. */
  lemma HarmSeen(k: Kernel, own: Owners, cr3: Frame, root: Frame, req: Request, flush: bool, at: nat, x: nat)
      returns (page: nat)
    requires Under(k, own, root, 4, root, req, cr3)
    requires var need := Missing(k.mem, root, 4, req.page);
             && 1 <= at <= need && need - at < |k.free| && x < ENTRY_COUNT
             && !HarmlessWord(k, cr3, root, req, flush, need, at, x)
    ensures var e := Leftover(k, Missing(k.mem, root, 4, req.page), at, x);
            && Canonical(page) && But(req, flush) != Some(page)
            && Seen(Stores(k, root, 4, req), cr3, page, e) && Walk(Reach(k, root, 4, req).mem, cr3, page) != Some(e)
  {
    hide Walk, Stores, Reach, ReachOwners, MapFrom, Missing, InPlace, Good, LinkedMoment, Index, TableAt, Recursive;
    MissingBound(k.mem, root, 4, req.page);
    var need, goal, n := Missing(k.mem, root, 4, req.page), Reach(k, root, 4, req).mem, PathOf(root, req.page, at);
    PathPlainAt(root, req.page, at);
    var m := FreshLinked(k, own, root, 4, root, req, cr3, at);
    FreshEnd(k, own, root, 4, root, req, cr3, at);
    ReachPath(k, own, root, 4, root, req, cr3);
    page := EntryPage(n, x);
    WordSeen(Stores(k, root, 4, req), m, goal, k, cr3, root, n, k.free[need - at], x);
  }

  /** Entry `x` of a table, before it is zeroed and in the end. */
  lemma WordSeen(ms: seq<Memory>, m: Memory, goal: Memory, k: Kernel, cr3: Frame, root: Frame, n: Path, t: Frame,
      x: nat)
    requires ValidPath(n) && PlainPath(n) && 1 <= Level(n) && RootOf(n) == root && x < ENTRY_COUNT
    requires LinkedMoment(ms, m, k, cr3, root, n, t) && Recursive(goal, cr3, root) && TableAt(goal, n) == Some(t)
    requires (Level(n) > 1 || cr3 == root) && Get(k.mem, t, x).Present()
    ensures var page := EntryPage(n, x);
            && Canonical(page) && Seen(ms, cr3, page, Get(k.mem, t, x))
            && Walk(goal, cr3, page) == Target(Get(goal, t, x))
            && if Level(n) > 1 then Index(page, 4) == RECURSIVE else Index(page, 1) == x
  {
    hide Walk, EntryPage, Recursive, Index, Canonical;
    EntrySeen(m, cr3, n, x);
    EntrySeen(goal, cr3, n, x);
    assert Get(m, t, x) == Get(k.mem, t, x);
    var j :| 0 <= j < |ms| && ms[j] == m;
    assert Walk(ms[j], cr3, EntryPage(n, x)) == Some(Get(k.mem, t, x));
  }

  lemma PathPlainAt(root: Frame, page: nat, level: nat)
    requires Plain(page) && 1 <= level <= 4
    ensures PlainPath(PathOf(root, page, level))
  {
    PathPlain(root, page);
    assert PlainPath(PathOf(root, page, 2));
  }

  /** When flushing the mapped page is enough, and when nothing need be flushed. Hardware
      may cache any translation at any moment while `map_to` stores. Afterwards, and after
      the flush if there is one, nothing stale can be cached exactly if every word left
      over in the fresh frames is harmless. */
  lemma MapCoherentIff(k: Kernel, own: Owners, cr3: Frame, root: Frame, req: Request, flush: bool)
    requires OnWay(k, own, root, 4, root, req.page) && InPlace(k.mem, own, cr3, root)
    requires MapTo(k, root, req.page, req.frame, req.flags).Ok?
    ensures AlwaysCoherent([k.mem] + Stores(k, root, 4, req), MapTo(k, root, req.page, req.frame, req.flags).value.mem,
                           cr3, if flush then {req.page} else {})
            <==> Harmless(k, cr3, root, req, flush)
  {
    hide MapTo, Walk, Stores, Reach, ReachOwners, Good, HarmlessWord;
    MapToIsMapFrom(k, root, req.page, req.frame, req.flags);
    ReachIsMapFrom(k, root, 4, req);
    Untranslated(k, own, root, req);
    if Harmless(k, cr3, root, req, flush) {
      HarmlessCoherent(k, own, cr3, root, req, flush);
    } else {
      var need := Missing(k.mem, root, 4, req.page);
      var at, x :| 1 <= at <= need && need - at < |k.free| && 0 <= x < ENTRY_COUNT
          && !HarmlessWord(k, cr3, root, req, flush, need, at, x);
      var page := HarmSeen(k, own, cr3, root, req, flush, at, x);
      var tlb: Cache := map[page := Leftover(k, need, at, x)];
      SeenLater([k.mem], Stores(k, root, 4, req), cr3, page, tlb[page]);
      assert CachedDuring([k.mem] + Stores(k, root, 4, req), cr3, tlb);
      assert page in tlb - if flush then {req.page} else {};
    }
  }

  lemma Untranslated(k: Kernel, own: Owners, root: Frame, req: Request)
    requires OnWay(k, own, root, 4, root, req.page) && MapTo(k, root, req.page, req.frame, req.flags).Ok?
    ensures Walk(k.mem, root, req.page).None?
  {
    hide MapTo, Good;
    MapToExact(k, own, root, req.page, req.frame, req.flags);
  }

  lemma SeenLater(a: seq<Memory>, b: seq<Memory>, cr3: Frame, page: nat, e: Entry)
    requires Seen(b, cr3, page, e)
    ensures Seen(a + b, cr3, page, e)
  {
    hide Walk;
    var j :| 0 <= j < |b| && Walk(b[j], cr3, page) == Some(e);
    assert (a + b)[|a| + j] == b[j];
  }

  lemma HarmlessCoherent(k: Kernel, own: Owners, cr3: Frame, root: Frame, req: Request, flush: bool)
    requires OnWay(k, own, root, 4, root, req.page) && cr3 in own && own[cr3] == Top(cr3)
    requires Harmless(k, cr3, root, req, flush)
    ensures AlwaysCoherent([k.mem] + Stores(k, root, 4, req), Reach(k, root, 4, req).mem, cr3,
                           if flush then {req.page} else {})
  {
    hide Walk, Stores, Reach, ReachOwners, Harmless, Heading;
    var ms, flushed := [k.mem] + Stores(k, root, 4, req), if flush then {req.page} else {};
    var goal, places := Reach(k, root, 4, req).mem, ReachOwners(k, own, root, 4, root, req);
    ReachGrows(k, own, root, 4, root, req);
    HarmlessHeads(k, own, cr3, root, req, flush);
    forall tlb: Cache, p | CachedDuring(ms, cr3, tlb) && p in tlb - flushed
      ensures Walk(goal, cr3, p) == Some(tlb[p])
    {
      var j :| 0 <= j < |ms| && Walk(ms[j], cr3, p) == Some(tlb[p]);
      if j > 0 {
        StoresHead(k, own, root, 4, root, req, places, cr3, But(req, flush), ms[j]);
      }
      WalkHeads(ms[j], goal, places, cr3, But(req, flush), p);
    }
  }

  /** Every call of a run is harmless in the memory it finds, though nothing is flushed. */
  ghost predicate HarmlessRun(k: Kernel, cr3: Frame, root: Frame, reqs: seq<Request>) {
    forall i {:trigger reqs[i]} :: 0 <= i < |reqs| && MapAll(k, root, reqs[..i]).Ok? ==>
      Harmless(MapAll(k, root, reqs[..i]).value, cr3, root, reqs[i], false)
  }

  /** The same for `TemporaryPage::map`, which flushes ... */
  ghost predicate HarmlessTemporary(k: Kernel, cr3: Frame, temp: nat, frame: Frame) {
    Harmless(k, cr3, cr3, Request(temp, frame, WRITABLE), true)
  }

  /** ... and for `with`. */
  ghost predicate HarmlessWith(k: Kernel, cr3: Frame, table: Frame, temp: nat, reqs: seq<Request>) {
    && HarmlessTemporary(k, cr3, temp, cr3)
    && (Enter(k, cr3, table, temp).Ok? ==> HarmlessRun(Enter(k, cr3, table, temp).value, cr3, table, reqs))
  }

  /** Frames still to be allocated hold no word with the PRESENT bit: then nothing any
      operation does can leave a stale translation. */
  ghost predicate CleanSupply(k: Kernel) {
    forall i {:trigger k.free[i]} :: 0 <= i < |k.free| && k.free[i] in k.mem ==> NonePresent(k.mem[k.free[i]])
  }

  lemma CleanHarmless(k: Kernel, cr3: Frame, root: Frame, req: Request, flush: bool)
    requires CleanSupply(k)
    ensures Harmless(k, cr3, root, req, flush)
  {
    hide Walk, Missing;
    var need := Missing(k.mem, root, 4, req.page);
    forall level, x | 1 <= level <= need && need - level < |k.free| && 0 <= x < ENTRY_COUNT
      ensures HarmlessWord(k, cr3, root, req, flush, need, level, x)
    {
      assert !Leftover(k, need, level, x).Present();
    }
  }

  /** Growing a hierarchy leaves the rest of the supply as it is. */
  lemma CleanKept(k: Kernel, own: Owners, k': Kernel, own': Owners, root: Frame)
    requires CleanSupply(k) && Good(k, own) && Good(k', own') && Grown(k, own, k', own', root)
    ensures CleanSupply(k')
  {
    forall i | 0 <= i < |k'.free|
      ensures NonePresent(k'.mem[k'.free[i]])
    {
      assert k'.free[i] == k.free[|k.free| - |k'.free| + i];
      assert k'.mem[k'.free[i]] == k.mem[k'.free[i]];
    }
  }

  lemma CleanRun(k: Kernel, own: Owners, cr3: Frame, root: Frame, reqs: seq<Request>)
    requires Good(k, own) && CleanSupply(k) && root in own && own[root].Top? && AllPlain(reqs)
    ensures HarmlessRun(k, cr3, root, reqs)
  {
    hide MapAll, Good, Harmless, CleanSupply;
    forall i | 0 <= i < |reqs| && MapAll(k, root, reqs[..i]).Ok?
      ensures Harmless(MapAll(k, root, reqs[..i]).value, cr3, root, reqs[i], false)
    {
      var own' := MapAllGains(k, own, root, reqs[..i]);
      CleanKept(k, own, MapAll(k, root, reqs[..i]).value, own', root);
      CleanHarmless(MapAll(k, root, reqs[..i]).value, cr3, root, reqs[i], false);
    }
  }

  lemma CleanEnter(k: Kernel, own: Owners, cr3: Frame, table: Frame, temp: nat)
    requires Good(k, own) && CleanSupply(k) && Hierarchical(k.mem, own, cr3) && Plain(temp)
    requires Enter(k, cr3, table, temp).Ok?
    ensures CleanSupply(Enter(k, cr3, table, temp).value)
  {
    hide MapTo, Walk, Tree, SlotsToRoots, Recursive;
    var k1 := MapTemporary(k, cr3, temp, cr3).value;
    var own1 := MapToPoint(k, own, cr3, temp, cr3, WRITABLE);
    CleanKept(k, own, k1, own1, cr3);
    assert cr3 in own1;
  }

  /** With a clean supply `with` can do no harm. */
  lemma CleanWith(k: Kernel, own: Owners, cr3: Frame, table: Frame, temp: nat, reqs: seq<Request>)
    requires Good(k, own) && CleanSupply(k) && Hierarchical(k.mem, own, cr3) && Hierarchical(k.mem, own, table)
    requires cr3 != table && table < FRAME_LIMIT && Plain(temp) && AllPlain(reqs)
    ensures HarmlessWith(k, cr3, table, temp, reqs)
  {
    hide Enter, Good, Harmless, CleanSupply, HarmlessRun;
    CleanHarmless(k, cr3, cr3, Request(temp, cr3, WRITABLE), true);
    if Enter(k, cr3, table, temp).Ok? {
      var own' := EnterMaps(k, own, cr3, table, temp);
      CleanEnter(k, own, cr3, table, temp);
      CleanRun(Enter(k, cr3, table, temp).value, own', cr3, table, reqs);
    }
  }

  lemma CleanUnmap(k: Kernel, own: Owners, root: Frame, page: nat)
    requires Good(k, own) && CleanSupply(k) && root in own && own[root].Top? && Plain(page) && Unmap(k, root, page).Ok?
    ensures CleanSupply(Unmap(k, root, page).value)
  {
    hide Walk;
    assert NodeOk(k.mem, own, root);
    PathPlain(root, page);
    TableAtOwner(k.mem, own, PathOf(root, page, 1));
  }

  /** The supply stays clean over `InactivePageTable::new` ... */
  lemma CleanNew(k: Kernel, own: Owners, cr3: Frame, temp: nat, frame: Frame)
    requires Good(k, own) && CleanSupply(k) && Hierarchical(k.mem, own, cr3) && Plain(temp)
    requires frame in k.mem && frame !in own && frame !in k.free && NewInactive(k, cr3, temp, frame).Ok?
    ensures CleanSupply(NewInactive(k, cr3, temp, frame).value)
  {
    hide MapTo, Unmap, Walk, Tree, SlotsToRoots, Recursive, NonePresent;
    var k1 := MapTemporary(k, cr3, temp, frame).value;
    var own1 := MapToPoint(k, own, cr3, temp, frame, WRITABLE);
    assert !NewTable(k, own, own1, cr3, frame);
    CleanKept(k, own, k1, own1, cr3);
    OutsideIrrelevant(k1, own1, frame, RootTable(frame));
    var k2 := k1.(mem := k1.mem[frame := RootTable(frame)]);
    assert cr3 in own1 && own1[cr3].Top?;
    CleanUnmap(k2, own1, cr3, temp);
  }

  /** ... and over `with`. */
  lemma CleanAfterWith(k: Kernel, own: Owners, cr3: Frame, table: Frame, temp: nat, reqs: seq<Request>)
    requires Good(k, own) && CleanSupply(k) && Hierarchical(k.mem, own, cr3) && Hierarchical(k.mem, own, table)
    requires cr3 != table && table < FRAME_LIMIT && Plain(temp) && AllPlain(reqs) && With(k, cr3, table, temp, reqs).Ok?
    ensures CleanSupply(With(k, cr3, table, temp, reqs).value)
  {
    hide With, Enter, MapAll, Leave, Good, CleanSupply, Recursive;
    WithIsDetour(k, cr3, table, temp, reqs);
    var k2 := Enter(k, cr3, table, temp).value;
    var own2 := EnterMaps(k, own, cr3, table, temp);
    CleanEnter(k, own, cr3, table, temp);
    var k3 := MapAll(k2, table, reqs).value;
    var own3 := MapAllGains(k2, own2, table, reqs);
    CleanKept(k2, own2, k3, own3, table);
    assert cr3 in own2 && cr3 in own3 && own3[cr3].Top?;
    CleanLeave(k3, own3, cr3, temp);
  }

  lemma CleanLeave(k: Kernel, own: Owners, cr3: Frame, temp: nat)
    requires Good(k, own) && CleanSupply(k) && cr3 in own && own[cr3].Top? && Plain(temp) && Leave(k, cr3, temp).Ok?
    ensures CleanSupply(Leave(k, cr3, temp).value)
  {
    hide Unmap, Walk, NonePresent, Tree, SlotsToRoots;
    SetRecursiveKeeps(k, own, cr3, cr3);
    var k4 := SetRecursive(k, cr3, cr3).value;
    assert forall i :: 0 <= i < |k.free| ==> k.free[i] != cr3;
    CleanUnmap(k4, own, cr3, temp);
  }
}
