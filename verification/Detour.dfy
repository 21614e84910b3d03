/** Runs of `map_to`, `TemporaryPage`, `ActivePageTable::with` and
    `InactivePageTable::new` as functions of the kernel's memory. */
module Detour {
  import opened Outcomes
  import opened Entries
  import opened Pages
  import opened Hierarchy
  import opened Mapping

  /** One `map_to` call. */
  datatype Request = Request(page: nat, frame: Frame, flags: Flags) {
    /** The P1 entry it sets. */
    function Leaf(): Entry { Entry(frame, flags.Or(PRESENT)) }
  }

  /** The calls in order, on the hierarchy of `root`. */
  function MapAll(k: Kernel, root: Frame, reqs: seq<Request>): Result<Kernel> {
    if reqs == [] then Ok(k) else
    var last := reqs[|reqs| - 1];
    var k' :- MapAll(k, root, reqs[..|reqs| - 1]);
    MapTo(k', root, last.page, last.frame, last.flags)
  }

  /** The translation that the calls give `page`. */
  function Requested(reqs: seq<Request>, page: nat): Option<Entry> {
    if reqs == [] then None
    else if reqs[|reqs| - 1].page == page then Some(reqs[|reqs| - 1].Leaf())
    else Requested(reqs[..|reqs| - 1], page)
  }

  predicate AllPlain(reqs: seq<Request>) { forall i :: 0 <= i < |reqs| ==> Plain(reqs[i].page) }

  ghost predicate DistinctPages(reqs: seq<Request>) {
    forall i, j :: 0 <= i < j < |reqs| ==> reqs[i].page != reqs[j].page
  }

  /** `root` gained exactly the requested translations; everything else outside the
      window translates as before. */
  ghost predicate Gained(m: Memory, m': Memory, own: Owners, root: Frame, reqs: seq<Request>) {
    forall r, q {:trigger Walk(m', r, q)} :: r in own && own[r].Top? && Plain(q) ==>
      Walk(m', r, q) == if r == root && Requested(reqs, q).Some? then Requested(reqs, q) else Walk(m, r, q)
  }

  lemma {:induction false} RequestedIff(reqs: seq<Request>, page: nat)
    ensures Requested(reqs, page).Some? <==> exists i :: 0 <= i < |reqs| && reqs[i].page == page
    ensures DistinctPages(reqs) ==> forall i :: 0 <= i < |reqs| && reqs[i].page == page ==>
        Requested(reqs, page) == Some(reqs[i].Leaf())
  {
    if reqs != [] {
      var init := reqs[..|reqs| - 1];
      RequestedIff(init, page);
      if reqs[|reqs| - 1].page != page && Requested(init, page).Some? {
        var i :| 0 <= i < |init| && init[i].page == page;
        assert reqs[i].page == page;
      }
      if exists i :: 0 <= i < |reqs| && reqs[i].page == page {
        var i :| 0 <= i < |reqs| && reqs[i].page == page;
        assert i < |init| ==> init[i].page == page;
      }
    }
  }

  /** A run of `map_to` calls adds exactly the requested translations to one hierarchy. */
  lemma {:induction false} MapAllGains(k: Kernel, own: Owners, root: Frame, reqs: seq<Request>) returns (own': Owners)
    requires Good(k, own) && root in own && own[root].Top? && AllPlain(reqs)
    requires MapAll(k, root, reqs).Ok?
    ensures var k' := MapAll(k, root, reqs).value;
            Good(k', own') && Grown(k, own, k', own', root) && Gained(k.mem, k'.mem, own, root, reqs)
  {
    hide MapTo;
    if reqs == [] {
      own' := own;
      GrownRefl(k, own, root);
    } else {
      var init, last := reqs[..|reqs| - 1], reqs[|reqs| - 1];
      var k1 := MapAll(k, root, init).value;
      var own1 := MapAllGains(k, own, root, init);
      own' := MapToPoint(k1, own1, root, last.page, last.frame, last.flags);
      var k' := MapAll(k, root, reqs).value;
      GrownTrans(k, own, k1, own1, k', own', root);
      GainedStep(k.mem, k1.mem, k'.mem, own, own1, root, reqs);
    }
  }

  lemma GainedStep(m: Memory, m1: Memory, m': Memory, own: Owners, own1: Owners, root: Frame, reqs: seq<Request>)
    requires reqs != [] && Gained(m, m1, own, root, reqs[..|reqs| - 1])
    requires Kept(own, own1)
    requires PointUpdate(m1, m', own1, root, reqs[|reqs| - 1].page, Some(reqs[|reqs| - 1].Leaf()))
    ensures Gained(m, m', own, root, reqs)
  {
    forall r, q | r in own && own[r].Top? && Plain(q)
      ensures Walk(m', r, q) == if r == root && Requested(reqs, q).Some? then Requested(reqs, q) else Walk(m, r, q)
    {
      assert r in own1 && own1[r].Top?;
    }
  }

  /** A run that succeeds asked for distinct pages, none of which had a translation. */
  lemma {:induction false} MapAllDistinct(k: Kernel, own: Owners, root: Frame, reqs: seq<Request>)
    requires Good(k, own) && root in own && own[root].Top? && AllPlain(reqs)
    requires MapAll(k, root, reqs).Ok?
    ensures DistinctPages(reqs)
  {
    hide MapTo, Supply, Tree, SlotsToRoots;
    if reqs != [] {
      var init, last := reqs[..|reqs| - 1], reqs[|reqs| - 1];
      MapAllDistinct(k, own, root, init);
      var own1 := MapAllGains(k, own, root, init);
      var own2 := MapToPoint(MapAll(k, root, init).value, own1, root, last.page, last.frame, last.flags);
      forall i | 0 <= i < |init|
        ensures reqs[i].page != last.page
      {
        RequestedIff(init, last.page);
        assert init[i] == reqs[i];
      }
    }
  }

  /** Such a run succeeds if the pages are distinct and untranslated, the frames fit, and
      three frames per call are left. */
  lemma {:induction false} MapAllSucceeds(k: Kernel, own: Owners, root: Frame, reqs: seq<Request>)
    requires Good(k, own) && root in own && own[root].Top? && AllPlain(reqs) && DistinctPages(reqs)
    requires forall i :: 0 <= i < |reqs| ==> reqs[i].frame < FRAME_LIMIT && Walk(k.mem, root, reqs[i].page).None?
    requires |k.free| >= 3 * |reqs|
    ensures MapAll(k, root, reqs).Ok? && |MapAll(k, root, reqs).value.free| >= |k.free| - 3 * |reqs|
  {
    hide MapTo;
    if reqs != [] {
      var init, last := reqs[..|reqs| - 1], reqs[|reqs| - 1];
      MapAllSucceeds(k, own, root, init);
      var own1 := MapAllGains(k, own, root, init);
      var k1 := MapAll(k, root, init).value;
      RequestedIff(init, last.page);
      assert Walk(k1.mem, root, last.page).None?;
      MapToExact(k1, own1, root, last.page, last.frame, last.flags);
      MissingBound(k1.mem, root, 4, last.page);
    }
  }

  lemma {:induction false} MissingBound(m: Memory, f: Frame, level: nat, page: nat)
    requires 1 <= level <= 4
    ensures Missing(m, f, level, page) < level
    decreases level
  {
    if level > 1 && Get(m, f, Index(page, level)).IsTable() {
      MissingBound(m, Get(m, f, Index(page, level)).frame, level - 1, page);
    }
  }

  /** `TemporaryPage::map` in the active hierarchy. */
  function MapTemporary(k: Kernel, cr3: Frame, temp: nat, frame: Frame): Result<Kernel> {
    if Walk(k.mem, cr3, temp).Some? then Panic(TemporaryInUse) else MapTo(k, cr3, temp, frame, WRITABLE)
  }

  /** `p4[511].set(to, PRESENT | WRITABLE)`. */
  function SetRecursive(k: Kernel, p4: Frame, to: Frame): Result<Kernel> {
    if to >= FRAME_LIMIT then Panic(BadFrame)
    else if p4 !in k.mem then Panic(PageFault)
    else Ok(k.(mem := Put(k.mem, p4, RECURSIVE, TableEntry(to))))
  }

  /** `ActivePageTable::with`, for a closure that makes the calls `reqs`: the active P4
      table is made reachable at the temporary page, its recursive slot led to the
      inactive P4 table and back, and the temporary page unmapped. */
  function With(k: Kernel, cr3: Frame, table: Frame, temp: nat, reqs: seq<Request>): Result<Kernel> {
    var k1 :- MapTemporary(k, cr3, temp, cr3);
    var k2 :- SetRecursive(k1, cr3, table);
    var k3 :- MapAll(k2, table, reqs);
    var k4 :- SetRecursive(k3, cr3, cr3);
    Unmap(k4, cr3, temp)
  }

  /** Redirecting a recursive slot to a P4 table is not seen outside the window. */
  lemma SetRecursiveKeeps(k: Kernel, own: Owners, p4: Frame, to: Frame)
    requires Good(k, own) && p4 in own && own[p4].Top? && to in own && own[to].Top? && to < FRAME_LIMIT
    ensures SetRecursive(k, p4, to).Ok?
    ensures var k' := SetRecursive(k, p4, to).value;
            && Good(k', own) && SameWalks(k.mem, k'.mem, own) && k'.free == k.free
            && k'.mem.Keys == k.mem.Keys && SameExcept(k.mem, k'.mem, own, p4, RECURSIVE)
            && Get(k'.mem, p4, RECURSIVE) == TableEntry(to)
  {
    assert NodeOk(k.mem, own, p4);
    var m' := Put(k.mem, p4, RECURSIVE, TableEntry(to));
    assert m'.Keys == k.mem.Keys;
    RecursiveSlotTree(k.mem, own, p4, to);
    forall r, q | r in own && own[r].Top? && Plain(q)
      ensures Walk(m', r, q) == Walk(k.mem, r, q)
    {
      assert NodeOk(k.mem, own, r);
      WalkOff(k.mem, m', own, p4, RECURSIVE, r, 4, q);
    }
  }

  lemma RecursiveSlotTree(m: Memory, own: Owners, p4: Frame, to: Frame)
    requires Tree(m, own) && SlotsToRoots(m, own) && p4 in own && own[p4].Top? && to in own && own[to].Top? && p4 in m
    ensures var m' := Put(m, p4, RECURSIVE, TableEntry(to)); Tree(m', own) && SlotsToRoots(m', own)
  {
    var m' := Put(m, p4, RECURSIVE, TableEntry(to));
    forall g | g in own
      ensures NodeOk(m', own, g)
    {
      assert NodeOk(m, own, g);
    }
    forall g, j | g in own && 0 <= j < ENTRY_COUNT
      ensures SlotOk(m', own, g, j)
    {
      assert SlotOk(m, own, g, j);
    }
    forall r | r in own && own[r].Top? && Get(m', r, RECURSIVE).Present()
      ensures var e := Get(m', r, RECURSIVE); e.IsTable() && LinkFlags(e.flags) && e.frame in own && own[e.frame].Top?
    {
      assert r != p4 ==> Get(m', r, RECURSIVE) == Get(m, r, RECURSIVE);
    }
  }

  /** The steps of `with` up to the closure. */
  function Enter(k: Kernel, cr3: Frame, table: Frame, temp: nat): Result<Kernel> {
    var k1 :- MapTemporary(k, cr3, temp, cr3);
    SetRecursive(k1, cr3, table)
  }

  /** The steps of `with` after the closure. */
  function Leave(k: Kernel, cr3: Frame, temp: nat): Result<Kernel> {
    var k4 :- SetRecursive(k, cr3, cr3);
    Unmap(k4, cr3, temp)
  }

  /** Tables keep their places, new ones are in frames taken from the front of the supply,
      and each frame taken holds a new table. */
  ghost predicate Follows(k: Kernel, own: Owners, k': Kernel, own': Owners) {
    && Kept(own, own')
    && (forall g {:trigger g in own'} :: g in own' && g !in own ==> g in k.free)
    && k'.mem.Keys == k.mem.Keys
    && |k'.free| <= |k.free| && k'.free == k.free[|k.free| - |k'.free|..]
    && |own'| + |k'.free| == |own| + |k.free|
  }

  /** Every P4 table with a recursive slot to itself still has one. */
  ghost predicate StillRooted(m: Memory, own: Owners, m': Memory, own': Owners) {
    forall r {:trigger Hierarchical(m', own', r)} :: Hierarchical(m, own, r) ==> Hierarchical(m', own', r)
  }

  /** Recursive slots are kept, that of `but` aside. */
  ghost predicate SlotsKept(m: Memory, m': Memory, own: Owners, but: Frame) {
    forall r {:trigger Get(m', r, RECURSIVE)} ::
      r in own && own[r].Top? && r != but && Get(m, r, RECURSIVE).Present() ==>
        Get(m', r, RECURSIVE) == Get(m, r, RECURSIVE)
  }

  lemma SlotsRooted(m: Memory, own: Owners, m': Memory, own': Owners, but: Frame)
    requires SlotsKept(m, m', own, but) && Kept(own, own') && Hierarchical(m', own', but)
    ensures StillRooted(m, own, m', own')
  {
    forall r | Hierarchical(m, own, r)
      ensures Hierarchical(m', own', r)
    {
      assert r in own' && own'[r] == own[r];
      assert r != but ==> Get(m', r, RECURSIVE) == Get(m, r, RECURSIVE);
    }
  }

  lemma SlotsKeptTrans(m: Memory, m1: Memory, m2: Memory, own: Owners, own1: Owners, but: Frame)
    requires SlotsKept(m, m1, own, but) && SlotsKept(m1, m2, own1, but) && Kept(own, own1)
    ensures SlotsKept(m, m2, own, but)
  {
    forall r | r in own && own[r].Top? && r != but && Get(m, r, RECURSIVE).Present()
      ensures Get(m2, r, RECURSIVE) == Get(m, r, RECURSIVE)
    {
      assert Get(m1, r, RECURSIVE) == Get(m, r, RECURSIVE);
      assert r in own1 && own1[r].Top?;
    }
  }

  lemma GrownFollows(k: Kernel, own: Owners, k': Kernel, own': Owners, root: Frame)
    requires Grown(k, own, k', own', root)
    ensures Follows(k, own, k', own')
  {
    forall g | g in own' && g !in own
      ensures g in k.free
    {
      assert NewTable(k, own, own', root, g);
    }
  }

  lemma FollowsTrans(k: Kernel, own: Owners, k1: Kernel, own1: Owners, k2: Kernel, own2: Owners)
    requires Follows(k, own, k1, own1) && Follows(k1, own1, k2, own2)
    ensures Follows(k, own, k2, own2)
  {
    assert k.free[|k.free| - |k1.free|..][|k1.free| - |k2.free|..] == k.free[|k.free| - |k2.free|..];
    KeptTrans(own, own1, own2);
    forall g | g in own2 && g !in own
      ensures g in k.free
    {
      assert g in own1 || g in k1.free;
    }
  }

  lemma EnterMaps(k: Kernel, own: Owners, cr3: Frame, table: Frame, temp: nat) returns (own': Owners)
    requires Good(k, own) && Hierarchical(k.mem, own, cr3) && Hierarchical(k.mem, own, table) && cr3 != table
    requires Plain(temp) && table < FRAME_LIMIT && Enter(k, cr3, table, temp).Ok?
    ensures var k' := Enter(k, cr3, table, temp).value;
            && Good(k', own') && Follows(k, own, k', own')
            && Walk(k.mem, cr3, temp) == None
            && PointUpdate(k.mem, k'.mem, own, cr3, temp, Some(TableEntry(cr3)))
            && Recursive(k'.mem, cr3, table) && SlotsKept(k.mem, k'.mem, own, cr3)
  {
    hide MapTo, Walk, Supply, Tree, TableAt;
    var k1 := MapTemporary(k, cr3, temp, cr3).value;
    own' := MapToPoint(k, own, cr3, temp, cr3, WRITABLE);
    GrownFollows(k, own, k1, own', cr3);
    SetRecursiveKeeps(k1, own', cr3, table);
    var k' := Enter(k, cr3, table, temp).value;
    RedirectRecursive(k.mem, k1.mem, k'.mem, own, own', cr3, table);
    SlotsKeptTrans(k.mem, k1.mem, k'.mem, own, own', cr3);
    UpdateThenSame(k.mem, k1.mem, k'.mem, own, own', cr3, temp, Some(TableEntry(cr3)));
  }

  lemma RedirectRecursive(m: Memory, m1: Memory, m2: Memory, own: Owners, own1: Owners, cr3: Frame, table: Frame)
    requires table in own && table in own1 && table != cr3 && Recursive(m, table, table)
    requires Extends(m, m1, own) && SameExcept(m1, m2, own1, cr3, RECURSIVE)
    requires Get(m2, cr3, RECURSIVE) == TableEntry(table)
    ensures Recursive(m2, cr3, table)
  {
    assert Get(m1, table, RECURSIVE) == Get(m, table, RECURSIVE);
    assert Get(m2, table, RECURSIVE) == Get(m1, table, RECURSIVE);
  }

  lemma UpdateThenSame(m: Memory, m1: Memory, m2: Memory, own: Owners, own1: Owners, root: Frame, page: nat,
      now: Option<Entry>)
    requires PointUpdate(m, m1, own, root, page, now) && SameWalks(m1, m2, own1)
    requires Kept(own, own1)
    ensures PointUpdate(m, m2, own, root, page, now)
  {
    forall r, q | r in own && own[r].Top? && Plain(q)
      ensures Walk(m2, r, q) == if r == root && q == page then now else Walk(m, r, q)
    {
      assert Walk(m2, r, q) == Walk(m1, r, q);
    }
  }

  lemma LeaveUnmaps(k: Kernel, own: Owners, cr3: Frame, temp: nat)
    requires Good(k, own) && cr3 in own && own[cr3].Top? && Plain(temp) && Leave(k, cr3, temp).Ok?
    ensures var k' := Leave(k, cr3, temp).value;
            && Good(k', own) && k'.free == k.free && k'.mem.Keys == k.mem.Keys
            && PointUpdate(k.mem, k'.mem, own, cr3, temp, None)
            && Get(k'.mem, cr3, RECURSIVE) == TableEntry(cr3)
            && (forall r :: r in own && own[r].Top? && r != cr3 ==>
                  Get(k'.mem, r, RECURSIVE) == Get(k.mem, r, RECURSIVE))
  {
    hide MapTo;
    SetRecursiveKeeps(k, own, cr3, cr3);
    var k4 := SetRecursive(k, cr3, cr3).value;
    UnmapPoint(k4, own, cr3, temp);
    UnmapKeepsRoots(k4, own, cr3, temp);
    var k' := Leave(k, cr3, temp).value;
    forall r, q | r in own && own[r].Top? && Plain(q)
      ensures Walk(k'.mem, r, q) == if r == cr3 && q == temp then None else Walk(k.mem, r, q)
    {
      assert Walk(k4.mem, r, q) == Walk(k.mem, r, q);
    }
  }

  lemma WithIsDetour(k: Kernel, cr3: Frame, table: Frame, temp: nat, reqs: seq<Request>)
    ensures var entered := Enter(k, cr3, table, temp);
            With(k, cr3, table, temp, reqs) ==
            if entered.Panic? then Panic(entered.why) else
            var run := MapAll(entered.value, table, reqs);
            if run.Panic? then Panic(run.why) else Leave(run.value, cr3, temp)
  {
    hide MapTo;
  }

  /** `with` is a faithful detour: the recursive slot leads back to the active P4 table,
      every active translation outside the window is as before, and the inactive
      hierarchy has gained exactly the closure's mappings. */
  lemma WithFaithful(k: Kernel, own: Owners, cr3: Frame, table: Frame, temp: nat, reqs: seq<Request>)
      returns (own': Owners)
    requires Good(k, own) && Hierarchical(k.mem, own, cr3) && Hierarchical(k.mem, own, table) && cr3 != table
    requires Plain(temp) && AllPlain(reqs) && table < FRAME_LIMIT
    requires With(k, cr3, table, temp, reqs).Ok?
    ensures var k' := With(k, cr3, table, temp, reqs).value;
            && Good(k', own') && Follows(k, own, k', own')
            && Hierarchical(k'.mem, own', cr3) && Hierarchical(k'.mem, own', table)
            && StillRooted(k.mem, own, k'.mem, own')
            && Gained(k.mem, k'.mem, own, table, reqs)
  {
    hide MapTo, Walk, Supply, Tree, TableAt;
    WithIsDetour(k, cr3, table, temp, reqs);
    var k2 := Enter(k, cr3, table, temp).value;
    var own1 := EnterMaps(k, own, cr3, table, temp);
    var k3 := MapAll(k2, table, reqs).value;
    own' := MapAllGains(k2, own1, table, reqs);
    GrownFollows(k2, own1, k3, own', table);
    var k' := With(k, cr3, table, temp, reqs).value;
    LeaveUnmaps(k3, own', cr3, temp);
    assert Get(k3.mem, table, RECURSIVE) == Get(k2.mem, table, RECURSIVE);
    FollowsTrans(k, own, k2, own1, k3, own');
    FollowsTrans(k, own, k3, own', k', own');
    SlotsKeptTrans(k.mem, k2.mem, k3.mem, own, own1, cr3);
    SlotsKeptTrans(k.mem, k3.mem, k'.mem, own, own', cr3);
    SlotsRooted(k.mem, own, k'.mem, own', cr3);
    WithWalks(k, own, k2, own1, k3, own', k', cr3, table, temp, reqs);
  }

  lemma WithWalks(k: Kernel, own: Owners, k2: Kernel, own1: Owners, k3: Kernel, own': Owners, k': Kernel,
                  cr3: Frame, table: Frame, temp: nat, reqs: seq<Request>)
    requires Kept(own, own1) && Kept(own, own')
    requires cr3 != table && Walk(k.mem, cr3, temp) == None
    requires PointUpdate(k.mem, k2.mem, own, cr3, temp, Some(TableEntry(cr3)))
    requires Gained(k2.mem, k3.mem, own1, table, reqs)
    requires PointUpdate(k3.mem, k'.mem, own', cr3, temp, None)
    ensures Gained(k.mem, k'.mem, own, table, reqs)
  {
    forall r, q | r in own && own[r].Top? && Plain(q)
      ensures Walk(k'.mem, r, q) ==
              if r == table && Requested(reqs, q).Some? then Requested(reqs, q) else Walk(k.mem, r, q)
    {
      assert Walk(k2.mem, r, q) == if r == cr3 && q == temp then Some(TableEntry(cr3)) else Walk(k.mem, r, q);
      assert r in own1 && own1[r].Top? && r in own' && own'[r].Top?;
    }
  }

  lemma UnmapFollows(k: Kernel, own: Owners, root: Frame, page: nat)
    requires Unmap(k, root, page).Ok?
    ensures Follows(k, own, Unmap(k, root, page).value, own)
  {
    hide Walk, TableAt;
    assert Unmap(k, root, page).value.mem.Keys == k.mem.Keys;
  }

  lemma UnmapKeepsRoots(k: Kernel, own: Owners, root: Frame, page: nat)
    requires Good(k, own) && root in own && own[root].Top? && Plain(page) && Unmap(k, root, page).Ok?
    ensures forall r :: r in own && own[r].Top? ==>
        Get(Unmap(k, root, page).value.mem, r, RECURSIVE) == Get(k.mem, r, RECURSIVE)
  {
    assert NodeOk(k.mem, own, root);
    PathPlain(root, page);
    TableAtOwner(k.mem, own, PathOf(root, page, 1));
  }

  /** `with` succeeds if the temporary page is free, the calls are on distinct pages the
      inactive hierarchy does not translate, and frames are left for every table. */
  lemma WithSucceeds(k: Kernel, own: Owners, cr3: Frame, table: Frame, temp: nat, reqs: seq<Request>)
    requires Good(k, own) && Hierarchical(k.mem, own, cr3) && Hierarchical(k.mem, own, table) && cr3 != table
    requires Plain(temp) && Walk(k.mem, cr3, temp).None? && cr3 < FRAME_LIMIT && table < FRAME_LIMIT
    requires AllPlain(reqs) && DistinctPages(reqs)
    requires forall i :: 0 <= i < |reqs| ==> reqs[i].frame < FRAME_LIMIT && Walk(k.mem, table, reqs[i].page).None?
    requires |k.free| >= 3 * |reqs| + 3
    ensures var r := With(k, cr3, table, temp, reqs); r.Ok? && |r.value.free| >= |k.free| - 3 * |reqs| - 3
  {
    hide MapTo, Walk, Supply, Tree, TableAt;
    WithIsDetour(k, cr3, table, temp, reqs);
    EnterSucceeds(k, own, cr3, table, temp);
    var k2 := Enter(k, cr3, table, temp).value;
    var own1 := EnterMaps(k, own, cr3, table, temp);
    forall i | 0 <= i < |reqs|
      ensures Walk(k2.mem, table, reqs[i].page).None?
    {
      assert Walk(k2.mem, table, reqs[i].page) == Walk(k.mem, table, reqs[i].page);
    }
    ClosureThenLeave(k2, own1, cr3, table, temp, reqs);
  }

  lemma ClosureThenLeave(k: Kernel, own: Owners, cr3: Frame, table: Frame, temp: nat, reqs: seq<Request>)
    requires Good(k, own) && cr3 in own && own[cr3].Top? && table in own && own[table].Top? && cr3 != table
    requires Plain(temp) && Walk(k.mem, cr3, temp).Some? && cr3 < FRAME_LIMIT
    requires TableAt(k.mem, PathOf(cr3, temp, 1)).Some?
    requires AllPlain(reqs) && DistinctPages(reqs)
    requires forall i :: 0 <= i < |reqs| ==> reqs[i].frame < FRAME_LIMIT && Walk(k.mem, table, reqs[i].page).None?
    requires |k.free| >= 3 * |reqs|
    ensures MapAll(k, table, reqs).Ok?
    ensures var r := Leave(MapAll(k, table, reqs).value, cr3, temp); r.Ok? && |r.value.free| >= |k.free| - 3 * |reqs|
  {
    hide MapTo;
    MapAllSucceeds(k, own, table, reqs);
    var k3 := MapAll(k, table, reqs).value;
    var own' := MapAllGains(k, own, table, reqs);
    assert NodeOk(k.mem, own, cr3);
    PathPlain(cr3, temp);
    TableAtKept(k.mem, k3.mem, own, PathOf(cr3, temp, 1));
    assert Walk(k3.mem, cr3, temp) == Walk(k.mem, cr3, temp);
    LeaveSucceeds(k3, own', cr3, temp);
  }

  lemma EnterSucceeds(k: Kernel, own: Owners, cr3: Frame, table: Frame, temp: nat)
    requires Good(k, own) && Hierarchical(k.mem, own, cr3) && Hierarchical(k.mem, own, table)
    requires Plain(temp) && Walk(k.mem, cr3, temp).None? && cr3 < FRAME_LIMIT && table < FRAME_LIMIT && |k.free| >= 3
    ensures var r := Enter(k, cr3, table, temp);
            r.Ok? && |r.value.free| >= |k.free| - 3 && TableAt(r.value.mem, PathOf(cr3, temp, 1)).Some?
  {
    hide MapTo, Supply, Tree, SlotsToRoots, WalkFrom, TableAt, PathOf, Missing;
    MapToExact(k, own, cr3, temp, cr3, WRITABLE);
    MissingBound(k.mem, cr3, 4, temp);
    var own1 := MapToPoint(k, own, cr3, temp, cr3, WRITABLE);
    var k1 := MapTemporary(k, cr3, temp, cr3).value;
    SetRecursiveKeeps(k1, own1, cr3, table);
    PathPlain(cr3, temp);
    TableAtKept(k1.mem, Enter(k, cr3, table, temp).value.mem, own1, PathOf(cr3, temp, 1));
  }

  lemma LeaveSucceeds(k: Kernel, own: Owners, cr3: Frame, temp: nat)
    requires Good(k, own) && cr3 in own && own[cr3].Top? && Plain(temp) && cr3 < FRAME_LIMIT
    requires Walk(k.mem, cr3, temp).Some? && TableAt(k.mem, PathOf(cr3, temp, 1)).Some?
    ensures Leave(k, cr3, temp).Ok? && Leave(k, cr3, temp).value.free == k.free
    ensures LinksKept(k.mem, Leave(k, cr3, temp).value.mem, own)
  {
    SetRecursiveKeeps(k, own, cr3, cr3);
    var k4 := SetRecursive(k, cr3, cr3).value;
    assert NodeOk(k.mem, own, cr3);
    PathPlain(cr3, temp);
    TableAtKept(k.mem, k4.mem, own, PathOf(cr3, temp, 1));
    UnmapPoint(k4, own, cr3, temp);
    UnmapKeepsLinks(k4, own, cr3, temp);
  }

  /** `InactivePageTable::new`: the frame is zeroed through the temporary page and its
      recursive slot set to itself. */
  function NewInactive(k: Kernel, cr3: Frame, temp: nat, frame: Frame): Result<Kernel> {
    var k1 :- MapTemporary(k, cr3, temp, frame);
    if frame !in k1.mem then Panic(PageFault) else
    Unmap(k1.(mem := k1.mem[frame := RootTable(frame)]), cr3, temp)
  }

  function RootTable(frame: Frame): (t: Table)
    ensures forall i :: 0 <= i < ENTRY_COUNT ==> t[i] == if i == RECURSIVE then TableEntry(frame) else UNUSED
  {
    EmptyTable()[RECURSIVE := TableEntry(frame)]
  }

  /** What a frame outside of every hierarchy holds does not matter. */
  lemma OutsideIrrelevant(k: Kernel, own: Owners, f: Frame, t: Table)
    requires Good(k, own) && f in k.mem && f !in own
    ensures var k' := k.(mem := k.mem[f := t]);
            Good(k', own) && SameWalks(k.mem, k'.mem, own) && LinksKept(k.mem, k'.mem, own)
  {
    var m, m' := k.mem, k.mem[f := t];
    forall g | g in own
      ensures NodeOk(m', own, g) && g != f
    {
      assert NodeOk(m, own, g);
    }
    forall g, j | g in own && 0 <= j < ENTRY_COUNT
      ensures SlotOk(m', own, g, j)
    {
      assert SlotOk(m, own, g, j);
    }
    assert forall r :: r in own ==> Get(m', r, RECURSIVE) == Get(m, r, RECURSIVE);
    forall r, q | r in own && own[r].Top? && Plain(q)
      ensures Walk(m', r, q) == Walk(m, r, q)
    {
      assert NodeOk(m, own, r);
      SameTables(m, m', own, r, 4, q);
    }
  }

  lemma {:induction false} SameTables(m: Memory, m': Memory, own: Owners, f: Frame, level: nat, page: nat)
    requires Tree(m, own) && f in own && 1 <= level <= 4 && Plain(page)
    requires own[f] == PathOf(RootOf(own[f]), page, level)
    requires forall g, i :: g in own && 0 <= i < ENTRY_COUNT ==> Get(m', g, i) == Get(m, g, i)
    ensures WalkFrom(m', f, level, page) == WalkFrom(m, f, level, page)
    decreases level
  {
    if level > 1 {
      StepDown(m, own, f, level, page);
      if Get(m, f, Index(page, level)).IsTable() {
        SameTables(m, m', own, Get(m, f, Index(page, level)).frame, level - 1, page);
      }
    }
  }

  /** A zeroed table with a recursive slot is a hierarchy without translations. */
  lemma AddRoot(k: Kernel, own: Owners, f: Frame)
    requires Good(k, own) && f in k.mem && f !in own && f !in k.free && k.mem[f] == RootTable(f)
    ensures Good(k, own[f := Top(f)]) && Hierarchical(k.mem, own[f := Top(f)], f)
    ensures forall q: nat :: Plain(q) ==> Walk(k.mem, f, q) == None
  {
    var own' := own[f := Top(f)];
    forall g | g in own'
      ensures NodeOk(k.mem, own', g)
    {
      assert g != f ==> NodeOk(k.mem, own, g);
    }
    forall g, j | g in own' && 0 <= j < ENTRY_COUNT
      ensures SlotOk(k.mem, own', g, j)
    {
      assert g != f ==> SlotOk(k.mem, own, g, j);
    }
  }

  /** `InactivePageTable::new` makes an empty hierarchy of its own and leaves every other
      translation outside the window as it was. */
  lemma NewInactiveEmpty(k: Kernel, own: Owners, cr3: Frame, temp: nat, frame: Frame) returns (own': Owners)
    requires Good(k, own) && Hierarchical(k.mem, own, cr3) && Plain(temp)
    requires frame in k.mem && frame !in own && frame !in k.free && NewInactive(k, cr3, temp, frame).Ok?
    ensures var k' := NewInactive(k, cr3, temp, frame).value;
            && Good(k', own') && Follows(k.(free := [frame] + k.free), own, k', own') && frame in own'
            && Hierarchical(k'.mem, own', cr3) && Hierarchical(k'.mem, own', frame)
            && SameWalks(k.mem, k'.mem, own) && StillRooted(k.mem, own, k'.mem, own')
            && (forall q: nat :: Plain(q) ==> Walk(k'.mem, frame, q) == None)
  {
    hide MapTo, Unmap, Walk, Supply, Tree, RootTable, TableAt;
    var k1 := MapTemporary(k, cr3, temp, frame).value;
    var own1 := MapToPoint(k, own, cr3, temp, frame, WRITABLE);
    assert !NewTable(k, own, own1, cr3, frame);
    OutsideIrrelevant(k1, own1, frame, RootTable(frame));
    var k2 := k1.(mem := k1.mem[frame := RootTable(frame)]);
    UnmapPoint(k2, own1, cr3, temp);
    UnmapKeepsRoots(k2, own1, cr3, temp);
    UnmapKeepsFrame(k2, own1, cr3, temp, frame);
    var k' := NewInactive(k, cr3, temp, frame).value;
    AddRoot(k', own1, frame);
    own' := own1[frame := Top(frame)];
    GrownFollows(k, own, k1, own1, cr3);
    RootFollows(k, own, k', own1, frame);
    assert Get(k1.mem, cr3, RECURSIVE) == Get(k.mem, cr3, RECURSIVE);
    SlotsKeptTrans(k.mem, k1.mem, k2.mem, own, own1, cr3);
    SlotsKeptTrans(k.mem, k2.mem, k'.mem, own, own1, cr3);
    SlotsRooted(k.mem, own, k'.mem, own', cr3);
    NewInactiveWalks(k, own, k1, own1, k2, k', cr3, temp, frame);
  }

  lemma PrependTail(x: Frame, s: seq<Frame>, n: nat)
    requires n <= |s|
    ensures ([x] + s)[n + 1..] == s[n..]
  {
  }

  lemma RootAdded(own: Owners, frame: Frame)
    requires frame !in own
    ensures Kept(own, own[frame := Top(frame)]) && |own[frame := Top(frame)]| == |own| + 1
  {
    assert own[frame := Top(frame)].Keys == own.Keys + {frame};
  }

  lemma RootFollows(k: Kernel, own: Owners, k': Kernel, own1: Owners, frame: Frame)
    requires Follows(k, own, k', own1) && frame !in own1
    ensures Follows(k.(free := [frame] + k.free), own, k', own1[frame := Top(frame)])
  {
    var free, own' := [frame] + k.free, own1[frame := Top(frame)];
    PrependTail(frame, k.free, |k.free| - |k'.free|);
    RootAdded(own1, frame);
    KeptTrans(own, own1, own');
    forall g | g in own' && g !in own
      ensures g in free
    {
      assert g == frame || (g in own1 && g in k.free);
    }
  }

  lemma UnmapKeepsFrame(k: Kernel, own: Owners, root: Frame, page: nat, f: Frame)
    requires Good(k, own) && root in own && own[root].Top? && Plain(page) && Unmap(k, root, page).Ok?
    requires f in k.mem && f !in own
    ensures var m' := Unmap(k, root, page).value.mem; m'.Keys == k.mem.Keys && m'[f] == k.mem[f]
  {
    assert NodeOk(k.mem, own, root);
    PathPlain(root, page);
    TableAtOwner(k.mem, own, PathOf(root, page, 1));
    assert Unmap(k, root, page).value.mem.Keys == k.mem.Keys;
  }

  lemma NewInactiveWalks(k: Kernel, own: Owners, k1: Kernel, own1: Owners, k2: Kernel, k': Kernel, cr3: Frame,
      temp: nat, frame: Frame)
    requires Kept(own, own1)
    requires Walk(k.mem, cr3, temp) == None && PointUpdate(k.mem, k1.mem, own, cr3, temp, Some(TableEntry(frame)))
    requires SameWalks(k1.mem, k2.mem, own1) && PointUpdate(k2.mem, k'.mem, own1, cr3, temp, None)
    ensures SameWalks(k.mem, k'.mem, own)
  {
    forall r, q | r in own && own[r].Top? && Plain(q)
      ensures Walk(k'.mem, r, q) == Walk(k.mem, r, q)
    {
      assert Walk(k1.mem, r, q) == if r == cr3 && q == temp then Some(TableEntry(frame)) else Walk(k.mem, r, q);
      assert Walk(k2.mem, r, q) == Walk(k1.mem, r, q);
    }
  }

  lemma NewInactiveSucceeds(k: Kernel, own: Owners, cr3: Frame, temp: nat, frame: Frame)
    requires Good(k, own) && Hierarchical(k.mem, own, cr3) && Plain(temp) && Walk(k.mem, cr3, temp).None?
    requires frame in k.mem && frame !in own && frame !in k.free && frame < FRAME_LIMIT && |k.free| >= 3
    ensures var r := NewInactive(k, cr3, temp, frame); r.Ok? && |r.value.free| >= |k.free| - 3
  {
    hide MapTo;
    MapToExact(k, own, cr3, temp, frame, WRITABLE);
    MissingBound(k.mem, cr3, 4, temp);
    var k1 := MapTemporary(k, cr3, temp, frame).value;
    var own1 := MapToPoint(k, own, cr3, temp, frame, WRITABLE);
    assert !NewTable(k, own, own1, cr3, frame);
    OutsideIrrelevant(k1, own1, frame, RootTable(frame));
    var k2 := k1.(mem := k1.mem[frame := RootTable(frame)]);
    PathPlain(cr3, temp);
    TableAtKept(k1.mem, k2.mem, own1, PathOf(cr3, temp, 1));
    assert Walk(k2.mem, cr3, temp) == Walk(k1.mem, cr3, temp);
    UnmapPoint(k2, own1, cr3, temp);
  }
}
