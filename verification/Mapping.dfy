/** `next_table_create`, `map_to`, `map`, `identity_map` and `unmap` as functions of
    physical memory and the frames still to be allocated, and what they change. */
module Mapping {
  import opened Outcomes
  import opened Entries
  import opened Pages
  import opened Hierarchy

  /** Physical memory, and the frames `allocate_frames(1)` will return, in order. */
  datatype Kernel = Kernel(mem: Memory, free: seq<Frame>)

  /** Frame `t`, zeroed, becomes the table below entry `i` of table `f`. */
  function Link(m: Memory, f: Frame, i: nat, t: Frame): Memory
    requires f in m && i < ENTRY_COUNT
  {
    Put(m, f, i, TableEntry(t))[t := EmptyTable()]
  }

  /** `Table::next_table_create` on the table in frame `f`. */
  function NextTableCreate(k: Kernel, f: Frame, i: nat): Result<(Kernel, Frame)>
    requires i < ENTRY_COUNT
  {
    var e := Get(k.mem, f, i);
    if e.IsTable() then Ok((k, e.frame))
    else if e.flags.huge then Panic(HugePage)
    else if k.free == [] then Panic(OutOfMemory)
    else if k.free[0] >= FRAME_LIMIT then Panic(BadFrame)
    else if f !in k.mem then Panic(PageFault)
    else Ok((Kernel(Link(k.mem, f, i, k.free[0]), k.free[1..]), k.free[0]))
  }

  /** `Mapper::map_to`. */
  function MapTo(k: Kernel, root: Frame, page: nat, frame: Frame, flags: Flags): Result<Kernel> {
    var (k3, f3) :- NextTableCreate(k, root, Index(page, 4));
    var (k2, f2) :- NextTableCreate(k3, f3, Index(page, 3));
    var (k1, f1) :- NextTableCreate(k2, f2, Index(page, 2));
    SetLeaf(k1, f1, page, frame, flags)
  }

  /** The last step of `map_to`: the P1 entry. */
  function SetLeaf(k: Kernel, f: Frame, page: nat, frame: Frame, flags: Flags): Result<Kernel> {
    if Get(k.mem, f, Index(page, 1)) != UNUSED then Panic(AlreadyMapped)
    else if frame >= FRAME_LIMIT then Panic(BadFrame)
    else if f !in k.mem then Panic(PageFault)
    else Ok(k.(mem := Put(k.mem, f, Index(page, 1), Entry(frame, flags.Or(PRESENT)))))
  }

  /** `Mapper::map`: the data frame is allocated before any table. */
  function Map(k: Kernel, root: Frame, page: nat, flags: Flags): Result<Kernel> {
    if k.free == [] then Panic(OutOfMemory)
    else MapTo(k.(free := k.free[1..]), root, page, k.free[0], flags)
  }

  /** `Mapper::unmap`. */
  function Unmap(k: Kernel, root: Frame, page: nat): Result<Kernel> {
    var p1 := TableAt(k.mem, PathOf(root, page, 1));
    if Walk(k.mem, root, page).None? then Panic(NotMapped)
    else if p1.None? then Panic(HugePage)
    else if p1.value !in k.mem then Panic(PageFault)
    else Ok(k.(mem := Put(k.mem, p1.value, Index(page, 1), UNUSED)))
  }

  /** Frames still to be allocated are distinct RAM frames that no hierarchy uses. */
  ghost predicate Supply(k: Kernel, own: Owners) {
    && (forall i :: 0 <= i < |k.free| ==> k.free[i] < FRAME_LIMIT && k.free[i] in k.mem && k.free[i] !in own)
    && (forall i, j :: 0 <= i < j < |k.free| ==> k.free[i] != k.free[j])
  }

  ghost predicate Good(k: Kernel, own: Owners) {
    Tree(k.mem, own) && SlotsToRoots(k.mem, own) && Supply(k, own)
  }

  /** Tables stay where they are. */
  ghost predicate Kept(own: Owners, own': Owners) {
    forall g {:trigger own'[g]} {:trigger g in own'} :: g in own ==> g in own' && own'[g] == own[g]
  }

  /** ... and new ones come from the frames in `free`, of which `free'` are left. */
  ghost predicate Added(free: seq<Frame>, own: Owners, free': seq<Frame>, own': Owners) {
    && Kept(own, own')
    && (forall g {:trigger g in own'} :: g in own' && g !in own ==> g in free)
    && (forall g {:trigger g in free'} :: g in free' ==> g in free)
  }

  lemma AddedSame(free: seq<Frame>, own: Owners)
    ensures Added(free, own, free, own)
  {
  }

  lemma AddedTrans(free: seq<Frame>, own: Owners, free1: seq<Frame>, own1: Owners, free2: seq<Frame>, own2: Owners)
    requires Added(free, own, free1, own1) && Added(free1, own1, free2, own2)
    ensures Added(free, own, free2, own2)
  {
    KeptTrans(own, own1, own2);
    forall g | g in own2 && g !in own
      ensures g in free
    {
      assert g in own1 || g in free1;
    }
    forall g | g in free2
      ensures g in free
    {
      assert g in free1;
    }
  }

  /** `g` became a table below `root`, and was waiting to be allocated. */
  predicate NewTable(k: Kernel, own: Owners, own': Owners, root: Frame, g: Frame) {
    g in own' && g !in own && RootOf(own'[g]) == root && own'[g].Child? && g in k.free
  }

  /** Only tables below `root` changed: present entries stayed, and new tables came from
      the frames that were still to be allocated, one for one. */
  ghost predicate Grown(k: Kernel, own: Owners, k': Kernel, own': Owners, root: Frame) {
    && Kept(own, own')
    && (forall g {:trigger NewTable(k, own, own', root, g)} :: g in own' && g !in own ==>
          NewTable(k, own, own', root, g))
    && k'.mem.Keys == k.mem.Keys
    && Extends(k.mem, k'.mem, own)
    && (forall g {:trigger k'.mem[g]} :: g in k.mem && !(g in own' && RootOf(own'[g]) == root) ==>
          k'.mem[g] == k.mem[g])
    && |k'.free| <= |k.free| && k'.free == k.free[|k.free| - |k'.free|..]
    && |own'| + |k'.free| == |own| + |k.free|
  }

  /** Every P4 table translates every page outside the window as before. */
  ghost predicate SameWalks(m: Memory, m': Memory, own: Owners) {
    forall r, q {:trigger Walk(m', r, q)} :: r in own && own[r].Top? && Plain(q) ==> Walk(m', r, q) == Walk(m, r, q)
  }

  lemma GrownRefl(k: Kernel, own: Owners, root: Frame)
    ensures Grown(k, own, k, own, root) && SameWalks(k.mem, k.mem, own)
  {
  }

  lemma GrownTrans(k: Kernel, own: Owners, k1: Kernel, own1: Owners, k2: Kernel, own2: Owners, root: Frame)
    requires Grown(k, own, k1, own1, root) && Grown(k1, own1, k2, own2, root)
    ensures Grown(k, own, k2, own2, root)
  {
    hide Extends, NewTable, RootOf, Kept;
    var n, n1 := |k.free| - |k1.free|, |k1.free| - |k2.free|;
    assert k.free[n..][n1..] == k.free[n + n1..];
    KeptTrans(own, own1, own2);
    ExtendsTrans(k.mem, k1.mem, k2.mem, own, own1);
    forall g | g in own2 && g !in own
      ensures NewTable(k, own, own2, root, g)
    {
      NewTableTrans(k, own, k1, own1, k2, own2, root, g);
    }
    forall g | g in k.mem && !(g in own2 && RootOf(own2[g]) == root)
      ensures k2.mem[g] == k.mem[g]
    {
      UntouchedTrans(own1, own2, root, g);
      assert k1.mem[g] == k.mem[g];
    }
  }

  lemma KeptTrans(own: Owners, own1: Owners, own2: Owners)
    requires Kept(own, own1) && Kept(own1, own2)
    ensures Kept(own, own2)
  {
    forall g | g in own
      ensures g in own2 && own2[g] == own[g]
    {
      assert g in own1 && own1[g] == own[g];
    }
  }

  lemma UntouchedTrans(own1: Owners, own2: Owners, root: Frame, g: Frame)
    requires Kept(own1, own2) && !(g in own2 && RootOf(own2[g]) == root)
    ensures !(g in own1 && RootOf(own1[g]) == root)
  {
    assert g in own1 ==> g in own2 && own2[g] == own1[g];
  }

  lemma NewTableTrans(k: Kernel, own: Owners, k1: Kernel, own1: Owners, k2: Kernel, own2: Owners, root: Frame, g: Frame)
    requires Kept(own, own1) && Kept(own1, own2) && g in own2 && g !in own
    requires g in own1 ==> NewTable(k, own, own1, root, g)
    requires g !in own1 ==> NewTable(k1, own1, own2, root, g)
    requires |k1.free| <= |k.free| && k1.free == k.free[|k.free| - |k1.free|..]
    ensures NewTable(k, own, own2, root, g)
  {
    if g in own1 {
      assert own2[g] == own1[g];
    }
  }

  lemma ExtendsTrans(m: Memory, m1: Memory, m2: Memory, own: Owners, own1: Owners)
    requires Extends(m, m1, own) && Extends(m1, m2, own1) && Kept(own, own1)
    ensures Extends(m, m2, own)
  {
    forall g, i | g in own && 0 <= i < ENTRY_COUNT && Get(m, g, i).Present()
      ensures Get(m2, g, i) == Get(m, g, i)
    {
      assert g in own1;
      assert Get(m1, g, i) == Get(m, g, i);
    }
  }

  /** The places after `next_table_create`. */
  function OwnersAfter(k: Kernel, own: Owners, f: Frame, i: nat): Owners
    requires i < ENTRY_COUNT && f in own
  {
    if Get(k.mem, f, i).IsTable() || k.free == [] then own else own[k.free[0] := Child(own[f], i)]
  }

  /** An entry of a table that may lead to another table. */
  predicate TableSlot(own: Owners, f: Frame, i: nat) {
    f in own && i < ENTRY_COUNT && Level(own[f]) > 1 && !(own[f].Top? && i == RECURSIVE)
  }

  lemma LinkKeepsTree(m: Memory, own: Owners, f: Frame, i: nat, t: Frame)
    requires Tree(m, own) && TableSlot(own, f, i) && f in m
    requires !m[f][i].Present() && t in m && t !in own
    ensures Tree(Link(m, f, i, t), own[t := Child(own[f], i)])
  {
    var m', own' := Link(m, f, i, t), own[t := Child(own[f], i)];
    assert NodeOk(m, own, f);
    forall g | g in own'
      ensures NodeOk(m', own', g)
    {
      if g != t {
        assert NodeOk(m, own, g);
      }
    }
    forall g, j | g in own' && 0 <= j < ENTRY_COUNT
      ensures SlotOk(m', own', g, j)
    {
      if g != t {
        assert SlotOk(m, own, g, j);
      }
    }
  }

  lemma LinkKeepsWalks(m: Memory, own: Owners, f: Frame, i: nat, t: Frame)
    requires Tree(m, own) && TableSlot(own, f, i) && f in m
    requires !m[f][i].Present() && t in m && t !in own
    ensures SameWalks(m, Link(m, f, i, t), own)
  {
    var m' := Link(m, f, i, t);
    forall r, q | r in own && own[r].Top? && Plain(q)
      ensures Walk(m', r, q) == Walk(m, r, q)
    {
      assert NodeOk(m, own, r);
      WalkLink(m, m', own, f, i, t, r, 4, q);
    }
  }

  lemma LinkKeepsGood(k: Kernel, own: Owners, f: Frame, i: nat)
    requires Good(k, own) && TableSlot(own, f, i) && k.free != [] && !Get(k.mem, f, i).Present() && f in k.mem
    ensures Good(Kernel(Link(k.mem, f, i, k.free[0]), k.free[1..]), own[k.free[0] := Child(own[f], i)])
  {
    var t := k.free[0];
    var m', own' := Link(k.mem, f, i, t), own[t := Child(own[f], i)];
    LinkKeepsTree(k.mem, own, f, i, t);
    assert forall r :: r in own' && own'[r].Top? ==> r in own && Get(m', r, RECURSIVE) == Get(k.mem, r, RECURSIVE);
  }

  lemma LinkGrows(k: Kernel, own: Owners, f: Frame, i: nat)
    requires Supply(k, own) && f in own && i < ENTRY_COUNT && k.free != [] && !Get(k.mem, f, i).Present() && f in k.mem
    ensures Grown(k, own, Kernel(Link(k.mem, f, i, k.free[0]), k.free[1..]), own[k.free[0] := Child(own[f], i)],
        RootOf(own[f]))
  {
    var t := k.free[0];
    var m', own' := Link(k.mem, f, i, t), own[t := Child(own[f], i)];
    assert own'.Keys == own.Keys + {t};
    assert m'.Keys == k.mem.Keys;
  }

  /** One `next_table_create` grows the hierarchy by at most one empty table and changes
      no translation. */
  lemma CreateStep(k: Kernel, own: Owners, f: Frame, i: nat)
    requires Good(k, own) && TableSlot(own, f, i) && NextTableCreate(k, f, i).Ok?
    ensures var (k', t) := NextTableCreate(k, f, i).value;
            var own' := OwnersAfter(k, own, f, i);
            && Good(k', own') && Grown(k, own, k', own', RootOf(own[f])) && SameWalks(k.mem, k'.mem, own)
            && t in own' && own'[t] == Child(own[f], i)
            && Get(k'.mem, f, i).IsTable() && Get(k'.mem, f, i).frame == t
  {
    assert NodeOk(k.mem, own, f) && SlotOk(k.mem, own, f, i);
    if Get(k.mem, f, i).IsTable() {
      GrownRefl(k, own, RootOf(own[f]));
    } else {
      LinkKeepsGood(k, own, f, i);
      LinkGrows(k, own, f, i);
      LinkKeepsWalks(k.mem, own, f, i, k.free[0]);
    }
  }

  /** The three `next_table_create` calls of `map_to`. */
  function Descend(k: Kernel, root: Frame, page: nat): Result<(Kernel, Frame)> {
    var (k3, f3) :- NextTableCreate(k, root, Index(page, 4));
    var (k2, f2) :- NextTableCreate(k3, f3, Index(page, 3));
    NextTableCreate(k2, f2, Index(page, 2))
  }

  /** After the descent the page has a P1 table at its place, and nothing else changed. */
  lemma DescendGrows(k: Kernel, own: Owners, root: Frame, page: nat) returns (own': Owners)
    requires Good(k, own) && root in own && own[root].Top? && Plain(page)
    requires Descend(k, root, page).Ok?
    ensures var (k', f) := Descend(k, root, page).value;
            && Good(k', own') && Grown(k, own, k', own', root) && SameWalks(k.mem, k'.mem, own)
            && f in own' && own'[f] == PathOf(root, page, 1)
            && TableAt(k'.mem, PathOf(root, page, 1)) == Some(f)
  {
    hide NextTableCreate, OwnersAfter, Walk;
    assert NodeOk(k.mem, own, root);
    var (k3, f3) := NextTableCreate(k, root, Index(page, 4)).value;
    CreateStep(k, own, root, Index(page, 4));
    var own3 := OwnersAfter(k, own, root, Index(page, 4));
    assert own3[f3] == PathOf(root, page, 3);
    var (k2, f2) := NextTableCreate(k3, f3, Index(page, 3)).value;
    CreateStep(k3, own3, f3, Index(page, 3));
    var own2 := OwnersAfter(k3, own3, f3, Index(page, 3));
    assert own2[f2] == PathOf(root, page, 2);
    GrownTrans(k, own, k3, own3, k2, own2, root);
    var (k1, f1) := NextTableCreate(k2, f2, Index(page, 2)).value;
    CreateStep(k2, own2, f2, Index(page, 2));
    own' := OwnersAfter(k2, own2, f2, Index(page, 2));
    GrownTrans(k, own, k2, own2, k1, own', root);
    DescendPath(k3, own3, k2, own2, k1, own', root, page, f3, f2, f1);
  }

  lemma DescendPath(k3: Kernel, own3: Owners, k2: Kernel, own2: Owners, k1: Kernel, own1: Owners,
                    root: Frame, page: nat, f3: Frame, f2: Frame, f1: Frame)
    requires root in own3 && f3 in own2
    requires Extends(k3.mem, k2.mem, own3) && Extends(k2.mem, k1.mem, own2) && root in own2
    requires Get(k3.mem, root, Index(page, 4)).IsTable() && Get(k3.mem, root, Index(page, 4)).frame == f3
    requires Get(k2.mem, f3, Index(page, 3)).IsTable() && Get(k2.mem, f3, Index(page, 3)).frame == f2
    requires Get(k1.mem, f2, Index(page, 2)).IsTable() && Get(k1.mem, f2, Index(page, 2)).frame == f1
    ensures TableAt(k1.mem, PathOf(root, page, 1)) == Some(f1)
  {
    assert Get(k1.mem, root, Index(page, 4)) == Get(k2.mem, root, Index(page, 4)) == Get(k3.mem, root, Index(page, 4));
    assert Get(k1.mem, f3, Index(page, 3)) == Get(k2.mem, f3, Index(page, 3));
    assert TableAt(k1.mem, Top(root)) == Some(root);
    assert TableAt(k1.mem, PathOf(root, page, 3)) == Some(f3);
    assert TableAt(k1.mem, PathOf(root, page, 2)) == Some(f2);
  }

  /** Every translation outside the window is as before, except that `root` now
      translates `page` to `now`. */
  ghost predicate PointUpdate(m: Memory, m': Memory, own: Owners, root: Frame, page: nat, now: Option<Entry>) {
    forall r, q {:trigger Walk(m', r, q)} :: r in own && own[r].Top? && Plain(q) ==>
      Walk(m', r, q) == if r == root && q == page then now else Walk(m, r, q)
  }

  /** Writing the P1 entry of a page changes the translation of that page only. */
  lemma LeafPoint(m: Memory, own: Owners, root: Frame, page: nat, f: Frame, e: Entry)
    requires Tree(m, own) && root in own && own[root].Top? && Plain(page)
    requires f in own && TableAt(m, PathOf(root, page, 1)) == Some(f) && own[f] == PathOf(root, page, 1)
    requires e == UNUSED || e.Present()
    ensures f in m && Tree(Put(m, f, Index(page, 1), e), own)
    ensures PointUpdate(m, Put(m, f, Index(page, 1), e), own, root, page,
                        Target(e))
  {
    assert NodeOk(m, own, f) && NodeOk(m, own, root);
    var m' := Put(m, f, Index(page, 1), e);
    LeafTree(m, own, f, Index(page, 1), e);
    forall r, q | r in own && own[r].Top? && Plain(q)
      ensures Walk(m', r, q) == if r == root && q == page then Target(e) else Walk(m, r, q)
    {
      assert NodeOk(m, own, r);
      if r == root && q == page {
        LeafPath(m, own, root, page, f, e);
        WalkToLeaf(m', root, page);
      } else {
        if own[f] == PathOf(r, q, 1) && Index(page, 1) == Index(q, 1) {
          PathInjective(root, page, r, q);
        }
        WalkOff(m, m', own, f, Index(page, 1), r, 4, q);
      }
    }
  }

  lemma LeafTree(m: Memory, own: Owners, f: Frame, i: nat, e: Entry)
    requires Tree(m, own) && f in own && f in m && Level(own[f]) == 1 && i < ENTRY_COUNT
    requires e == UNUSED || e.Present()
    ensures Tree(Put(m, f, i, e), own)
  {
    var m' := Put(m, f, i, e);
    forall g | g in own
      ensures NodeOk(m', own, g)
    {
      assert NodeOk(m, own, g);
    }
    forall g, j | g in own && 0 <= j < ENTRY_COUNT
      ensures SlotOk(m', own, g, j)
    {
      assert SlotOk(m, own, g, j);
    }
  }

  lemma LeafPath(m: Memory, own: Owners, root: Frame, page: nat, f: Frame, e: Entry)
    requires f in m && f in own && own[f] == PathOf(root, page, 1) && Tree(m, own) && Plain(page)
    requires root in own && own[root] == Top(root)
    requires TableAt(m, PathOf(root, page, 1)) == Some(f)
    ensures TableAt(Put(m, f, Index(page, 1), e), PathOf(root, page, 1)) == Some(f)
  {
    var m' := Put(m, f, Index(page, 1), e);
    var n3, n2, n1 := PathOf(root, page, 3), PathOf(root, page, 2), PathOf(root, page, 1);
    assert n1.parent == n2 && n2.parent == n3 && n3.parent == Top(root);
    assert TableAt(m, n2).Some? && TableAt(m, n3).Some?;
    assert PlainPath(n3) && PlainPath(n2);
    TableAtOwner(m, own, n3);
    TableAtOwner(m, own, n2);
    assert f != root && f != TableAt(m, n3).value && f != TableAt(m, n2).value;
    assert TableAt(m', n3) == TableAt(m, n3);
    assert TableAt(m', n2) == TableAt(m, n2);
  }

  lemma MapToIsDescend(k: Kernel, root: Frame, page: nat, frame: Frame, flags: Flags)
    ensures var d := Descend(k, root, page);
            MapTo(k, root, page, frame, flags) ==
              if d.Ok? then SetLeaf(d.value.0, d.value.1, page, frame, flags) else Panic(d.why)
  {
  }

  /** `map_to` is an exact point update: the page had no translation, now it has the
      given frame and flags, every other page of every hierarchy translates as before although up
      to three tables were created and zeroed, and the tables still form trees. */
  lemma MapToPoint(k: Kernel, own: Owners, root: Frame, page: nat, frame: Frame, flags: Flags) returns (own': Owners)
    requires Good(k, own) && root in own && own[root].Top? && Plain(page)
    requires MapTo(k, root, page, frame, flags).Ok?
    ensures var k' := MapTo(k, root, page, frame, flags).value;
            && Good(k', own') && Grown(k, own, k', own', root)
            && Walk(k.mem, root, page) == None
            && PointUpdate(k.mem, k'.mem, own, root, page, Some(Entry(frame, flags.Or(PRESENT))))
            && TableAt(k'.mem, PathOf(root, page, 1)).Some?
  {
    MapToIsDescend(k, root, page, frame, flags);
    own' := DescendGrows(k, own, root, page);
    var (k1, f) := Descend(k, root, page).value;
    var k' := MapTo(k, root, page, frame, flags).value;
    var e := Entry(frame, flags.Or(PRESENT));
    LeafPoint(k1.mem, own', root, page, f, e);
    LeafGrows(k1, own', f, Index(page, 1), e);
    assert NodeOk(k1.mem, own', root);
    LeafPath(k1.mem, own', root, page, f, e);
    GrownTrans(k, own, k1, own', k', own', root);
    WalkToLeaf(k1.mem, root, page);
    assert Walk(k.mem, root, page) == Walk(k1.mem, root, page) == None;
    forall r, q | r in own && own[r].Top? && Plain(q)
      ensures Walk(k'.mem, r, q) == if r == root && q == page then Some(e) else Walk(k.mem, r, q)
    {
      assert Walk(k1.mem, r, q) == Walk(k.mem, r, q);
      assert r in own' && own'[r].Top?;
    }
  }

  lemma LeafGrows(k: Kernel, own: Owners, f: Frame, i: nat, e: Entry)
    requires Good(k, own) && f in own && f in k.mem && i < ENTRY_COUNT && Level(own[f]) == 1
    requires k.mem[f][i] == UNUSED && e.Present()
    ensures var k' := k.(mem := Put(k.mem, f, i, e));
            Good(k', own) && Grown(k, own, k', own, RootOf(own[f]))
  {
    var k' := k.(mem := Put(k.mem, f, i, e));
    LeafTree(k.mem, own, f, i, e);
    assert k'.mem.Keys == k.mem.Keys;
    assert forall r :: r in own && own[r].Top? ==> Get(k'.mem, r, RECURSIVE) == Get(k.mem, r, RECURSIVE);
  }

  /** How many tables the walk for `page` lacks from the table of `level` in `f` on. */
  function Missing(m: Memory, f: Frame, level: nat, page: nat): nat
    requires 1 <= level <= 4
    decreases level
  {
    if level == 1 then 0
    else if Get(m, f, Index(page, level)).IsTable()
    then Missing(m, Get(m, f, Index(page, level)).frame, level - 1, page)
    else level - 1
  }

  /** `map_to` from the table of `level` on. */
  function MapFrom(k: Kernel, f: Frame, level: nat, page: nat, frame: Frame, flags: Flags): Result<Kernel>
    requires 1 <= level <= 4
    decreases level
  {
    if level == 1 then SetLeaf(k, f, page, frame, flags) else
    var (k', t) :- NextTableCreate(k, f, Index(page, level));
    MapFrom(k', t, level - 1, page, frame, flags)
  }

  /** What `map_to` does, told from the memory it finds. */
  ghost predicate Exact(k: Kernel, f: Frame, level: nat, page: nat, frame: Frame, r: Result<Kernel>)
    requires 1 <= level <= 4
  {
    var need := Missing(k.mem, f, level, page);
    if WalkFrom(k.mem, f, level, page).Some? then r == Panic(if need == 0 then AlreadyMapped else HugePage)
    else if need > |k.free| then r == Panic(OutOfMemory)
    else if frame >= FRAME_LIMIT then r == Panic(BadFrame)
    else r.Ok? && r.value.free == k.free[need..]
  }

  lemma ExactBelow(k: Kernel, f: Frame, k': Kernel, t: Frame, level: nat, page: nat, frame: Frame, r: Result<Kernel>)
    requires 2 <= level <= 4 && k.free != [] && k'.free == k.free[1..]
    requires !Get(k.mem, f, Index(page, level)).Present() && Get(k'.mem, t, Index(page, level - 1)) == UNUSED
    requires Exact(k', t, level - 1, page, frame, r)
    ensures Exact(k, f, level, page, frame, r)
  {
    assert |k.free| > level - 1 ==> k.free[1..][level - 2..] == k.free[level - 1..];
  }

  lemma {:induction false} MapFromExact(k: Kernel, own: Owners, f: Frame, level: nat, page: nat, frame: Frame,
      flags: Flags)
    requires Good(k, own) && f in own && 1 <= level <= 4 && Plain(page)
    requires own[f] == PathOf(RootOf(own[f]), page, level)
    ensures Exact(k, f, level, page, frame, MapFrom(k, f, level, page, frame, flags))
    decreases level, 1
  {
    var e := Get(k.mem, f, Index(page, level));
    EntryKinds(k.mem, own, f, level, page);
    if level > 1 {
      if e.IsTable() {
        StepDown(k.mem, own, f, level, page);
        MapFromExact(k, own, e.frame, level - 1, page, frame, flags);
      } else if e == UNUSED && k.free != [] {
        MapFromAbsent(k, own, f, level, page, frame, flags);
      }
    }
  }

  /** An entry on a page's way is unused, a link, or maps an aligned huge frame. */
  lemma EntryKinds(m: Memory, own: Owners, f: Frame, level: nat, page: nat)
    requires Tree(m, own) && f in own && 1 <= level <= 4 && Plain(page) && Level(own[f]) == level
    ensures f in m
    ensures var e := Get(m, f, Index(page, level));
            e == UNUSED || (e.Present() && (level > 1 && e.flags.huge ==> level < 4 && e.frame % Span(level) == 0))
  {
    assert NodeOk(m, own, f) && SlotOk(m, own, f, Index(page, level));
  }

  lemma {:induction false} MapFromAbsent(k: Kernel, own: Owners, f: Frame, level: nat, page: nat, frame: Frame,
      flags: Flags)
    requires Good(k, own) && f in own && 2 <= level <= 4 && Plain(page) && k.free != []
    requires own[f] == PathOf(RootOf(own[f]), page, level) && Get(k.mem, f, Index(page, level)) == UNUSED
    ensures Exact(k, f, level, page, frame, MapFrom(k, f, level, page, frame, flags))
    decreases level, 0
  {
    EntryKinds(k.mem, own, f, level, page);
    var i := Index(page, level);
    CreateStep(k, own, f, i);
    var (k', t) := NextTableCreate(k, f, i).value;
    var own' := OwnersAfter(k, own, f, i);
    assert own'[t] == PathOf(RootOf(own'[t]), page, level - 1);
    MapFromExact(k', own', t, level - 1, page, frame, flags);
    ExactBelow(k, f, k', t, level, page, frame, MapFrom(k', t, level - 1, page, frame, flags));
  }

  /** When `map_to` succeeds: exactly if the page has no translation, the frame fits an
      entry and there is a frame left for every missing table; it takes just those. A page
      with a translation is already mapped if it has a P1 table, and huge otherwise. */
  lemma MapToExact(k: Kernel, own: Owners, root: Frame, page: nat, frame: Frame, flags: Flags)
    requires Good(k, own) && root in own && own[root].Top? && Plain(page)
    ensures Exact(k, root, 4, page, frame, MapTo(k, root, page, frame, flags))
    ensures Missing(k.mem, root, 4, page) == 0 <==> TableAt(k.mem, PathOf(root, page, 1)).Some?
  {
    assert NodeOk(k.mem, own, root);
    MapFromExact(k, own, root, 4, page, frame, flags);
    MapToIsMapFrom(k, root, page, frame, flags);
    NoneMissing(k.mem, root, page);
  }

  lemma NoneMissing(m: Memory, root: Frame, page: nat)
    ensures Missing(m, root, 4, page) == 0 <==> TableAt(m, PathOf(root, page, 1)).Some?
  {
    var n3, n2, n1 := PathOf(root, page, 3), PathOf(root, page, 2), PathOf(root, page, 1);
    assert n1.parent == n2 && n2.parent == n3 && n3.parent == Top(root) && TableAt(m, Top(root)) == Some(root);
    var e3 := Get(m, root, Index(page, 4));
    if e3.IsTable() {
      assert TableAt(m, n3) == Some(e3.frame);
      assert Missing(m, root, 4, page) == Missing(m, e3.frame, 3, page);
      var e2 := Get(m, e3.frame, Index(page, 3));
      assert e2.IsTable() ==> Missing(m, e3.frame, 3, page) == Missing(m, e2.frame, 2, page);
    } else {
      assert TableAt(m, n3) == None;
    }
  }

  lemma MapToIsMapFrom(k: Kernel, root: Frame, page: nat, frame: Frame, flags: Flags)
    ensures MapTo(k, root, page, frame, flags) == MapFrom(k, root, 4, page, frame, flags)
  {
    var r3 := NextTableCreate(k, root, Index(page, 4));
    if r3.Ok? {
      var r2 := NextTableCreate(r3.value.0, r3.value.1, Index(page, 3));
      assert r2.Ok? ==> MapFrom(r3.value.0, r3.value.1, 3, page, frame, flags)
                        == MapFrom(r2.value.0, r2.value.1, 2, page, frame, flags);
    }
  }

  /** `unmap` takes away the translation of the page and no other; it succeeds exactly
      on 4 KiB translations, and panics in its own way without one and on a huge one. */
  lemma UnmapPoint(k: Kernel, own: Owners, root: Frame, page: nat)
    requires Good(k, own) && root in own && own[root].Top? && Plain(page)
    ensures var r := Unmap(k, root, page);
            && (r.Ok? <==> Walk(k.mem, root, page).Some? && TableAt(k.mem, PathOf(root, page, 1)).Some?)
            && (Walk(k.mem, root, page).None? ==> r == Panic(NotMapped))
            && (Walk(k.mem, root, page).Some? && TableAt(k.mem, PathOf(root, page, 1)).None? ==> r == Panic(HugePage))
            && (r.Ok? ==> && Good(r.value, own) && r.value.free == k.free
                          && PointUpdate(k.mem, r.value.mem, own, root, page, None))
  {
    assert NodeOk(k.mem, own, root);
    var n1 := PathOf(root, page, 1);
    if TableAt(k.mem, n1).Some? {
      PathPlain(root, page);
      TableAtOwner(k.mem, own, n1);
      var f := TableAt(k.mem, n1).value;
      assert NodeOk(k.mem, own, f);
      LeafPoint(k.mem, own, root, page, f, UNUSED);
      var m' := Put(k.mem, f, Index(page, 1), UNUSED);
      assert forall r :: r in own && own[r].Top? ==> Get(m', r, RECURSIVE) == Get(k.mem, r, RECURSIVE);
    }
  }

  lemma PathPlain(root: Frame, page: nat)
    requires Plain(page)
    ensures PlainPath(PathOf(root, page, 1))
  {
    assert PlainPath(PathOf(root, page, 3));
    assert PlainPath(PathOf(root, page, 2));
  }

  /** Links between tables are kept, the recursive slots aside. */
  ghost predicate LinksKept(m: Memory, m': Memory, own: Owners) {
    forall f, i {:trigger Get(m', f, i)} ::
      (f in own && 0 <= i < ENTRY_COUNT && Level(own[f]) > 1 && !(own[f].Top? && i == RECURSIVE)
       && Get(m, f, i).Present()) ==>
        Get(m', f, i) == Get(m, f, i)
  }

  lemma {:induction false} TableAtKept(m: Memory, m': Memory, own: Owners, n: Path)
    requires Tree(m, own) && LinksKept(m, m', own) && ValidPath(n) && 1 <= Level(n) && PlainPath(n)
    requires RootOf(n) in own && own[RootOf(n)].Top? && TableAt(m, n).Some?
    ensures TableAt(m', n) == TableAt(m, n)
  {
    if n.Child? {
      assert NodeOk(m, own, RootOf(n));
      TableAtKept(m, m', own, n.parent);
      TableAtOwner(m, own, n.parent);
      assert Get(m', TableAt(m, n.parent).value, n.index) == Get(m, TableAt(m, n.parent).value, n.index);
    }
  }

  lemma UnmapKeepsLinks(k: Kernel, own: Owners, root: Frame, page: nat)
    requires Good(k, own) && root in own && own[root].Top? && Plain(page) && Unmap(k, root, page).Ok?
    ensures LinksKept(k.mem, Unmap(k, root, page).value.mem, own)
  {
    assert NodeOk(k.mem, own, root);
    PathPlain(root, page);
    TableAtOwner(k.mem, own, PathOf(root, page, 1));
  }
}
