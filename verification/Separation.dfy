/** Runs of mapping operations: which frame ends up where, over a whole run. */
module Separation {
  import opened Outcomes
  import opened Entries
  import opened Pages
  import opened Hierarchy
  import opened Mapping
  import opened Detour
  import opened FrameAllocator

  /** What the kernel has: memory, the frames still to be allocated, and the P4 tables of
      the hierarchies made so far. */
  datatype System = System(kernel: Kernel, roots: set<Frame>)

  datatype Op =
    | MapFresh(root: Frame, page: nat, flags: Flags)                    // map
    | MapFrame(root: Frame, page: nat, frame: Frame, flags: Flags)      // map_to, identity_map
    | Remove(root: Frame, page: nat)                                    // unmap
    | Create(cr3: Frame, temp: nat)                                     // InactivePageTable::new
    | Fill(cr3: Frame, table: Frame, temp: nat, reqs: seq<Request>)     // with

  function Apply(s: System, op: Op): Result<System> {
    var k := s.kernel;
    match op
    case MapFresh(root, page, flags) =>
      var k' :- Map(k, root, page, flags);
      Ok(s.(kernel := k'))
    case MapFrame(root, page, frame, flags) =>
      var k' :- MapTo(k, root, page, frame, flags);
      Ok(s.(kernel := k'))
    case Remove(root, page) =>
      var k' :- Unmap(k, root, page);
      Ok(s.(kernel := k'))
    case Create(cr3, temp) =>
      if k.free == [] then Panic(OutOfMemory) else
      var k' :- NewInactive(k.(free := k.free[1..]), cr3, temp, k.free[0]);
      Ok(System(k', s.roots + {k.free[0]}))
    case Fill(cr3, table, temp, reqs) =>
      var k' :- With(k, cr3, table, temp, reqs);
      Ok(s.(kernel := k'))
  }

  /** The frame an operation allocates as data. */
  function DataOf(k: Kernel, op: Op): seq<Frame> {
    if op.MapFresh? && k.free != [] then [k.free[0]] else []
  }

  /** The operations in order, and the data frames they allocated. */
  function Run(s: System, ops: seq<Op>): Result<(System, seq<Frame>)> {
    if ops == [] then Ok((s, [])) else
    var (s1, data) :- Run(s, ops[..|ops| - 1]);
    var s2 :- Apply(s1, ops[|ops| - 1]);
    Ok((s2, data + DataOf(s1.kernel, ops[|ops| - 1])))
  }

  /** Data frames, table frames and the frames left are disjoint, the data frames pairwise
      so, and every frame of the supply is in one of them. */
  ghost predicate Separated(k: Kernel, own: Owners, k': Kernel, own': Owners, data: seq<Frame>) {
    && (forall i :: 0 <= i < |data| ==> data[i] in k.free && data[i] !in k'.free && data[i] !in own')
    && (forall i, j :: 0 <= i < j < |data| ==> data[i] != data[j])
    && Added(k.free, own, k'.free, own')
    && |k.free| + |own| == |data| + |own'| + |k'.free|
  }

  /** An operation on hierarchies that exist, outside the window. */
  predicate Allowed(roots: set<Frame>, op: Op) {
    match op
    case MapFresh(root, page, _) => root in roots && Plain(page)
    case MapFrame(root, page, _, _) => root in roots && Plain(page)
    case Remove(root, page) => root in roots && Plain(page)
    case Create(cr3, temp) => cr3 in roots && Plain(temp)
    case Fill(cr3, table, temp, reqs) => cr3 in roots && table in roots && cr3 != table && Plain(temp) && AllPlain(reqs)
  }

  /** Every operation of a run is on hierarchies that exist by then. */
  ghost predicate Disciplined(s: System, ops: seq<Op>) {
    forall i {:trigger ops[i]} :: 0 <= i < |ops| && Run(s, ops[..i]).Ok? ==>
      Allowed(Run(s, ops[..i]).value.0.roots, ops[i])
  }

  /** The tables form trees, and every hierarchy made so far is one. */
  ghost predicate Sound(s: System, own: Owners) {
    Good(s.kernel, own) && forall r {:trigger Hierarchical(s.kernel.mem, own, r)} :: r in s.roots ==>
        Hierarchical(s.kernel.mem, own, r)
  }

  lemma ApplySeparates(s: System, own: Owners, op: Op) returns (own': Owners)
    requires Sound(s, own) && Allowed(s.roots, op) && Apply(s, op).Ok?
    ensures var s' := Apply(s, op).value;
            Sound(s', own') && Separated(s.kernel, own, s'.kernel, own', DataOf(s.kernel, op))
  {
    hide MapTo, Unmap, With, NewInactive, Good, Recursive, Added;
    match op
    case MapFresh(root, page, flags) => own' := FreshSeparates(s, own, root, page, flags);
    case MapFrame(root, page, frame, flags) => own' := FrameSeparates(s, own, root, page, frame, flags);
    case Remove(root, page) => own' := RemoveSeparates(s, own, root, page);
    case Create(cr3, temp) => own' := CreateSeparates(s, own, cr3, temp);
    case Fill(cr3, table, temp, reqs) => own' := FillSeparates(s, own, cr3, table, temp, reqs);
  }

  lemma FrameSeparates(s: System, own: Owners, root: Frame, page: nat, frame: Frame, flags: Flags)
      returns (own': Owners)
    requires Sound(s, own) && root in s.roots && Plain(page) && MapTo(s.kernel, root, page, frame, flags).Ok?
    ensures var k' := MapTo(s.kernel, root, page, frame, flags).value;
            Sound(s.(kernel := k'), own') && Separated(s.kernel, own, k', own', [])
  {
    hide MapTo, Walk, Supply, Tree, SlotsToRoots;
    assert Hierarchical(s.kernel.mem, own, root);
    own' := MapToPoint(s.kernel, own, root, page, frame, flags);
    var k' := MapTo(s.kernel, root, page, frame, flags).value;
    GrownAdds(s.kernel, own, k', own', root);
    GrownRooted(s.kernel, own, k', own', root);
  }

  lemma GrownRooted(k: Kernel, own: Owners, k': Kernel, own': Owners, root: Frame)
    requires Grown(k, own, k', own', root)
    ensures StillRooted(k.mem, own, k'.mem, own')
  {
    forall r | Hierarchical(k.mem, own, r)
      ensures Hierarchical(k'.mem, own', r)
    {
      assert r in own' && own'[r] == own[r] && Get(k'.mem, r, RECURSIVE) == Get(k.mem, r, RECURSIVE);
    }
  }

  lemma FreshSeparates(s: System, own: Owners, root: Frame, page: nat, flags: Flags) returns (own': Owners)
    requires Sound(s, own) && root in s.roots && Plain(page) && Map(s.kernel, root, page, flags).Ok?
    ensures var k' := Map(s.kernel, root, page, flags).value;
            Sound(s.(kernel := k'), own') && Separated(s.kernel, own, k', own', [s.kernel.free[0]])
  {
    hide Map, Good, Separated, Recursive;
    assert Hierarchical(s.kernel.mem, own, root);
    own' := MapSeparates(s.kernel, own, root, page, flags);
  }

  /** `map` takes one frame for its data and the rest for tables. */
  lemma MapSeparates(k: Kernel, own: Owners, root: Frame, page: nat, flags: Flags) returns (own': Owners)
    requires Good(k, own) && root in own && own[root].Top? && Plain(page) && Map(k, root, page, flags).Ok?
    ensures var k' := Map(k, root, page, flags).value;
            && Good(k', own') && StillRooted(k.mem, own, k'.mem, own') && Separated(k, own, k', own', [k.free[0]])
            && PointUpdate(k.mem, k'.mem, own, root, page, Some(Entry(k.free[0], flags.Or(PRESENT))))
  {
    hide MapTo, Walk, Tree, SlotsToRoots;
    var k', k0 := Map(k, root, page, flags).value, k.(free := k.free[1..]);
    own' := MapToPoint(k0, own, root, page, k.free[0], flags);
    GrownAdds(k0, own, k', own', root);
    GrownRooted(k0, own, k', own', root);
    assert !NewTable(k0, own, own', root, k.free[0]);
    AddedFromTail(k.free, own, k'.free, own');
  }

  lemma RemoveSeparates(s: System, own: Owners, root: Frame, page: nat) returns (own': Owners)
    requires Sound(s, own) && root in s.roots && Plain(page) && Unmap(s.kernel, root, page).Ok?
    ensures var k' := Unmap(s.kernel, root, page).value;
            Sound(s.(kernel := k'), own') && Separated(s.kernel, own, k', own', [])
  {
    hide Unmap, Walk, Supply, Tree, SlotsToRoots;
    assert Hierarchical(s.kernel.mem, own, root);
    own' := own;
    AddedSame(s.kernel.free, own);
    UnmapPoint(s.kernel, own, root, page);
    UnmapKeepsRoots(s.kernel, own, root, page);
    var k' := Unmap(s.kernel, root, page).value;
    forall r | r in s.roots
      ensures Hierarchical(k'.mem, own, r)
    {
      assert Hierarchical(s.kernel.mem, own, r);
    }
  }

  lemma CreateSeparates(s: System, own: Owners, cr3: Frame, temp: nat) returns (own': Owners)
    requires Sound(s, own) && cr3 in s.roots && Plain(temp) && s.kernel.free != []
    requires NewInactive(s.kernel.(free := s.kernel.free[1..]), cr3, temp, s.kernel.free[0]).Ok?
    ensures var k' := NewInactive(s.kernel.(free := s.kernel.free[1..]), cr3, temp, s.kernel.free[0]).value;
            && Sound(System(k', s.roots + {s.kernel.free[0]}), own')
            && Separated(s.kernel, own, k', own', [])
  {
    hide NewInactive, Walk, Tree, SlotsToRoots;
    assert Hierarchical(s.kernel.mem, own, cr3);
    var k, frame := s.kernel, s.kernel.free[0];
    var k0 := k.(free := k.free[1..]);
    assert frame !in k0.free && k == k0.(free := [frame] + k0.free);
    own' := NewInactiveEmpty(k0, own, cr3, temp, frame);
    FollowsAdds(k, own, NewInactive(k0, cr3, temp, frame).value, own');
  }

  lemma FillSeparates(s: System, own: Owners, cr3: Frame, table: Frame, temp: nat, reqs: seq<Request>)
      returns (own': Owners)
    requires Sound(s, own) && Allowed(s.roots, Fill(cr3, table, temp, reqs))
    requires With(s.kernel, cr3, table, temp, reqs).Ok?
    ensures var k' := With(s.kernel, cr3, table, temp, reqs).value;
            Sound(s.(kernel := k'), own') && Separated(s.kernel, own, k', own', [])
  {
    hide With, Walk, Supply, Tree, SlotsToRoots;
    assert Hierarchical(s.kernel.mem, own, cr3) && Hierarchical(s.kernel.mem, own, table);
    WithFits(s.kernel, cr3, table, temp, reqs);
    own' := WithFaithful(s.kernel, own, cr3, table, temp, reqs);
    FollowsAdds(s.kernel, own, With(s.kernel, cr3, table, temp, reqs).value, own');
  }

  lemma WithFits(k: Kernel, cr3: Frame, table: Frame, temp: nat, reqs: seq<Request>)
    requires With(k, cr3, table, temp, reqs).Ok?
    ensures table < FRAME_LIMIT
  {
    hide MapTo, MapAll, Unmap, Walk;
  }

  lemma FollowsAdds(k: Kernel, own: Owners, k': Kernel, own': Owners)
    requires Follows(k, own, k', own')
    ensures Separated(k, own, k', own', [])
  {
  }

  lemma GrownAdds(k: Kernel, own: Owners, k': Kernel, own': Owners, root: Frame)
    requires Grown(k, own, k', own', root)
    ensures Added(k.free, own, k'.free, own')
  {
    forall g | g in own' && g !in own
      ensures g in k.free
    {
      assert NewTable(k, own, own', root, g);
    }
  }

  lemma AddedFromTail(free: seq<Frame>, own: Owners, free': seq<Frame>, own': Owners)
    requires free != [] && Added(free[1..], own, free', own')
    ensures Added(free, own, free', own')
  {
  }

  /** End-to-end separation: over any run of `map`, `map_to`, `unmap`,
      `InactivePageTable::new` and `with` on any hierarchies made so far, the data frames that
      were allocated are pairwise distinct and distinct from every table of every
      hierarchy, and no frame of the supply is lost: each is data, a table, or still to
      be allocated. */
  lemma {:induction false} RunSeparates(s: System, own: Owners, ops: seq<Op>) returns (own': Owners)
    requires Sound(s, own) && Disciplined(s, ops) && Run(s, ops).Ok?
    ensures var (s', data) := Run(s, ops).value;
            Sound(s', own') && Separated(s.kernel, own, s'.kernel, own', data)
  {
    hide Apply, Sound, Added, Allowed;
    if ops == [] {
      own' := own;
      AddedSame(s.kernel.free, own);
    } else {
      var init, last := ops[..|ops| - 1], ops[|ops| - 1];
      var (s1, data) := Run(s, init).value;
      DisciplinedInit(s, ops);
      var own1 := RunSeparates(s, own, init);
      own' := ApplySeparates(s1, own1, last);
      var (s', data') := Run(s, ops).value;
      SeparatedTrans(s.kernel, own, s1.kernel, own1, s'.kernel, own', data, DataOf(s1.kernel, last));
    }
  }

  lemma DisciplinedInit(s: System, ops: seq<Op>)
    requires ops != [] && Disciplined(s, ops) && Run(s, ops[..|ops| - 1]).Ok?
    ensures Disciplined(s, ops[..|ops| - 1])
    ensures Allowed(Run(s, ops[..|ops| - 1]).value.0.roots, ops[|ops| - 1])
  {
    hide Run, Allowed;
    var init := ops[..|ops| - 1];
    assert ops[|ops| - 1] == ops[|init|];
    forall i | 0 <= i < |init| && Run(s, init[..i]).Ok?
      ensures Allowed(Run(s, init[..i]).value.0.roots, init[i])
    {
      assert init[..i] == ops[..i] && init[i] == ops[i];
    }
  }

  lemma SeparatedTrans(k: Kernel, own: Owners, k1: Kernel, own1: Owners, k2: Kernel, own2: Owners,
      data: seq<Frame>, more: seq<Frame>)
    requires Separated(k, own, k1, own1, data) && Separated(k1, own1, k2, own2, more)
    ensures Separated(k, own, k2, own2, data + more)
  {
    AddedTrans(k.free, own, k1.free, own1, k2.free, own2);
    forall i | 0 <= i < |data + more|
      ensures (data + more)[i] in k.free && (data + more)[i] !in k2.free && (data + more)[i] !in own2
    {
      assert i >= |data| ==> (data + more)[i] == more[i - |data|];
    }
    forall i, j | 0 <= i < j < |data + more|
      ensures (data + more)[i] != (data + more)[j]
    {
      if i < |data| <= j {
        assert data[i] !in k1.free && more[j - |data|] in k1.free;
      }
    }
  }

  /** With the frames that the allocator hands out, no data frame and no new table is a
      frame of the kernel or of the multiboot structure. */
  lemma NothingReserved(l: Layout, next: nat, k: Kernel, own: Owners, k': Kernel, own': Owners, data: seq<Frame>)
    requires Separated(k, own, k', own', data) && k.free == l.From(next)
    ensures forall i :: 0 <= i < |data| ==> !l.Kernel(data[i]) && !l.Multiboot(data[i])
    ensures forall g :: g in own' && g !in own ==> !l.Kernel(g) && !l.Multiboot(g)
  {
    forall g | g in k.free
      ensures l.Usable(g)
    {
      FromHas(l, next, g);
    }
  }

  /** The allocator's frames are a supply: distinct, and usable. */
  lemma AllocatorSupplies(l: Layout, next: nat, m: Memory, own: Owners)
    requires forall f: nat :: l.Usable(f) && f >= next ==> f in m && f < FRAME_LIMIT && f !in own
    ensures Supply(Kernel(m, l.From(next)), own)
  {
    var free := l.From(next);
    forall i | 0 <= i < |free|
      ensures free[i] < FRAME_LIMIT && free[i] in m && free[i] !in own
    {
      FromHas(l, next, free[i]);
    }
    forall i, j | 0 <= i < j < |free|
      ensures free[i] != free[j]
    {
      FromIncreases(l, next, i, j);
    }
  }
}
