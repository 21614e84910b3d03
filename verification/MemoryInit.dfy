/** `memory::init`: paging, the heap, and the range for stacks. */
module MemoryInit {
  import opened Outcomes
  import opened Entries
  import opened Pages
  import opened Hierarchy
  import opened Mapping
  import opened Leftovers
  import opened Machines
  import opened Boot
  import opened ActiveTables
  import opened FrameAllocator
  import opened Stacks

  /** What `memory::init` does to the tables: `paging::init`, and then the heap. */
  function InitHeap(k: Kernel, cr3: Frame, sections: seq<Section>, start: nat, end: nat): Result<(Kernel, Frame)> {
    var (k1, p4) :- Init(k, cr3, sections, start, end);
    var k2 :- MapPages(k1, p4, HEAP_FIRST, HEAP_PAGES, TABLE_FLAGS);
    Ok((k2, p4))
  }

  /** After it the heap is writable memory in these frames, pairwise distinct, and the other
      pages outside the window are as `paging::init` left them. */
  ghost predicate HeapReady(m: Memory, p4: Frame, cr3: Frame, sections: seq<Section>, start: nat, end: nat,
      frames: seq<Frame>)
  {
    && |frames| == HEAP_PAGES && (forall i, j :: 0 <= i < j < |frames| ==> frames[i] != frames[j])
    && (forall p: nat {:trigger Walk(m, p4, p)} :: HEAP_FIRST <= p <= HEAP_LAST ==>
          Walk(m, p4, p) == Some(Entry(frames[p - HEAP_FIRST], TABLE_FLAGS)))
    && (forall q: nat {:trigger Walk(m, p4, q)} :: Plain(q) && !(HEAP_FIRST <= q <= HEAP_LAST) ==>
          FrameOf(Walk(m, p4, q)) == if Covered(sections, start, end, q) && q != cr3 then Some(q) else None)
  }

  /** No frame that `paging::init` maps has its number among the pages of the stack range. */
  ghost predicate StacksClear(cr3: Frame, sections: seq<Section>, start: nat, end: nat) {
    forall f: nat :: STACK_RANGE.start <= f <= STACK_RANGE.end && Covered(sections, start, end, f) ==> f == cr3
  }

  /** The heap is ready in frames of the supply that hold no table and are not to be allocated
      again, and the stack range is free exactly if it is clear of the kernel's frames. */
  lemma InitHeapExact(k: Kernel, own: Owners, cr3: Frame, sections: seq<Section>, start: nat, end: nat)
      returns (own': Owners, frames: seq<Frame>)
    requires Good(k, own) && Hierarchical(k.mem, own, cr3)
    ensures InitHeap(k, cr3, sections, start, end).Ok? ==>
              var (k', p4) := InitHeap(k, cr3, sections, start, end).value;
              && Good(k', own') && Hierarchical(k'.mem, own', p4)
              && HeapReady(k'.mem, p4, cr3, sections, start, end, frames)
              && (forall i :: 0 <= i < |frames| ==>
                    frames[i] in k.free && frames[i] !in own' && frames[i] !in k'.free)
              && (RangeFree(k'.mem, p4, STACK_RANGE) <==> StacksClear(cr3, sections, start, end))
  {
    hide Walk, Init, Covered, Good, Recursive, Plain, MapPages;
    own', frames := own, [];
    if InitHeap(k, cr3, sections, start, end).Ok? {
      var own1 := InitExact(k, own, cr3, sections, start, end);
      var (k1, p4) := Init(k, cr3, sections, start, end).value;
      own', frames := HeapThenStacks(k1, own1, p4, TABLE_FLAGS);
      assert Hierarchical(k1.mem, own1, p4);
      StackRangeFree(k1.mem, p4, sections, start, end, cr3);
    }
  }

  lemma StackRangeFree(m: Memory, root: Frame, sections: seq<Section>, start: nat, end: nat, cr3: Frame)
    requires forall q: nat {:trigger Walk(m, root, q)} :: Plain(q) ==>
               FrameOf(Walk(m, root, q)) == if Covered(sections, start, end, q) && q != cr3 then Some(q) else None
    ensures RangeFree(m, root, STACK_RANGE) <==> StacksClear(cr3, sections, start, end)
  {
    hide Walk, Plain, Covered;
    LowPagesPlain(STACK_RANGE.start, 101);
    forall p: nat | STACK_RANGE.start <= p <= STACK_RANGE.end
      ensures Plain(p) && (Walk(m, root, p) == None <==> (Covered(sections, start, end, p) ==> p == cr3))
    {
      assert Plain(p);
      assert FrameOf(Walk(m, root, p)) == if Covered(sections, start, end, p) && p != cr3 then Some(p) else None;
    }
  }

  /** The lowest address of an allocated section, and the end of the highest. */
  function KernelStart(sections: seq<Section>): Option<nat> {
    if sections == [] then None else
    var s, rest := sections[0], KernelStart(sections[1..]);
    if s.loaded && (rest.None? || s.start < rest.value) then Some(s.start) else rest
  }

  function KernelEnd(sections: seq<Section>): Option<nat> {
    if sections == [] then None else
    var s, rest := sections[0], KernelEnd(sections[1..]);
    if s.loaded && (rest.None? || s.start + s.size > rest.value) then Some(s.start + s.size) else rest
  }

  /** They are the least start and the greatest end of the allocated sections. */
  lemma {:induction false} KernelExtent(sections: seq<Section>)
    ensures KernelStart(sections).Some? <==> exists i :: 0 <= i < |sections| && sections[i].loaded
    ensures KernelEnd(sections).Some? <==> exists i :: 0 <= i < |sections| && sections[i].loaded
    ensures KernelStart(sections).Some? ==>
              var start := KernelStart(sections).value;
              && (exists i :: 0 <= i < |sections| && sections[i].loaded && sections[i].start == start)
              && (forall i :: 0 <= i < |sections| && sections[i].loaded ==> start <= sections[i].start)
    ensures KernelEnd(sections).Some? ==>
              var end := KernelEnd(sections).value;
              && (exists i :: 0 <= i < |sections| && sections[i].loaded && sections[i].start + sections[i].size == end)
              && (forall i :: 0 <= i < |sections| && sections[i].loaded ==> sections[i].start + sections[i].size <= end)
  {
    if sections != [] {
      var rest := sections[1..];
      KernelExtent(rest);
      assert forall i :: 0 <= i < |rest| ==> rest[i] == sections[i + 1];
      assert forall i :: 0 < i < |sections| ==> sections[i] == rest[i - 1];
    }
  }

  lemma {:induction false} KernelBounds(sections: seq<Section>, i: nat)
    requires i < |sections| && sections[i].loaded
    ensures KernelStart(sections).Some? && KernelStart(sections).value <= sections[i].start
    ensures KernelEnd(sections).Some? && sections[i].start + sections[i].size <= KernelEnd(sections).value
  {
    if i > 0 {
      KernelBounds(sections[1..], i - 1);
    }
  }

  /** What `memory::init` tells the frame allocator. */
  function BootLayout(areas: seq<Area>, sections: seq<Section>, start: nat, end: nat): Layout
    requires KernelStart(sections).Some? && KernelEnd(sections).Some?
  {
    Layout(areas, KernelStart(sections).value / PAGE_SIZE, KernelEnd(sections).value / PAGE_SIZE,
           start / PAGE_SIZE, end / PAGE_SIZE)
  }

  /** The allocator never hands out a frame that `paging::init` maps, the VGA buffer not being
      in a memory area. */
  lemma CoveredReserved(areas: seq<Area>, sections: seq<Section>, start: nat, end: nat, f: nat)
    requires KernelStart(sections).Some? && KernelEnd(sections).Some? && !InSome(areas, VGA_FRAME)
    requires Covered(sections, start, end, f)
    ensures !BootLayout(areas, sections, start, end).Usable(f)
  {
    if exists i :: 0 <= i < |sections| && InSection(sections[i], f) {
      var i :| 0 <= i < |sections| && InSection(sections[i], f);
      KernelBounds(sections, i);
    }
  }

  /** End to end: after `memory::init`, with the frames its allocator hands out, no two pages
      outside the window share a frame. */
  lemma NoSharedFrames(areas: seq<Area>, next: nat, k: Kernel, own: Owners, cr3: Frame, sections: seq<Section>,
      start: nat, end: nat, p: nat, q: nat)
    requires Good(k, own) && Hierarchical(k.mem, own, cr3)
    requires KernelStart(sections).Some? && KernelEnd(sections).Some? && !InSome(areas, VGA_FRAME)
    requires k.free == BootLayout(areas, sections, start, end).From(next)
    requires InitHeap(k, cr3, sections, start, end).Ok? && Plain(p) && Plain(q) && p != q
    ensures var (k', p4) := InitHeap(k, cr3, sections, start, end).value;
            Walk(k'.mem, p4, p).Some? ==> FrameOf(Walk(k'.mem, p4, p)) != FrameOf(Walk(k'.mem, p4, q))
  {
    hide Walk, InitHeap, Covered, Good, Recursive, BootLayout, KernelStart, KernelEnd, InSome, Plain, StacksClear;
    var own', frames := InitHeapExact(k, own, cr3, sections, start, end);
    var (k', p4) := InitHeap(k, cr3, sections, start, end).value;
    var l := BootLayout(areas, sections, start, end);
    forall i, f: nat | 0 <= i < |frames| && Covered(sections, start, end, f)
      ensures frames[i] != f
    {
      FromHas(l, next, frames[i]);
      CoveredReserved(areas, sections, start, end, f);
    }
  }

  /** It succeeds when `paging::init` does, no page of the heap has a number that it maps, and
      four more frames are left for each of them. */
  lemma InitHeapSucceeds(k: Kernel, own: Owners, cr3: Frame, sections: seq<Section>, start: nat, end: nat)
    requires Good(k, own) && Hierarchical(k.mem, own, cr3) && Walk(k.mem, cr3, 0xcafe_babe).None?
    requires SectionsAligned(sections) && RangesDisjoint(sections, start, end)
    requires forall f: nat :: Covered(sections, start, end, f) ==> f < 0x8_0000_0000
    requires Covered(sections, start, end, cr3)
    requires forall f: nat :: HEAP_FIRST <= f <= HEAP_LAST && Covered(sections, start, end, f) ==> f == cr3
    requires |k.free| >= 3 * |BootMaps(sections, start, end)| + 7 + 4 * HEAP_PAGES
    ensures InitHeap(k, cr3, sections, start, end).Ok?
  {
    hide Walk, Init, Covered, Good, Recursive, Plain, MapPages, BootMaps, RangesDisjoint, SectionsAligned;
    InitSucceeds(k, own, cr3, sections, start, end);
    var own1 := InitExact(k, own, cr3, sections, start, end);
    var (k1, p4) := Init(k, cr3, sections, start, end).value;
    LowPagesPlain(HEAP_FIRST, HEAP_PAGES);
    forall p: nat | HEAP_FIRST <= p < HEAP_FIRST + HEAP_PAGES
      ensures Walk(k1.mem, p4, p) == None
    {
      assert Plain(p);
      assert FrameOf(Walk(k1.mem, p4, p)) == None;
    }
    MapPagesSucceeds(k1, own1, p4, HEAP_FIRST, HEAP_PAGES, TABLE_FLAGS);
  }

  /** None of its mappings can do harm ... */
  ghost predicate HarmlessMemory(k: Kernel, cr3: Frame, sections: seq<Section>, start: nat, end: nat) {
    && HarmlessInit(k, cr3, sections, start, end)
    && (Init(k, cr3, sections, start, end).Ok? ==>
          var (k1, p4) := Init(k, cr3, sections, start, end).value;
          HarmlessRow(k1, p4, HEAP_FIRST, HEAP_PAGES, TABLE_FLAGS))
  }

  /** ... if RAM holds no PRESENT words where it may still be allocated. */
  lemma CleanMemory(k: Kernel, own: Owners, cr3: Frame, sections: seq<Section>, start: nat, end: nat)
    requires Good(k, own) && CleanSupply(k) && Hierarchical(k.mem, own, cr3)
    ensures HarmlessMemory(k, cr3, sections, start, end)
  {
    hide Walk, Init, Covered, Good, Recursive, CleanSupply, HarmlessInit, HarmlessRow;
    CleanInit(k, own, cr3, sections, start, end);
    if Init(k, cr3, sections, start, end).Ok? {
      var own1 := InitExact(k, own, cr3, sections, start, end);
      var (k1, p4) := Init(k, cr3, sections, start, end).value;
      LowPagesPlain(HEAP_FIRST, HEAP_PAGES);
      CleanRow(k1, own1, p4, HEAP_FIRST, HEAP_PAGES, TABLE_FLAGS);
    }
  }

  /** `memory::init` on the machine, with the heap ready and nothing stale cached in the end;
      the stack allocator has the 101 pages behind the heap. */
  method InitMemory(c: Machine, sections: seq<Section>, start: nat, end: nat)
      returns (r: Result<StackAllocator>, ghost frames: seq<Frame>)
    requires c.Valid() && c.Root() == c.cr3 && HarmlessMemory(c.State(), c.cr3, sections, start, end)
    modifies c, c.alloc
    ensures var cr3 := old(c.cr3);
            var spec := InitHeap(old(c.State()), cr3, sections, start, end);
            if spec.Panic? then r == Panic(spec.why)
            else && r.Ok? && c.Valid() && c.State() == spec.value.0 && c.cr3 == spec.value.1 && c.Root() == c.cr3
                 && HeapReady(c.mem, c.cr3, cr3, sections, start, end, frames)
                 && r.value.range == STACK_RANGE
                 && (RangeFree(c.mem, c.cr3, STACK_RANGE) <==> StacksClear(cr3, sections, start, end))
  {
    hide Walk, Init, Covered, Good, Recursive, Plain, MapPages, HarmlessInit, HarmlessRow, HeapReady, StacksClear;
    ghost var k, own, cr3 := c.State(), c.own, c.cr3;
    frames := [];
    var paging := InitPaging(c, sections, start, end);
    if paging.Panic? {
      return Panic(paging.why), frames;
    }
    LowPagesPlain(HEAP_FIRST, HEAP_PAGES);
    var heap := MapRow(c, HEAP_FIRST, HEAP_PAGES, TABLE_FLAGS);
    if heap.Panic? {
      return Panic(heap.why), frames;
    }
    ghost var own', fs := InitHeapExact(k, own, cr3, sections, start, end);
    frames := fs;
    var stacks := new StackAllocator(STACK_RANGE);
    r := Ok(stacks);
  }
}
