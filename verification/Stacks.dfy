/** `StackAllocator`: stacks with guard pages, carved out of one range of pages. */
module Stacks {
  import opened Outcomes
  import opened Entries
  import opened Pages
  import opened Hierarchy
  import opened Mapping
  import opened Detour
  import opened Tlb
  import opened Leftovers
  import opened Machines
  import opened Separation

  /** `PageIter`: the pages from `start` to `end`, both included. */
  datatype PageIter = PageIter(start: nat, end: nat) {
    /** The next page, and the iterator after it. */
    function Next(): (Option<nat>, PageIter) {
      if start <= end then (Some(start), PageIter(start + 1, end)) else (None, this)
    }

    /** `Iterator::nth`: skip `n` pages and take the next. */
    function Nth(n: nat): (Option<nat>, PageIter)
      decreases n
    {
      var (page, rest) := Next();
      if n == 0 || page.None? then (page, rest) else rest.Nth(n - 1)
    }

    function Remaining(): nat { if start <= end then end - start + 1 else 0 }
  }

  lemma {:induction false} NthSkips(range: PageIter, n: nat)
    ensures range.Nth(n) ==
            if n < range.Remaining() then (Some(range.start + n), PageIter(range.start + n + 1, range.end))
            else (None, range.Nth(n).1)
    decreases n
  {
    if n > 0 && range.start <= range.end {
      NthSkips(range.Next().1, n - 1);
    }
  }

  datatype Stack = Stack(top: nat, bottom: nat)

  /** A guard page and the first and last stack page, and what is left of the range. */
  datatype Carved = Carved(first: nat, last: nat, rest: PageIter)

  /** The part of `alloc_stack` that takes pages from a copy of the range. */
  function Carve(range: PageIter, size: nat): Option<Carved> {
    if size == 0 then None
    else
      var (guard, r1) := range.Next();
      var (first, r2) := r1.Next();
      var (last, r3) := if size == 1 then (first, r2) else r2.Nth(size - 2);
      if guard.Some? && first.Some? && last.Some? then Some(Carved(first.value, last.value, r3)) else None
  }

  /** A stack of `size` pages is granted exactly if `size + 1` pages remain; its guard page
      is the page below it. */
  lemma CarveExact(range: PageIter, size: nat)
    ensures Carve(range, size) ==
            if size >= 1 && size + 1 <= range.Remaining()
            then Some(Carved(range.start + 1, range.start + size, PageIter(range.start + size + 1, range.end)))
            else None
  {
    if size >= 2 {
      NthSkips(range.Next().1.Next().1, size - 2);
    }
  }

  /** `map` of `n` pages in a row. */
  function MapPages(k: Kernel, root: Frame, first: nat, n: nat, flags: Flags): Result<Kernel> {
    if n == 0 then Ok(k) else
    var k1 :- MapPages(k, root, first, n - 1, flags);
    Map(k1, root, first + n - 1, flags)
  }

  ghost predicate PlainPages(first: nat, n: nat) { forall p: nat :: first <= p < first + n ==> Plain(p) }

  ghost predicate Unmapped(m: Memory, root: Frame, first: nat, n: nat) {
    forall p: nat {:trigger Walk(m, root, p)} :: first <= p < first + n ==> Walk(m, root, p) == None
  }

  /** The pages of the row are mapped to these frames with these flags; every other
      translation is as before. */
  ghost predicate RowMapped(m: Memory, m': Memory, own: Owners, root: Frame, first: nat, flags: Flags,
      frames: seq<Frame>)
  {
    && (forall p: nat {:trigger Walk(m', root, p)} :: first <= p < first + |frames| ==>
          Walk(m', root, p) == Some(Entry(frames[p - first], flags.Or(PRESENT))))
    && (forall r, q: nat {:trigger Walk(m', r, q)} ::
          r in own && own[r].Top? && Plain(q) && !(r == root && first <= q < first + |frames|) ==>
            Walk(m', r, q) == Walk(m, r, q))
  }

  /** Mapping pages in a row maps exactly these, with the flags asked for, to frames of the
      supply that are pairwise distinct and hold no table of any hierarchy. */
  lemma {:induction false} MapPagesRow(k: Kernel, own: Owners, root: Frame, first: nat, n: nat, flags: Flags)
      returns (own': Owners, frames: seq<Frame>)
    requires Good(k, own) && root in own && own[root].Top? && PlainPages(first, n)
    requires MapPages(k, root, first, n, flags).Ok?
    ensures var k' := MapPages(k, root, first, n, flags).value;
            && Good(k', own') && Kept(own, own') && StillRooted(k.mem, own, k'.mem, own') && |frames| == n
            && RowMapped(k.mem, k'.mem, own, root, first, flags, frames) && Separated(k, own, k', own', frames)
  {
    hide Map, Walk, Good, Added, Hierarchical;
    if n == 0 {
      own', frames := own, [];
      AddedSame(k.free, own);
    } else {
      var k1, k' := MapPages(k, root, first, n - 1, flags).value, MapPages(k, root, first, n, flags).value;
      var own1, frames1 := MapPagesRow(k, own, root, first, n - 1, flags);
      assert root in own1 && own1[root].Top?;
      MapTakes(k1, root, first + n - 1, flags);
      own' := MapSeparates(k1, own1, root, first + n - 1, flags);
      frames := frames1 + [k1.free[0]];
      SeparatedTrans(k, own, k1, own1, k', own', frames1, [k1.free[0]]);
      SeparatedKept(k, own, k', own', frames);
      RowStep(k.mem, k1.mem, k'.mem, own, own1, root, first, flags, frames1, k1.free[0]);
    }
  }

  lemma MapTakes(k: Kernel, root: Frame, page: nat, flags: Flags)
    requires Map(k, root, page, flags).Ok?
    ensures k.free != []
  {
    hide MapTo;
  }

  lemma SeparatedKept(k: Kernel, own: Owners, k': Kernel, own': Owners, frames: seq<Frame>)
    requires Separated(k, own, k', own', frames)
    ensures Kept(own, own')
  {
  }

  lemma RowStep(m: Memory, m1: Memory, m': Memory, own: Owners, own1: Owners, root: Frame, first: nat, flags: Flags,
      frames: seq<Frame>, frame: Frame)
    requires root in own && own[root].Top? && Kept(own, own1) && RowMapped(m, m1, own, root, first, flags, frames)
    requires PointUpdate(m1, m', own1, root, first + |frames|, Some(Entry(frame, flags.Or(PRESENT))))
    requires PlainPages(first, |frames| + 1)
    ensures RowMapped(m, m', own, root, first, flags, frames + [frame])
  {
    hide Walk;
    assert root in own1 && own1[root].Top?;
    forall p: nat | first <= p < first + |frames| + 1
      ensures Walk(m', root, p) == Some(Entry((frames + [frame])[p - first], flags.Or(PRESENT)))
    {
      assert Plain(p);
      assert p < first + |frames| ==> Walk(m', root, p) == Walk(m1, root, p);
    }
    forall r, q: nat | r in own && own[r].Top? && Plain(q) && !(r == root && first <= q < first + |frames| + 1)
      ensures Walk(m', r, q) == Walk(m, r, q)
    {
      assert r in own1 && own1[r].Top?;
      assert Walk(m', r, q) == Walk(m1, r, q);
    }
  }

  /** Mapping a row succeeds if its pages are untranslated and four frames per page are left. */
  lemma {:induction false} MapPagesSucceeds(k: Kernel, own: Owners, root: Frame, first: nat, n: nat, flags: Flags)
    requires Good(k, own) && root in own && own[root].Top? && PlainPages(first, n) && Unmapped(k.mem, root, first, n)
    requires |k.free| >= 4 * n
    ensures var r := MapPages(k, root, first, n, flags); r.Ok? && |r.value.free| >= |k.free| - 4 * n
  {
    hide MapTo, Tree, SlotsToRoots;
    if n > 0 {
      MapPagesSucceeds(k, own, root, first, n - 1, flags);
      var k1 := MapPages(k, root, first, n - 1, flags).value;
      var own1, frames := MapPagesRow(k, own, root, first, n - 1, flags);
      assert root in own1 && own1[root].Top?;
      var page, k0 := first + n - 1, k1.(free := k1.free[1..]);
      assert Plain(page);
      assert Walk(k1.mem, root, page) == Walk(k.mem, root, page);
      MapToExact(k0, own1, root, page, k1.free[0], flags);
      MissingBound(k0.mem, root, 4, page);
    }
  }

  /** `alloc_stack` as a function. */
  function StackStep(k: Kernel, root: Frame, range: PageIter, size: nat): Result<(Kernel, PageIter, Option<Stack>)> {
    var carved := Carve(range, size);
    if carved.None? then Ok((k, range, None)) else
    CarveExact(range, size);
    var Carved(first, last, rest) := carved.value;
    var k1 :- MapPages(k, root, first, last + 1 - first, PRESENT);
    Ok((k1, rest, Some(Stack((last + 1) * PAGE_SIZE, first * PAGE_SIZE))))
  }

  /** A run of `alloc_stack` calls. */
  function AllocStacks(k: Kernel, root: Frame, range: PageIter, sizes: seq<nat>)
      : Result<(Kernel, PageIter, seq<Option<Stack>>)>
  {
    if sizes == [] then Ok((k, range, [])) else
    var (k1, range1, stacks) :- AllocStacks(k, root, range, sizes[..|sizes| - 1]);
    var (k2, range2, stack) :- StackStep(k1, root, range1, sizes[|sizes| - 1]);
    Ok((k2, range2, stacks + [stack]))
  }

  /** The range as it stands: its pages are plain and not translated. */
  ghost predicate RangeFree(m: Memory, root: Frame, range: PageIter) {
    forall p: nat {:trigger Walk(m, root, p)} {:trigger Plain(p)} :: range.start <= p <= range.end ==>
        Plain(p) && Walk(m, root, p) == None
  }

  /** The stack has `size` pages between `lo` and `hi`, all mapped and not writable, over an
      unmapped page. */
  ghost predicate StackOk(m: Memory, root: Frame, lo: nat, hi: nat, stack: Stack, size: nat) {
    && stack.bottom % PAGE_SIZE == 0 && stack.top == stack.bottom + size * PAGE_SIZE && size >= 1
    && lo < stack.bottom / PAGE_SIZE && stack.bottom / PAGE_SIZE + size <= hi
    && Walk(m, root, (stack.bottom / PAGE_SIZE) - 1) == None
    && (forall p: nat {:trigger Walk(m, root, p)} ::
        stack.bottom / PAGE_SIZE <= p < stack.bottom / PAGE_SIZE + size ==>
          Walk(m, root, p).Some? && Walk(m, root, p).value.flags == PRESENT)
  }

  /** All stacks so far are in order, each with its guard page, below what is left. */
  ghost predicate StacksOk(m: Memory, root: Frame, lo: nat, hi: nat, stacks: seq<Option<Stack>>, sizes: seq<nat>) {
    && |stacks| == |sizes|
    && (forall i :: 0 <= i < |stacks| && stacks[i].Some? ==> StackOk(m, root, lo, hi, stacks[i].value, sizes[i]))
    && (forall i, j :: 0 <= i < j < |stacks| && stacks[i].Some? && stacks[j].Some? ==>
          stacks[i].value.top + PAGE_SIZE <= stacks[j].value.bottom)
  }

  /** Pages outside a newly mapped row keep the stacks as they are. */
  lemma StackKept(m: Memory, m': Memory, own: Owners, root: Frame, first: nat, frames: seq<Frame>, lo: nat, hi: nat,
      hi': nat, stack: Stack, size: nat)
    requires root in own && own[root].Top? && RowMapped(m, m', own, root, first, PRESENT, frames)
    requires hi <= first && hi <= hi'
    requires StackOk(m, root, lo, hi, stack, size) && (forall p: nat :: lo <= p < hi ==> Plain(p))
    ensures StackOk(m', root, lo, hi', stack, size)
  {
    hide Walk;
    var b := stack.bottom / PAGE_SIZE;
    assert Walk(m', root, b - 1) == Walk(m, root, b - 1);
    forall p: nat | b <= p < b + size
      ensures Walk(m', root, p).Some? && Walk(m', root, p).value.flags == PRESENT
    {
      assert Walk(m', root, p) == Walk(m, root, p);
    }
  }

  /** `alloc_stack` grants `size` pages when this many remain. */
  predicate Grants(remaining: nat, size: nat) { size >= 1 && size + 1 <= remaining }

  /** One call that does not run out of frames: the stack is granted exactly if `size + 1`
      pages remain; a granted stack is right, in frames of its own, and what is left of the
      range is still free; a refusal changes nothing. */
  lemma AllocStackOk(k: Kernel, own: Owners, root: Frame, range: PageIter, size: nat)
      returns (own': Owners, frames: seq<Frame>)
    requires Good(k, own) && root in own && own[root].Top? && RangeFree(k.mem, root, range)
    ensures StackStep(k, root, range, size).Ok? ==>
            var (k', range', stack) := StackStep(k, root, range, size).value;
            && Good(k', own') && Kept(own, own') && RangeFree(k'.mem, root, range') && range'.end == range.end
            && (stack.Some? <==> Grants(range.Remaining(), size))
            && (stack.None? ==> k' == k && range' == range)
            && (stack.Some? ==> && range'.start == range.start + size + 1
                                && StackOk(k'.mem, root, range.start, range'.start, stack.value, size)
                                && stack.value.bottom == (range.start + 1) * PAGE_SIZE
                                && |frames| == size && Separated(k, own, k', own', frames)
                                && RowMapped(k.mem, k'.mem, own, root, range.start + 1, PRESENT, frames))
  {
    hide Walk, Good, Mapping.Map, MapPages, Plain, Carve, Separated;
    CarveExact(range, size);
    own', frames := own, [];
    if Carve(range, size).Some? && StackStep(k, root, range, size).Ok? {
      var first := range.start + 1;
      assert PlainPages(first, size);
      own', frames := MapPagesRow(k, own, root, first, size, PRESENT);
      var k' := MapPages(k, root, first, size, PRESENT).value;
      assert Plain(range.start) && Walk(k'.mem, root, range.start) == Walk(k.mem, root, range.start);
      forall p: nat | first + size <= p <= range.end
        ensures Plain(p) && Walk(k'.mem, root, p) == None
      {
        assert Plain(p);
        assert Walk(k'.mem, root, p) == Walk(k.mem, root, p);
      }
    }
  }

  /** Four frames for each page are enough for a call. */
  lemma StackStepSucceeds(k: Kernel, own: Owners, root: Frame, range: PageIter, size: nat)
    requires Good(k, own) && root in own && own[root].Top? && RangeFree(k.mem, root, range)
    requires Grants(range.Remaining(), size) ==> |k.free| >= 4 * size
    ensures var r := StackStep(k, root, range, size);
            r.Ok? && |r.value.0.free| >= |k.free| - if Grants(range.Remaining(), size) then 4 * size else 0
  {
    hide Walk, Good, Mapping.Map, MapPages, Plain, Carve;
    CarveExact(range, size);
    if Carve(range, size).Some? {
      assert PlainPages(range.start + 1, size);
      MapPagesSucceeds(k, own, root, range.start + 1, size, PRESENT);
    }
  }

  /** How many pages of a range the calls take up: each granted stack with its guard page. */
  function Used(remaining: nat, sizes: seq<nat>): (u: nat)
    ensures u <= remaining
  {
    if sizes == [] then 0 else
    var u, size := Used(remaining, sizes[..|sizes| - 1]), sizes[|sizes| - 1];
    if Grants(remaining - u, size) then u + size + 1 else u
  }

  /** Which of the calls are granted. */
  ghost predicate GrantedRightly(remaining: nat, sizes: seq<nat>, stacks: seq<Option<Stack>>) {
    && |stacks| == |sizes|
    && forall i {:trigger stacks[i]} :: 0 <= i < |sizes| ==>
         (stacks[i].Some? <==> sizes[i] >= 1 && Used(remaining, sizes[..i]) + sizes[i] + 1 <= remaining)
  }

  /** Over any run of `alloc_stack` calls that does not run out of frames: a call is granted
      exactly if the pages that the calls before it left are enough; every granted stack has
      the size asked for, all its pages mapped and the page below it not, and the stacks
      are disjoint, each above the guard page of its own; all their pages have frames of
      their own, none of which holds a table; the rest of the range is free. */
  lemma {:induction false} AllocStacksOk(k: Kernel, own: Owners, root: Frame, range: PageIter, sizes: seq<nat>)
      returns (own': Owners, frames: seq<Frame>)
    requires Good(k, own) && root in own && own[root].Top? && RangeFree(k.mem, root, range)
    ensures AllocStacks(k, root, range, sizes).Ok? ==>
            var (k', range', stacks) := AllocStacks(k, root, range, sizes).value;
            && Good(k', own') && Kept(own, own') && RangeFree(k'.mem, root, range')
            && range' == PageIter(range.start + Used(range.Remaining(), sizes), range.end)
            && GrantedRightly(range.Remaining(), sizes, stacks)
            && StacksOk(k'.mem, root, range.start, range'.start, stacks, sizes)
            && Separated(k, own, k', own', frames) && OwnFrames(k'.mem, root, range.start, range'.start, frames)
  {
    hide Walk, Good, StackStep, RangeFree, StackOk, RowMapped, Separated, OwnFrames;
    own', frames := own, [];
    NoFrames(k, own, root, range.start);
    if sizes != [] && AllocStacks(k, root, range, sizes).Ok? {
      var init, size := sizes[..|sizes| - 1], sizes[|sizes| - 1];
      var (k1, range1, stacks1) := AllocStacks(k, root, range, init).value;
      var own1, frames1 := AllocStacksOk(k, own, root, range, init);
      assert root in own1 && own1[root].Top?;
      var own2, frames2 := AllocStackOk(k1, own1, root, range1, size);
      own', frames := own1, frames1;
      var (k', range', stacks) := AllocStacks(k, root, range, sizes).value;
      GrantedSnoc(range.Remaining(), init, size, stacks1, stacks[|init|]);
      assert sizes == init + [size] && stacks == stacks1 + [stacks[|init|]];
      if stacks[|init|].Some? {
        RangePlain(k.mem, root, range);
        StacksStep(k1.mem, k'.mem, own1, root, range.start, range1, frames2, stacks1, init, stacks[|init|].value);
        own', frames := own2, frames1 + frames2;
        KeptTrans(own, own1, own');
        SeparatedTrans(k, own, k1, own1, k', own', frames1, frames2);
        FramesStep(k, own, k1, own1, k', own', root, range, range1, frames1, frames2);
      } else {
        RefusedStep(k1.mem, root, range.start, range1.start, stacks1, init, size);
      }
    }
  }

  /** The mapped pages from `lo` to below `hi` have pairwise distinct frames, out of these. */
  ghost predicate OwnFrames(m: Memory, root: Frame, lo: nat, hi: nat, frames: seq<Frame>) {
    && (forall p: nat {:trigger Walk(m, root, p)} :: lo <= p < hi && Walk(m, root, p).Some? ==>
          Walk(m, root, p).value.frame in frames)
    && (forall p: nat, q: nat {:trigger Walk(m, root, p), Walk(m, root, q)} :: lo <= p < q < hi ==>
          FrameOf(Walk(m, root, p)) == None || FrameOf(Walk(m, root, p)) != FrameOf(Walk(m, root, q)))
  }

  lemma NoFrames(k: Kernel, own: Owners, root: Frame, lo: nat)
    ensures Separated(k, own, k, own, []) && OwnFrames(k.mem, root, lo, lo, [])
  {
  }

  /** One more stack has frames that were still to be allocated, unlike those before. */
  lemma FramesStep(k: Kernel, own: Owners, k1: Kernel, own1: Owners, k': Kernel, own': Owners, root: Frame,
      range: PageIter, range1: PageIter, frames1: seq<Frame>, frames2: seq<Frame>)
    requires Separated(k, own, k1, own1, frames1) && Separated(k1, own1, k', own', frames2)
    requires root in own1 && own1[root].Top?
    requires RowMapped(k1.mem, k'.mem, own1, root, range1.start + 1, PRESENT, frames2)
    requires OwnFrames(k1.mem, root, range.start, range1.start, frames1)
    requires range.start <= range1.start <= range.end && RangeFree(k1.mem, root, range1) && range1.end == range.end
    requires forall p: nat :: range.start <= p <= range.end ==> Plain(p)
    ensures OwnFrames(k'.mem, root, range.start, range1.start + |frames2| + 1, frames1 + frames2)
  {
    hide Walk, Plain, Added;
    var m, m', first := k1.mem, k'.mem, range1.start + 1;
    forall p: nat | range.start <= p < first
      ensures Walk(m', root, p) == Walk(m, root, p)
    {
      assert Plain(p);
    }
    assert Walk(m, root, range1.start) == None;
    assert forall p: nat :: range.start <= p < first && Walk(m', root, p).Some? ==>
        p < range1.start && Walk(m', root, p).value.frame in frames1;
    assert forall p: nat :: first <= p < first + |frames2| ==> Walk(m', root, p).value.frame == frames2[p - first];
    assert forall i, j :: 0 <= i < |frames1| && 0 <= j < |frames2| ==> frames1[i] != frames2[j];
  }

  lemma RefusedStep(m: Memory, root: Frame, lo: nat, hi: nat, stacks: seq<Option<Stack>>, sizes: seq<nat>, size: nat)
    requires StacksOk(m, root, lo, hi, stacks, sizes)
    ensures StacksOk(m, root, lo, hi, stacks + [None], sizes + [size])
  {
    hide StackOk;
  }

  lemma GrantedSnoc(remaining: nat, sizes: seq<nat>, size: nat, stacks: seq<Option<Stack>>, stack: Option<Stack>)
    requires GrantedRightly(remaining, sizes, stacks)
    requires stack.Some? <==> Grants(remaining - Used(remaining, sizes), size)
    ensures GrantedRightly(remaining, sizes + [size], stacks + [stack])
    ensures Used(remaining, sizes + [size]) ==
            Used(remaining, sizes) + if Grants(remaining - Used(remaining, sizes), size) then size + 1 else 0
  {
    var sizes', stacks' := sizes + [size], stacks + [stack];
    assert sizes'[..|sizes|] == sizes;
    forall i | 0 <= i < |sizes'|
      ensures stacks'[i].Some? <==> sizes'[i] >= 1 && Used(remaining, sizes'[..i]) + sizes'[i] + 1 <= remaining
    {
      assert i < |sizes| ==> sizes'[..i] == sizes[..i] && stacks'[i] == stacks[i];
    }
  }

  /** Four frames for each page that is taken up are enough for a run. */
  lemma {:induction false} AllocStacksSucceed(k: Kernel, own: Owners, root: Frame, range: PageIter, sizes: seq<nat>)
    requires Good(k, own) && root in own && own[root].Top? && RangeFree(k.mem, root, range)
    requires |k.free| >= 4 * Used(range.Remaining(), sizes)
    ensures var r := AllocStacks(k, root, range, sizes);
            r.Ok? && |r.value.0.free| >= |k.free| - 4 * Used(range.Remaining(), sizes)
  {
    hide Walk, Good, StackStep, RangeFree, StacksOk, GrantedRightly;
    if sizes != [] {
      var init, size := sizes[..|sizes| - 1], sizes[|sizes| - 1];
      AllocStacksSucceed(k, own, root, range, init);
      var own1, frames1 := AllocStacksOk(k, own, root, range, init);
      assert root in own1 && own1[root].Top?;
      var (k1, range1, stacks1) := AllocStacks(k, root, range, init).value;
      StackStepSucceeds(k1, own1, root, range1, size);
    }
  }

  lemma RangePlain(m: Memory, root: Frame, range: PageIter)
    requires RangeFree(m, root, range)
    ensures forall p: nat :: range.start <= p <= range.end ==> Plain(p)
  {
  }

  lemma StacksStep(m: Memory, m': Memory, own: Owners, root: Frame, lo: nat, range: PageIter, frames: seq<Frame>,
                   stacks: seq<Option<Stack>>, sizes: seq<nat>, stack: Stack)
    requires root in own && own[root].Top? && RowMapped(m, m', own, root, range.start + 1, PRESENT, frames)
    requires lo <= range.start <= range.end && (forall p: nat :: lo <= p <= range.end ==> Plain(p))
    requires StacksOk(m, root, lo, range.start, stacks, sizes)
    requires StackOk(m', root, range.start, range.start + |frames| + 1, stack, |frames|)
    requires stack.bottom == (range.start + 1) * PAGE_SIZE
    ensures StacksOk(m', root, lo, range.start + |frames| + 1, stacks + [Some(stack)], sizes + [|frames|])
  {
    hide Walk, RowMapped;
    forall i | 0 <= i < |stacks| && stacks[i].Some?
      ensures StackOk(m', root, lo, range.start + |frames| + 1, stacks[i].value, sizes[i])
      ensures stacks[i].value.top + PAGE_SIZE <= stack.bottom
    {
      StackKept(m, m', own, root, range.start + 1, frames, lo, range.start, range.start + |frames| + 1,
          stacks[i].value, sizes[i]);
    }
  }

  lemma LowPagesPlain(first: nat, n: nat)
    requires first + n <= 0x8_0000_0000
    ensures PlainPages(first, n)
  {
    forall p: nat | first <= p < first + n
      ensures Plain(p)
    {
      assert p / 0x800_0000 < 256;
    }
  }

  const HEAP_START := 0x4000_0000
  const HEAP_SIZE := 500 * 1024

  /** The pages of the heap, and the range `memory::init` gives to the stacks. */
  const HEAP_FIRST := HEAP_START / PAGE_SIZE
  const HEAP_LAST := (HEAP_START + HEAP_SIZE - 1) / PAGE_SIZE
  const HEAP_PAGES := HEAP_LAST + 1 - HEAP_FIRST
  const STACK_RANGE := PageIter(HEAP_LAST + 1, HEAP_LAST + 1 + 100)

  /** Mapping the heap leaves the whole stack range free: 101 pages, enough for one stack
      of 100 pages, or for 50 of one page. */
  lemma HeapThenStacks(k: Kernel, own: Owners, root: Frame, flags: Flags) returns (own': Owners, frames: seq<Frame>)
    requires Good(k, own) && root in own && own[root].Top?
    ensures MapPages(k, root, HEAP_FIRST, HEAP_PAGES, flags).Ok? ==>
              var k' := MapPages(k, root, HEAP_FIRST, HEAP_PAGES, flags).value;
              && Good(k', own') && StillRooted(k.mem, own, k'.mem, own')
              && |frames| == HEAP_PAGES && Separated(k, own, k', own', frames)
              && RowMapped(k.mem, k'.mem, own, root, HEAP_FIRST, flags, frames)
              && (RangeFree(k'.mem, root, STACK_RANGE) <==> RangeFree(k.mem, root, STACK_RANGE))
    ensures HEAP_FIRST == 0x4_0000 && HEAP_LAST == 0x4_007c && HEAP_PAGES == 125
    ensures STACK_RANGE == PageIter(0x4_007d, 0x4_00e1) && STACK_RANGE.Remaining() == 101
  {
    hide Walk, Good, Mapping.Map, MapPages, Plain, Separated, StillRooted;
    own', frames := own, [];
    if MapPages(k, root, HEAP_FIRST, HEAP_PAGES, flags).Ok? {
      LowPagesPlain(HEAP_FIRST, HEAP_PAGES);
      LowPagesPlain(STACK_RANGE.start, 101);
      own', frames := MapPagesRow(k, own, root, HEAP_FIRST, HEAP_PAGES, flags);
      var k' := MapPages(k, root, HEAP_FIRST, HEAP_PAGES, flags).value;
      forall p: nat | STACK_RANGE.start <= p <= STACK_RANGE.end
        ensures Plain(p) && Walk(k'.mem, root, p) == Walk(k.mem, root, p)
      {
        assert Plain(p);
      }
    }
  }

  class StackAllocator {
    var range: PageIter

    constructor (range: PageIter)
      ensures this.range == range
    {
      this.range := range;
    }

    /** `alloc_stack` on the active table; a failed call changes neither range nor tables. */
    method AllocStack(c: Machine, size: nat) returns (r: Result<Option<Stack>>)
      requires c.Valid() && c.Root() == c.cr3 && RangeFree(c.mem, c.cr3, range)
      requires Grants(range.Remaining(), size) ==> HarmlessRow(c.State(), c.cr3, range.start + 1, size, PRESENT)
      modifies this, c, c.alloc
      ensures var spec := StackStep(old(c.State()), old(c.cr3), old(range), size);
              if spec.Panic? then r == Panic(spec.why)
              else && c.Valid() && c.Root() == c.cr3 == old(c.cr3)
                   && c.State() == spec.value.0 && range == spec.value.1 && r == Ok(spec.value.2)
                   && RangeFree(c.mem, c.cr3, range)
    {
      hide Walk, Good, Recursive, Coherent, Mapping.Map, MapPages, Plain, Carve, HarmlessRow, Separated;
      var carved := Carve(range, size);
      CarveExact(range, size);
      ghost var k, cr3, own, before := c.State(), c.cr3, c.own, range;
      if carved.None? {
        return Ok(None);
      }
      var Carved(first, last, rest) := carved.value;
      range := rest;
      RangePlain(c.mem, cr3, before);
      var mapped := MapRow(c, first, last + 1 - first, PRESENT);
      if mapped.Panic? {
        return Panic(mapped.why);
      }
      ghost var own', frames := AllocStackOk(k, own, cr3, before, size);
      r := Ok(Some(Stack((last + 1) * PAGE_SIZE, first * PAGE_SIZE)));
    }
  }

  /** No call of a row of `map` calls can do harm. */
  ghost predicate HarmlessRow(k: Kernel, root: Frame, first: nat, n: nat, flags: Flags) {
    forall i {:trigger MapPages(k, root, first, i, flags)} :: 0 <= i < n && MapPages(k, root, first, i, flags).Ok? ==>
      HarmlessMap(MapPages(k, root, first, i, flags).value, root, root, first + i, flags, true)
  }

  /** With a clean supply no such row can. */
  lemma CleanRow(k: Kernel, own: Owners, root: Frame, first: nat, n: nat, flags: Flags)
    requires Good(k, own) && CleanSupply(k) && root in own && own[root].Top? && PlainPages(first, n)
    ensures HarmlessRow(k, root, first, n, flags)
  {
    hide MapPages, Good, Harmless, CleanSupply;
    forall i | 0 <= i < n && MapPages(k, root, first, i, flags).Ok?
      ensures HarmlessMap(MapPages(k, root, first, i, flags).value, root, root, first + i, flags, true)
    {
      var own' := MapPagesClean(k, own, root, first, i, flags);
      CleanMap(MapPages(k, root, first, i, flags).value, root, first + i, flags);
    }
  }

  lemma CleanMap(k: Kernel, root: Frame, page: nat, flags: Flags)
    requires CleanSupply(k)
    ensures HarmlessMap(k, root, root, page, flags, true)
  {
    hide Harmless, NonePresent;
    if k.free != [] {
      CleanHarmless(k.(free := k.free[1..]), root, root, Request(page, k.free[0], flags), true);
    }
  }

  lemma {:induction false} MapPagesClean(k: Kernel, own: Owners, root: Frame, first: nat, n: nat, flags: Flags)
      returns (own': Owners)
    requires Good(k, own) && CleanSupply(k) && root in own && own[root].Top? && PlainPages(first, n)
    requires MapPages(k, root, first, n, flags).Ok?
    ensures var k' := MapPages(k, root, first, n, flags).value; Good(k', own') && Kept(own, own') && CleanSupply(k')
  {
    hide MapTo, Walk, Tree, SlotsToRoots, NonePresent;
    if n == 0 {
      own' := own;
    } else {
      var k1 := MapPages(k, root, first, n - 1, flags).value;
      var own1 := MapPagesClean(k, own, root, first, n - 1, flags);
      assert root in own1 && own1[root].Top?;
      var k0 := k1.(free := k1.free[1..]);
      own' := MapToPoint(k0, own1, root, first + n - 1, k1.free[0], flags);
      CleanKept(k0, own1, MapPages(k, root, first, n, flags).value, own', root);
      KeptTrans(own, own1, own');
    }
  }

  /** The loops of `alloc_stack` and of `memory::init` that map pages in a row and flush
      each of them. */
  method MapRow(c: Machine, first: nat, n: nat, flags: Flags) returns (r: Result<()>)
    requires c.Valid() && c.Root() == c.cr3 && PlainPages(first, n) && HarmlessRow(c.State(), c.cr3, first, n, flags)
    modifies c, c.alloc
    ensures var spec := MapPages(old(c.State()), old(c.cr3), first, n, flags);
            if spec.Panic? then r == Panic(spec.why)
            else r.Ok? && c.Valid() && c.Root() == c.cr3 == old(c.cr3) && c.State() == spec.value
  {
    hide Walk, Good, Recursive, Mapping.Map, Plain, HarmlessMap;
    ghost var k, cr3 := c.State(), c.cr3;
    for i := 0 to n
      invariant c.Valid() && c.Root() == c.cr3 == cr3 && MapPages(k, cr3, first, i, flags) == Ok(c.State())
    {
      assert Plain(first + i);
      var flush := c.Map(first + i, flags, true);
      if flush.Panic? {
        PanicStays(k, cr3, first, i + 1, n, flags);
        return Panic(flush.why);
      }
      c.Flush(flush.value.page);
    }
    r := Ok(());
  }

  lemma {:induction false} PanicStays(k: Kernel, root: Frame, first: nat, n: nat, total: nat, flags: Flags)
    requires n <= total && MapPages(k, root, first, n, flags).Panic?
    ensures MapPages(k, root, first, total, flags) == Panic(MapPages(k, root, first, n, flags).why)
    decreases total
  {
    hide Mapping.Map;
    if n < total {
      PanicStays(k, root, first, n, total - 1, flags);
    }
  }
}
