/** `AreaFrameAllocator`: a bump allocator over memory areas in any order, which skips the
    frames of the kernel and of the multiboot structure. */
module FrameAllocator {
  import opened Outcomes
  import opened Pages

  /** A usable memory area; `start + size - 1` is an address, so the sum is not 0. */
  datatype Area = Area(start: nat, size: nat) {
    predicate Valid() { start + size >= 1 }

    function First(): nat { start / PAGE_SIZE }

    function Last(): int { (start + size - 1) / PAGE_SIZE }

    predicate Has(f: nat) { First() <= f <= Last() }
  }

  predicate InSome(areas: seq<Area>, f: nat) { exists i :: 0 <= i < |areas| && areas[i].Has(f) }

  /** What the allocator is told: the areas, and two inclusive reserved frame ranges. */
  datatype Layout = Layout(areas: seq<Area>, kernelStart: nat, kernelEnd: nat, multibootStart: nat, multibootEnd: nat) {
    ghost predicate Valid() { forall i :: 0 <= i < |areas| ==> areas[i].Valid() }

    predicate Kernel(f: nat) { kernelStart <= f <= kernelEnd }

    predicate Multiboot(f: nat) { multibootStart <= f <= multibootEnd }

    predicate InArea(f: nat) { InSome(areas, f) }

    predicate Usable(f: nat) { InArea(f) && !Kernel(f) && !Multiboot(f) }

    /** One past the last frame of any area. */
    function Top(): nat { TopOf(areas) }

    /** The usable frames from `n` on, in increasing order. */
    function From(n: nat): seq<nat>
      decreases Top() - n
    {
      if n >= Top() then [] else if Usable(n) then [n] + From(n + 1) else From(n + 1)
    }
  }

  /** The frame holds an address of an area. */
  ghost predicate HoldsRam(areas: seq<Area>, f: nat) {
    exists i, x: nat :: 0 <= i < |areas| && areas[i].start <= x < areas[i].start + areas[i].size && InFrame(x, f)
  }

  predicate NoneEmpty(areas: seq<Area>) { forall i :: 0 <= i < |areas| ==> areas[i].size >= 1 }

  /** The frames of an area are those that hold one of its addresses. An area without
      addresses has a frame only if its start is not at a frame's start: the one around it. */
  lemma AreaHolds(a: Area, f: nat)
    requires a.Valid()
    ensures a.size >= 1 ==> (a.Has(f) <==> exists x: nat :: a.start <= x < a.start + a.size && InFrame(x, f))
    ensures a.size == 0 ==> (a.Has(f) <==> a.start % 4096 != 0 && f == a.start / 4096)
  {
    if a.size >= 1 {
      var last := a.start + a.size - 1;
      RangeHolds(a.start, last, f);
    }
  }

  /** A frame can be allocated exactly if it holds an address of an area and is outside of the
      frames from the first to the last of the kernel and of the multiboot structure. */
  lemma UsableExact(areas: seq<Area>, kernelStart: nat, kernelEnd: nat, multibootStart: nat, multibootEnd: nat, f: nat)
    requires NoneEmpty(areas)
    ensures var l := Layout(areas, kernelStart / 4096, kernelEnd / 4096, multibootStart / 4096, multibootEnd / 4096);
            l.Usable(f) <==>
            && HoldsRam(areas, f)
            && !(kernelStart / 4096 <= f <= kernelEnd / 4096) && !(multibootStart / 4096 <= f <= multibootEnd / 4096)
  {
    AreasHold(areas, f);
  }

  lemma AreasHold(areas: seq<Area>, f: nat)
    requires NoneEmpty(areas)
    ensures InSome(areas, f) <==> HoldsRam(areas, f)
  {
    if InSome(areas, f) {
      var i :| 0 <= i < |areas| && areas[i].Has(f);
      AreaHolds(areas[i], f);
      var x: nat :| areas[i].start <= x < areas[i].start + areas[i].size && InFrame(x, f);
    }
    if HoldsRam(areas, f) {
      var i, x: nat :| 0 <= i < |areas| && areas[i].start <= x < areas[i].start + areas[i].size && InFrame(x, f);
      AreaHolds(areas[i], f);
    }
  }

  /** Every frame still to come holds RAM. */
  lemma FromHoldsRam(l: Layout, next: nat, f: nat)
    requires f in l.From(next) && NoneEmpty(l.areas)
    ensures HoldsRam(l.areas, f)
  {
    FromHas(l, next, f);
    AreasHold(l.areas, f);
  }

  function TopOf(areas: seq<Area>): nat {
    if areas == [] then 0
    else
      var rest := TopOf(areas[1..]);
      if areas[0].Last() >= rest then areas[0].Last() + 1 else rest
  }

  lemma {:induction false} TopBound(areas: seq<Area>, i: nat)
    requires i < |areas|
    ensures areas[i].Last() < TopOf(areas)
  {
    if i > 0 {
      TopBound(areas[1..], i - 1);
    }
  }

  lemma TopBoundAll(areas: seq<Area>)
    ensures forall a :: a in areas ==> a.Last() < TopOf(areas)
  {
    forall a | a in areas
      ensures a.Last() < TopOf(areas)
    {
      var i :| 0 <= i < |areas| && areas[i] == a;
      TopBound(areas, i);
    }
  }

  lemma UsableBelowTop(l: Layout, f: nat)
    requires l.InArea(f)
    ensures f < l.Top()
  {
    var i :| 0 <= i < |l.areas| && l.areas[i].Has(f);
    TopBound(l.areas, i);
  }

  /** `From` lists exactly the usable frames at or above `n`. */
  lemma {:induction false} FromHas(l: Layout, n: nat, f: nat)
    ensures f in l.From(n) <==> n <= f && l.Usable(f)
    decreases l.Top() - n
  {
    if l.Usable(f) {
      UsableBelowTop(l, f);
    }
    if n < l.Top() {
      FromHas(l, n + 1, f);
    }
  }

  /** ... in strictly increasing order. */
  lemma {:induction false} FromIncreases(l: Layout, n: nat, i: nat, j: nat)
    requires i < j < |l.From(n)|
    ensures n <= l.From(n)[i] < l.From(n)[j]
    decreases l.Top() - n
  {
    if l.Usable(n) {
      if i == 0 {
        assert l.From(n)[j] in l.From(n + 1);
        FromHas(l, n + 1, l.From(n)[j]);
      } else {
        FromIncreases(l, n + 1, i - 1, j - 1);
      }
    } else {
      FromIncreases(l, n + 1, i, j);
    }
  }

  /** Skipping frames that are not usable loses nothing. */
  lemma {:induction false} FromSkip(l: Layout, n: nat, n': nat)
    requires n <= n' && forall f :: n <= f < n' ==> !l.Usable(f)
    ensures l.From(n) == l.From(n')
    decreases n' - n
  {
    if n < n' {
      FromSkip(l, n + 1, n');
      if n >= l.Top() {
        assert l.From(n') == [];
      }
    }
  }

  /** The filter and `min_by_key` of `choose_next_area`: among the areas that reach
      `next`, the first with the least start address. */
  function Pick(areas: seq<Area>, next: nat): Option<Area> {
    if areas == [] then None
    else
      var rest := Pick(areas[1..], next);
      if areas[0].Last() >= next && (rest.None? || areas[0].start <= rest.value.start)
      then Some(areas[0]) else rest
  }

  lemma {:induction false} PickLeast(areas: seq<Area>, next: nat)
    ensures Pick(areas, next).Some? ==> Pick(areas, next).value in areas && Pick(areas, next).value.Last() >= next
    ensures forall a :: a in areas && a.Last() >= next ==>
              Pick(areas, next).Some? && Pick(areas, next).value.start <= a.start
  {
    if areas != [] {
      PickLeast(areas[1..], next);
      forall a | a in areas && a.Last() >= next
        ensures Pick(areas, next).Some? && Pick(areas, next).value.start <= a.start
      {
        assert a == areas[0] || a in areas[1..];
      }
    }
  }

  /** How many numbers in lo..hi-1 satisfy `p`. */
  ghost function Count(p: nat -> bool, lo: nat, hi: nat): nat
    decreases hi - lo
  {
    if lo >= hi then 0 else (if p(lo) then 1 else 0) + Count(p, lo + 1, hi)
  }

  lemma {:induction false} CountSplit(p: nat -> bool, q: nat -> bool, r: nat -> bool, lo: nat, hi: nat)
    requires forall f: nat :: lo <= f < hi ==> !(p(f) && q(f)) && r(f) == (p(f) || q(f))
    ensures Count(r, lo, hi) == Count(p, lo, hi) + Count(q, lo, hi)
    decreases hi - lo
  {
    if lo < hi {
      CountSplit(p, q, r, lo + 1, hi);
    }
  }

  /** Numbers outside lo..hi-1 that do not satisfy `p` do not count. */
  lemma {:induction false} CountWiden(p: nat -> bool, q: nat -> bool, lo: nat, hi: nat, lo': nat, hi': nat)
    requires lo' <= lo && hi <= hi'
    requires forall f: nat :: lo' <= f < hi' ==> q(f) == (lo <= f < hi && p(f))
    ensures Count(q, lo', hi') == Count(p, lo, hi)
    decreases hi' - lo'
  {
    if lo' < hi' {
      if lo' < lo {
        CountWiden(p, q, lo, hi, lo' + 1, hi');
      } else if lo < hi {
        CountWiden(p, q, lo + 1, hi, lo' + 1, hi');
      } else {
        CountWiden(p, q, lo' + 1, lo' + 1, lo' + 1, hi');
      }
    }
  }

  lemma {:induction false} CountZero(p: nat -> bool, lo: nat, hi: nat)
    ensures Count(p, lo, hi) == 0 <==> forall f: nat :: lo <= f < hi ==> !p(f)
    decreases hi - lo
  {
    if lo < hi {
      CountZero(p, lo + 1, hi);
    }
  }

  lemma {:induction false} FromCount(l: Layout, n: nat, p: nat -> bool)
    requires forall f: nat :: n <= f < l.Top() ==> p(f) == l.Usable(f)
    ensures |l.From(n)| == Count(p, n, l.Top())
    decreases l.Top() - n
  {
    if n < l.Top() {
      FromCount(l, n + 1, p);
    }
  }

  /** A frame `free_frames` counts: not the kernel's, not yet passed. */
  predicate Unpassed(l: Layout, next: nat, f: nat) { !l.Kernel(f) && f >= next }

  ghost function UnpassedBy(l: Layout, next: nat): nat -> bool { (f: nat) => Unpassed(l, next, f) }

  /** What `free_frames` adds up: for each area, the frames it counts. */
  ghost function FreeSum(l: Layout, next: nat, areas: seq<Area>): nat {
    if areas == [] then 0
    else FreeSum(l, next, areas[..|areas| - 1]) + AreaSum(l, next, areas[|areas| - 1])
  }

  ghost function AreaSum(l: Layout, next: nat, a: Area): nat {
    Count(UnpassedBy(l, next), a.First(), a.Last() + 1)
  }

  ghost predicate Disjoint(areas: seq<Area>) {
    forall i, j, f: nat :: 0 <= i < j < |areas| ==> !(areas[i].Has(f) && areas[j].Has(f))
  }

  lemma InSomeSnoc(areas: seq<Area>, f: nat)
    requires areas != []
    ensures InSome(areas, f) <==> InSome(areas[..|areas| - 1], f) || areas[|areas| - 1].Has(f)
  {
    var init := areas[..|areas| - 1];
    if InSome(areas, f) {
      var i :| 0 <= i < |areas| && areas[i].Has(f);
      assert i < |init| ==> init[i].Has(f);
    }
    if InSome(init, f) {
      var i :| 0 <= i < |init| && init[i].Has(f);
      assert areas[i].Has(f);
    }
  }

  /** Over frame-disjoint areas the sum counts each frame once. */
  lemma {:induction false} FreeSumCounts(l: Layout, next: nat, areas: seq<Area>, top: nat, p: nat -> bool)
    requires Disjoint(areas) && (forall i :: 0 <= i < |areas| ==> areas[i].Valid() && areas[i].Last() < top)
    requires forall f: nat :: f < top ==> p(f) == (InSome(areas, f) && Unpassed(l, next, f))
    ensures FreeSum(l, next, areas) == Count(p, 0, top)
  {
    if areas == [] {
      CountZero(p, 0, top);
    } else {
      var init, last := areas[..|areas| - 1], areas[|areas| - 1];
      var q := (f: nat) => InSome(init, f) && Unpassed(l, next, f);
      var r := (f: nat) => last.Has(f) && Unpassed(l, next, f);
      assert Disjoint(init);
      FreeSumCounts(l, next, init, top, q);
      CountWiden(UnpassedBy(l, next), r, last.First(), last.Last() + 1, 0, top);
      forall f: nat | f < top
        ensures !(q(f) && r(f)) && p(f) == (q(f) || r(f))
      {
        InSomeSnoc(areas, f);
        if InSome(init, f) {
          var i :| 0 <= i < |init| && init[i].Has(f);
          assert areas[i].Has(f);
        }
      }
      CountSplit(q, r, p, 0, top);
    }
  }

  /** The frames that `free_frames` counts although `allocate_frame` will skip them. */
  ghost predicate Skipped(l: Layout, next: nat, f: nat) { l.InArea(f) && l.Multiboot(f) && Unpassed(l, next, f) }

  ghost function SkippedBy(l: Layout, next: nat): nat -> bool { (f: nat) => Skipped(l, next, f) }

  /** Conservation: `free_frames` is the number of allocations still to succeed plus the
      number of multiboot frames not yet passed, so it is exact if and only if there is
      no such multiboot frame left. */
  lemma FreeFramesConserved(l: Layout, next: nat)
    requires l.Valid() && Disjoint(l.areas)
    ensures FreeSum(l, next, l.areas) == |l.From(next)| + Count(SkippedBy(l, next), 0, l.Top())
    ensures FreeSum(l, next, l.areas) == |l.From(next)| <==> forall f: nat :: !Skipped(l, next, f)
  {
    var p := (f: nat) => l.InArea(f) && Unpassed(l, next, f);
    var q := (f: nat) => l.Usable(f) && f >= next;
    TopBoundAll(l.areas);
    FreeSumCounts(l, next, l.areas, l.Top(), p);
    CountSplit(q, SkippedBy(l, next), p, 0, l.Top());
    FromCountsAll(l, next, q);
    SkippedNone(l, next);
  }

  lemma FromCountsAll(l: Layout, next: nat, q: nat -> bool)
    requires forall f: nat :: q(f) == (l.Usable(f) && f >= next)
    ensures |l.From(next)| == Count(q, 0, l.Top())
  {
    if next <= l.Top() {
      var u := (f: nat) => l.Usable(f);
      FromCount(l, next, u);
      CountWiden(u, q, next, l.Top(), 0, l.Top());
    } else {
      CountZero(q, 0, l.Top());
    }
  }

  lemma SkippedNone(l: Layout, next: nat)
    ensures Count(SkippedBy(l, next), 0, l.Top()) == 0 <==> forall f: nat :: !Skipped(l, next, f)
  {
    CountZero(SkippedBy(l, next), 0, l.Top());
    forall f: nat | l.InArea(f)
      ensures f < l.Top()
    {
      UsableBelowTop(l, f);
    }
    assert forall f: nat :: SkippedBy(l, next)(f) == Skipped(l, next, f);
  }

  class AreaFrameAllocator {
    const layout: Layout
    var nextFree: nat
    var currentArea: Option<Area>

    ghost predicate Valid()
      reads this
    {
      && layout.Valid()
      && (currentArea.Some? ==> currentArea.value in layout.areas && currentArea.value.First() <= nextFree)
      && (currentArea.None? ==> forall a :: a in layout.areas ==> a.Last() < nextFree)
    }

    /** The frames that later calls will return, in order. */
    ghost function Upcoming(): seq<nat>
      reads this
    {
      layout.From(nextFree)
    }

    /** Addresses as the boot information gives them; the first usable frame is
        allocated and thrown away. */
    constructor (kernelStart: nat, kernelEnd: nat, multibootStart: nat, multibootEnd: nat, areas: seq<Area>)
      requires forall i :: 0 <= i < |areas| ==> areas[i].Valid()
      ensures Valid()
      ensures layout == Layout(areas, kernelStart / PAGE_SIZE, kernelEnd / PAGE_SIZE,
          multibootStart / PAGE_SIZE, multibootEnd / PAGE_SIZE)
      ensures layout.From(0) == [] ==> Upcoming() == []
      ensures layout.From(0) != [] ==> Upcoming() == layout.From(0)[1..]
    {
      layout := Layout(areas, kernelStart / PAGE_SIZE, kernelEnd / PAGE_SIZE, multibootStart / PAGE_SIZE,
          multibootEnd / PAGE_SIZE);
      nextFree := 0;
      currentArea := None;
      new;
      ChooseNextArea();
      var _ := AllocateFrame(1);
    }

    method ChooseNextArea()
      requires layout.Valid()
      modifies this
      ensures Valid() && Upcoming() == old(Upcoming()) && nextFree >= old(nextFree)
      ensures currentArea.Some? ==> old(nextFree) < layout.Top()
      ensures currentArea.Some? ==> nextFree <= currentArea.value.Last() || nextFree > old(nextFree)
    {
      currentArea := Pick(layout.areas, nextFree);
      PickLeast(layout.areas, nextFree);
      TopBoundAll(layout.areas);
      if currentArea.Some? {
        var start := currentArea.value.First();
        if nextFree < start {
          ghost var before := nextFree;
          forall f | before <= f < start
            ensures !layout.Usable(f)
          {
            forall i | 0 <= i < |layout.areas|
              ensures !layout.areas[i].Has(f)
            {
              assert layout.areas[i] in layout.areas;
            }
          }
          FromSkip(layout, before, start);
          nextFree := start;
        }
      }
    }

    /** `allocate_frame`: returns the first of the upcoming frames, None if there is none. */
    method AllocateFrame(count: nat) returns (r: Option<nat>)
      requires Valid() && count <= 1
      modifies this
      ensures Valid()
      ensures count == 0 ==> r == None && Upcoming() == old(Upcoming())
      ensures count == 1 && old(Upcoming()) == [] ==> r == None && Upcoming() == []
      ensures count == 1 && old(Upcoming()) != [] ==>
                r == Some(old(Upcoming()[0])) && Upcoming() == old(Upcoming()[1..])
      ensures r.Some? && NoneEmpty(layout.areas) ==> HoldsRam(layout.areas, r.value)
      decreases if nextFree < layout.Top() then layout.Top() - nextFree else 0,
                if currentArea.Some? && nextFree > currentArea.value.Last() then 1 else 0
    {
      hide HoldsRam, NoneEmpty, InSome;
      if count == 0 {
        return None;
      }
      if currentArea.None? {
        NoneLeft();
        return None;
      }
      var area, frame := currentArea.value, nextFree;
      TopBoundAll(layout.areas);
      if frame > area.Last() {
        ChooseNextArea();
      } else if layout.Kernel(frame) {
        FromSkip(layout, frame, layout.kernelEnd + 1);
        nextFree := layout.kernelEnd + 1;
      } else if layout.Multiboot(frame) {
        FromSkip(layout, frame, layout.multibootEnd + 1);
        nextFree := layout.multibootEnd + 1;
      } else {
        InSomeArea(frame);
        if NoneEmpty(layout.areas) {
          AreasHold(layout.areas, frame);
        }
        nextFree := frame + 1;
        return Some(frame);
      }
      r := AllocateFrame(1);
    }

    lemma InSomeArea(f: nat)
      requires Valid() && currentArea.Some? && currentArea.value.Has(f)
      ensures layout.InArea(f)
    {
      var i :| 0 <= i < |layout.areas| && layout.areas[i] == currentArea.value;
      assert layout.areas[i].Has(f);
    }

    lemma NoneLeft()
      requires Valid() && currentArea.None?
      ensures Upcoming() == []
    {
      var end := if nextFree < layout.Top() then layout.Top() else nextFree;
      forall f | nextFree <= f < end
        ensures !layout.Usable(f)
      {
        forall i | 0 <= i < |layout.areas|
          ensures !layout.areas[i].Has(f)
        {
          assert layout.areas[i] in layout.areas;
        }
      }
      FromSkip(layout, nextFree, end);
    }

    /** `free_frames`. */
    method FreeFrames() returns (count: nat)
      requires Valid()
      ensures count == FreeSum(layout, nextFree, layout.areas)
    {
      count := 0;
      for i := 0 to |layout.areas|
        invariant count == FreeSum(layout, nextFree, layout.areas[..i])
      {
        var area := layout.areas[i];
        assert layout.areas[..i + 1][..i] == layout.areas[..i];
        var frame := area.First();
        ghost var before := count;
        while frame <= area.Last()
          invariant area.First() <= frame <= area.Last() + 1 || frame == area.First()
          invariant count + Count(UnpassedBy(layout, nextFree), frame, area.Last() + 1) ==
                    before + AreaSum(layout, nextFree, area)
        {
          if !layout.Kernel(frame) && frame >= nextFree {
            count := count + 1;
          }
          frame := frame + 1;
        }
      }
      assert layout.areas[..|layout.areas|] == layout.areas;
    }
  }
}
