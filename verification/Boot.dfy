/** `paging::init`: the new hierarchy that identity-maps the kernel, and its guard page. */
module Boot {
  import opened Outcomes
  import opened Entries
  import opened Pages
  import opened Hierarchy
  import opened Translation
  import opened Mapping
  import opened Detour

  /** The page `init` uses as temporary page. */
  const TEMPORARY := 0xcafe_babe

  /** The frame of the VGA text buffer. */
  const VGA_FRAME := 0xb8

  /** Frames below this are the low canonical half of the pages. */
  const LOW_HALF := 0x8_0000_0000

  datatype Section = Section(start: nat, size: nat, loaded: bool, writable: bool, executable: bool)

  /** `EntryFlags::from_elf_section_flags`. */
  function SectionFlags(s: Section): Flags {
    EMPTY.(present := s.loaded, writable := s.writable, noExecute := !s.executable)
  }

  /** The frames of an inclusive frame range. */
  function FrameRange(first: nat, last: int): seq<nat> {
    if last < first then [] else seq(last - first + 1, i requires i >= 0 => first + i)
  }

  /** `identity_map` of each frame. */
  function IdentityMaps(frames: seq<nat>, flags: Flags): seq<Request> {
    seq(|frames|, i requires 0 <= i < |frames| => Request(frames[i], frames[i], flags))
  }

  function SectionFrames(s: Section): seq<nat> {
    if s.loaded then FrameRange(s.start / PAGE_SIZE, (s.start + s.size - 1) / PAGE_SIZE) else []
  }

  function SectionMaps(sections: seq<Section>): seq<Request> {
    if sections == [] then []
    else IdentityMaps(SectionFrames(sections[0]), SectionFlags(sections[0])) + SectionMaps(sections[1..])
  }

  function MultibootFrames(start: nat, end: nat): seq<nat> {
    FrameRange(start / PAGE_SIZE, (end - 1) / PAGE_SIZE)
  }

  /** The calls the closure of `init` makes, in order. */
  function BootMaps(sections: seq<Section>, start: nat, end: nat): seq<Request> {
    SectionMaps(sections) + [Request(VGA_FRAME, VGA_FRAME, WRITABLE)]
    + IdentityMaps(MultibootFrames(start, end), PRESENT)
  }

  predicate SectionsAligned(sections: seq<Section>) {
    forall i :: 0 <= i < |sections| && sections[i].loaded ==> sections[i].start % PAGE_SIZE == 0
  }

  predicate AllLow(reqs: seq<Request>) { forall i :: 0 <= i < |reqs| ==> reqs[i].page < LOW_HALF }

  /** `paging::init` up to the new, empty hierarchy in frame `p4`. */
  function Prepare(k: Kernel, cr3: Frame): Result<(Kernel, Frame)> {
    if k.free == [] then Panic(OutOfMemory) else
    var k1 :- NewInactive(k.(free := k.free[1..]), cr3, TEMPORARY, k.free[0]);
    Ok((k1, k.free[0]))
  }

  /** The rest of `paging::init`: fill the hierarchy, switch to it, and unmap the page of
      the old P4 table, which the new hierarchy maps to itself. */
  function Finish(k: Kernel, cr3: Frame, p4: Frame, reqs: seq<Request>): Result<Kernel> {
    var k2 :- With(k, cr3, p4, TEMPORARY, reqs);
    if cr3 >= LOW_HALF then Panic(NonCanonical) else Unmap(k2, p4, cr3)
  }

  /** `paging::init`; returns the memory and the new P4 frame, which `switch` puts in cr3. */
  function Init(k: Kernel, cr3: Frame, sections: seq<Section>, start: nat, end: nat): Result<(Kernel, Frame)> {
    var (k1, p4) :- Prepare(k, cr3);
    var reqs := BootMaps(sections, start, end);
    if !SectionsAligned(sections) then Panic(Unaligned)
    else if !AllLow(reqs) then Panic(NonCanonical)
    else
      var k2 :- Finish(k1, cr3, p4, reqs);
      Ok((k2, p4))
  }

  predicate InSection(s: Section, f: Frame) {
    s.loaded && s.start / PAGE_SIZE <= f <= (s.start + s.size - 1) / PAGE_SIZE
  }

  predicate InMultiboot(start: nat, end: nat, f: Frame) { start / PAGE_SIZE <= f <= (end - 1) / PAGE_SIZE }

  /** The frame lies in an allocated section, the VGA buffer or the multiboot structure. */
  ghost predicate Covered(sections: seq<Section>, start: nat, end: nat, f: Frame) {
    (exists i :: 0 <= i < |sections| && InSection(sections[i], f)) || f == VGA_FRAME || InMultiboot(start, end, f)
  }

  lemma RangeHas(first: nat, last: int, f: nat)
    ensures f in FrameRange(first, last) <==> first <= f <= last
  {
    if first <= f <= last {
      assert FrameRange(first, last)[f - first] == f;
    }
  }

  lemma IdentityRequests(frames: seq<nat>, flags: Flags, f: nat)
    ensures (exists i :: 0 <= i < |frames| && IdentityMaps(frames, flags)[i].page == f) <==> f in frames
    ensures forall i :: 0 <= i < |frames| ==>
              IdentityMaps(frames, flags)[i].page == IdentityMaps(frames, flags)[i].frame
  {
    if f in frames {
      var i :| 0 <= i < |frames| && frames[i] == f;
      assert IdentityMaps(frames, flags)[i].page == f;
    }
  }

  ghost predicate HasPage(reqs: seq<Request>, f: nat) { exists i :: 0 <= i < |reqs| && reqs[i].page == f }

  predicate Identity(reqs: seq<Request>) { forall i :: 0 <= i < |reqs| ==> reqs[i].page == reqs[i].frame }

  lemma HasPageAppend(a: seq<Request>, b: seq<Request>, f: nat)
    ensures HasPage(a + b, f) <==> HasPage(a, f) || HasPage(b, f)
  {
    if HasPage(a, f) {
      var i :| 0 <= i < |a| && a[i].page == f;
      assert (a + b)[i].page == f;
    }
    if HasPage(b, f) {
      var i :| 0 <= i < |b| && b[i].page == f;
      assert (a + b)[|a| + i].page == f;
    }
  }

  lemma {:induction false} SectionMapsCover(sections: seq<Section>, f: nat)
    ensures Identity(SectionMaps(sections))
    ensures HasPage(SectionMaps(sections), f) <==> exists i :: 0 <= i < |sections| && InSection(sections[i], f)
  {
    if sections != [] {
      var s, rest := sections[0], sections[1..];
      var head := IdentityMaps(SectionFrames(s), SectionFlags(s));
      SectionMapsCover(rest, f);
      IdentityRequests(SectionFrames(s), SectionFlags(s), f);
      RangeHas(s.start / PAGE_SIZE, (s.start + s.size - 1) / PAGE_SIZE, f);
      HasPageAppend(head, SectionMaps(rest), f);
      assert HasPage(head, f) <==> f in SectionFrames(s);
      assert forall i :: 0 <= i < |rest| ==> sections[i + 1] == rest[i];
    }
  }

  /** The closure's calls are identity maps of exactly the covered frames. */
  lemma BootMapsCover(sections: seq<Section>, start: nat, end: nat, f: nat)
    ensures Identity(BootMaps(sections, start, end))
    ensures HasPage(BootMaps(sections, start, end), f) <==> Covered(sections, start, end, f)
  {
    var a, b := SectionMaps(sections), [Request(VGA_FRAME, VGA_FRAME, WRITABLE)];
    var frames := MultibootFrames(start, end);
    var c := IdentityMaps(frames, PRESENT);
    SectionMapsCover(sections, f);
    IdentityRequests(frames, PRESENT, f);
    RangeHas(start / PAGE_SIZE, (end - 1) / PAGE_SIZE, f);
    HasPageAppend(a, b, f);
    HasPageAppend(a + b, c, f);
    assert HasPage(c, f) <==> f in frames;
    assert HasPage(b, f) <==> f == VGA_FRAME by { assert b[0].page == VGA_FRAME; }
  }

  /** The sections, the VGA buffer and the multiboot structure share no frame. */
  ghost predicate RangesDisjoint(sections: seq<Section>, start: nat, end: nat) {
    && SectionsDisjoint(sections)
    && (forall i, f: nat :: 0 <= i < |sections| && InSection(sections[i], f) ==>
          f != VGA_FRAME && !InMultiboot(start, end, f))
    && !InMultiboot(start, end, VGA_FRAME)
  }

  ghost predicate SectionsDisjoint(sections: seq<Section>) {
    forall i, j, f: nat :: 0 <= i < j < |sections| ==> !(InSection(sections[i], f) && InSection(sections[j], f))
  }

  lemma DistinctAppend(a: seq<Request>, b: seq<Request>)
    ensures DistinctPages(a + b) <==>
            DistinctPages(a) && DistinctPages(b) && forall f: nat :: !(HasPage(a, f) && HasPage(b, f))
  {
    var c := a + b;
    if DistinctPages(c) {
      forall i, j | 0 <= i < j < |a|
        ensures a[i].page != a[j].page
      {
        assert c[i] == a[i] && c[j] == a[j];
      }
      forall i, j | 0 <= i < j < |b|
        ensures b[i].page != b[j].page
      {
        assert c[|a| + i] == b[i] && c[|a| + j] == b[j];
      }
      forall i, j | 0 <= i < |a| && 0 <= j < |b|
        ensures a[i].page != b[j].page
      {
        assert c[i] == a[i] && c[|a| + j] == b[j];
      }
    }
    if DistinctPages(a) && DistinctPages(b) && forall f: nat :: !(HasPage(a, f) && HasPage(b, f)) {
      forall i, j | 0 <= i < j < |c|
        ensures c[i].page != c[j].page
      {
        if i < |a| <= j {
          assert HasPage(a, c[i].page) && c[j] == b[j - |a|] && HasPage(b, c[j].page);
        } else if |a| <= i {
          assert c[i] == b[i - |a|] && c[j] == b[j - |a|];
        }
      }
    }
  }

  lemma RangeDistinct(first: nat, last: int, flags: Flags)
    ensures DistinctPages(IdentityMaps(FrameRange(first, last), flags))
  {
  }

  lemma {:induction false} SectionMapsDistinct(sections: seq<Section>)
    ensures DistinctPages(SectionMaps(sections)) <==> SectionsDisjoint(sections)
  {
    if sections != [] {
      hide SectionMaps, SectionFrames, IdentityMaps, DistinctPages, InSection, HasPage;
      var s, rest := sections[0], sections[1..];
      var head := IdentityMaps(SectionFrames(s), SectionFlags(s));
      SectionMapsDistinct(rest);
      FirstSection(sections);
      DistinctAppend(head, SectionMaps(rest));
      forall f: nat
        ensures HasPage(head, f) && HasPage(SectionMaps(rest), f) <==>
                InSection(s, f) && exists i :: 0 <= i < |rest| && InSection(rest[i], f)
      {
        SectionHead(s, f);
        SectionMapsCover(rest, f);
      }
      FirstDisjoint(sections);
    }
  }

  lemma FirstSection(sections: seq<Section>)
    requires sections != []
    ensures SectionMaps(sections) ==
            IdentityMaps(SectionFrames(sections[0]), SectionFlags(sections[0])) + SectionMaps(sections[1..])
    ensures DistinctPages(IdentityMaps(SectionFrames(sections[0]), SectionFlags(sections[0])))
  {
    var s := sections[0];
    RangeDistinct(s.start / PAGE_SIZE, (s.start + s.size - 1) / PAGE_SIZE, SectionFlags(s));
  }

  lemma SectionHead(s: Section, f: nat)
    ensures HasPage(IdentityMaps(SectionFrames(s), SectionFlags(s)), f) <==> InSection(s, f)
  {
    IdentityRequests(SectionFrames(s), SectionFlags(s), f);
    RangeHas(s.start / PAGE_SIZE, (s.start + s.size - 1) / PAGE_SIZE, f);
  }

  lemma FirstDisjoint(sections: seq<Section>)
    requires sections != []
    ensures SectionsDisjoint(sections) <==>
            && SectionsDisjoint(sections[1..])
            && forall f: nat :: InSection(sections[0], f) ==>
                 !exists i :: 0 <= i < |sections[1..]| && InSection(sections[1..][i], f)
  {
    hide InSection;
    var s, rest := sections[0], sections[1..];
    assert forall i :: 0 <= i < |rest| ==> rest[i] == sections[i + 1];
    if && SectionsDisjoint(rest)
       && forall f: nat :: InSection(s, f) ==> !exists i :: 0 <= i < |rest| && InSection(rest[i], f) {
      forall i, j, f: nat | 0 <= i < j < |sections|
        ensures !(InSection(sections[i], f) && InSection(sections[j], f))
      {
        assert sections[j] == rest[j - 1];
        assert i > 0 ==> sections[i] == rest[i - 1];
      }
    }
  }

  /** The closure asks for distinct pages exactly if the ranges share no frame, and for
      pages of the low half exactly if all covered frames are low. */
  lemma BootMapsDistinct(sections: seq<Section>, start: nat, end: nat)
    ensures DistinctPages(BootMaps(sections, start, end)) <==> RangesDisjoint(sections, start, end)
    ensures AllLow(BootMaps(sections, start, end)) <==>
            forall f: nat :: Covered(sections, start, end, f) ==> f < LOW_HALF
  {
    hide SectionMaps, MultibootFrames, IdentityMaps, InSection, InMultiboot, Covered;
    var a, b := SectionMaps(sections), [Request(VGA_FRAME, VGA_FRAME, WRITABLE)];
    var c := IdentityMaps(MultibootFrames(start, end), PRESENT);
    BootMapsLow(sections, start, end);
    SectionMapsDistinct(sections);
    MultibootRequests(start, end);
    DistinctAppend(a, b);
    DistinctAppend(a + b, c);
    forall f: nat
      ensures HasPage(a, f) <==> exists i :: 0 <= i < |sections| && InSection(sections[i], f)
      ensures HasPage(b, f) <==> f == VGA_FRAME
      ensures HasPage(a + b, f) <==> HasPage(a, f) || f == VGA_FRAME
    {
      SectionMapsCover(sections, f);
      HasPageAppend(a, b, f);
      assert b[0].page == VGA_FRAME;
    }
    RangesApart(sections, start, end, a, b, c);
  }

  lemma MultibootRequests(start: nat, end: nat)
    ensures DistinctPages(IdentityMaps(MultibootFrames(start, end), PRESENT))
    ensures forall f: nat ::
              HasPage(IdentityMaps(MultibootFrames(start, end), PRESENT), f) <==> InMultiboot(start, end, f)
  {
    RangeDistinct(start / PAGE_SIZE, (end - 1) / PAGE_SIZE, PRESENT);
    forall f: nat
      ensures HasPage(IdentityMaps(MultibootFrames(start, end), PRESENT), f) <==> InMultiboot(start, end, f)
    {
      IdentityRequests(MultibootFrames(start, end), PRESENT, f);
      RangeHas(start / PAGE_SIZE, (end - 1) / PAGE_SIZE, f);
    }
  }

  lemma RangesApart(sections: seq<Section>, start: nat, end: nat, a: seq<Request>, b: seq<Request>, c: seq<Request>)
    requires forall f: nat :: HasPage(a, f) <==> exists i :: 0 <= i < |sections| && InSection(sections[i], f)
    requires forall f: nat :: HasPage(b, f) <==> f == VGA_FRAME
    requires forall f: nat :: HasPage(a + b, f) <==> HasPage(a, f) || f == VGA_FRAME
    requires forall f: nat :: HasPage(c, f) <==> InMultiboot(start, end, f)
    ensures (&& (forall f: nat :: !(HasPage(a, f) && HasPage(b, f)))
             && (forall f: nat :: !(HasPage(a + b, f) && HasPage(c, f))))
            <==>
            (&& (forall i, f: nat :: 0 <= i < |sections| && InSection(sections[i], f) ==>
                   f != VGA_FRAME && !InMultiboot(start, end, f))
             && !InMultiboot(start, end, VGA_FRAME))
  {
    hide HasPage, InSection, InMultiboot;
    if && (forall f: nat :: !(HasPage(a, f) && HasPage(b, f)))
       && (forall f: nat :: !(HasPage(a + b, f) && HasPage(c, f))) {
      assert HasPage(b, VGA_FRAME) && HasPage(a + b, VGA_FRAME);
      forall i, f: nat | 0 <= i < |sections| && InSection(sections[i], f)
        ensures f != VGA_FRAME && !InMultiboot(start, end, f)
      {
        assert HasPage(a, f) && HasPage(a + b, f);
      }
    }
  }

  lemma BootMapsLow(sections: seq<Section>, start: nat, end: nat)
    ensures AllLow(BootMaps(sections, start, end)) <==>
            forall f: nat :: Covered(sections, start, end, f) ==> f < LOW_HALF
  {
    hide BootMaps, Covered;
    var reqs := BootMaps(sections, start, end);
    forall f: nat
      ensures HasPage(reqs, f) <==> Covered(sections, start, end, f)
    {
      BootMapsCover(sections, start, end, f);
    }
    if forall f: nat :: Covered(sections, start, end, f) ==> f < LOW_HALF {
      forall i | 0 <= i < |reqs|
        ensures reqs[i].page < LOW_HALF
      {
        assert HasPage(reqs, reqs[i].page);
      }
    }
  }

  lemma {:induction false} IdentityRequested(reqs: seq<Request>, f: nat)
    requires Identity(reqs)
    ensures FrameOf(Requested(reqs, f)) == if HasPage(reqs, f) then Some(f) else None
  {
    RequestedIff(reqs, f);
    RequestedIdentity(reqs, f);
  }

  lemma {:induction false} RequestedIdentity(reqs: seq<Request>, f: nat)
    requires Identity(reqs)
    ensures Requested(reqs, f).Some? ==> Requested(reqs, f).value.frame == f
  {
    if reqs != [] {
      RequestedIdentity(reqs[..|reqs| - 1], f);
    }
  }

  lemma LowIsPlain(page: nat)
    requires page < LOW_HALF
    ensures Plain(page)
  {
  }

  lemma PrepareEmpty(k: Kernel, own: Owners, cr3: Frame) returns (own': Owners)
    requires Good(k, own) && Hierarchical(k.mem, own, cr3) && Prepare(k, cr3).Ok?
    ensures var (k', p4) := Prepare(k, cr3).value;
            && Good(k', own') && Hierarchical(k'.mem, own', cr3) && Hierarchical(k'.mem, own', p4)
            && p4 != cr3 && p4 < FRAME_LIMIT && (forall q: nat :: Plain(q) ==> Walk(k'.mem, p4, q) == None)
            && Follows(k, own, k', own')
  {
    hide NewInactive, Walk, Recursive, Follows, Tree, SlotsToRoots;
    var p4, k0 := k.free[0], k.(free := k.free[1..]);
    assert p4 !in k0.free && k0.(free := [p4] + k0.free) == k;
    own' := NewInactiveEmpty(k0, own, cr3, TEMPORARY, p4);
  }

  /** After `init` the new hierarchy has the closure's mappings, less the guard page. */
  ghost predicate HasMaps(m: Memory, p4: Frame, cr3: Frame, reqs: seq<Request>) {
    && DistinctPages(reqs)
    && forall q: nat {:trigger Walk(m, p4, q)} :: Plain(q) ==>
        Walk(m, p4, q) == if q == cr3 then None else Requested(reqs, q)
  }

  lemma FinishHasMaps(k: Kernel, own: Owners, cr3: Frame, p4: Frame, reqs: seq<Request>) returns (own': Owners)
    requires Good(k, own) && Hierarchical(k.mem, own, cr3) && Hierarchical(k.mem, own, p4) && p4 != cr3
    requires p4 < FRAME_LIMIT
    requires (forall q: nat :: Plain(q) ==> Walk(k.mem, p4, q) == None) && AllLow(reqs)
    requires Finish(k, cr3, p4, reqs).Ok?
    ensures var k' := Finish(k, cr3, p4, reqs).value;
            && Good(k', own') && Hierarchical(k'.mem, own', p4) && HasMaps(k'.mem, p4, cr3, reqs)
            && Follows(k, own, k', own')
  {
    hide MapTo, With, Unmap, Walk, Follows;
    assert AllPlain(reqs);
    var k2 := With(k, cr3, p4, TEMPORARY, reqs).value;
    own' := WithFaithful(k, own, cr3, p4, TEMPORARY, reqs);
    WithDistinct(k, own, cr3, p4, reqs);
    UnmapPoint(k2, own', p4, cr3);
    UnmapKeepsRoots(k2, own', p4, cr3);
    UnmapFollows(k2, own', p4, cr3);
    FollowsTrans(k, own, k2, own', Unmap(k2, p4, cr3).value, own');
    FinishWalks(k.mem, k2.mem, Unmap(k2, p4, cr3).value.mem, own, own', p4, cr3, reqs);
  }

  lemma WithDistinct(k: Kernel, own: Owners, cr3: Frame, p4: Frame, reqs: seq<Request>)
    requires Good(k, own) && Hierarchical(k.mem, own, cr3) && Hierarchical(k.mem, own, p4) && cr3 != p4
    requires p4 < FRAME_LIMIT && AllPlain(reqs) && With(k, cr3, p4, TEMPORARY, reqs).Ok?
    ensures DistinctPages(reqs)
  {
    hide MapTo, Walk, MapAll;
    WithIsDetour(k, cr3, p4, TEMPORARY, reqs);
    var own1 := EnterMaps(k, own, cr3, p4, TEMPORARY);
    MapAllDistinct(Enter(k, cr3, p4, TEMPORARY).value, own1, p4, reqs);
  }

  lemma FinishWalks(m1: Memory, m2: Memory, m3: Memory, own1: Owners, own': Owners, p4: Frame, cr3: Frame,
      reqs: seq<Request>)
    requires p4 in own1 && own1[p4].Top? && p4 in own' && own'[p4].Top? && DistinctPages(reqs)
    requires forall q: nat :: Plain(q) ==> Walk(m1, p4, q) == None
    requires Gained(m1, m2, own1, p4, reqs) && PointUpdate(m2, m3, own', p4, cr3, None)
    ensures HasMaps(m3, p4, cr3, reqs)
  {
    hide Walk;
    forall q: nat | Plain(q)
      ensures Walk(m3, p4, q) == if q == cr3 then None else Requested(reqs, q)
    {
      assert Walk(m2, p4, q) == if Requested(reqs, q).Some? then Requested(reqs, q) else Walk(m1, p4, q);
    }
  }

  lemma InitHasMaps(k: Kernel, own: Owners, cr3: Frame, sections: seq<Section>, start: nat, end: nat)
      returns (own': Owners)
    requires Good(k, own) && Hierarchical(k.mem, own, cr3) && Init(k, cr3, sections, start, end).Ok?
    ensures var (k', p4) := Init(k, cr3, sections, start, end).value;
            && Good(k', own') && Hierarchical(k'.mem, own', p4) && Follows(k, own, k', own')
            && HasMaps(k'.mem, p4, cr3, BootMaps(sections, start, end))
  {
    hide Prepare, Finish, Good, Recursive, Follows, HasMaps, Walk, BootMaps, SectionsAligned;
    var own1 := PrepareEmpty(k, own, cr3);
    var (k1, p4) := Prepare(k, cr3).value;
    own' := FinishHasMaps(k1, own1, cr3, p4, BootMaps(sections, start, end));
    FollowsTrans(k, own, k1, own1, Init(k, cr3, sections, start, end).value.0, own');
  }

  /** After `init` the pages mapped outside the recursive window are exactly the frames
      of allocated sections, the VGA frame and the multiboot frames, minus the guard page
      over the old P4 table, and each is mapped to its own number; the frames taken from the
      supply hold tables. */
  lemma InitExact(k: Kernel, own: Owners, cr3: Frame, sections: seq<Section>, start: nat, end: nat)
      returns (own': Owners)
    requires Good(k, own) && Hierarchical(k.mem, own, cr3)
    ensures Init(k, cr3, sections, start, end).Ok? ==>
              var (k', p4) := Init(k, cr3, sections, start, end).value;
              && Good(k', own') && Hierarchical(k'.mem, own', p4) && Follows(k, own, k', own')
              && (forall q: nat {:trigger Walk(k'.mem, p4, q)} :: Plain(q) ==>
                    FrameOf(Walk(k'.mem, p4, q)) ==
                    if Covered(sections, start, end, q) && q != cr3 then Some(q) else None)
  {
    hide Init, Walk, Good, Covered, BootMaps, Follows;
    own' := own;
    if Init(k, cr3, sections, start, end).Ok? {
      own' := InitHasMaps(k, own, cr3, sections, start, end);
      var (k', p4) := Init(k, cr3, sections, start, end).value;
      forall q: nat | Plain(q)
        ensures FrameOf(Walk(k'.mem, p4, q)) == if Covered(sections, start, end, q) && q != cr3 then Some(q) else None
      {
        BootMapsCover(sections, start, end, q);
        IdentityRequested(BootMaps(sections, start, end), q);
      }
    }
  }

  /** The request for a frame of a section stands among the closure's calls. */
  lemma {:induction false} SectionRequest(sections: seq<Section>, s: nat, f: nat) returns (i: nat)
    requires s < |sections| && f in SectionFrames(sections[s])
    ensures i < |SectionMaps(sections)| && SectionMaps(sections)[i] == Request(f, f, SectionFlags(sections[s]))
  {
    var frames := SectionFrames(sections[0]);
    if s == 0 {
      i :| 0 <= i < |frames| && frames[i] == f;
    } else {
      var j := SectionRequest(sections[1..], s - 1, f);
      i := |frames| + j;
    }
  }

  /** The pages that `init` maps, the guard page aside, with their rights: a section's page is
      writable and executable only if the section is, the VGA buffer is writable, the
      multiboot structure is neither writable nor barred from execution; no page is for
      ring 3, global, or cached in a special way. */
  ghost predicate RightsOk(m: Memory, p4: Frame, cr3: Frame, sections: seq<Section>, start: nat, end: nat) {
    && (forall s, f: nat {:trigger sections[s], Walk(m, p4, f)} ::
          (0 <= s < |sections| && sections[s].loaded && f != cr3
           && sections[s].start / 4096 <= f <= (sections[s].start + sections[s].size - 1) / 4096) ==>
            Walk(m, p4, f) == Some(Entry(f, Flags(
              present := true, writable := sections[s].writable, user := false, writeThrough := false,
              noCache := false, accessed := false, dirty := false, huge := false, isGlobal := false,
              noExecute := !sections[s].executable))))
    && (cr3 != 0xb8 ==>
          Walk(m, p4, 0xb8) == Some(Entry(0xb8, Flags(
            present := true, writable := true, user := false, writeThrough := false, noCache := false,
            accessed := false, dirty := false, huge := false, isGlobal := false, noExecute := false))))
    && (forall f: nat {:trigger Walk(m, p4, f)} :: start / 4096 <= f <= (end - 1) / 4096 && f != cr3 ==>
          Walk(m, p4, f) == Some(Entry(f, Flags(
            present := true, writable := false, user := false, writeThrough := false, noCache := false,
            accessed := false, dirty := false, huge := false, isGlobal := false, noExecute := false))))
  }

  /** Every call of the closure but one for the guard page is granted. */
  lemma RequestGranted(k: Kernel, own: Owners, cr3: Frame, sections: seq<Section>, start: nat, end: nat, i: nat)
    requires Good(k, own) && Hierarchical(k.mem, own, cr3) && Init(k, cr3, sections, start, end).Ok?
    requires i < |BootMaps(sections, start, end)| && BootMaps(sections, start, end)[i].page != cr3
    ensures var (k', p4) := Init(k, cr3, sections, start, end).value;
            var req := BootMaps(sections, start, end)[i];
            Walk(k'.mem, p4, req.page) == Some(req.Leaf())
  {
    var reqs := BootMaps(sections, start, end);
    assert AllLow(reqs);
    LowIsPlain(reqs[i].page);
    hide Init, Walk, Good, BootMaps, Recursive, AllLow;
    var own' := InitHasMaps(k, own, cr3, sections, start, end);
    RequestedIff(reqs, reqs[i].page);
  }

  /** After `init` these are the rights. */
  lemma InitRights(k: Kernel, own: Owners, cr3: Frame, sections: seq<Section>, start: nat, end: nat)
    requires Good(k, own) && Hierarchical(k.mem, own, cr3)
    ensures Init(k, cr3, sections, start, end).Ok? ==>
              var (k', p4) := Init(k, cr3, sections, start, end).value;
              RightsOk(k'.mem, p4, cr3, sections, start, end)
  {
    hide Init, Walk, Good, Recursive, SectionFrames, SectionMaps, MultibootFrames, FrameRange, IdentityMaps;
    if Init(k, cr3, sections, start, end).Ok? {
      var (k', p4) := Init(k, cr3, sections, start, end).value;
      var reqs, n := BootMaps(sections, start, end), |SectionMaps(sections)|;
      forall s, f: nat | 0 <= s < |sections| && sections[s].loaded && f != cr3
          && sections[s].start / 4096 <= f <= (sections[s].start + sections[s].size - 1) / 4096
        ensures Walk(k'.mem, p4, f) == Some(Request(f, f, SectionFlags(sections[s])).Leaf())
      {
        SectionHas(sections[s], f);
        var i := SectionRequest(sections, s, f);
        assert reqs[i] == Request(f, f, SectionFlags(sections[s]));
        RequestGranted(k, own, cr3, sections, start, end, i);
      }
      assert reqs[n] == Request(VGA_FRAME, VGA_FRAME, WRITABLE);
      if cr3 != 0xb8 {
        RequestGranted(k, own, cr3, sections, start, end, n);
      }
      forall f: nat | start / 4096 <= f <= (end - 1) / 4096 && f != cr3
        ensures Walk(k'.mem, p4, f) == Some(Request(f, f, PRESENT).Leaf())
      {
        var i := MultibootRequest(start, end, f);
        assert reqs[n + 1 + i] == Request(f, f, PRESENT);
        RequestGranted(k, own, cr3, sections, start, end, n + 1 + i);
      }
    }
  }

  lemma SectionHas(s: Section, f: nat)
    requires s.loaded && s.start / 4096 <= f <= (s.start + s.size - 1) / 4096
    ensures f in SectionFrames(s)
  {
    RangeHas(s.start / PAGE_SIZE, (s.start + s.size - 1) / PAGE_SIZE, f);
  }

  lemma MultibootRequest(start: nat, end: nat, f: nat) returns (i: nat)
    requires start / 4096 <= f <= (end - 1) / 4096
    ensures var maps := IdentityMaps(MultibootFrames(start, end), PRESENT);
            i < |maps| && maps[i] == Request(f, f, PRESENT)
  {
    i := f - start / 4096;
  }

  /** The frames of a section and of the multiboot structure are those that hold one of their
      addresses. */
  lemma CoveredHolds(s: Section, start: nat, end: nat, f: nat)
    ensures s.size >= 1 ==>
              (InSection(s, f) <==> s.loaded && exists x: nat :: s.start <= x <= s.start + s.size - 1 && InFrame(x, f))
    ensures start < end ==> (InMultiboot(start, end, f) <==> exists x: nat :: start <= x <= end - 1 && InFrame(x, f))
  {
    if s.size >= 1 {
      RangeHolds(s.start, s.start + s.size - 1, f);
    }
    if start < end {
      RangeHolds(start, end - 1, f);
    }
  }

  /** Once the new table is there, `init` panics on an allocated section that does not start at
      a page, and then on a frame beyond the low half of the addresses. */
  lemma InitChecks(k: Kernel, cr3: Frame, sections: seq<Section>, start: nat, end: nat)
    requires Prepare(k, cr3).Ok?
    ensures (exists i :: 0 <= i < |sections| && sections[i].loaded && sections[i].start % 4096 != 0) ==>
              Init(k, cr3, sections, start, end) == Panic(Unaligned)
    ensures (forall i :: 0 <= i < |sections| && sections[i].loaded ==> sections[i].start % 4096 == 0)
            && (exists f: nat :: Covered(sections, start, end, f) && f >= 0x8_0000_0000) ==>
              Init(k, cr3, sections, start, end) == Panic(NonCanonical)
  {
    hide Prepare, Finish, BootMaps, Covered;
    BootMapsLow(sections, start, end);
  }

  /** `init` succeeds when the sections, the VGA frame and the multiboot frames share no
      frame and are low, the old P4 table is among them, the temporary page is free and
      three frames are left for each call and each use of the temporary page. */
  lemma InitSucceeds(k: Kernel, own: Owners, cr3: Frame, sections: seq<Section>, start: nat, end: nat)
    requires Good(k, own) && Hierarchical(k.mem, own, cr3) && Walk(k.mem, cr3, 0xcafe_babe).None?
    requires SectionsAligned(sections) && RangesDisjoint(sections, start, end)
    requires forall f: nat :: Covered(sections, start, end, f) ==> f < 0x8_0000_0000
    requires Covered(sections, start, end, cr3)
    requires |k.free| >= 3 * |BootMaps(sections, start, end)| + 7
    ensures var r := Init(k, cr3, sections, start, end);
            r.Ok? && |r.value.0.free| >= |k.free| - 3 * |BootMaps(sections, start, end)| - 7
  {
    hide Prepare, Finish, BootMaps, RangesDisjoint, Covered, SectionsAligned;
    BootMapsDistinct(sections, start, end);
    var own1 := PrepareSucceeds(k, own, cr3);
    var (k1, p4) := Prepare(k, cr3).value;
    var reqs := BootMaps(sections, start, end);
    BootMapsCover(sections, start, end, cr3);
    FinishSucceeds(k1, own1, cr3, p4, reqs);
  }

  lemma PrepareSucceeds(k: Kernel, own: Owners, cr3: Frame) returns (own': Owners)
    requires Good(k, own) && Hierarchical(k.mem, own, cr3) && Walk(k.mem, cr3, TEMPORARY).None? && |k.free| >= 4
    ensures Prepare(k, cr3).Ok?
    ensures var (k', p4) := Prepare(k, cr3).value;
            && Good(k', own') && Hierarchical(k'.mem, own', cr3) && Hierarchical(k'.mem, own', p4)
            && p4 != cr3 && p4 < FRAME_LIMIT && (forall q: nat :: Plain(q) ==> Walk(k'.mem, p4, q) == None)
            && Walk(k'.mem, cr3, TEMPORARY).None? && |k'.free| >= |k.free| - 4
  {
    hide MapTo;
    var p4, k0 := k.free[0], k.(free := k.free[1..]);
    assert p4 !in k0.free;
    NewInactiveSucceeds(k0, own, cr3, TEMPORARY, p4);
    own' := NewInactiveEmpty(k0, own, cr3, TEMPORARY, p4);
    assert Walk(Prepare(k, cr3).value.0.mem, cr3, TEMPORARY) == Walk(k.mem, cr3, TEMPORARY);
  }

  lemma FinishSucceeds(k: Kernel, own: Owners, cr3: Frame, p4: Frame, reqs: seq<Request>)
    requires Good(k, own) && Hierarchical(k.mem, own, cr3) && Hierarchical(k.mem, own, p4) && p4 != cr3
    requires p4 < FRAME_LIMIT
    requires (forall q: nat :: Plain(q) ==> Walk(k.mem, p4, q) == None) && Walk(k.mem, cr3, TEMPORARY).None?
    requires AllLow(reqs) && DistinctPages(reqs) && Identity(reqs) && HasPage(reqs, cr3) && cr3 < LOW_HALF
    requires |k.free| >= 3 * |reqs| + 3
    ensures Finish(k, cr3, p4, reqs).Ok? && |Finish(k, cr3, p4, reqs).value.free| >= |k.free| - 3 * |reqs| - 3
  {
    hide MapTo;
    assert AllPlain(reqs);
    WithSucceeds(k, own, cr3, p4, TEMPORARY, reqs);
    GuardPageMapped(k, own, cr3, p4, reqs);
  }

  /** The old P4 frame is mapped by a P1 entry, so it can be unmapped. */
  lemma GuardPageMapped(k: Kernel, own: Owners, cr3: Frame, p4: Frame, reqs: seq<Request>)
    requires Good(k, own) && Hierarchical(k.mem, own, cr3) && Hierarchical(k.mem, own, p4) && cr3 != p4
    requires p4 < FRAME_LIMIT && AllPlain(reqs) && HasPage(reqs, cr3) && Plain(cr3)
    requires With(k, cr3, p4, TEMPORARY, reqs).Ok?
    ensures Unmap(With(k, cr3, p4, TEMPORARY, reqs).value, p4, cr3).Ok?
  {
    hide MapTo;
    var k' := With(k, cr3, p4, TEMPORARY, reqs).value;
    var own' := WithFaithful(k, own, cr3, p4, TEMPORARY, reqs);
    RequestedIff(reqs, cr3);
    assert Walk(k'.mem, p4, cr3).Some?;
    WithTables(k, own, cr3, p4, reqs, cr3);
    UnmapPoint(k', own', p4, cr3);
  }

  lemma WithTables(k: Kernel, own: Owners, cr3: Frame, p4: Frame, reqs: seq<Request>, page: nat)
    requires Good(k, own) && Hierarchical(k.mem, own, cr3) && Hierarchical(k.mem, own, p4) && cr3 != p4
    requires p4 < FRAME_LIMIT && AllPlain(reqs) && HasPage(reqs, page) && Plain(page)
    requires With(k, cr3, p4, TEMPORARY, reqs).Ok?
    ensures TableAt(With(k, cr3, p4, TEMPORARY, reqs).value.mem, PathOf(p4, page, 1)).Some?
  {
    hide MapTo;
    WithIsDetour(k, cr3, p4, TEMPORARY, reqs);
    var k2 := Enter(k, cr3, p4, TEMPORARY).value;
    var own1 := EnterMaps(k, own, cr3, p4, TEMPORARY);
    ClosureTables(k2, own1, cr3, p4, reqs, page);
  }

  lemma ClosureTables(k: Kernel, own: Owners, cr3: Frame, p4: Frame, reqs: seq<Request>, page: nat)
    requires Good(k, own) && cr3 in own && own[cr3].Top? && p4 in own && own[p4] == Top(p4)
    requires AllPlain(reqs) && HasPage(reqs, page) && Plain(page)
    requires MapAll(k, p4, reqs).Ok? && Leave(MapAll(k, p4, reqs).value, cr3, TEMPORARY).Ok?
    ensures TableAt(Leave(MapAll(k, p4, reqs).value, cr3, TEMPORARY).value.mem, PathOf(p4, page, 1)).Some?
  {
    hide MapTo;
    var k3 := MapAll(k, p4, reqs).value;
    var own' := MapAllTables(k, own, p4, reqs, page);
    LeaveKeepsLinks(k3, own', cr3, TEMPORARY);
    PathPlain(p4, page);
    TableAtKept(k3.mem, Leave(k3, cr3, TEMPORARY).value.mem, own', PathOf(p4, page, 1));
  }

  lemma LeaveKeepsLinks(k: Kernel, own: Owners, cr3: Frame, temp: nat)
    requires Good(k, own) && cr3 in own && own[cr3].Top? && Plain(temp) && Leave(k, cr3, temp).Ok?
    ensures LinksKept(k.mem, Leave(k, cr3, temp).value.mem, own)
  {
    SetRecursiveKeeps(k, own, cr3, cr3);
    UnmapKeepsLinks(SetRecursive(k, cr3, cr3).value, own, cr3, temp);
  }

  /** Every page a run mapped has a P1 table. */
  lemma {:induction false} MapAllTables(k: Kernel, own: Owners, root: Frame, reqs: seq<Request>, page: nat)
      returns (own': Owners)
    requires Good(k, own) && root in own && own[root].Top? && AllPlain(reqs) && HasPage(reqs, page) && Plain(page)
    requires MapAll(k, root, reqs).Ok?
    ensures var k' := MapAll(k, root, reqs).value;
            && Good(k', own') && Kept(own, own')
            && TableAt(k'.mem, PathOf(root, page, 1)).Some?
  {
    hide MapTo;
    var init, last := reqs[..|reqs| - 1], reqs[|reqs| - 1];
    var k1 := MapAll(k, root, init).value;
    if HasPage(init, page) {
      var own1 := MapAllTables(k, own, root, init, page);
      own' := MapToTables(k1, own1, root, last, page);
    } else {
      assert reqs == init + [last];
      HasPageAppend(init, [last], page);
      var own1 := MapAllGains(k, own, root, init);
      own' := MapToTables(k1, own1, root, last, page);
    }
  }

  lemma MapToTables(k: Kernel, own: Owners, root: Frame, req: Request, page: nat) returns (own': Owners)
    requires Good(k, own) && root in own && own[root].Top? && Plain(req.page) && Plain(page)
    requires TableAt(k.mem, PathOf(root, page, 1)).Some? || req.page == page
    requires MapTo(k, root, req.page, req.frame, req.flags).Ok?
    ensures var k' := MapTo(k, root, req.page, req.frame, req.flags).value;
            && Good(k', own') && Kept(own, own')
            && TableAt(k'.mem, PathOf(root, page, 1)).Some?
  {
    hide MapTo;
    own' := MapToPoint(k, own, root, req.page, req.frame, req.flags);
    if req.page != page {
      PathPlain(root, page);
      assert NodeOk(k.mem, own, root);
      TableAtKept(k.mem, MapTo(k, root, req.page, req.frame, req.flags).value.mem, own, PathOf(root, page, 1));
    }
  }

  /** The places of the three tables the assembly code sets up. */
  function BootOwners(p4: Frame, p3: Frame, p2: Frame): Owners {
    map[p4 := Top(p4), p3 := Child(Top(p4), 0), p2 := Child(Child(Top(p4), 0), 0)]
  }

  /** The boot tables are where `init` can start: they form a tree with a recursive slot,
      and the temporary page is free. */
  lemma BootReady(k: Kernel, p4: Frame, p3: Frame, p2: Frame)
    requires BootTables(k.mem, p4, p3, p2) && Supply(k, BootOwners(p4, p3, p2))
    ensures var own := BootOwners(p4, p3, p2);
            Good(k, own) && Hierarchical(k.mem, own, p4) && Walk(k.mem, p4, 0xcafe_babe).None?
  {
    var own := BootOwners(p4, p3, p2);
    BootTree(k.mem, p4, p3, p2);
    LowIsPlain(TEMPORARY);
    BootWalk(k.mem, p4, p3, p2, TEMPORARY);
    assert Index(TEMPORARY, 4) == 25;
  }

  lemma BootTree(m: Memory, p4: Frame, p3: Frame, p2: Frame)
    requires BootTables(m, p4, p3, p2)
    ensures Tree(m, BootOwners(p4, p3, p2))
  {
    var own := BootOwners(p4, p3, p2);
    forall f | f in own
      ensures NodeOk(m, own, f)
    {
    }
    forall f, i | f in own && 0 <= i < ENTRY_COUNT
      ensures SlotOk(m, own, f, i)
    {
      if f == p2 {
        assert m[p2][i] == Entry(i * 512, HUGE_FLAGS);
        assert i * 512 % Span(2) == 0;
      }
    }
  }
}
