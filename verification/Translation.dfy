/** `Mapper::translate_page`, which reads the tables through recursive addresses and
    tries a 4 KiB translation before it looks for a huge page. */
module Translation {
  import opened Outcomes
  import opened Entries
  import opened Pages
  import opened Hierarchy

  /** Entry `index` of the table at a virtual address. */
  function Load(m: Memory, cr3: Frame, table: nat, index: nat): Result<Entry>
    requires index < ENTRY_COUNT
  {
    var f := Walk(m, cr3, table / PAGE_SIZE);
    if f.None? then Panic(PageFault) else Ok(Get(m, f.value.frame, index))
  }

  /** `next_table`: the address of the next table, if there is one. */
  function NextTable(m: Memory, cr3: Frame, table: nat, index: nat): Result<Option<nat>>
    requires index < ENTRY_COUNT
  {
    var e :- Load(m, cr3, table, index);
    Ok(if e.IsTable() then Some(NextAddress(table, index)) else None)
  }

  /** The chain of `next_table` calls and the P1 entry. */
  function SmallPage(m: Memory, cr3: Frame, p3: nat, page: nat): Result<Option<Frame>> {
    var p2 :- NextTable(m, cr3, p3, Index(page, 3));
    if p2.None? then Ok(None) else
    var p1 :- NextTable(m, cr3, p2.value, Index(page, 2));
    if p1.None? then Ok(None) else
    var e :- Load(m, cr3, p1.value, Index(page, 1));
    Ok(if e.Present() then Some(e.frame) else None)
  }

  /** The frame of a page inside the huge page that an entry maps. */
  function InHuge(e: Entry, level: nat, offset: nat): Result<Option<Frame>> {
    if e.frame % Span(level) != 0 then Panic(MisalignedHuge) else Ok(Some(e.frame + offset))
  }

  /** The `huge_page` closure: a 1 GiB entry in the P3 table, or a 2 MiB entry in a P2 table. */
  function LargePage(m: Memory, cr3: Frame, p3: nat, page: nat): Result<Option<Frame>> {
    var e3 :- Load(m, cr3, p3, Index(page, 3));
    if e3.Present() && e3.flags.huge then
      InHuge(e3, 3, Index(page, 2) * ENTRY_COUNT + Index(page, 1))
    else
      var p2 :- NextTable(m, cr3, p3, Index(page, 3));
      if p2.None? then Ok(None) else
      var e2 :- Load(m, cr3, p2.value, Index(page, 2));
      if e2.Present() && e2.flags.huge then InHuge(e2, 2, Index(page, 1)) else Ok(None)
  }

  function TranslatePage(m: Memory, cr3: Frame, page: nat): Result<Option<Frame>> {
    var p3 :- NextTable(m, cr3, P4_ADDRESS, Index(page, 4));
    if p3.None? then Ok(None) else
    var small :- SmallPage(m, cr3, p3.value, page);
    if small.Some? then Ok(small) else LargePage(m, cr3, p3.value, page)
  }

  /** `Mapper::translate`. */
  function Translate(m: Memory, cr3: Frame, address: nat): Result<Option<nat>>
    requires address < ADDRESS_LIMIT
  {
    var page :- ContainingAddress(address);
    var frame :- TranslatePage(m, cr3, page);
    Ok(if frame.None? then None else Some(frame.value * PAGE_SIZE + address % PAGE_SIZE))
  }

  /** The walk for `page` ends at a huge entry whose frame is not aligned. */
  predicate Misaligned(m: Memory, f: Frame, level: nat, page: nat)
    requires 1 <= level <= 4
    decreases level
  {
    var e := Get(m, f, Index(page, level));
    && level > 1 && e.Present()
    && if e.flags.huge then level < 4 && e.frame % Span(level) != 0
       else Misaligned(m, e.frame, level - 1, page)
  }

  /** A table whose path is `n` is read at its recursive address. */
  lemma LoadAt(m: Memory, cr3: Frame, n: Path, index: nat)
    requires ValidPath(n) && 1 <= Level(n) && index < ENTRY_COUNT
    requires Recursive(m, cr3, RootOf(n)) && TableAt(m, n).Some?
    ensures Load(m, cr3, TableAddress(n), index) == Ok(Get(m, TableAt(m, n).value, index))
  {
    RecursiveAddress(m, cr3, n);
  }

  lemma NextTableAt(m: Memory, cr3: Frame, n: Path, index: nat)
    requires ValidPath(n) && 2 <= Level(n) && index < ENTRY_COUNT
    requires Recursive(m, cr3, RootOf(n)) && TableAt(m, n).Some?
    ensures NextTable(m, cr3, TableAddress(n), index) ==
            Ok(if TableAt(m, Child(n, index)).Some? then Some(TableAddress(Child(n, index))) else None)
  {
    LoadAt(m, cr3, n, index);
  }

  /** On every hierarchy, mixing 4 KiB, 2 MiB and 1 GiB pages in any way, the code's
      translation is the MMU's, through the recursive addresses and without a page
      fault; it panics exactly where the MMU meets a misaligned huge frame. */
  lemma TranslateIsWalk(m: Memory, cr3: Frame, root: Frame, page: nat)
    requires Recursive(m, cr3, root)
    ensures TranslatePage(m, cr3, page) ==
            if Misaligned(m, root, 4, page) then Panic(MisalignedHuge) else Ok(FrameOf(Walk(m, root, page)))
  {
    var n3 := PathOf(root, page, 3);
    NextTableAt(m, cr3, Top(root), Index(page, 4));
    if TableAt(m, n3).Some? {
      TranslateFromP3(m, cr3, root, page);
    }
  }

  /** `translate` maps each byte of a canonical address to the same byte of the frame that
      the MMU finds for its page. */
  lemma TranslateAddress(m: Memory, cr3: Frame, root: Frame, address: nat)
    requires Recursive(m, cr3, root) && address < ADDRESS_LIMIT
    ensures var page := address / PAGE_SIZE;
            if !Canonical(page) then Translate(m, cr3, address) == Panic(NonCanonical)
            else if Misaligned(m, root, 4, page) then Translate(m, cr3, address) == Panic(MisalignedHuge)
            else var frame := FrameOf(Walk(m, root, page));
              Translate(m, cr3, address) ==
              Ok(if frame.None? then None else Some(frame.value * PAGE_SIZE + address % PAGE_SIZE))
  {
    hide TranslatePage, Walk;
    TranslateIsWalk(m, cr3, root, address / PAGE_SIZE);
  }

  lemma TranslateFromP3(m: Memory, cr3: Frame, root: Frame, page: nat)
    requires Recursive(m, cr3, root) && TableAt(m, PathOf(root, page, 3)).Some?
    ensures var n3 := PathOf(root, page, 3);
            var f3, p3 := TableAt(m, n3).value, TableAddress(n3);
            var small := SmallPage(m, cr3, p3, page);
            && small.Ok?
            && (if small.value.Some? then small else LargePage(m, cr3, p3, page)) ==
               if Misaligned(m, f3, 3, page) then Panic(MisalignedHuge) else Ok(FrameOf(WalkFrom(m, f3, 3, page)))
  {
    hide Load, TableAddress, Recursive;
    var n3, n2 := PathOf(root, page, 3), PathOf(root, page, 2);
    LoadAt(m, cr3, n3, Index(page, 3));
    NextTableAt(m, cr3, n3, Index(page, 3));
    assert n2 == Child(n3, Index(page, 3));
    OffsetInSpan(page);
    if TableAt(m, n2).Some? {
      TranslateFromP2(m, cr3, root, page);
    }
  }

  lemma OffsetInSpan(page: nat)
    ensures page % Span(3) == Index(page, 2) * ENTRY_COUNT + Index(page, 1)
    ensures page % Span(2) == Index(page, 1)
  {
    var q, i2, i1 := page / 512 / 512, page / 512 % 512, page % 512;
    assert page == q * 0x4_0000 + (i2 * 512 + i1);
    Remainder(page, q, i2 * 512 + i1);
  }

  lemma Remainder(x: nat, q: nat, r: nat)
    requires x == q * 0x4_0000 + r && r < 0x4_0000
    ensures x % 0x4_0000 == r
  {
  }

  lemma TranslateFromP2(m: Memory, cr3: Frame, root: Frame, page: nat)
    requires Recursive(m, cr3, root) && TableAt(m, PathOf(root, page, 2)).Some?
    ensures var n2 := PathOf(root, page, 2);
            var f2, p2 := TableAt(m, n2).value, TableAddress(n2);
            var e2, p1 := Load(m, cr3, p2, Index(page, 2)), NextTable(m, cr3, p2, Index(page, 2));
            && e2 == Ok(Get(m, f2, Index(page, 2)))
            && p1.Ok?
            && if p1.value.Some?
               then Load(m, cr3, p1.value.value, Index(page, 1)) == Ok(Get(m, e2.value.frame, Index(page, 1)))
                   && e2.value.IsTable()
               else !e2.value.IsTable()
  {
    var n2, n1 := PathOf(root, page, 2), PathOf(root, page, 1);
    LoadAt(m, cr3, n2, Index(page, 2));
    NextTableAt(m, cr3, n2, Index(page, 2));
    if TableAt(m, n1).Some? {
      LoadAt(m, cr3, n1, Index(page, 1));
    }
  }

  /** The tables set up before the kernel starts: one P3 and one P2 table, whose 512
      entries map 2 MiB pages. */
  predicate BootTables(m: Memory, p4: Frame, p3: Frame, p2: Frame) {
    && p4 != p3 && p3 != p2 && p2 != p4
    && p4 in m && p3 in m && p2 in m
    && m[p4][0] == TableEntry(p3) && m[p4][RECURSIVE] == TableEntry(p4)
    && (forall i :: 0 < i < RECURSIVE ==> m[p4][i] == UNUSED)
    && m[p3][0] == TableEntry(p2)
    && (forall i :: 0 < i < ENTRY_COUNT ==> m[p3][i] == UNUSED)
    && (forall i :: 0 <= i < ENTRY_COUNT ==> m[p2][i] == Entry(i * 512, HUGE_FLAGS))
  }

  /** On the boot tables the code translates the first GiB to itself and, outside the
      recursive window, nothing else. */
  lemma BootIdentity(m: Memory, p4: Frame, p3: Frame, p2: Frame, page: nat)
    requires BootTables(m, p4, p3, p2) && Plain(page)
    ensures TranslatePage(m, p4, page) == Ok(if page < 0x4_0000 then Some(page) else None)
  {
    TranslateIsWalk(m, p4, p4, page);
    FirstGiB(page);
    BootWalk(m, p4, p3, p2, page);
  }

  lemma FirstGiB(page: nat)
    requires Canonical(page)
    ensures page < 0x4_0000 <==> Index(page, 4) == 0 && Index(page, 3) == 0
    ensures page < 0x4_0000 ==> page == Index(page, 2) * 512 + page % 512
  {
    LowIndices(page);
    SignExtended(page);
  }

  lemma BootWalk(m: Memory, p4: Frame, p3: Frame, p2: Frame, page: nat)
    requires BootTables(m, p4, p3, p2) && Plain(page)
    ensures !Misaligned(m, p4, 4, page)
    ensures Walk(m, p4, page) ==
            if Index(page, 4) == 0 && Index(page, 3) == 0
            then Some(Entry(Index(page, 2) * 512 + page % 512, HUGE_FLAGS)) else None
  {
    if Index(page, 4) == 0 {
      assert Walk(m, p4, page) == WalkFrom(m, p3, 3, page);
      assert Misaligned(m, p4, 4, page) == Misaligned(m, p3, 3, page);
      if Index(page, 3) == 0 {
        assert Get(m, p2, Index(page, 2)) == Entry(Index(page, 2) * 512, HUGE_FLAGS);
        assert WalkFrom(m, p3, 3, page) == WalkFrom(m, p2, 2, page);
        assert Misaligned(m, p3, 3, page) == Misaligned(m, p2, 2, page);
        assert Index(page, 2) * 512 % Span(2) == 0;
      }
    }
  }
}
