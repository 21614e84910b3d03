/** Physical memory holding page tables, and the walk the MMU does over it
    (4-level paging, section 4.5 of the Intel SDM volume 3A). */
module Hierarchy {
  import opened Outcomes
  import opened Entries
  import opened Pages

  type Table = t: seq<Entry> | |t| == ENTRY_COUNT witness seq(512, _ => UNUSED)

  /** What each frame of RAM holds, read as a table. */
  type Memory = map<Frame, Table>

  /** A zeroed table. */
  function EmptyTable(): (t: Table)
    ensures forall i :: 0 <= i < ENTRY_COUNT ==> t[i] == UNUSED
  {
    seq(512, _ => UNUSED)
  }

  function Get(m: Memory, f: Frame, i: nat): Entry
    requires i < ENTRY_COUNT
  {
    if f in m then m[f][i] else UNUSED
  }

  function Put(m: Memory, f: Frame, i: nat, e: Entry): Memory
    requires f in m && i < ENTRY_COUNT
  {
    m[f := m[f][i := e]]
  }

  /** Pages covered by one entry of a level-2 or level-3 table. */
  function Span(level: nat): nat { if level == 3 then 0x4_0000 else 512 }

  /** The MMU's walk for `page` from the table of `level` in frame `f`: the frame it ends
      at with the flags of the last entry. None is a page fault, which includes a reserved
      huge bit at level 4 and a misaligned huge frame. */
  function WalkFrom(m: Memory, f: Frame, level: nat, page: nat): Option<Entry>
    requires 1 <= level <= 4
    decreases level
  {
    var e := Get(m, f, Index(page, level));
    if !e.Present() then None
    else if level == 1 then Some(e)
    else if !e.flags.huge then WalkFrom(m, e.frame, level - 1, page)
    else if level == 4 || e.frame % Span(level) != 0 then None
    else Some(Entry(e.frame + page % Span(level), e.flags))
  }

  function Walk(m: Memory, root: Frame, page: nat): Option<Entry> { WalkFrom(m, root, 4, page) }

  lemma WalkIs(m: Memory, root: Frame, page: nat)
    ensures Walk(m, root, page) == WalkFrom(m, root, 4, page)
  {
  }

  /** The frame of a translation. */
  function FrameOf(t: Option<Entry>): Option<Frame> { if t.None? then None else Some(t.value.frame) }

  /** The frame of the table at a path: what `next_table` finds step by step. */
  function TableAt(m: Memory, n: Path): Option<Frame>
    requires ValidPath(n)
  {
    match n
    case Top(r) => Some(r)
    case Child(p, i) =>
      var t := TableAt(m, p);
      if t.None? || !Get(m, t.value, i).IsTable() then None else Some(Get(m, t.value, i).frame)
  }

  /** The recursive slot of the active P4 table leads to `root`, and that of `root` to
      itself. Outside of `with`, `root` is the active P4 table. */
  predicate Recursive(m: Memory, cr3: Frame, root: Frame) {
    && Get(m, cr3, RECURSIVE).IsTable() && Get(m, cr3, RECURSIVE).frame == root
    && Get(m, root, RECURSIVE).IsTable() && Get(m, root, RECURSIVE).frame == root
  }

  /** Where the last entry of a walk leads. */
  function Target(e: Entry): Option<Entry> { if e.Present() then Some(e) else None }

  /** The page at which the table below entry `i` of the table at `n` is reached is
      translated by that entry. */
  lemma WindowEntry(m: Memory, cr3: Frame, n: Path, i: nat)
    requires ValidPath(n) && 2 <= Level(n) && i < ENTRY_COUNT
    requires Recursive(m, cr3, RootOf(n)) && TableAt(m, n).Some?
    ensures InWindow(Child(n, i))
    ensures Walk(m, cr3, TableAddress(Child(n, i)) / PAGE_SIZE) == Target(Get(m, TableAt(m, n).value, i))
  {
    TableAddressInWindow(Child(n, i));
    var page := TableAddress(Child(n, i)) / PAGE_SIZE;
    var root := RootOf(n);
    assert Walk(m, cr3, page) == WalkFrom(m, root, 3, page);
    if n.Top? {
      assert WalkFrom(m, root, 3, page) == WalkFrom(m, root, 2, page) == WalkFrom(m, root, 1, page);
    } else if n.parent.Top? {
      assert WalkFrom(m, root, 3, page) == WalkFrom(m, root, 2, page);
      assert TableAt(m, n.parent) == Some(root);
      assert WalkFrom(m, root, 2, page) == WalkFrom(m, TableAt(m, n).value, 1, page);
    } else {
      ThreeUp(Child(n, i));
      assert TableAt(m, n.parent).Some? && TableAt(m, n.parent.parent) == Some(root);
      assert WalkFrom(m, root, 3, page) == WalkFrom(m, TableAt(m, n.parent).value, 2, page);
      assert WalkFrom(m, TableAt(m, n.parent).value, 2, page) == WalkFrom(m, TableAt(m, n).value, 1, page);
    }
  }

  /** The recursive addresses refine the walk: at every path, the address that shifting
      and or-ing yields is canonical and the MMU sends it to the frame that the parent's
      entry holds, also while the recursive slot leads to an inactive P4 table. */
  lemma RecursiveAddress(m: Memory, cr3: Frame, n: Path)
    requires ValidPath(n) && 1 <= Level(n)
    requires Recursive(m, cr3, RootOf(n)) && TableAt(m, n).Some?
    ensures TableAddress(n) < ADDRESS_LIMIT && TableAddress(n) % PAGE_SIZE == 0
    ensures Canonical(TableAddress(n) / PAGE_SIZE)
    ensures FrameOf(Walk(m, cr3, TableAddress(n) / PAGE_SIZE)) == TableAt(m, n)
  {
    TableAddressInWindow(n);
    if n.Top? {
      var page := TableAddress(n) / PAGE_SIZE;
      assert Walk(m, cr3, page) == WalkFrom(m, n.root, 3, page);
      assert WalkFrom(m, n.root, 3, page) == WalkFrom(m, n.root, 2, page) == WalkFrom(m, n.root, 1, page);
    } else {
      WindowEntry(m, cr3, n.parent, n.index);
    }
  }

  lemma ThreeUp(n: Path)
    requires 1 <= Level(n) && n.Child? && n.parent.Child? && n.parent.parent.Child?
    ensures n.parent.parent.parent == Top(RootOf(n))
  {
    var p3 := n.parent.parent;
    assert Level(n) == Level(n.parent) - 1 && Level(n.parent) == Level(p3) - 1;
    assert Level(p3) == Level(p3.parent) - 1;
    assert RootOf(n) == RootOf(n.parent) == RootOf(p3) == RootOf(p3.parent);
  }

  /** Which frames hold tables, and where in which hierarchy each one hangs. */
  type Owners = map<Frame, Path>

  /** Entry `i` of the table in `f` is unused or present; unless it is the recursive
      slot, it maps a frame, or leads to the one table whose place is below it. */
  predicate SlotOk(m: Memory, own: Owners, f: Frame, i: nat)
    requires f in own && i < ENTRY_COUNT
  {
    var e, level := Get(m, f, i), Level(own[f]);
    || e == UNUSED
    || (&& e.Present()
        && (level > 1 && !(level == 4 && i == RECURSIVE) ==>
              if e.flags.huge then level < 4 && e.frame % Span(level) == 0
              else LinkFlags(e.flags) && e.frame in own && own[e.frame] == Child(own[f], i)))
  }

  predicate NodeOk(m: Memory, own: Owners, f: Frame)
    requires f in own
  {
    && f in m && ValidPath(own[f]) && 1 <= Level(own[f])
    && (own[f].Top? ==> own[f].root == f)
    && (Level(own[f]) == 3 ==> own[f].index != RECURSIVE)
  }

  /** The tables form trees, apart from the recursive slots: since every table has one
      place, no table is reached in two ways, and two P4 tables share none. */
  ghost predicate Tree(m: Memory, own: Owners) {
    && (forall f {:trigger NodeOk(m, own, f)} :: f in own ==> NodeOk(m, own, f))
    && (forall f, i {:trigger SlotOk(m, own, f, i)} :: f in own && 0 <= i < ENTRY_COUNT ==> SlotOk(m, own, f, i))
  }

  /** A P4 table of `own` whose recursive slot leads back to itself. */
  predicate Hierarchical(m: Memory, own: Owners, root: Frame) {
    root in own && own[root] == Top(root) && Recursive(m, root, root)
  }

  /** A page outside the recursive window. */
  predicate Plain(page: nat) { Canonical(page) && Index(page, 4) != RECURSIVE }

  /** A walk outside the window moves along the places of the tree. */
  lemma StepDown(m: Memory, own: Owners, f: Frame, level: nat, page: nat)
    requires Tree(m, own) && f in own && 2 <= level <= 4
    requires own[f] == PathOf(RootOf(own[f]), page, level) && Plain(page)
    ensures var e := Get(m, f, Index(page, level));
            e.IsTable() ==> e.frame in own && own[e.frame] == PathOf(RootOf(own[f]), page, level - 1)
  {
    assert SlotOk(m, own, f, Index(page, level));
  }

  /** `m'` has the same tables as `m` except for entry `j` of table `g`. */
  ghost predicate SameExcept(m: Memory, m': Memory, own: Owners, g: Frame, j: nat) {
    forall f, i {:trigger Get(m', f, i)} :: f in own && 0 <= i < ENTRY_COUNT && !(f == g && i == j) ==>
        Get(m', f, i) == Get(m, f, i)
  }

  /** A changed entry is seen only by the walks that pass through its place. */
  lemma {:induction false} WalkOff(m: Memory, m': Memory, own: Owners, g: Frame, j: nat, f: Frame, level: nat,
      page: nat)
    requires Tree(m, own) && SameExcept(m, m', own, g, j) && g in own && 1 <= Level(own[g])
    requires f in own && 1 <= level <= 4 && Plain(page)
    requires own[f] == PathOf(RootOf(own[f]), page, level)
    requires !(own[g] == PathOf(RootOf(own[f]), page, Level(own[g])) && j == Index(page, Level(own[g])))
    ensures WalkFrom(m', f, level, page) == WalkFrom(m, f, level, page)
    decreases level
  {
    assert NodeOk(m, own, g);
    if level > 1 {
      var e := Get(m, f, Index(page, level));
      StepDown(m, own, f, level, page);
      if e.IsTable() {
        WalkOff(m, m', own, g, j, e.frame, level - 1, page);
      }
    }
  }

  /** Linking an empty table in place of an absent entry changes no walk. */
  lemma {:induction false} WalkLink(m: Memory, m': Memory, own: Owners, g: Frame, j: nat, t: Frame, f: Frame,
      level: nat, page: nat)
    requires Tree(m, own) && SameExcept(m, m', own, g, j) && g in own && Level(own[g]) > 1
    requires j < ENTRY_COUNT && !Get(m, g, j).Present() && Get(m', g, j) == TableEntry(t)
    requires forall i :: 0 <= i < ENTRY_COUNT ==> Get(m', t, i) == UNUSED
    requires f in own && 1 <= level <= 4 && Plain(page)
    requires own[f] == PathOf(RootOf(own[f]), page, level)
    ensures WalkFrom(m', f, level, page) == WalkFrom(m, f, level, page)
    decreases level
  {
    if level > 1 {
      var i := Index(page, level);
      StepDown(m, own, f, level, page);
      if f == g && i == j {
        assert WalkFrom(m', t, level - 1, page) == None;
      } else if Get(m, f, i).IsTable() {
        WalkLink(m, m', own, g, j, t, Get(m, f, i).frame, level - 1, page);
      }
    }
  }

  /** Present entries of tables are kept. */
  ghost predicate Extends(m: Memory, m': Memory, own: Owners) {
    forall f, i {:trigger Get(m', f, i)} :: f in own && 0 <= i < ENTRY_COUNT && Get(m, f, i).Present() ==>
        Get(m', f, i) == Get(m, f, i)
  }

  /** Slot 511 of every P4 table is unused or leads to a P4 table. */
  ghost predicate SlotsToRoots(m: Memory, own: Owners) {
    forall r :: r in own && own[r].Top? && Get(m, r, RECURSIVE).Present() ==>
      var e := Get(m, r, RECURSIVE); e.IsTable() && LinkFlags(e.flags) && e.frame in own && own[e.frame].Top?
  }

  /** Table walks, the recursive window included, never leave the tables. */
  lemma AnyStep(m: Memory, own: Owners, f: Frame, level: nat, page: nat)
    requires Tree(m, own) && SlotsToRoots(m, own) && f in own && 2 <= level <= Level(own[f])
    ensures var e := Get(m, f, Index(page, level));
            e.IsTable() ==> e.frame in own && level - 1 <= Level(own[e.frame])
  {
    assert SlotOk(m, own, f, Index(page, level));
    assert NodeOk(m, own, f);
  }

  /** Whatever was translated, in the window or outside of it, still is, and the same. */
  lemma {:induction false} WalkExtends(m: Memory, m': Memory, own: Owners, f: Frame, level: nat, page: nat)
    requires Tree(m, own) && SlotsToRoots(m, own) && Extends(m, m', own)
    requires f in own && 1 <= level <= Level(own[f])
    ensures WalkFrom(m, f, level, page).Some? ==> WalkFrom(m', f, level, page) == WalkFrom(m, f, level, page)
    decreases level
  {
    if level > 1 {
      var e := Get(m, f, Index(page, level));
      AnyStep(m, own, f, level, page);
      if e.IsTable() {
        WalkExtends(m, m', own, e.frame, level - 1, page);
      }
    }
  }

  /** The walk to a page's P1 table, if it has one, decides the translation. */
  lemma WalkToLeaf(m: Memory, root: Frame, page: nat)
    requires TableAt(m, PathOf(root, page, 1)).Some?
    ensures Walk(m, root, page) == WalkFrom(m, TableAt(m, PathOf(root, page, 1)).value, 1, page)
  {
    var n3, n2, n1 := PathOf(root, page, 3), PathOf(root, page, 2), PathOf(root, page, 1);
    assert n1.parent == n2 && n2.parent == n3 && n3.parent == Top(root);
    assert TableAt(m, n2).Some? && TableAt(m, n3).Some? && TableAt(m, n3.parent) == Some(root);
    assert n3.index == Index(page, 4);
    var f3, f2 := TableAt(m, n3).value, TableAt(m, n2).value;
    assert Walk(m, root, page) == WalkFrom(m, f3, 3, page);
    assert WalkFrom(m, f3, 3, page) == WalkFrom(m, f2, 2, page);
  }

  /** The table found at a path is the one whose place the path is. */
  lemma {:induction false} TableAtOwner(m: Memory, own: Owners, n: Path)
    requires Tree(m, own) && ValidPath(n) && TableAt(m, n).Some? && 1 <= Level(n)
    requires RootOf(n) in own && own[RootOf(n)] == Top(RootOf(n)) && PlainPath(n)
    ensures TableAt(m, n).value in own && own[TableAt(m, n).value] == n
  {
    if n.Child? {
      TableAtOwner(m, own, n.parent);
      assert SlotOk(m, own, TableAt(m, n.parent).value, n.index);
    }
  }

  /** The path does not go through the recursive slot. */
  predicate PlainPath(n: Path) {
    n.Child? ==> PlainPath(n.parent) && (n.parent.Top? ==> n.index != RECURSIVE)
  }
}
