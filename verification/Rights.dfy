/** What a translation allows: a right must be granted at every level of the walk. */
module Rights {
  import opened Outcomes
  import opened Entries
  import opened Pages
  import opened Hierarchy
  import opened Mapping
  import opened Detour

  datatype Access = Access(writable: bool, user: bool, executable: bool)

  function OwnAccess(f: Flags): Access { Access(f.writable, f.user, !f.noExecute) }

  function Both(a: Access, b: Access): Access {
    Access(a.writable && b.writable, a.user && b.user, a.executable && b.executable)
  }

  /** The access the MMU grants to `page` along the walk from the table of `level` in `f`. */
  function AccessFrom(m: Memory, f: Frame, level: nat, page: nat): Option<Access>
    requires 1 <= level <= 4
    decreases level
  {
    var e := Get(m, f, Index(page, level));
    if !e.Present() then None
    else if level == 1 || e.flags.huge then Some(OwnAccess(e.flags))
    else
      var below := AccessFrom(m, e.frame, level - 1, page);
      if below.None? then None else Some(Both(OwnAccess(e.flags), below.value))
  }

  /** Links grant writing and execution, so the last entry decides on these; ring 3 gets
      access through no link. This holds in the recursive window, too. */
  lemma {:induction false} LastEntryDecides(m: Memory, own: Owners, f: Frame, level: nat, page: nat)
    requires Tree(m, own) && SlotsToRoots(m, own) && f in own && 1 <= level <= Level(own[f])
    requires WalkFrom(m, f, level, page).Some?
    ensures AccessFrom(m, f, level, page).Some?
    ensures var a, flags := AccessFrom(m, f, level, page).value, WalkFrom(m, f, level, page).value.flags;
            && a.writable == flags.writable && a.executable == !flags.noExecute
            && (level > 1 && !Get(m, f, Index(page, level)).flags.huge ==> !a.user)
    decreases level
  {
    var e := Get(m, f, Index(page, level));
    assert NodeOk(m, own, f) && SlotOk(m, own, f, Index(page, level));
    if level > 1 && e.IsTable() {
      AnyStep(m, own, f, level, page);
      LastEntryDecides(m, own, e.frame, level - 1, page);
    }
  }

  /** `map_to` gives a page exactly the write and execute rights it was asked for, and
      never access from ring 3: USER_ACCESSIBLE on the page alone has no effect. */
  lemma MapToGrants(k: Kernel, own: Owners, root: Frame, page: nat, frame: Frame, flags: Flags)
    requires Good(k, own) && root in own && own[root].Top? && Plain(page)
    requires MapTo(k, root, page, frame, flags).Ok?
    ensures AccessFrom(MapTo(k, root, page, frame, flags).value.mem, root, 4, page)
            == Some(Access(flags.writable, false, !flags.noExecute))
  {
    hide MapTo, Walk, Supply;
    var k' := MapTo(k, root, page, frame, flags).value;
    var own' := MapToPoint(k, own, root, page, frame, flags);
    assert Walk(k'.mem, root, page) == Some(Entry(frame, flags.Or(PRESENT)));
    WalkIs(k'.mem, root, page);
    assert root in own' && own'[root].Top?;
    assert NodeOk(k'.mem, own', root) && SlotOk(k'.mem, own', root, Index(page, 4));
    LastEntryDecides(k'.mem, own', root, 4, page);
  }

  /** The temporary page is writable, so the writes through it do not fault either. */
  lemma TemporaryWritable(k: Kernel, own: Owners, cr3: Frame, temp: nat, frame: Frame)
    requires Good(k, own) && cr3 in own && own[cr3].Top? && Plain(temp) && MapTemporary(k, cr3, temp, frame).Ok?
    ensures AccessFrom(MapTemporary(k, cr3, temp, frame).value.mem, cr3, 4, temp) == Some(Access(true, false, true))
  {
    hide MapTo, Walk, Good;
    MapToGrants(k, own, cr3, temp, frame, WRITABLE);
  }

  /** Every table is writable at its recursive address, so the code's writes to tables do
      not fault although the write-protect bit is set. */
  lemma TablesWritable(m: Memory, own: Owners, cr3: Frame, n: Path)
    requires Tree(m, own) && SlotsToRoots(m, own) && cr3 in own && own[cr3] == Top(cr3)
    requires ValidPath(n) && PlainPath(n) && 1 <= Level(n) && TableAt(m, n).Some?
    requires RootOf(n) in own && own[RootOf(n)] == Top(RootOf(n)) && Recursive(m, cr3, RootOf(n))
    ensures var a := AccessFrom(m, cr3, 4, TableAddress(n) / PAGE_SIZE); a.Some? && a.value.writable
  {
    var page := TableAddress(n) / PAGE_SIZE;
    RecursiveAddress(m, cr3, n);
    LastEntryDecides(m, own, cr3, 4, page);
    if n.Top? {
      TopWindow(m, cr3, n.root, page);
    } else {
      WindowEntry(m, cr3, n.parent, n.index);
      TableAtOwner(m, own, n.parent);
      assert SlotOk(m, own, TableAt(m, n.parent).value, n.index);
    }
  }

  /** The P4 table itself is reached through its own recursive slot. */
  lemma TopWindow(m: Memory, cr3: Frame, root: Frame, page: nat)
    requires Recursive(m, cr3, root) && page == P4_ADDRESS / PAGE_SIZE
    ensures Walk(m, cr3, page) == Some(Get(m, root, RECURSIVE))
  {
    TableAddressInWindow(Top(root));
    assert Walk(m, cr3, page) == WalkFrom(m, root, 3, page);
    assert WalkFrom(m, root, 3, page) == WalkFrom(m, root, 2, page) == WalkFrom(m, root, 1, page);
  }
}
