/** What the translation lookaside buffer may hold, when hardware is free to cache any
    current translation at any moment. */
module Tlb {
  import opened Outcomes
  import opened Entries
  import opened Pages
  import opened Hierarchy
  import opened Mapping

  /** Cached translations, by page. */
  type Cache = map<nat, Entry>

  /** No cached entry disagrees with the walk from `cr3`. */
  ghost predicate Coherent(m: Memory, cr3: Frame, tlb: Cache) {
    forall p {:trigger tlb[p]} {:trigger p in tlb} :: p in tlb ==> Canonical(p) && Walk(m, cr3, p) == Some(tlb[p])
  }

  /** Setting entries that were not present keeps every cached translation right, also
      those of the recursive window: no flush is needed after `map_to`. */
  lemma ExtendsCoherent(m: Memory, m': Memory, own: Owners, cr3: Frame, tlb: Cache)
    requires Tree(m, own) && SlotsToRoots(m, own) && Extends(m, m', own) && cr3 in own && own[cr3].Top?
    requires Coherent(m, cr3, tlb)
    ensures Coherent(m', cr3, tlb)
  {
    forall p | p in tlb
      ensures Walk(m', cr3, p) == Some(tlb[p])
    {
      WalkExtends(m, m', own, cr3, 4, p);
    }
  }

  /** The first step of any walk inside the window. */
  lemma WindowStep(m: Memory, cr3: Frame, root: Frame, page: nat)
    requires Recursive(m, cr3, root) && Index(page, 4) == RECURSIVE
    ensures Walk(m, cr3, page) == WalkFrom(m, root, 3, page)
  {
  }

  /** An entry that no walk from `cr3` reads for any page other than `but`: it is in a P1
      table of another hierarchy, or is the P1 entry of `but`. */
  predicate Spared(own: Owners, cr3: Frame, but: Option<nat>, g: Frame, i: nat)
    requires g in own
  {
    && Level(own[g]) == 1
    && (RootOf(own[g]) != cr3 || (but.Some? && own[g] == PathOf(cr3, but.value, 1) && i == Index(but.value, 1)))
  }

  /** Whatever is present in the tables of `own` is as in `goal`, or spared. */
  ghost predicate Heading(m: Memory, goal: Memory, own: Owners, cr3: Frame, but: Option<nat>) {
    forall g, i {:trigger Get(m, g, i)} ::
      (g in own && 0 <= i < ENTRY_COUNT && Get(m, g, i).Present() && !Spared(own, cr3, but, g, i)) ==>
        Get(m, g, i) == Get(goal, g, i)
  }

  /** No cached entry, that of `but` aside, disagrees with the walk over `goal`. */
  ghost predicate Settled(goal: Memory, cr3: Frame, tlb: Cache, but: Option<nat>) {
    forall p {:trigger tlb[p]} {:trigger p in tlb} :: p in tlb ==>
      Canonical(p) && (but == Some(p) || Walk(goal, cr3, p) == Some(tlb[p]))
  }

  lemma NothingAside(m: Memory, cr3: Frame, tlb: Cache)
    requires Settled(m, cr3, tlb, None)
    ensures Coherent(m, cr3, tlb)
  {
  }

  /** A store keeps the course if it clears an entry, sets what `goal` has there, or is not
      in a table. */
  lemma StoreHeads(m: Memory, goal: Memory, own: Owners, cr3: Frame, but: Option<nat>, f: Frame, i: nat, e: Entry)
    requires Heading(m, goal, own, cr3, but) && f in m && i < ENTRY_COUNT
    requires f in own && e.Present() ==> e == Get(goal, f, i)
    ensures Heading(Put(m, f, i, e), goal, own, cr3, but)
  {
    forall g, j | g in own && 0 <= j < ENTRY_COUNT && Get(Put(m, f, i, e), g, j).Present()
        && !Spared(own, cr3, but, g, j)
      ensures Get(Put(m, f, i, e), g, j) == Get(goal, g, j)
    {
      assert !(g == f && j == i) ==> Get(Put(m, f, i, e), g, j) == Get(m, g, j);
    }
  }

  /** On course, what a walk outside the window finds for another page than `but` is what
      it will find in `goal`. */
  lemma {:induction false} PlainHeads(m: Memory, goal: Memory, own: Owners, cr3: Frame, but: Option<nat>,
      f: Frame, level: nat, page: nat)
    requires Tree(goal, own) && Heading(m, goal, own, cr3, but) && (but.Some? ==> Plain(but.value))
    requires f in own && 1 <= level <= 4 && own[f] == PathOf(cr3, page, level) && Plain(page) && but != Some(page)
    ensures WalkFrom(m, f, level, page).Some? ==> WalkFrom(goal, f, level, page) == WalkFrom(m, f, level, page)
    decreases level
  {
    var i := Index(page, level);
    if Spared(own, cr3, but, f, i) {
      PathInjective(cr3, but.value, cr3, page);
    } else if level > 1 && Get(m, f, i).IsTable() {
      StepDown(goal, own, f, level, page);
      PlainHeads(m, goal, own, cr3, but, Get(m, f, i).frame, level - 1, page);
    }
  }

  /** The same for a walk that entered the window: it never reads a P1 table. */
  lemma {:induction false} WindowHeads(m: Memory, goal: Memory, own: Owners, cr3: Frame, but: Option<nat>,
      f: Frame, level: nat, page: nat)
    requires Tree(goal, own) && SlotsToRoots(goal, own) && Heading(m, goal, own, cr3, but)
    requires f in own && 1 <= level < Level(own[f])
    ensures WalkFrom(m, f, level, page).Some? ==> WalkFrom(goal, f, level, page) == WalkFrom(m, f, level, page)
    decreases level
  {
    var i := Index(page, level);
    if level > 1 && Get(m, f, i).IsTable() {
      assert SlotOk(goal, own, f, i) && NodeOk(goal, own, f);
      WindowHeads(m, goal, own, cr3, but, Get(m, f, i).frame, level - 1, page);
    }
  }

  /** On course, whatever hardware may cache now is right in the end, `but` aside. */
  lemma WalkHeads(m: Memory, goal: Memory, own: Owners, cr3: Frame, but: Option<nat>, page: nat)
    requires Tree(goal, own) && SlotsToRoots(goal, own) && Heading(m, goal, own, cr3, but)
    requires cr3 in own && own[cr3] == Top(cr3) && (but.Some? ==> Plain(but.value))
    requires Canonical(page) && but != Some(page)
    ensures Walk(m, cr3, page).Some? ==> Walk(goal, cr3, page) == Walk(m, cr3, page)
  {
    if Index(page, 4) != RECURSIVE {
      PlainHeads(m, goal, own, cr3, but, cr3, 4, page);
    } else if Get(m, cr3, RECURSIVE).IsTable() {
      assert Get(goal, cr3, RECURSIVE) == Get(m, cr3, RECURSIVE);
      WindowHeads(m, goal, own, cr3, but, Get(m, cr3, RECURSIVE).frame, 3, page);
    }
  }

  /** A cache that was right stays so on a course, `but` aside. */
  lemma CoherentSettles(m: Memory, goal: Memory, own: Owners, cr3: Frame, but: Option<nat>, tlb: Cache)
    requires Tree(goal, own) && SlotsToRoots(goal, own) && Heading(m, goal, own, cr3, but)
    requires cr3 in own && own[cr3] == Top(cr3) && (but.Some? ==> Plain(but.value)) && Coherent(m, cr3, tlb)
    ensures Settled(goal, cr3, tlb, but)
  {
    hide Walk, Heading;
    forall p | p in tlb && but != Some(p)
      ensures Walk(goal, cr3, p) == Some(tlb[p])
    {
      WalkHeads(m, goal, own, cr3, but, p);
    }
  }

  /** `unmap` clears an entry that decides on the page alone, or on no page at all while
      slot 511 leads to an inactive table. */
  lemma UnmapHeads(k: Kernel, own: Owners, cr3: Frame, root: Frame, page: nat)
    requires Good(k, own) && root in own && own[root].Top? && Plain(page) && Unmap(k, root, page).Ok?
    ensures Heading(k.mem, Unmap(k, root, page).value.mem, own, cr3, if root == cr3 then Some(page) else None)
  {
    assert NodeOk(k.mem, own, root);
    PathPlain(root, page);
    TableAtOwner(k.mem, own, PathOf(root, page, 1));
  }

  /** After `unmap` the only cached translation that can be wrong is that of the page; while
      slot 511 leads to an inactive table, none can. */
  lemma UnmapCoherent(k: Kernel, own: Owners, cr3: Frame, root: Frame, page: nat, tlb: Cache)
    requires Good(k, own) && cr3 in own && own[cr3] == Top(cr3) && root in own && own[root].Top?
    requires Plain(page) && Unmap(k, root, page).Ok? && Coherent(k.mem, cr3, tlb)
    ensures Coherent(Unmap(k, root, page).value.mem, cr3, if root == cr3 then tlb - {page} else tlb)
  {
    hide Unmap, Walk, Heading;
    UnmapPoint(k, own, root, page);
    UnmapHeads(k, own, cr3, root, page);
    CoherentSettles(k.mem, Unmap(k, root, page).value.mem, own, cr3, if root == cr3 then Some(page) else None, tlb);
  }

  /** `c` is `t` with some entries zeroed. */
  predicate PartlyZeroed(t: Table, c: Table) { forall i :: 0 <= i < ENTRY_COUNT ==> c[i] == t[i] || c[i] == UNUSED }

  predicate NonePresent(t: Table) { forall i :: 0 <= i < ENTRY_COUNT ==> !t[i].Present() }

  /** Zeroing frame `t`, in whole or in part, is not seen by any walk. */
  ghost predicate ZeroUnseen(m: Memory, cr3: Frame, t: Frame)
    requires t in m
  {
    forall c: Table, p {:trigger Walk(m[t := c], cr3, p)} :: PartlyZeroed(m[t], c) ==>
        Walk(m[t := c], cr3, p) == Walk(m, cr3, p)
  }

  lemma {:induction false} WalkBlind(m: Memory, m': Memory, f: Frame, level: nat, page: nat)
    requires forall g, i {:trigger Get(m', g, i)} :: 0 <= i < ENTRY_COUNT ==>
               Get(m', g, i) == Get(m, g, i) || (!Get(m', g, i).Present() && !Get(m, g, i).Present())
    requires 1 <= level <= 4
    ensures WalkFrom(m', f, level, page) == WalkFrom(m, f, level, page)
    decreases level
  {
    var e, e' := Get(m, f, Index(page, level)), Get(m', f, Index(page, level));
    if level > 1 && e.IsTable() {
      WalkBlind(m, m', e.frame, level - 1, page);
    }
  }

  /** A frame without present words can be zeroed unseen, wherever it is linked. */
  lemma CleanUnseen(m: Memory, cr3: Frame, t: Frame)
    requires t in m && NonePresent(m[t])
    ensures ZeroUnseen(m, cr3, t)
  {
    forall c: Table, p | PartlyZeroed(m[t], c)
      ensures Walk(m[t := c], cr3, p) == Walk(m, cr3, p)
    {
      WalkBlind(m, m[t := c], cr3, 4, p);
    }
  }

  lemma {:induction false} WalkInside(m: Memory, m': Memory, own: Owners, f: Frame, level: nat, page: nat)
    requires Tree(m, own) && SlotsToRoots(m, own) && f in own && 1 <= level <= Level(own[f])
    requires forall g, i {:trigger Get(m', g, i)} :: g in own && 0 <= i < ENTRY_COUNT ==> Get(m', g, i) == Get(m, g, i)
    ensures WalkFrom(m', f, level, page) == WalkFrom(m, f, level, page)
    decreases level
  {
    var e, e' := Get(m, f, Index(page, level)), Get(m', f, Index(page, level));
    if level > 1 && e.IsTable() {
      AnyStep(m, own, f, level, page);
      WalkInside(m, m', own, e.frame, level - 1, page);
    }
  }

  /** A frame that is not a table can be written unseen. */
  lemma OutsideUnseen(m: Memory, own: Owners, cr3: Frame, t: Frame, c: Table, page: nat)
    requires Tree(m, own) && SlotsToRoots(m, own) && cr3 in own && own[cr3].Top? && t in m && t !in own
    ensures Walk(m[t := c], cr3, page) == Walk(m, cr3, page)
  {
    WalkInside(m, m[t := c], own, cr3, 4, page);
  }

  /** The step of `next_table_create` between setting the entry and zeroing the table. */
  function Linked(m: Memory, f: Frame, i: nat, t: Frame): Memory
    requires f in m && i < ENTRY_COUNT
  {
    Put(m, f, i, TableEntry(t))
  }

  /** The page whose last table entry is entry `x` of the table at `n`. */
  function EntryPage(n: Path, x: nat): nat
    requires 1 <= Level(n)
  {
    if Level(n) > 1 then TableAddress(Child(n, x)) / PAGE_SIZE else LeafPage(n, x)
  }

  /** The page below entry `x` of the P1 table at `n`. */
  function LeafPage(n: Path, x: nat): nat
    requires Level(n) == 1
  {
    ThreeUp(n);
    var low := n.parent.parent.index * 0x800_0000 + n.parent.index * 0x4_0000 + n.index * 512 + x;
    if n.parent.parent.index < 256 then low else 0xF_FFF0_0000_0000 + low
  }

  lemma LeafPagePath(n: Path, x: nat)
    requires ValidPath(n) && Level(n) == 1 && x < ENTRY_COUNT && PlainPath(n)
    ensures Plain(LeafPage(n, x)) && PathOf(RootOf(n), LeafPage(n, x), 1) == n && Index(LeafPage(n, x), 1) == x
  {
    ThreeUp(n);
    var page, p2, p3 := LeafPage(n, x), n.parent, n.parent.parent;
    assert ValidPath(p2) && ValidPath(p3) && PlainPath(p2) && PlainPath(p3);
    IndicesOf(page, if p3.index < 256 then 0 else 0xFFFF, p3.index, p2.index, n.index, x);
    assert PathOf(RootOf(n), page, 3) == p3;
    assert PathOf(RootOf(n), page, 2) == p2;
  }

  /** The table in `f` is reached at its place, below the P4 table that the recursive slot
      of the active one leads to. */
  ghost predicate InPlace(m: Memory, own: Owners, cr3: Frame, f: Frame) {
    && Tree(m, own) && SlotsToRoots(m, own) && f in own && f in m && cr3 in own && own[cr3] == Top(cr3)
    && var n := own[f];
    && ValidPath(n) && PlainPath(n) && TableAt(m, n) == Some(f)
    && RootOf(n) in own && own[RootOf(n)] == Top(RootOf(n)) && Recursive(m, cr3, RootOf(n))
  }

  /** Entry `i` of `f` is unused and `t` is a frame that is no table yet. */
  predicate Unlinked(m: Memory, own: Owners, f: Frame, i: nat, t: Frame) {
    TableSlot(own, f, i) && f in m && m[f][i] == UNUSED && t in m && t !in own
  }

  /** Linking puts `t` at the new place and keeps the recursive slots, whatever `t` holds. */
  lemma LinkedPath(m: Memory, own: Owners, cr3: Frame, f: Frame, i: nat, t: Frame, m': Memory)
    requires InPlace(m, own, cr3, f) && Unlinked(m, own, f, i, t)
    requires t in m' && m' == Linked(m, f, i, t)[t := m'[t]]
    ensures ValidPath(Child(own[f], i)) && PlainPath(Child(own[f], i))
    ensures TableAt(m', Child(own[f], i)) == Some(t)
    ensures Recursive(m', cr3, RootOf(own[f]))
  {
    TableAtKept(m, m', own, own[f]);
    assert Get(m', cr3, RECURSIVE) == Get(m, cr3, RECURSIVE);
    assert Get(m', RootOf(own[f]), RECURSIVE) == Get(m, RootOf(own[f]), RECURSIVE);
  }

  /** Entry `x` of the table at `n` decides a translation of its own: always if the table
      is a P3 or P2 table, which the recursive window exposes, and if the hierarchy is the
      active one. */
  lemma EntrySeen(m: Memory, cr3: Frame, n: Path, x: nat)
    requires ValidPath(n) && PlainPath(n) && 1 <= Level(n) && x < ENTRY_COUNT
    requires Recursive(m, cr3, RootOf(n)) && TableAt(m, n).Some? && (Level(n) > 1 || cr3 == RootOf(n))
    ensures Canonical(EntryPage(n, x)) && Walk(m, cr3, EntryPage(n, x)) == Target(Get(m, TableAt(m, n).value, x))
    ensures if Level(n) > 1 then Index(EntryPage(n, x), 4) == RECURSIVE
            else PathOf(cr3, EntryPage(n, x), 1) == n && Index(EntryPage(n, x), 1) == x
  {
    hide Walk;
    if Level(n) > 1 {
      WindowEntry(m, cr3, n, x);
    } else {
      LeafPagePath(n, x);
      WalkToLeaf(m, cr3, EntryPage(n, x));
    }
  }

  /** Every present word of a linked frame translates a page, until it is zeroed. */
  lemma LinkedExposes(m: Memory, own: Owners, cr3: Frame, f: Frame, i: nat, t: Frame, x: nat)
    requires InPlace(m, own, cr3, f) && Unlinked(m, own, f, i, t) && x < ENTRY_COUNT
    requires Level(own[f]) > 2 || cr3 == RootOf(own[f])
    ensures var page := EntryPage(Child(own[f], i), x);
            && Canonical(page)
            && Walk(Linked(m, f, i, t), cr3, page) == Target(m[t][x])
            && Walk(Link(m, f, i, t), cr3, page) == None
  {
    hide Walk;
    var n, m1, m2 := Child(own[f], i), Linked(m, f, i, t), Link(m, f, i, t);
    LinkedPath(m, own, cr3, f, i, t, m1);
    LinkedPath(m, own, cr3, f, i, t, m2);
    assert Get(m1, t, x) == m[t][x] && Get(m2, t, x) == UNUSED;
    EntrySeen(m1, cr3, n, x);
    EntrySeen(m2, cr3, n, x);
  }

  /** While a P1 table is linked into an inactive hierarchy, no walk reads it. */
  lemma DetachedUnseen(m: Memory, own: Owners, cr3: Frame, f: Frame, i: nat, t: Frame, page: nat)
    requires InPlace(m, own, cr3, f) && Unlinked(m, own, f, i, t) && Canonical(page)
    requires Level(own[f]) == 2 && cr3 != RootOf(own[f])
    ensures Walk(Linked(m, f, i, t), cr3, page) == Walk(Link(m, f, i, t), cr3, page)
  {
    var m1, m2, root := Linked(m, f, i, t), Link(m, f, i, t), RootOf(own[f]);
    LinkedPath(m, own, cr3, f, i, t, m1);
    LinkedPath(m, own, cr3, f, i, t, m2);
    if Index(page, 4) == RECURSIVE {
      WindowStep(m1, cr3, root, page);
      WindowStep(m2, cr3, root, page);
      WalkShort(m, m1, m2, own, f, root, 3, page);
    } else {
      WalkOff(m, m1, own, f, i, cr3, 4, page);
      WalkOff(m, m2, own, f, i, cr3, 4, page);
    }
  }

  /** A walk that starts below its table's level sees the entries of `f`, a P2 table, only
      as its last step. */
  lemma {:induction false} WalkShort(m: Memory, m1: Memory, m2: Memory, own: Owners, f: Frame, g: Frame,
      level: nat, page: nat)
    requires Tree(m, own) && SlotsToRoots(m, own) && f in own && Level(own[f]) == 2
    requires forall h, i {:trigger Get(m1, h, i)} :: h in own && 0 <= i < ENTRY_COUNT ==>
               Get(m1, h, i) == Get(m2, h, i) && (h != f ==> Get(m1, h, i) == Get(m, h, i))
    requires g in own && 1 <= level < Level(own[g])
    ensures WalkFrom(m1, g, level, page) == WalkFrom(m2, g, level, page)
    decreases level
  {
    var e := Get(m1, g, Index(page, level));
    assert NodeOk(m, own, g);
    if level > 1 && e.IsTable() {
      assert g != f;
      AnyStep(m, own, g, level, page);
      assert SlotOk(m, own, g, Index(page, level));
      WalkShort(m, m1, m2, own, f, e.frame, level - 1, page);
    }
  }

  /** What each cached translation may be between linking a table and zeroing it. */
  ghost predicate StaysCoherent(m1: Memory, m2: Memory, cr3: Frame) {
    forall tlb: Cache {:trigger Coherent(m2, cr3, tlb)} :: Coherent(m1, cr3, tlb) ==> Coherent(m2, cr3, tlb)
  }

  /** The new table can be read by a walk before it is zeroed: always if it is a P3 or P2
      table, which the recursive window exposes, and if the hierarchy is the active one. */
  predicate Exposed(own: Owners, cr3: Frame, f: Frame)
    requires f in own
  {
    Level(own[f]) > 2 || cr3 == RootOf(own[f])
  }

  /** `next_table_create` sets the entry first and zeroes the table afterwards. Whatever
      the hardware caches in between, the cache is coherent afterwards exactly if the new
      table cannot be read yet or the fresh frame holds no word with the PRESENT bit. */
  lemma LinkCoherentIff(m: Memory, own: Owners, cr3: Frame, f: Frame, i: nat, t: Frame)
    requires InPlace(m, own, cr3, f) && Unlinked(m, own, f, i, t)
    ensures StaysCoherent(Linked(m, f, i, t), Link(m, f, i, t), cr3) <==> !Exposed(own, cr3, f) || NonePresent(m[t])
  {
    hide Walk;
    var m1, m2 := Linked(m, f, i, t), Link(m, f, i, t);
    if !Exposed(own, cr3, f) {
      forall page | Canonical(page)
        ensures Walk(m1, cr3, page) == Walk(m2, cr3, page)
      {
        DetachedUnseen(m, own, cr3, f, i, t, page);
      }
    } else if NonePresent(m[t]) {
      CleanUnseen(m1, cr3, t);
      assert m2 == m1[t := EmptyTable()];
      assert PartlyZeroed(m1[t], EmptyTable());
    } else {
      var x :| 0 <= x < ENTRY_COUNT && m[t][x].Present();
      LinkedExposes(m, own, cr3, f, i, t, x);
      var page := EntryPage(Child(own[f], i), x);
      var tlb: Cache := map[page := m[t][x]];
      assert Coherent(m1, cr3, tlb);
      assert page in tlb;
      assert !Coherent(m2, cr3, tlb);
    }
  }
}
