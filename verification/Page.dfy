/** Virtual pages, their four table indices, and the recursive table addresses. */
module Pages {
  import opened Outcomes
  import opened Bits

  const PAGE_SIZE := 4096
  const ENTRY_COUNT := 512
  const ADDRESS_LIMIT := 0x1_0000_0000_0000_0000

  /** The P4 slot through which the tables themselves are reached. */
  const RECURSIVE := 511

  /** The address is one of the 4096 of the frame. */
  predicate InFrame(address: nat, frame: nat) { frame * 4096 <= address < (frame + 1) * 4096 }

  /** An inclusive range of frames given by its first and last address. */
  lemma RangeHolds(first: nat, last: nat, frame: nat)
    requires first <= last
    ensures first / PAGE_SIZE <= frame <= last / PAGE_SIZE <==>
            exists x: nat :: first <= x <= last && InFrame(x, frame)
  {
    if first / PAGE_SIZE <= frame <= last / PAGE_SIZE {
      var x := if first > frame * 4096 then first else frame * 4096;
      assert first <= x <= last && InFrame(x, frame);
    }
  }

  /** Page numbers of canonical 64-bit addresses: bits 47 to 63 all equal. */
  predicate Canonical(page: nat) {
    page < 0x8_0000_0000 || 0xF_FFF8_0000_0000 <= page < 0x10_0000_0000_0000
  }

  /** `Page::containing_address`. */
  function ContainingAddress(address: nat): (r: Result<nat>)
    requires address < ADDRESS_LIMIT
    ensures r.Ok? <==> address < 0x0000_8000_0000_0000 || address >= 0xffff_8000_0000_0000
    ensures r.Ok? ==> Canonical(r.value) && r.value * PAGE_SIZE <= address < (r.value + 1) * PAGE_SIZE
  {
    if address < 0x0000_8000_0000_0000 || address >= 0xffff_8000_0000_0000
    then Ok(address / PAGE_SIZE)
    else Panic(NonCanonical)
  }

  /** Index of a page into the table of a level: p4_index down to p1_index. */
  function Index(page: nat, level: nat): (i: nat)
    ensures i < ENTRY_COUNT
  {
    if level == 4 then page / 0x800_0000 % 512
    else if level == 3 then page / 0x4_0000 % 512
    else if level == 2 then page / 512 % 512
    else page % 512
  }

  /** The four indices tell all canonical pages apart. */
  lemma IndicesInjective(p: nat, q: nat)
    requires Canonical(p) && Canonical(q)
    requires Index(p, 4) == Index(q, 4) && Index(p, 3) == Index(q, 3)
    requires Index(p, 2) == Index(q, 2) && Index(p, 1) == Index(q, 1)
    ensures p == q
  {
    LowIndices(p);
    LowIndices(q);
    SignExtended(p);
    SignExtended(q);
  }

  lemma LowIndices(p: nat)
    ensures p % 0x10_0000_0000 ==
            Index(p, 4) * 0x800_0000 + Index(p, 3) * 0x4_0000 + Index(p, 2) * 512 + Index(p, 1)
  {
    NineBits(p);
    assert p / 0x800_0000 / 512 == p / 0x10_0000_0000;
  }

  lemma SignExtended(p: nat)
    requires Canonical(p)
    ensures var low := p % 0x10_0000_0000;
            p == if low < 0x8_0000_0000 then low else low + 0xF_FFF0_0000_0000
  {
  }

  /** Indices of a page given by its parts. */
  lemma IndicesOf(page: nat, high: nat, a: nat, b: nat, c: nat, d: nat)
    requires a < 512 && b < 512 && c < 512 && d < 512
    requires page == high * 0x10_0000_0000 + a * 0x800_0000 + b * 0x4_0000 + c * 512 + d
    ensures Index(page, 4) == a && Index(page, 3) == b && Index(page, 2) == c && Index(page, 1) == d
  {
    NineBits(page);
    Divide(page, high * 0x800_0000 + a * 0x4_0000 + b * 512 + c, d);
    Divide(page / 512, high * 0x4_0000 + a * 512 + b, c);
    Divide(page / 512 / 512, high * 512 + a, b);
    Divide(page / 512 / 512 / 512, high, a);
  }

  lemma Divide(x: nat, q: nat, r: nat)
    requires x == q * 512 + r && r < 512
    ensures x / 512 == q && x % 512 == r
  {
  }

  /** Shifting by 18 and 27 bits is shifting by 9 bits two and three times. */
  lemma NineBits(page: nat)
    ensures page / 0x4_0000 == page / 512 / 512
    ensures page / 0x800_0000 == page / 512 / 512 / 512
  {
    assert page / 0x4_0000 == page / 512 / 512;
    assert page / 0x800_0000 == page / 0x4_0000 / 512;
  }

  /** The place of a table in a hierarchy: the P4 table in a frame, or the table that
      one entry of another table leads to. */
  datatype Path = Top(root: nat) | Child(parent: Path, index: nat)

  /** 4 for a P4 table, 3, 2, 1 below it (further down the numbers turn negative). */
  function Level(n: Path): (level: int)
    ensures level <= 4 && (level == 4 <==> n.Top?)
  {
    match n
    case Top(_) => 4
    case Child(p, _) => Level(p) - 1
  }

  function RootOf(n: Path): nat {
    match n
    case Top(r) => r
    case Child(p, _) => RootOf(p)
  }

  predicate ValidPath(n: Path) {
    match n
    case Top(_) => true
    case Child(p, i) => ValidPath(p) && i < ENTRY_COUNT
  }

  /** The table of a level that a walk for `page` from `root` passes through. */
  function PathOf(root: nat, page: nat, level: nat): (n: Path)
    requires 1 <= level <= 4
    ensures Level(n) == level && RootOf(n) == root && ValidPath(n)
    decreases 4 - level
  {
    if level == 4 then Top(root) else Child(PathOf(root, page, level + 1), Index(page, level + 1))
  }

  /** Same P1 table and same last index: same page. */
  lemma PathInjective(r: nat, p: nat, s: nat, q: nat)
    requires Canonical(p) && Canonical(q)
    requires PathOf(r, p, 1) == PathOf(s, q, 1) && Index(p, 1) == Index(q, 1)
    ensures p == q && r == s
  {
    assert PathOf(r, p, 2) == PathOf(s, q, 2);
    assert PathOf(r, p, 3) == PathOf(s, q, 3);
    assert PathOf(r, p, 4) == PathOf(s, q, 4);
    IndicesInjective(p, q);
  }

  /** The address of the P4 table. */
  const P4_ADDRESS := 0xffff_ffff_ffff_f000

  /** `next_table_address`: shift the table's own address left by 9 bits, dropping what
      leaves the 64-bit word, and or in the index shifted by 12 (disjoint bits, `ShiftOr`). */
  function NextAddress(table: nat, index: nat): nat {
    table * 512 % ADDRESS_LIMIT + index * PAGE_SIZE
  }

  /** The virtual address at which the code reaches a table. */
  function TableAddress(n: Path): nat {
    match n
    case Top(_) => P4_ADDRESS
    case Child(p, i) => NextAddress(TableAddress(p), i)
  }

  /** With a page-aligned table and an index below 512, the sum that `NextAddress` writes is
      the code's bitwise or of the truncated shift and the index, page aligned again. */
  lemma ShiftOr(table: nat, index: nat)
    requires table % PAGE_SIZE == 0 && index < ENTRY_COUNT
    ensures NextAddress(table, index) == Or(table * 512 % ADDRESS_LIMIT, index * PAGE_SIZE)
    ensures NextAddress(table, index) % PAGE_SIZE == 0
  {
    hide Pow2, Up, Or;
    var shifted := table / PAGE_SIZE % 0x800_0000_0000;
    assert table * 512 % ADDRESS_LIMIT == shifted * 0x20_0000;
    Powers();
    Shifted(shifted);
    OrSum(21, shifted, index * PAGE_SIZE);
  }

  lemma AddressOfP3(n: Path)
    requires ValidPath(n) && n.Child? && n.parent.Top?
    ensures TableAddress(n) == 0xffff_ffff_ffe0_0000 + n.index * 0x1000
  {
    assert TableAddress(n.parent) * 512 % ADDRESS_LIMIT == 0xffff_ffff_ffe0_0000;
  }

  lemma ShiftNine(x: nat, high: nat)
    requires x == high * 0x80_0000_0000_0000 + x % 0x80_0000_0000_0000
    ensures x * 512 % ADDRESS_LIMIT == x % 0x80_0000_0000_0000 * 512
  {
  }

  lemma AddressOfP2(n: Path)
    requires ValidPath(n) && n.Child? && n.parent.Child? && n.parent.parent.Top?
    ensures TableAddress(n) == 0xffff_ffff_c000_0000 + n.parent.index * 0x20_0000 + n.index * 0x1000
  {
    AddressOfP3(n.parent);
    var x := TableAddress(n.parent);
    assert x / 0x80_0000_0000_0000 == 511;
    ShiftNine(x, 511);
  }

  lemma AddressOfP1(n: Path)
    requires ValidPath(n) && n.Child? && n.parent.Child? && n.parent.parent.Child? && n.parent.parent.parent.Top?
    ensures TableAddress(n) == 0xffff_ff80_0000_0000 + n.parent.parent.index * 0x4000_0000
                               + n.parent.index * 0x20_0000 + n.index * 0x1000
  {
    AddressOfP2(n.parent);
    var x := TableAddress(n.parent);
    assert x / 0x80_0000_0000_0000 == 511;
    ShiftNine(x, 511);
  }

  /** A page-aligned canonical address whose page has these four indices. */
  predicate AddressAt(address: nat, a: nat, b: nat, c: nat, d: nat) {
    && address < ADDRESS_LIMIT && address % PAGE_SIZE == 0
    && var page := address / PAGE_SIZE;
    && Canonical(page)
    && Index(page, 4) == a && Index(page, 3) == b && Index(page, 2) == c && Index(page, 1) == d
  }

  lemma HighAddress(address: nat, a: nat, b: nat, c: nat, d: nat)
    requires 256 <= a < 512 && b < 512 && c < 512 && d < 512
    requires address == 0xffff_0000_0000_0000 + a * 0x80_0000_0000 + b * 0x4000_0000 + c * 0x20_0000 + d * 0x1000
    ensures AddressAt(address, a, b, c, d)
  {
    var page := 0xFFFF * 0x10_0000_0000 + a * 0x800_0000 + b * 0x4_0000 + c * 512 + d;
    assert address == page * PAGE_SIZE;
    IndicesOf(page, 0xFFFF, a, b, c, d);
  }

  /** The page a table is reached at has index 511 once per level below the table, and
      then the table's own path: the recursive window. */
  predicate InWindow(n: Path)
    requires 1 <= Level(n)
  {
    var address := TableAddress(n);
    if n.Top? then AddressAt(address, 511, 511, 511, 511)
    else if n.parent.Top? then AddressAt(address, 511, 511, 511, n.index)
    else if n.parent.parent.Top? then AddressAt(address, 511, 511, n.parent.index, n.index)
    else AddressAt(address, 511, n.parent.parent.index, n.parent.index, n.index)
  }

  lemma TableAddressInWindow(n: Path)
    requires ValidPath(n) && 1 <= Level(n)
    ensures InWindow(n)
  {
    var address := TableAddress(n);
    if n.Top? {
      HighAddress(address, 511, 511, 511, 511);
    } else if n.parent.Top? {
      AddressOfP3(n);
      HighAddress(address, 511, 511, 511, n.index);
    } else if n.parent.parent.Top? {
      AddressOfP2(n);
      HighAddress(address, 511, 511, n.parent.index, n.index);
    } else {
      var p3 := n.parent.parent;
      assert Level(n) == Level(n.parent) - 1 && Level(n.parent) == Level(p3) - 1;
      assert Level(p3) == Level(p3.parent) - 1;
      AddressOfP1(n);
      HighAddress(address, 511, n.parent.parent.index, n.parent.index, n.index);
    }
  }

  /** Every table address is what the code's shift and or yield from the parent's. */
  lemma TableAddressIsOr(n: Path)
    requires ValidPath(n) && n.Child? && 1 <= Level(n)
    ensures TableAddress(n) == Or(TableAddress(n.parent) * 512 % ADDRESS_LIMIT, n.index * PAGE_SIZE)
  {
    hide Or, NextAddress;
    TableAddressInWindow(n.parent);
    ShiftOr(TableAddress(n.parent), n.index);
  }
}
