/** Page-table entries: the 64-bit word, its flags and the frame it points to. */
module Entries {
  import opened Outcomes
  import opened Bits

  type Frame = nat

  /** Words of physical memory. */
  type Word = w: nat | w < 0x1_0000_0000_0000_0000

  /** One past the largest frame number an entry can hold (bits 12 to 51). */
  const FRAME_LIMIT := 0x100_0000_0000

  /** The flag set of an entry, one field per named bit. */
  datatype Flags = Flags(
    present: bool, writable: bool, user: bool, writeThrough: bool, noCache: bool,
    accessed: bool, dirty: bool, huge: bool, isGlobal: bool, noExecute: bool)
  {
    /** Union of two flag sets. */
    function Or(other: Flags): Flags {
      Flags(present || other.present, writable || other.writable, user || other.user,
            writeThrough || other.writeThrough, noCache || other.noCache,
            accessed || other.accessed, dirty || other.dirty, huge || other.huge,
            isGlobal || other.isGlobal, noExecute || other.noExecute)
    }
  }

  const EMPTY := Flags(false, false, false, false, false, false, false, false, false, false)
  const PRESENT := EMPTY.(present := true)
  const WRITABLE := EMPTY.(writable := true)
  const TABLE_FLAGS := PRESENT.Or(WRITABLE)
  const HUGE_FLAGS := TABLE_FLAGS.(huge := true)

  /** An entry as the code sees it: `pointed_frame` and `flags`. */
  datatype Entry = Entry(frame: Frame, flags: Flags) {
    predicate Present() { flags.present }

    /** The entry leads to a table of the next level down. */
    predicate IsTable() { flags.present && !flags.huge }
  }

  const UNUSED := Entry(0, EMPTY)

  /** The rights on every link between tables: writable, executable, not for ring 3. */
  predicate LinkFlags(f: Flags) { f.writable && !f.user && !f.noExecute }

  /** What a link to a page table is set to. */
  function TableEntry(frame: Frame): Entry { Entry(frame, TABLE_FLAGS) }

  /** The number whose low bits are `bits`, least significant first, above them `high`. */
  function Join(bits: seq<bool>, high: nat): nat {
    if bits == [] then high else (if bits[0] then 1 else 0) + 2 * Join(bits[1..], high)
  }

  /** Bits 0 to 11 of an entry with these flags. */
  function LowBits(f: Flags): seq<bool> {
    [f.present, f.writable, f.user, f.writeThrough, f.noCache, f.accessed, f.dirty, f.huge,
     f.isGlobal, false, false, false]
  }

  const NX_WEIGHT := 0x8000_0000_0000_0000

  /** `EntryFlags::bits`. */
  function FlagBits(f: Flags): nat {
    Join(LowBits(f), 0) + if f.noExecute then NX_WEIGHT else 0
  }

  /** The word `Entry::set` stores; the bits of the frame address and of the flags are
      disjoint (`OrIsSum`), so the bitwise or is a sum. */
  function Encode(e: Entry): (r: Result<Word>)
  {
    LowBitsBound(LowBits(e.flags));
    if e.frame < FRAME_LIMIT then Ok(e.frame * 4096 + FlagBits(e.flags)) else Panic(BadFrame)
  }

  /** `flags()` and the masked frame number of a stored word. */
  function Decode(w: Word): Entry {
    Entry(w / 4096 % FRAME_LIMIT,
          Flags(HasBit(w, 0), HasBit(w, 1), HasBit(w, 2), HasBit(w, 3), HasBit(w, 4),
                HasBit(w, 5), HasBit(w, 6), HasBit(w, 7), HasBit(w, 8), w / NX_WEIGHT == 1))
  }

  lemma {:induction false} JoinSum(bits: seq<bool>, high: nat)
    ensures Join(bits, high) == Join(bits, 0) + Pow2(|bits|) * high
    ensures Join(bits, 0) < Pow2(|bits|)
  {
    if bits != [] {
      JoinSum(bits[1..], high);
      assert 2 * (Pow2(|bits| - 1) * high) == Pow2(|bits|) * high;
    }
  }

  lemma LowBitsBound(bits: seq<bool>)
    requires |bits| == 12
    ensures Join(bits, 0) < 4096
    ensures forall high: nat :: Join(bits, high) == Join(bits, 0) + 4096 * high
  {
    assert Pow2(12) == 4096;
    forall high: nat
      ensures Join(bits, high) == Join(bits, 0) + 4096 * high
    {
      JoinSum(bits, high);
    }
    JoinSum(bits, 0);
  }

  lemma {:induction false} JoinShift(bits: seq<bool>, high: nat, n: nat)
    requires n <= |bits|
    ensures Shift(Join(bits, high), n) == Join(bits[n..], high)
  {
    if n != 0 {
      assert Join(bits, high) / 2 == Join(bits[1..], high);
      JoinShift(bits[1..], high, n - 1);
      assert bits[1..][n - 1..] == bits[n..];
    }
  }

  lemma JoinFirst(bits: seq<bool>, high: nat)
    requires bits != []
    ensures Join(bits, high) % 2 == if bits[0] then 1 else 0
  {
  }

  lemma JoinHasBit(bits: seq<bool>, high: nat, n: nat)
    requires n < |bits|
    ensures HasBit(Join(bits, high), n) == bits[n]
  {
    hide Shift, Join;
    JoinFirst(bits[n..], high);
    JoinShift(bits, high, n);
  }

  lemma HighPart(w: Word, frame: nat, nx: bool, low: nat)
    requires frame < FRAME_LIMIT && low < 4096
    requires w == frame * 4096 + low + if nx then NX_WEIGHT else 0
    ensures w / 4096 % FRAME_LIMIT == frame
    ensures (w / NX_WEIGHT == 1) == nx
  {
    var high := frame + if nx then 0x8_0000_0000_0000 else 0;
    assert w / 4096 == high;
    assert high % FRAME_LIMIT == frame;
  }

  lemma FlagsReadBack(f: Flags, w: Word, high: nat)
    requires w == Join(LowBits(f), high) && (w / NX_WEIGHT == 1) == f.noExecute
    ensures Decode(w).flags == f
  {
    var bits := LowBits(f);
    JoinHasBit(bits, high, 0); JoinHasBit(bits, high, 1); JoinHasBit(bits, high, 2);
    JoinHasBit(bits, high, 3); JoinHasBit(bits, high, 4); JoinHasBit(bits, high, 5);
    JoinHasBit(bits, high, 6); JoinHasBit(bits, high, 7); JoinHasBit(bits, high, 8);
  }

  /** `pointed_frame` and `flags` read back exactly what `set` stored, for every frame
      that `set` accepts; every other frame panics. */
  lemma EncodeRoundTrip(e: Entry)
    ensures Encode(e).Ok? <==> e.frame < FRAME_LIMIT
    ensures Encode(e).Ok? ==> Decode(Encode(e).value) == e
  {
    if e.frame < FRAME_LIMIT {
      var bits := LowBits(e.flags);
      LowBitsBound(bits);
      var w: Word := Encode(e).value;
      HighPart(w, e.frame, e.flags.noExecute, Join(bits, 0));
      var high := e.frame + if e.flags.noExecute then 0x8_0000_0000_0000 else 0;
      assert w == Join(bits, high);
      FlagsReadBack(e.flags, w, high);
    }
  }

  /** The word is the bitwise or of the frame's address and the flags, as `set` computes it. */
  lemma OrIsSum(e: Entry)
    requires e.frame < FRAME_LIMIT
    ensures Encode(e) == Ok(Or(e.frame * 4096, FlagBits(e.flags)))
  {
    hide Pow2, Up, Or, Join;
    var low, nx := Join(LowBits(e.flags), 0), if e.flags.noExecute then 1 else 0;
    LowBitsBound(LowBits(e.flags));
    Powers();
    Shifted(e.frame);
    Shifted(nx);
    Shifted(Up(nx, 51));
    OrSplit(12, e.frame, Up(nx, 51), low);
    OrCommutes(e.frame, Up(nx, 51));
    OrSum(51, nx, e.frame);
    Shifted(Or(e.frame, Up(nx, 51)));
  }

  /** The bits of the flags: each flag has its own, and there are no others. */
  lemma FlagBitsAre(f: Flags, bit: nat)
    ensures var on := HasBit(FlagBits(f), bit);
            && (bit == 0 ==> (on <==> f.present)) && (bit == 1 ==> (on <==> f.writable))
            && (bit == 2 ==> (on <==> f.user)) && (bit == 3 ==> (on <==> f.writeThrough))
            && (bit == 4 ==> (on <==> f.noCache)) && (bit == 5 ==> (on <==> f.accessed))
            && (bit == 6 ==> (on <==> f.dirty)) && (bit == 7 ==> (on <==> f.huge))
            && (bit == 8 ==> (on <==> f.isGlobal)) && (bit == 63 ==> (on <==> f.noExecute))
            && (bit > 8 && bit != 63 ==> !on)
  {
    hide Join, Or, Up, Pow2, HasBit, FlagBits, LowBits;
    if bit < 12 {
      LowFlagBit(f, bit);
      LowBitAt(f, bit);
    } else {
      HighFlagBit(f, bit);
    }
  }

  lemma LowFlagBit(f: Flags, bit: nat)
    requires bit < 12
    ensures |LowBits(f)| == 12 && (HasBit(FlagBits(f), bit) <==> LowBits(f)[bit])
  {
    hide Join, Or, Up, Pow2, HasBit, FlagBits;
    var low, nx := Join(LowBits(f), 0), if f.noExecute then 1 else 0;
    LowBitsBound(LowBits(f));
    NoExecuteBit(f, low, nx);
    OrBits(Up(nx, 63), low, bit);
    UpBits(nx, 63, bit);
    JoinHasBit(LowBits(f), 0, bit);
  }

  lemma HighFlagBit(f: Flags, bit: nat)
    requires bit >= 12
    ensures HasBit(FlagBits(f), bit) <==> bit == 63 && f.noExecute
  {
    hide Join, Or, Up, Pow2, HasBit, FlagBits;
    var low, nx := Join(LowBits(f), 0), if f.noExecute then 1 else 0;
    LowBitsBound(LowBits(f));
    NoExecuteBit(f, low, nx);
    OrBits(Up(nx, 63), low, bit);
    UpBits(nx, 63, bit);
    if bit >= 63 {
      OneBit(nx, bit - 63);
    }
    Powers();
    SmallBits(low, 12, bit);
  }

  lemma LowBitAt(f: Flags, bit: nat)
    requires bit < 12
    ensures |LowBits(f)| == 12
    ensures var on := LowBits(f)[bit];
            && (bit == 0 ==> (on <==> f.present)) && (bit == 1 ==> (on <==> f.writable))
            && (bit == 2 ==> (on <==> f.user)) && (bit == 3 ==> (on <==> f.writeThrough))
            && (bit == 4 ==> (on <==> f.noCache)) && (bit == 5 ==> (on <==> f.accessed))
            && (bit == 6 ==> (on <==> f.dirty)) && (bit == 7 ==> (on <==> f.huge))
            && (bit == 8 ==> (on <==> f.isGlobal)) && (bit > 8 ==> !on)
  {
  }

  lemma OneBit(b: nat, bit: nat)
    requires b < 2
    ensures HasBit(b, bit) <==> bit == 0 && b == 1
  {
    if bit > 0 {
      ZeroBits(bit - 1);
    }
  }

  lemma NoExecuteBit(f: Flags, low: nat, nx: nat)
    requires low == Join(LowBits(f), 0) && low < 4096 && nx == if f.noExecute then 1 else 0
    ensures FlagBits(f) == Or(Up(nx, 63), low)
  {
    hide Join, Or, Pow2, Up;
    Powers();
    Shifted(Up(nx, 51));
    Shifted(nx);
    UpTwice(nx, 51, 12);
    OrSum(12, Up(nx, 51), low);
  }

  lemma {:induction false} UpTwice(a: nat, m: nat, n: nat)
    ensures Up(Up(a, m), n) == Up(a, m + n)
  {
    if n > 0 {
      UpTwice(a, m, n - 1);
    }
  }

  /** Bit by bit, the word that `set` stores: the flags in bits 0 to 8 and 63, the frame number
      in bits 12 to 51, every other bit clear; a frame number that does not fit panics. */
  lemma EncodeBits(e: Entry, bit: nat)
    ensures Encode(e).Ok? <==> e.frame < 0x100_0000_0000
    ensures Encode(e).Ok? ==>
              var f, on := e.flags, HasBit(Encode(e).value, bit);
              && (bit == 0 ==> (on <==> f.present)) && (bit == 1 ==> (on <==> f.writable))
              && (bit == 2 ==> (on <==> f.user)) && (bit == 3 ==> (on <==> f.writeThrough))
              && (bit == 4 ==> (on <==> f.noCache)) && (bit == 5 ==> (on <==> f.accessed))
              && (bit == 6 ==> (on <==> f.dirty)) && (bit == 7 ==> (on <==> f.huge))
              && (bit == 8 ==> (on <==> f.isGlobal)) && (bit == 63 ==> (on <==> f.noExecute))
              && (12 <= bit < 52 ==> (on <==> HasBit(e.frame, bit - 12)))
              && (9 <= bit < 12 || 52 <= bit < 63 || bit > 63 ==> !on)
  {
    hide Or, Up, HasBit, FlagBits;
    EncodeRoundTrip(e);
    if e.frame < FRAME_LIMIT {
      OrIsSum(e);
      Shifted(e.frame);
      OrBits(Up(e.frame, 12), FlagBits(e.flags), bit);
      UpBits(e.frame, 12, bit);
      FlagBitsAre(e.flags, bit);
      if bit >= 52 {
        FrameBits(e.frame, bit - 12);
      }
    }
  }

  lemma FrameBits(frame: nat, bit: nat)
    requires frame < FRAME_LIMIT && 40 <= bit
    ensures !HasBit(frame, bit)
  {
    assert Pow2(8) == 256;
    assert Pow2(16) == 256 * Pow2(8);
    assert Pow2(24) == 256 * Pow2(16);
    assert Pow2(32) == 256 * Pow2(24);
    assert Pow2(40) == 256 * Pow2(32);
    SmallBits(frame, 40, bit);
  }

  /** What `flags` and `pointed_frame` read from any stored word: bits 0 to 8 and 63, and the
      number in bits 12 to 51. */
  lemma DecodeBits(w: Word)
    ensures var f := Decode(w).flags;
            && (f.present <==> HasBit(w, 0)) && (f.writable <==> HasBit(w, 1)) && (f.user <==> HasBit(w, 2))
            && (f.writeThrough <==> HasBit(w, 3)) && (f.noCache <==> HasBit(w, 4)) && (f.accessed <==> HasBit(w, 5))
            && (f.dirty <==> HasBit(w, 6)) && (f.huge <==> HasBit(w, 7)) && (f.isGlobal <==> HasBit(w, 8))
            && (f.noExecute <==> HasBit(w, 63))
    ensures Decode(w).frame == w / 4096 % 0x100_0000_0000
  {
    TopBit(w);
  }

  lemma {:induction false} ShiftDivides(w: nat, n: nat)
    ensures Shift(w, n) == w / Pow2(n)
  {
    if n > 0 {
      ShiftDivides(w / 2, n - 1);
      HalfFirst(w, Pow2(n - 1));
    }
  }

  lemma HalfFirst(w: nat, p: nat)
    requires p >= 1
    ensures w / 2 / p == w / (2 * p)
  {
    var q, r := w / (2 * p), w % (2 * p);
    assert w == q * (2 * p) + r && 0 <= r < 2 * p;
    assert w == 2 * (q * p) + r;
    assert w / 2 == q * p + r / 2;
    assert 0 <= r / 2 < p;
    QuotientIs(w / 2, p, q, r / 2);
  }

  lemma QuotientIs(x: nat, p: nat, q: nat, r: nat)
    requires x == q * p + r && r < p
    ensures x / p == q
  {
    var q' := x / p;
    assert x == q' * p + x % p;
    assert (q - q') * p == x % p - r && (q' - q) * p == r - x % p;
    if q' < q {
      Multiple(q - q', p);
    } else if q < q' {
      Multiple(q' - q, p);
    }
  }

  lemma Multiple(d: nat, p: nat)
    requires d >= 1
    ensures d * p >= p
  {
    assert d * p == (d - 1) * p + p;
  }

  lemma TopBit(w: Word)
    ensures HasBit(w, 63) <==> w / NX_WEIGHT == 1
  {
    Powers();
    assert Pow2(57) == 64 * Pow2(51);
    assert Pow2(63) == 64 * Pow2(57);
    ShiftDivides(w, 63);
  }

  lemma {:induction false} AllClear(bits: seq<bool>)
    requires forall i :: 0 <= i < |bits| ==> !bits[i]
    ensures Join(bits, 0) == 0
  {
    if bits != [] {
      AllClear(bits[1..]);
    }
  }

  /** Setting a bit adds its weight. */
  lemma {:induction false} JoinSet(bits: seq<bool>, n: nat)
    requires n < |bits| && !bits[n]
    ensures Join(bits[n := true], 0) == Join(bits, 0) + Pow2(n)
  {
    if n == 0 {
      assert bits[0 := true][1..] == bits[1..];
    } else {
      JoinSet(bits[1..], n - 1);
      assert bits[n := true][1..] == bits[1..][n - 1 := true];
    }
  }

  /** The flags the kernel uses, as numbers: PRESENT, WRITABLE, both for links between tables,
      and with HUGE_PAGE for the boot code's 2 MiB pages; an unused entry is the word 0. */
  lemma FlagNumbers(frame: Frame)
    requires frame < 0x100_0000_0000
    ensures FlagBits(PRESENT) == 1 && FlagBits(WRITABLE) == 2 && FlagBits(TABLE_FLAGS) == 3
    ensures FlagBits(HUGE_FLAGS) == 0x83 && FlagBits(EMPTY) == 0 && Encode(UNUSED) == Ok(0)
    ensures Encode(TableEntry(frame)) == Ok(frame * 4096 + 3)
  {
    hide Join;
    var none := LowBits(EMPTY);
    AllClear(none);
    JoinSet(none, 0);
    JoinSet(none, 1);
    JoinSet(none[0 := true], 1);
    JoinSet(none[0 := true][1 := true], 7);
    assert LowBits(PRESENT) == none[0 := true] && LowBits(WRITABLE) == none[1 := true];
    assert LowBits(TABLE_FLAGS) == none[0 := true][1 := true];
    assert LowBits(HUGE_FLAGS) == none[0 := true][1 := true][7 := true];
    assert Pow2(1) == 2 && Pow2(4) == 16 && Pow2(7) == 8 * Pow2(4);
  }

  lemma OrFields(a: Flags, b: Flags)
    ensures var r := a.Or(b);
            && (r.present <==> a.present || b.present) && (r.writable <==> a.writable || b.writable)
            && (r.user <==> a.user || b.user) && (r.writeThrough <==> a.writeThrough || b.writeThrough)
            && (r.noCache <==> a.noCache || b.noCache) && (r.accessed <==> a.accessed || b.accessed)
            && (r.dirty <==> a.dirty || b.dirty) && (r.huge <==> a.huge || b.huge)
            && (r.isGlobal <==> a.isGlobal || b.isGlobal) && (r.noExecute <==> a.noExecute || b.noExecute)
  {
  }

  /** The union of two flag sets has the bits of either. */
  lemma OrFlags(a: Flags, b: Flags, bit: nat)
    ensures HasBit(FlagBits(a.Or(b)), bit) <==> HasBit(FlagBits(a), bit) || HasBit(FlagBits(b), bit)
  {
    hide HasBit, FlagBits, Flags.Or;
    OrFields(a, b);
    FlagBitsAre(a, bit);
    FlagBitsAre(b, bit);
    FlagBitsAre(a.Or(b), bit);
  }
}
