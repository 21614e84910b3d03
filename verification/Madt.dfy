/** The MADT parser (section 5.2.12 of the ACPI specification): `MadtIter` and the loop of
    `Madt::init` that collects its records. */
module Madt {
  import opened Outcomes

  type Byte = b: nat | b < 256

  const HEADER_SIZE := 36

  /** RAM from the header of a table on: all of the table is there. */
  predicate HoldsTable(ram: seq<Byte>) { |ram| >= HEADER_SIZE && |ram| >= Length(ram) }

  /** The length field of the header: four bytes, least significant first. */
  function Length(ram: seq<Byte>): nat
    requires |ram| >= HEADER_SIZE
  {
    var b0: nat, b1: nat, b2: nat, b3: nat := ram[4], ram[5], ram[6], ram[7];
    b0 + 0x100 * b1 + 0x1_0000 * b2 + 0x100_0000 * b3
  }

  /** `SdtHeader::data_len`. */
  function DataLen(ram: seq<Byte>): nat
    requires |ram| >= HEADER_SIZE
  {
    if Length(ram) >= HEADER_SIZE then Length(ram) - HEADER_SIZE else 0
  }

  /** The bytes after the header that belong to the table. */
  function DataOf(ram: seq<Byte>): seq<Byte>
    requires HoldsTable(ram)
  {
    ram[HEADER_SIZE..HEADER_SIZE + DataLen(ram)]
  }

  lemma DataSlice(ram: seq<Byte>, lo: nat, hi: nat)
    requires HoldsTable(ram) && lo <= hi <= |DataOf(ram)|
    ensures DataOf(ram)[lo..hi] == ram[HEADER_SIZE + lo..HEADER_SIZE + hi]
  {
  }

  /** The four record types the kernel knows. */
  datatype Kind = Lapic | IoApic | Iso | Nmi

  function TypeOf(k: Kind): Byte {
    match k
    case Lapic => 0
    case IoApic => 1
    case Iso => 2
    case Nmi => 4
  }

  /** Size of the packed structure after the two header bytes. */
  function SizeOf(k: Kind): nat {
    match k
    case Lapic => 6
    case IoApic => 10
    case Iso => 8
    case Nmi => 4
  }

  function Capacity(k: Kind): nat { if k.Lapic? then 20 else 10 }

  function KindOf(ty: Byte): Option<Kind> {
    if ty == 0 then Some(Lapic) else if ty == 1 then Some(IoApic) else if ty == 2 then Some(Iso)
    else if ty == 4 then Some(Nmi) else None
  }

  /** What the iterator yields: a record, given by where its payload starts, one of a known
      type but the wrong length, or one of an unknown type. */
  datatype Entry = Known(kind: Kind, at: nat) | Invalid(kind: Kind, len: nat) | Unknown(ty: Byte)

  /** `MadtIter::next` at position `i`: the entry, and the position after it. */
  function Next(data: seq<Byte>, i: nat): Option<(Entry, nat)> {
    if i + 1 >= |data| then None
    else
      var ty, len := data[i], data[i + 1];
      if i + len > |data| then None
      else
        var kind := KindOf(ty);
        var item := if kind.None? then Unknown(ty)
                    else if len == SizeOf(kind.value) + 2 then Known(kind.value, i + 2)
                    else Invalid(kind.value, len);
        Some((item, i + len))
  }

  /** The payload of an accepted record lies inside the table, and the position moves past
      it; a record that does not move the position is never accepted. */
  lemma AcceptedInside(data: seq<Byte>, i: nat)
    requires Next(data, i).Some? && Next(data, i).value.0.Known?
    ensures var (e, i') := Next(data, i).value;
            i < e.at && e.at + SizeOf(e.kind) == i' <= |data|
  {
  }

  lemma ZeroLengthRejected(data: seq<Byte>, i: nat)
    requires Next(data, i).Some? && Next(data, i).value.1 == i
    ensures !Next(data, i).value.0.Known?
  {
  }

  /** The parser stays inside the table as its header gives the length: no byte behind it is
      read, and no record that reaches beyond it is yielded; a length below that of the header
      means that there is nothing to read. */
  lemma WithinTable(ram: seq<Byte>, i: nat)
    requires HoldsTable(ram)
    ensures Next(DataOf(ram), i).Some? ==>
              HEADER_SIZE + i + 1 < Length(ram) && HEADER_SIZE + Next(DataOf(ram), i).value.1 <= Length(ram)
    ensures i + 1 < DataLen(ram) <==> HEADER_SIZE + i + 1 < Length(ram)
  {
  }

  /** A record with its payload. */
  datatype Record = Record(kind: Kind, payload: seq<Byte>)

  function OfKind(recs: seq<Record>, k: Kind): seq<Record> {
    if recs == [] then []
    else OfKind(recs[..|recs| - 1], k) + if recs[|recs| - 1].kind == k then [recs[|recs| - 1]] else []
  }

  /** How the loop ends: with its lists, or by returning early, which discards them. */
  datatype Collected =
    | Collected(lapics: seq<Record>, ioApics: seq<Record>, isos: seq<Record>, nmis: seq<Record>)
    | Discarded

  function ListOf(c: Collected, k: Kind): seq<Record>
    requires c.Collected?
  {
    match k
    case Lapic => c.lapics
    case IoApic => c.ioApics
    case Iso => c.isos
    case Nmi => c.nmis
  }

  function Push(c: Collected, r: Record): Result<Collected>
    requires c.Collected?
  {
    if |ListOf(c, r.kind)| >= Capacity(r.kind) then Panic(ListFull)
    else match r.kind
      case Lapic => Ok(c.(lapics := c.lapics + [r]))
      case IoApic => Ok(c.(ioApics := c.ioApics + [r]))
      case Iso => Ok(c.(isos := c.isos + [r]))
      case Nmi => Ok(c.(nmis := c.nmis + [r]))
  }

  /** The loop of `Madt::init` from position `i` on. */
  function Collect(data: seq<Byte>, i: nat, c: Collected): Result<Collected>
    requires c.Collected?
    decreases |data| - i
  {
    var next := Next(data, i);
    if next.None? then Ok(c)
    else
      var (e, i') := next.value;
      if !e.Known? then Ok(Discarded)
      else
        AcceptedInside(data, i);
        var c' :- Push(c, Record(e.kind, data[e.at..i']));
        Collect(data, i', c')
  }

  const NOTHING := Collected([], [], [], [])

  /** Parsing starts after the local APIC address and the flags. */
  const FIRST := 8

  /** `MadtIter`, over RAM from the header of the table on. */
  class MadtIter {
    const ram: seq<Byte>
    var i: nat

    constructor (ram: seq<Byte>)
      ensures this.ram == ram && i == FIRST
    {
      this.ram := ram;
      i := FIRST;
    }

    /** `next`: the bytes it reads are the table's, and so is every record it accepts. */
    method Advance() returns (r: Option<Entry>)
      requires HoldsTable(ram)
      modifies this
      ensures var spec := Next(DataOf(ram), old(i));
              if spec.None? then r == None && i == old(i) else r == Some(spec.value.0) && i == spec.value.1
      ensures r.Some? && r.value.Known? ==>
                && HEADER_SIZE + r.value.at + SizeOf(r.value.kind) == HEADER_SIZE + i <= Length(ram)
                && old(i) < r.value.at
    {
      if i + 1 >= DataLen(ram) {
        return None;
      }
      var ty, len := ram[HEADER_SIZE + i], ram[HEADER_SIZE + i + 1];
      if i + len > DataLen(ram) {
        return None;
      }
      match ty {
        case 0 => r := Some(if len == SizeOf(Lapic) + 2 then Known(Lapic, i + 2) else Invalid(Lapic, len));
        case 1 => r := Some(if len == SizeOf(IoApic) + 2 then Known(IoApic, i + 2) else Invalid(IoApic, len));
        case 2 => r := Some(if len == SizeOf(Iso) + 2 then Known(Iso, i + 2) else Invalid(Iso, len));
        case 4 => r := Some(if len == SizeOf(Nmi) + 2 then Known(Nmi, i + 2) else Invalid(Nmi, len));
        case _ => r := Some(Unknown(ty));
      }
      i := i + len;
    }
  }

  /** The collecting loop of `Madt::init`: it ends on every table, because a record that
      does not advance the iterator makes it return. */
  method CollectAll(ram: seq<Byte>) returns (r: Result<Collected>)
    requires HoldsTable(ram)
    ensures r == Collect(DataOf(ram), FIRST, NOTHING)
  {
    var it := new MadtIter(ram);
    ghost var data := DataOf(ram);
    var c := NOTHING;
    while true
      invariant it.ram == ram && c.Collected? && fresh(it)
      invariant Collect(data, it.i, c) == Collect(data, FIRST, NOTHING)
      decreases |data| - it.i
    {
      var at := it.i;
      var e := it.Advance();
      if e.None? {
        return Ok(c);
      }
      if !e.value.Known? {
        return Ok(Discarded);
      }
      AcceptedInside(data, at);
      DataSlice(ram, e.value.at, it.i);
      var pushed := Push(c, Record(e.value.kind, ram[HEADER_SIZE + e.value.at..HEADER_SIZE + it.i]));
      if pushed.Panic? {
        return pushed;
      }
      c := pushed.value;
    }
  }

  predicate WellFormed(r: Record) { |r.payload| == SizeOf(r.kind) }

  /** A record as the table holds it: type, length, payload. */
  function Bytes(r: Record): seq<Byte>
    requires WellFormed(r)
  {
    [TypeOf(r.kind), SizeOf(r.kind) + 2] + r.payload
  }

  predicate AllWellFormed(recs: seq<Record>) { forall i :: 0 <= i < |recs| ==> WellFormed(recs[i]) }

  function Encode(recs: seq<Record>): seq<Byte>
    requires AllWellFormed(recs)
  {
    if recs == [] then [] else Bytes(recs[0]) + Encode(recs[1..])
  }

  /** The lists hold exactly these records, by type and in order. */
  predicate Sorted(c: Collected, recs: seq<Record>) {
    c.Collected? && c.lapics == OfKind(recs, Lapic) && c.ioApics == OfKind(recs, IoApic)
    && c.isos == OfKind(recs, Iso) && c.nmis == OfKind(recs, Nmi)
  }

  ghost predicate Fits(recs: seq<Record>) { forall k: Kind :: |OfKind(recs, k)| <= Capacity(k) }

  /** No complete record starts at position `i`. */
  predicate Ends(data: seq<Byte>, i: nat) { i + 1 >= |data| || i + data[i + 1] > |data| }

  lemma OfKindSnoc(recs: seq<Record>, r: Record, k: Kind)
    ensures OfKind(recs + [r], k) == OfKind(recs, k) + if r.kind == k then [r] else []
  {
    assert (recs + [r])[..|recs|] == recs;
  }

  lemma PushSorts(c: Collected, recs: seq<Record>, r: Record)
    requires Sorted(c, recs)
    ensures Push(c, r).Ok? <==> |OfKind(recs + [r], r.kind)| <= Capacity(r.kind)
    ensures Push(c, r).Ok? ==> Sorted(Push(c, r).value, recs + [r])
    ensures Push(c, r).Panic? ==> Push(c, r) == Panic(ListFull)
  {
    OfKindSnoc(recs, r, Lapic);
    OfKindSnoc(recs, r, IoApic);
    OfKindSnoc(recs, r, Iso);
    OfKindSnoc(recs, r, Nmi);
  }

  /** The records stand in the table from position `i` on. */
  ghost predicate StandAt(data: seq<Byte>, i: nat, recs: seq<Record>) {
    AllWellFormed(recs) && i + |Encode(recs)| <= |data| && data[i..i + |Encode(recs)|] == Encode(recs)
  }

  lemma SliceParts(data: seq<Byte>, i: nat, all: seq<Byte>, b: nat)
    requires 2 <= b <= |all| && i + |all| <= |data| && data[i..i + |all|] == all
    ensures data[i] == all[0] && data[i + 1] == all[1]
    ensures data[i + 2..i + b] == all[2..b]
    ensures data[i + b..i + |all|] == all[b..]
  {
    assert forall k :: 0 <= k < |all| ==> all[k] == data[i + k];
  }

  lemma FirstRecord(data: seq<Byte>, i: nat, recs: seq<Record>)
    requires recs != [] && StandAt(data, i, recs)
    ensures var r := recs[0];
            && Next(data, i) == Some((Known(r.kind, i + 2), i + 2 + SizeOf(r.kind)))
            && i + 2 + SizeOf(r.kind) <= |data| && data[i + 2..i + 2 + SizeOf(r.kind)] == r.payload
            && StandAt(data, i + 2 + SizeOf(r.kind), recs[1..])
            && |Encode(recs)| == 2 + SizeOf(r.kind) + |Encode(recs[1..])|
  {
    hide Encode, Bytes, Next, KindOf, SizeOf, TypeOf;
    var r, b := recs[0], 2 + SizeOf(recs[0].kind);
    EncodeFirst(recs);
    SliceParts(data, i, Encode(recs), b);
    NextKnown(data, i, r.kind);
    var j := i + b;
    assert i + |Encode(recs)| == j + |Encode(recs[1..])|;
  }

  lemma EncodeFirst(recs: seq<Record>)
    requires recs != [] && AllWellFormed(recs)
    ensures var r, all, b := recs[0], Encode(recs), 2 + SizeOf(recs[0].kind);
            && AllWellFormed(recs[1..]) && |all| == b + |Encode(recs[1..])|
            && all[0] == TypeOf(r.kind) && all[1] == b
            && all[2..b] == r.payload && all[b..] == Encode(recs[1..])
  {
    var r, rest := recs[0], Encode(recs[1..]);
    assert Encode(recs) == Bytes(r) + rest;
  }

  lemma NextKnown(data: seq<Byte>, i: nat, kind: Kind)
    requires i + 2 + SizeOf(kind) <= |data| && data[i] == TypeOf(kind) && data[i + 1] == SizeOf(kind) + 2
    ensures Next(data, i) == Some((Known(kind, i + 2), i + 2 + SizeOf(kind)))
  {
    assert KindOf(TypeOf(kind)) == Some(kind);
  }

  lemma {:induction false} FitsPrefix(recs: seq<Record>, more: seq<Record>)
    requires Fits(recs + more)
    ensures Fits(recs)
  {
    if more == [] {
      assert recs + more == recs;
    } else {
      var init := more[..|more| - 1];
      assert (recs + init) + [more[|more| - 1]] == recs + more;
      forall k: Kind
        ensures |OfKind(recs + init, k)| <= Capacity(k)
      {
        OfKindSnoc(recs + init, more[|more| - 1], k);
        assert |OfKind(recs + more, k)| <= Capacity(k);
      }
      FitsPrefix(recs, init);
    }
  }

  /** Well-formed records are collected one by one while they fit the lists; the record
      that does not fit is a panic. */
  lemma {:induction false} CollectRecords(data: seq<Byte>, i: nat, c: Collected, seen: seq<Record>,
      recs: seq<Record>) returns (c': Collected)
    requires StandAt(data, i, recs) && Sorted(c, seen) && Fits(seen)
    ensures Fits(seen + recs) ==>
              Sorted(c', seen + recs) && Collect(data, i, c) == Collect(data, i + |Encode(recs)|, c')
    ensures !Fits(seen + recs) ==> Collect(data, i, c) == Panic(ListFull)
    decreases |recs|
  {
    hide OfKind, Fits, Sorted, Encode, KindOf;
    SortedCollects(c, seen);
    if recs == [] {
      c' := c;
      assert seen + recs == seen;
      NoRecord(data, i);
    } else {
      FirstRecord(data, i, recs);
      var r := recs[0];
      PushSorts(c, seen, r);
      assert (seen + [r]) + recs[1..] == seen + recs;
      FitsSnoc(seen, r);
      if Push(c, r).Ok? {
        SortedCollects(Push(c, r).value, seen + [r]);
        c' := CollectRecords(data, i + 2 + SizeOf(r.kind), Push(c, r).value, seen + [r], recs[1..]);
      } else {
        c' := c;
        if Fits(seen + recs) {
          FitsPrefix(seen + [r], recs[1..]);
        }
      }
    }
  }

  lemma FitsSnoc(seen: seq<Record>, r: Record)
    requires Fits(seen)
    ensures Fits(seen + [r]) <==> |OfKind(seen + [r], r.kind)| <= Capacity(r.kind)
  {
    forall k: Kind
      ensures k != r.kind ==> OfKind(seen + [r], k) == OfKind(seen, k)
    {
      OfKindSnoc(seen, r, k);
    }
  }

  lemma NothingSorted()
    ensures Sorted(NOTHING, []) && Fits([])
  {
  }

  lemma SortedCollects(c: Collected, recs: seq<Record>)
    requires Sorted(c, recs)
    ensures c.Collected?
  {
  }

  lemma CollectEnds(data: seq<Byte>, i: nat, c: Collected)
    requires c.Collected? && i + 1 >= |data|
    ensures Collect(data, i, c) == Ok(c)
  {
  }

  /** For every concatenation of well-formed records after the first eight bytes: if they
      fit the lists, the four lists are exactly those records, by type and in order. */
  lemma ParsesEncoding(prefix: seq<Byte>, recs: seq<Record>)
    requires |prefix| == FIRST && AllWellFormed(recs)
    ensures var r := Collect(prefix + Encode(recs), FIRST, NOTHING);
            if Fits(recs) then r.Ok? && Sorted(r.value, recs) else r == Panic(ListFull)
  {
    hide OfKind, Encode, Fits, Sorted, Collect;
    var data := prefix + Encode(recs);
    assert data[FIRST..] == Encode(recs) && data[FIRST..FIRST + |Encode(recs)|] == data[FIRST..];
    NothingSorted();
    assert [] + recs == recs;
    var c' := CollectRecords(data, FIRST, NOTHING, [], recs);
    if Fits(recs) {
      SortedCollects(c', recs);
      CollectEnds(data, |data|, c');
    }
  }

  /** After these records, which stand at the front and fit, comes one of an unknown type, or
      of a known type and the wrong length. */
  ghost predicate OddAfter(data: seq<Byte>, recs: seq<Record>) {
    && StandAt(data, FIRST, recs) && Fits(recs)
    && var next := Next(data, FIRST + |Encode(recs)|); next.Some? && !next.value.0.Known?
  }

  /** Such a record makes `init` return: whatever was collected before it is discarded. */
  lemma OddRecordDiscards(data: seq<Byte>, recs: seq<Record>)
    requires OddAfter(data, recs)
    ensures Collect(data, FIRST, NOTHING) == Ok(Discarded)
  {
    hide OfKind, Encode, Next, Fits, StandAt, Sorted;
    NothingSorted();
    assert [] + recs == recs;
    var c' := CollectRecords(data, FIRST, NOTHING, [], recs);
    SortedCollects(c', recs);
  }

  lemma NoRecord(data: seq<Byte>, i: nat)
    requires i <= |data|
    ensures StandAt(data, i, []) && |Encode([])| == 0
  {
  }

  lemma KnownBytes(data: seq<Byte>, i: nat)
    requires Next(data, i).Some? && Next(data, i).value.0.Known?
    ensures var (e, i') := Next(data, i).value;
            i <= i' <= |data| && WellFormed(Record(e.kind, data[e.at..i']))
                && data[i..i'] == Bytes(Record(e.kind, data[e.at..i']))
  {
  }

  lemma PrependRecord(data: seq<Byte>, i: nat, i': nat, r: Record, rest: seq<Record>)
    requires i <= i' <= |data| && WellFormed(r) && data[i..i'] == Bytes(r) && StandAt(data, i', rest)
    ensures StandAt(data, i, [r] + rest) && i + |Encode([r] + rest)| == i' + |Encode(rest)|
  {
    assert ([r] + rest)[1..] == rest;
    assert data[i..i' + |Encode(rest)|] == data[i..i'] + data[i'..i' + |Encode(rest)|];
  }

  /** Conversely, whatever the table: if lists are delivered, they are exactly the records
      that stand in it from the first position on, up to where no complete record starts. */
  lemma {:induction false} ListsAreRecords(data: seq<Byte>, i: nat, c: Collected, seen: seq<Record>)
      returns (recs: seq<Record>)
    requires i <= |data| && Sorted(c, seen)
    requires Collect(data, i, c).Ok? && Collect(data, i, c).value.Collected?
    ensures StandAt(data, i, recs) && Ends(data, i + |Encode(recs)|)
    ensures Sorted(Collect(data, i, c).value, seen + recs)
    decreases |data| - i
  {
    hide OfKind, Encode, KindOf, SizeOf, StandAt;
    var next := Next(data, i);
    if next.None? {
      recs := [];
      assert seen + recs == seen;
      NoRecord(data, i);
    } else {
      var (e, i') := next.value;
      AcceptedInside(data, i);
      var r := Record(e.kind, data[e.at..i']);
      PushSorts(c, seen, r);
      var rest := ListsAreRecords(data, i', Push(c, r).value, seen + [r]);
      recs := [r] + rest;
      assert (seen + [r]) + rest == seen + recs;
      KnownBytes(data, i);
      PrependRecord(data, i, i', r, rest);
    }
  }

  /** What the loop gives when `recs` are the records that stand before position `i`. */
  ghost predicate Outcome(data: seq<Byte>, i: nat, recs: seq<Record>, r: Result<Collected>) {
    if !Fits(recs) then r == Panic(ListFull)
    else if Ends(data, i) then r.Ok? && Sorted(r.value, recs)
    else r == Ok(Discarded) && Next(data, i).Some? && !Next(data, i).value.0.Known?
  }

  lemma {:induction false} CollectOutcome(data: seq<Byte>, i: nat, c: Collected, seen: seq<Record>)
      returns (recs: seq<Record>)
    requires i <= |data| && Sorted(c, seen) && Fits(seen)
    ensures StandAt(data, i, recs) && Outcome(data, i + |Encode(recs)|, seen + recs, Collect(data, i, c))
    decreases |data| - i
  {
    hide OfKind, Encode, KindOf, SizeOf, StandAt, Fits, Sorted;
    SortedCollects(c, seen);
    NoRecord(data, i);
    recs := [];
    assert seen + recs == seen;
    var next := Next(data, i);
    if next.Some? && next.value.0.Known? {
      var (e, i') := next.value;
      AcceptedInside(data, i);
      var r := Record(e.kind, data[e.at..i']);
      PushSorts(c, seen, r);
      FitsSnoc(seen, r);
      KnownBytes(data, i);
      var rest := [];
      if Push(c, r).Ok? {
        SortedCollects(Push(c, r).value, seen + [r]);
        rest := CollectOutcome(data, i', Push(c, r).value, seen + [r]);
      } else {
        NoRecord(data, i');
      }
      recs := [r] + rest;
      assert (seen + [r]) + rest == seen + recs;
      PrependRecord(data, i, i', r, rest);
      assert rest == [] ==> seen + recs == seen + [r];
    }
  }

  /** Every table, whatever it holds: the records that stand at its front overflow a list,
      which is a panic, or come to where no complete record starts, and are delivered by type
      and in order, or come to an odd record, and are discarded. */
  lemma EveryTable(data: seq<Byte>) returns (recs: seq<Record>)
    requires FIRST <= |data|
    ensures StandAt(data, FIRST, recs)
    ensures Outcome(data, FIRST + |Encode(recs)|, recs, Collect(data, FIRST, NOTHING))
  {
    NothingSorted();
    recs := CollectOutcome(data, FIRST, NOTHING, []);
    assert [] + recs == recs;
  }

  /** A table too short for the first position delivers empty lists. */
  lemma ShortTable(data: seq<Byte>)
    requires |data| <= FIRST + 1
    ensures Collect(data, FIRST, NOTHING) == Ok(NOTHING)
  {
  }

  /** The lists are discarded exactly if an odd record comes after records that fit. */
  lemma DiscardedIff(data: seq<Byte>)
    ensures Collect(data, FIRST, NOTHING) == Ok(Discarded) <==> exists recs :: OddAfter(data, recs)
  {
    hide Collect, Next, StandAt, Fits, Encode;
    if exists recs :: OddAfter(data, recs) {
      var recs :| OddAfter(data, recs);
      OddRecordDiscards(data, recs);
    }
    if Collect(data, FIRST, NOTHING) == Ok(Discarded) {
      if |data| < FIRST {
        ShortTable(data);
      } else {
        var recs := EveryTable(data);
        assert OddAfter(data, recs);
      }
    }
  }

  /** The length that the header holds, least significant byte first from offset 4 on, counts
      the 36 bytes of the header itself. */
  lemma DataFollowsHeader(ram: seq<Byte>, length: nat)
    requires 36 <= length < 0x1_0000_0000 && length <= |ram|
    requires ram[4] == length % 256 && ram[5] == length / 256 % 256
    requires ram[6] == length / 0x1_0000 % 256 && ram[7] == length / 0x100_0000
    ensures HoldsTable(ram) && DataOf(ram) == ram[36..length]
  {
    BytesOfLength(length);
  }

  lemma BytesOfLength(n: nat)
    ensures n == n % 256 + 0x100 * (n / 256 % 256) + 0x1_0000 * (n / 0x1_0000 % 256) + 0x100_0000 * (n / 0x100_0000)
  {
    assert n / 0x1_0000 == n / 256 / 256;
    assert n / 0x100_0000 == n / 256 / 256 / 256;
  }

  /** The bytes of a record: local APIC, I/O APIC, interrupt source override or NMI. */
  predicate IsRecord(b: seq<Byte>) {
    || (|b| == 8 && b[0] == 0 && b[1] == 8)
    || (|b| == 12 && b[0] == 1 && b[1] == 12)
    || (|b| == 10 && b[0] == 2 && b[1] == 10)
    || (|b| == 6 && b[0] == 4 && b[1] == 6)
  }

  predicate AreRecords(raws: seq<seq<Byte>>) { forall i :: 0 <= i < |raws| ==> IsRecord(raws[i]) }

  function Concat(raws: seq<seq<Byte>>): seq<Byte> { if raws == [] then [] else raws[0] + Concat(raws[1..]) }

  /** What follows type and length in the records of a type, in order. */
  function Payloads(raws: seq<seq<Byte>>, ty: nat): seq<seq<Byte>>
    requires AreRecords(raws)
  {
    if raws == [] then []
    else
      var init, last := raws[..|raws| - 1], raws[|raws| - 1];
      Payloads(init, ty) + if last[0] == ty then [last[2..]] else []
  }

  function PayloadsOf(recs: seq<Record>): seq<seq<Byte>> {
    seq(|recs|, i requires 0 <= i < |recs| => recs[i].payload)
  }

  /** A table: eight bytes, and then records of 8, 12, 10 and 6 bytes in any order. The lists
      hold what follows type and length, by type and in order; more than 20 local APICs, or more
      than 10 of another type, are a panic. */
  lemma RealTable(head: seq<Byte>, raws: seq<seq<Byte>>)
    requires |head| == 8 && AreRecords(raws)
    ensures var r := Collect(head + Concat(raws), FIRST, NOTHING);
            if |Payloads(raws, 0)| <= 20 && |Payloads(raws, 1)| <= 10 && |Payloads(raws, 2)| <= 10
               && |Payloads(raws, 4)| <= 10
            then && r.Ok? && r.value.Collected?
                 && PayloadsOf(r.value.lapics) == Payloads(raws, 0) && PayloadsOf(r.value.ioApics) == Payloads(raws, 1)
                 && PayloadsOf(r.value.isos) == Payloads(raws, 2) && PayloadsOf(r.value.nmis) == Payloads(raws, 4)
            else r == Panic(ListFull)
  {
    hide Collect, Encode, Concat, OfKind, Payloads, PayloadsOf;
    var recs := Read(raws);
    ReadEncodes(raws);
    ReadPayloads(raws, Lapic);
    ReadPayloads(raws, IoApic);
    ReadPayloads(raws, Iso);
    ReadPayloads(raws, Nmi);
    PayloadCount(OfKind(recs, Lapic));
    PayloadCount(OfKind(recs, IoApic));
    PayloadCount(OfKind(recs, Iso));
    PayloadCount(OfKind(recs, Nmi));
    ParsesEncoding(head, recs);
  }

  lemma PayloadCount(recs: seq<Record>)
    ensures |PayloadsOf(recs)| == |recs|
  {
  }

  /** The records that the bytes stand for. */
  function ReadOne(b: seq<Byte>): Record
    requires IsRecord(b)
  {
    Record(if b[0] == 0 then Lapic else if b[0] == 1 then IoApic else if b[0] == 2 then Iso else Nmi, b[2..])
  }

  function Read(raws: seq<seq<Byte>>): seq<Record>
    requires AreRecords(raws)
  {
    seq(|raws|, i requires 0 <= i < |raws| => ReadOne(raws[i]))
  }

  lemma ReadOneBytes(b: seq<Byte>)
    requires IsRecord(b)
    ensures WellFormed(ReadOne(b)) && Bytes(ReadOne(b)) == b
  {
    assert b == [b[0], b[1]] + b[2..];
  }

  lemma {:induction false} ReadEncodes(raws: seq<seq<Byte>>)
    requires AreRecords(raws)
    ensures AllWellFormed(Read(raws)) && Encode(Read(raws)) == Concat(raws)
  {
    if raws != [] {
      ReadOneBytes(raws[0]);
      ReadEncodes(raws[1..]);
      assert Read(raws)[1..] == Read(raws[1..]);
      assert Read(raws) == [Read(raws)[0]] + Read(raws[1..]);
    }
  }

  lemma {:induction false} ReadPayloads(raws: seq<seq<Byte>>, k: Kind)
    requires AreRecords(raws)
    ensures PayloadsOf(OfKind(Read(raws), k)) == Payloads(raws, TypeOf(k))
  {
    if raws != [] {
      var init, last := raws[..|raws| - 1], raws[|raws| - 1];
      ReadPayloads(init, k);
      assert Read(raws)[..|raws| - 1] == Read(init);
      assert Read(raws)[|raws| - 1] == ReadOne(last);
      assert last[0] == TypeOf(k) <==> ReadOne(last).kind == k;
    }
  }
}
