/** The boot page tables: the loops that fill them, and the processor's walk through them. */
module PageTables {
  import opened Bits

  // One table of 512 entries, one of 512, and four of 512, one after the other.
  const P3_OFFSET: nat := 0x1000
  const P2_OFFSET: nat := 0x2000
  const TABLE_BYTES: nat := 0x6000
  const DWORDS: nat := 0x1800
  const ENTRIES: nat := 0xC00

  /** The contents of the tables as doublewords, since the loops store 32 bits at a time. */
  type Tables = t: seq<u32> | |t| == DWORDS witness seq(DWORDS, _ => 0)

  function Entry(t: Tables, q: nat): u64
    requires q < ENTRIES
  {
    t[2 * q] + t[2 * q + 1] * TWO32
  }

  // ---------------------------------------------------------------- what the loops store

  /** The flags are below any page address, so setting them adds them. */
  lemma OrFlags(flags: nat, address: nat)
    requires flags < 0x1000 && address % 0x1000 == 0
    ensures Or(flags, address) == flags + address
  {
    Pow2Values();
    Pow2Add(8, 4);
    OrShifted(flags, address / 0x1000, 12);
  }

  /** What entry q holds once paging is set up, with the tables at a physical address. */
  function FinalEntry(base: nat, q: nat): nat {
    if q == 0 then base + P3_OFFSET + 3
    else if 512 <= q < 516 then base + P2_OFFSET + 0x1000 * (q - 512) + 3
    else if 1024 <= q then 0x200000 * (q - 1024) + 0x83
    else 0
  }

  /** Which entries are stored after the first, n3 of the third level, and n2 of the second. */
  predicate IsStored(q: nat, first: bool, n3: nat, n2: nat) {
    (first && q == 0) || 512 <= q < 512 + n3 || 1024 <= q < 1024 + n2
  }

  ghost predicate FilledTo(t: Tables, base: nat, first: bool, n3: nat, n2: nat) {
    forall q :: 0 <= q < ENTRIES ==> Entry(t, q) == if IsStored(q, first, n3, n2) then FinalEntry(base, q) else 0
  }

  /** Every entry holds its final value. */
  ghost predicate Filled(t: Tables, base: nat) {
    forall q :: 0 <= q < ENTRIES ==> Entry(t, q) == FinalEntry(base, q)
  }

  /** A store of the low half completes an entry that was zero, and leaves the others. */
  lemma StoreEntry(t: Tables, q: nat, v: u32)
    requires q < ENTRIES && Entry(t, q) == 0
    ensures Entry(t[2 * q := v], q) == v
    ensures forall r :: 0 <= r < ENTRIES && r != q ==> Entry(t[2 * q := v], r) == Entry(t, r)
  {
  }

  /** Storing the next entry of a run extends the run by one. */
  lemma FilledNext(t: Tables, base: nat, n3: nat, n2: nat, inP2: bool, v: u32)
    requires FilledTo(t, base, true, n3, n2) && n3 <= 4 && n2 <= 2048
    requires if inP2 then n2 < 2048 else n3 < 4
    requires v == FinalEntry(base, if inP2 then 1024 + n2 else 512 + n3)
    ensures FilledTo(t[2 * (if inP2 then 1024 + n2 else 512 + n3) := v], base, true,
                     if inP2 then n3 else n3 + 1, if inP2 then n2 + 1 else n2)
  {
    var q := if inP2 then 1024 + n2 else 512 + n3;
    var m3, m2 := if inP2 then n3 else n3 + 1, if inP2 then n2 + 1 else n2;
    assert Entry(t, q) == 0;
    StoreEntry(t, q, v);
    var now: Tables := t[2 * q := v];
    forall r | 0 <= r < ENTRIES
      ensures Entry(now, r) == if IsStored(r, true, m3, m2) then FinalEntry(base, r) else 0
    {
      if r != q {
        assert Entry(now, r) == Entry(t, r);
      }
    }
  }

  lemma PageAligned(base: nat, n: nat)
    ensures (0x200000 * n) % 0x1000 == 0 && FinalEntry(base, 1024 + n) == 0x83 + 0x200000 * n
  {
    DivModUnique(0x200000 * n, 0x1000, 0x200 * n, 0);
  }

  lemma FilledDone(t: Tables, base: nat)
    requires FilledTo(t, base, true, 4, 2048)
    ensures Filled(t, base)
  {
  }

  class Boot {
    const tables: array<u32>
    const base: u32
    var cr3: u32

    /** Page-aligned tables that lie below 4 GiB. */
    ghost predicate Placed() {
      tables.Length == DWORDS && base % 0x1000 == 0 && base + TABLE_BYTES <= TWO32
    }

    constructor (tables: array<u32>, base: u32)
      requires tables.Length == DWORDS && base % 0x1000 == 0 && base + TABLE_BYTES <= TWO32
      ensures Placed() && this.tables == tables && this.base == base
    {
      this.tables, this.base, cr3 := tables, base, 0;
    }

    /** A 32-bit store at a physical address inside the tables. */
    method Store(address: u32, v: u32)
      requires Placed() && base <= address && address + 4 <= base + TABLE_BYTES && (address - base) % 4 == 0
      modifies tables
      ensures tables[..] == old(tables[..])[(address - base) / 4 := v]
    {
      tables[(address - base) / 4] := v;
    }

    /**
     From zeroed tables, both loops leave every entry as it should be; no store falls outside
     the tables and no 32-bit computation wraps.
     */
    method SetupPaging()
      requires Placed() && forall k :: 0 <= k < DWORDS ==> tables[k] == 0
      modifies this, tables
      ensures Placed() && Filled(tables[..], base) && cr3 == base
    {
      var eax: u32 := base + P3_OFFSET;
      OrFlags(3, eax);
      eax := Or(3, eax);
      StoreEntry(tables[..], 0, eax);
      Store(base, eax);
      FillP3();
      MapP2();
      cr3 := base;
    }

    method FillP3()
      requires Placed() && FilledTo(tables[..], base, true, 0, 0)
      modifies tables
      ensures FilledTo(tables[..], base, true, 4, 0)
    {
      hide FilledTo, Or;
      var ecx: u32 := 0;
      while true
        invariant ecx < 4 && FilledTo(tables[..], base, true, ecx, 0)
        decreases 4 - ecx
      {
        var eax: u32 := base + P2_OFFSET;
        var edx: u32 := ecx * 0x1000;
        eax := eax + edx;
        OrFlags(3, eax);
        eax := Or(3, eax);
        FilledNext(tables[..], base, ecx, 0, false, eax);
        Store(base + P3_OFFSET + 8 * ecx, eax);
        ecx := ecx + 1;
        if ecx == 4 {
          break;
        }
      }
    }

    method MapP2()
      requires Placed() && FilledTo(tables[..], base, true, 4, 0)
      modifies tables
      ensures Filled(tables[..], base)
    {
      hide FilledTo, Filled, Or, FinalEntry;
      var ecx: u32 := 0;
      while true
        invariant ecx < 2048 && FilledTo(tables[..], base, true, 4, ecx)
        decreases 2048 - ecx
      {
        var eax: u32 := 0x200000 * ecx;
        PageAligned(base, ecx);
        OrFlags(0x83, eax);
        eax := Or(0x83, eax);
        FilledNext(tables[..], base, 4, ecx, true, eax);
        Store(base + P2_OFFSET + 8 * ecx, eax);
        ecx := ecx + 1;
        if ecx == 2048 {
          FilledDone(tables[..], base);
          break;
        }
      }
    }
  }

  // ---------------------------------------------------------------- the processor's walk

  /**
   The outcome of translating a linear address: a physical address with its rights, a page fault
   (with or without a reserved bit set), or a table reference outside the memory modelled here.
   */
  datatype Translation =
    | Mapped(address: nat, writable: bool, user: bool)
    | Fault(reservedBit: bool)
    | Outside

  /** The bytes mapped by one entry of a level: 4 KiB at level 1, 512 times more at each level up. */
  function Span(level: nat): (s: nat)
    requires 1 <= level <= 4
    ensures s > 0
  {
    match level
    case 1 => 0x1000
    case 2 => 0x20_0000
    case 3 => 0x4000_0000
    case _ => 0x80_0000_0000
  }

  predicate BitSet(e: u64, weight: nat)
    requires weight > 0
  {
    e / weight % 2 == 1
  }

  /** The address bits of an entry that are multiples of a size, below bit 52. */
  function AddressField(e: u64, size: nat): nat
    requires size > 0
  {
    e % 0x10_0000_0000_0000 / size * size
  }

  /** The entry maps a page rather than a table. */
  predicate MapsPage(e: u64, level: nat) {
    level == 1 || (level <= 3 && BitSet(e, 0x80))
  }

  /** A bit that must be zero is set, for a processor with a given end of physical memory. */
  predicate ReservedBitSet(e: u64, level: nat, physicalEnd: nat)
    requires 1 <= level <= 4
  {
    || BitSet(e, 0x8000_0000_0000_0000)
    || e % 0x10_0000_0000_0000 >= physicalEnd
    || (level == 4 && BitSet(e, 0x80))
    || (2 <= level <= 3 && BitSet(e, 0x80) && e % Span(level) / 0x2000 != 0)
  }

  /** The walk of section 4.5 of the Intel manual, volume 3A, from a table of some level down. */
  function Walk(t: Tables, base: nat, table: nat, level: nat, va: nat, physicalEnd: nat, w: bool, u: bool): Translation
    requires 1 <= level <= 4
    decreases level
  {
    var at := table + 8 * (va / Span(level) % 512);
    if at < base || at + 8 > base + TABLE_BYTES || (at - base) % 8 != 0 then Outside
    else
      var e := Entry(t, (at - base) / 8);
      if !BitSet(e, 1) then Fault(false)
      else if ReservedBitSet(e, level, physicalEnd) then Fault(true)
      else if MapsPage(e, level) then
        Mapped(AddressField(e, Span(level)) + va % Span(level), w && BitSet(e, 2), u && BitSet(e, 4))
      else Walk(t, base, AddressField(e, 0x1000), level - 1, va, physicalEnd, w && BitSet(e, 2), u && BitSet(e, 4))
  }

  function Translate(t: Tables, base: nat, cr3: u32, va: nat, physicalEnd: nat): Translation {
    Walk(t, base, AddressField(cr3, 0x1000), 4, va, physicalEnd, true, true)
  }

  ghost predicate Aligned(base: nat) {
    base % 0x1000 == 0 && base + TABLE_BYTES <= TWO32
  }

  /** The bit of a weight, with h times twice the weight above it and r below. */
  lemma FlagBit(e: u64, weight: nat, h: nat, bit: nat, r: nat)
    requires r < weight && bit < 2 && e == (2 * h + bit) * weight + r
    ensures BitSet(e, weight) <==> bit == 1
  {
    DivModUnique(e, weight, 2 * h + bit, r);
    DivModUnique(2 * h + bit, 2, h, bit);
  }

  lemma AddressBits(e: u64, size: nat, q: nat, r: nat)
    requires r < size && e == q * size + r && e < TWO32
    ensures AddressField(e, size) == q * size && e % size == r
  {
    DivModUnique(e, size, q, r);
    DivModUnique(e, 0x10_0000_0000_0000, 0, e);
  }

  /** No bit from 32 on is set. */
  lemma HighBits(e: u64, physicalEnd: nat)
    requires e < TWO32 <= physicalEnd
    ensures !BitSet(e, 0x8000_0000_0000_0000) && e % 0x10_0000_0000_0000 < physicalEnd
  {
    FlagBit(e, 0x8000_0000_0000_0000, 0, 0, e);
    DivModUnique(e, 0x10_0000_0000_0000, 0, e);
  }

  /** An entry for a page-aligned address below 4 GiB has that address, the flags, and no reserved bit. */
  lemma TableEntry(address: nat, level: nat, physicalEnd: nat)
    requires address % 0x1000 == 0 && address + 3 < TWO32 <= physicalEnd && 3 <= level <= 4
    ensures var e := address + 3;
      && BitSet(e, 1) && BitSet(e, 2) && !BitSet(e, 4) && !BitSet(e, 0x80)
      && AddressField(e, 0x1000) == address && !ReservedBitSet(e, level, physicalEnd)
  {
    hide BitSet, AddressField, Span;
    var e, k := address + 3, address / 0x1000;
    FlagBit(e, 1, 0x800 * k + 1, 1, 0);
    FlagBit(e, 2, 0x400 * k, 1, 1);
    FlagBit(e, 4, 0x200 * k, 0, 3);
    FlagBit(e, 0x80, 0x10 * k, 0, 3);
    AddressBits(e, 0x1000, k, 3);
    HighBits(e, physicalEnd);
  }

  lemma PageEntry(n: nat, physicalEnd: nat)
    requires n < 2048 && TWO32 <= physicalEnd
    ensures var e := 0x200000 * n + 0x83;
      && BitSet(e, 1) && BitSet(e, 2) && !BitSet(e, 4) && BitSet(e, 0x80)
      && AddressField(e, 0x200000) == 0x200000 * n && !ReservedBitSet(e, 2, physicalEnd)
  {
    hide BitSet, AddressField;
    var e := 0x200000 * n + 0x83;
    FlagBit(e, 1, 0x100000 * n + 0x41, 1, 0);
    FlagBit(e, 2, 0x80000 * n + 0x20, 1, 1);
    FlagBit(e, 4, 0x40000 * n + 0x10, 0, 3);
    FlagBit(e, 0x80, 0x2000 * n, 1, 3);
    AddressBits(e, 0x200000, n, 0x83);
    HighBits(e, physicalEnd);
  }

  /** One turn of the walk through the entry it finds. */
  lemma WalkTurn(t: Tables, base: nat, table: nat, level: nat, va: nat, physicalEnd: nat, w: bool, u: bool, q: nat)
    requires 1 <= level <= 4 && q < ENTRIES && table + 8 * (va / Span(level) % 512) == base + 8 * q
    ensures var e := Entry(t, q);
      Walk(t, base, table, level, va, physicalEnd, w, u) ==
        if !BitSet(e, 1) then Fault(false)
        else if ReservedBitSet(e, level, physicalEnd) then Fault(true)
        else if MapsPage(e, level) then
          Mapped(AddressField(e, Span(level)) + va % Span(level), w && BitSet(e, 2), u && BitSet(e, 4))
        else Walk(t, base, AddressField(e, 0x1000), level - 1, va, physicalEnd, w && BitSet(e, 2), u && BitSet(e, 4))
  {
    hide ReservedBitSet, AddressField, Entry, BitSet, MapsPage, Span;
    assert table + 8 * (va / Span(level) % 512) - base == 8 * q;
  }

  /** A second-level table walked with the 21 low bits left maps its address to itself. */
  lemma WalkP2(t: Tables, base: nat, va: nat, physicalEnd: nat)
    requires Aligned(base) && Filled(t, base) && va < TWO32 <= physicalEnd
    ensures Walk(t, base, base + P2_OFFSET + 0x1000 * (va / 0x4000_0000), 2, va, physicalEnd, true, false)
         == Mapped(va, true, false)
  {
    hide Walk, ReservedBitSet, AddressField, Entry;
    var n := va / 0x200000;
    assert n == 512 * (va / 0x4000_0000) + n % 512;
    WalkTurn(t, base, base + P2_OFFSET + 0x1000 * (va / 0x4000_0000), 2, va, physicalEnd, true, false, 1024 + n);
    assert Entry(t, 1024 + n) == FinalEntry(base, 1024 + n);
    PageEntry(n, physicalEnd);
  }

  lemma WalkP3(t: Tables, base: nat, va: nat, physicalEnd: nat)
    requires Aligned(base) && Filled(t, base) && va < 0x80_0000_0000 && TWO32 <= physicalEnd
    ensures Walk(t, base, base + P3_OFFSET, 3, va, physicalEnd, true, false)
         == if va < TWO32 then Mapped(va, true, false) else Fault(false)
  {
    hide Walk, ReservedBitSet, AddressField, Entry;
    var i := va / 0x4000_0000;
    WalkTurn(t, base, base + P3_OFFSET, 3, va, physicalEnd, true, false, 512 + i);
    assert Entry(t, 512 + i) == FinalEntry(base, 512 + i);
    if va < TWO32 {
      TableEntry(base + P2_OFFSET + 0x1000 * i, 3, physicalEnd);
      WalkP2(t, base, va, physicalEnd);
    }
  }

  /**
   Over the whole 48-bit range, an address translates exactly if it lies below 4 GiB, and then to
   itself, writable by the kernel only; every other address faults as not present.
   */
  lemma IdentityMapped(t: Tables, base: u32, va: nat, physicalEnd: nat)
    requires Aligned(base) && Filled(t, base) && va < 0x1_0000_0000_0000 && TWO32 <= physicalEnd
    ensures Translate(t, base, base, va, physicalEnd)
         == if va < TWO32 then Mapped(va, true, false) else Fault(false)
  {
    hide Walk, ReservedBitSet, Entry;
    var i := va / 0x80_0000_0000;
    DivModUnique(base, 0x1000, base / 0x1000, 0);
    WalkTurn(t, base, base, 4, va, physicalEnd, true, true, i);
    assert Entry(t, i) == FinalEntry(base, i);
    if i == 0 {
      TableEntry(base + P3_OFFSET, 4, physicalEnd);
      WalkP3(t, base, va, physicalEnd);
    }
  }
}
