/** Sector reads and writes served from the manifold, with no physical disk behind it. */
module SubstrateService {
  import opened Bits
  import opened Memory
  import opened Mixing
  import opened ManifoldModel
  import opened ManifoldRuns
  import opened WriteBursts
  import opened Manifold

  const SECTOR: nat := 512

  // ---------------------------------------------------------------- addresses

  /** Address of sector i of a request; both the sum and the product wrap at 64 bits. */
  function SectorAddr(lba: u64, i: nat): (a: u64)
    ensures a % SECTOR == 0
  {
    WrapSector((lba + i) % TWO64);
    (((lba + i) % TWO64) * SECTOR) % TWO64
  }

  /** Where sector i lies in the guest buffer; the offset is computed in 32 bits. */
  function BufferAt(i: nat): (at: nat)
    ensures at <= i * SECTOR
    ensures i * SECTOR < TWO32 ==> at == i * SECTOR
  {
    (i * SECTOR) % TWO32
  }

  lemma WrapSector(k: nat)
    ensures ((k * SECTOR) % TWO64) % SECTOR == 0
  {
    var q := (k * SECTOR) / TWO64;
    assert (k * SECTOR) % TWO64 == SECTOR * (k - q * 0x80_0000_0000_0000);
  }

  /** One wrap or two: the address is the product modulo 2^64. */
  lemma WrappedSector(lba: u64, i: nat)
    ensures SectorAddr(lba, i) == ((lba + i) * 512) % 0x1_0000_0000_0000_0000
  {
    var q, r := (lba + i) / TWO64, (lba + i) % TWO64;
    var s, t := (r * SECTOR) / TWO64, (r * SECTOR) % TWO64;
    assert lba + i == q * TWO64 + r && r * SECTOR == s * TWO64 + t;
    DivModUnique((lba + i) * SECTOR, TWO64, q * SECTOR + s, t);
  }

  lemma LastSector(a: u64)
    requires a % SECTOR == 0
    ensures a + SECTOR <= TWO64
  {
  }

  /** A sector write never crosses a block. */
  lemma SectorInBlock(a: nat)
    requires a % SECTOR == 0
    ensures InBlock(a, SECTOR) && Offset(a) == a % BLOCK_BYTES
  {
    var p, q := a / BLOCK_BYTES, a % BLOCK_BYTES / SECTOR;
    DivModUnique(a % BLOCK_BYTES, SECTOR, q, 0);
    DivModUnique(a, 16, 1024 * p + 32 * q, 0);
    DivModUnique(a / 16, 1024, p, 32 * q);
  }

  lemma PlainSector(lba: u64, n: nat, i: nat)
    requires i < n && (lba + n) * SECTOR <= TWO64
    ensures SectorAddr(lba, i) == (lba + i) * SECTOR
  {
  }

  /** Cells of a sector lie in the block of the sector. */
  lemma SectorCell(a: nat, o: nat)
    requires a % SECTOR == 0 && o % 16 == 0 && o + 16 <= SECTOR
    ensures VBlock(a + o) == VBlock(a) && Offset(a + o) == Offset(a) + o
  {
    SectorInBlock(a);
    var k, j := a / SECTOR, o / 16;
    assert a + o == 16 * (32 * k + j) && (a + o) / 16 == 32 * k + j;
    assert (32 * k + j) / 1024 == (32 * k) / 1024 && (32 * k + j) % 1024 == (32 * k) % 1024 + j;
    assert VBlock(a + o) == ((a + o) / 16) / 1024 && VBlock(a) == (a / 16) / 1024;
  }

  // ---------------------------------------------------------------- what the requests do

  /** The manifold writes of serve_write. */
  function SectorWrites(lba: u64, n: nat, buf: seq<u8>): (ops: seq<Op>)
    requires n * SECTOR <= |buf|
    ensures |ops| == n && AllWrites(ops)
    decreases n, |buf|
  {
    if n == 0 then []
    else
      SectorInBlock(SectorAddr(lba, n - 1));
      SectorWrites(lba, n - 1, buf) + [Write(SectorAddr(lba, n - 1), Cut(buf, BufferAt(n - 1), SECTOR))]
  }

  lemma {:induction false} SectorWriteAt(lba: u64, n: nat, buf: seq<u8>, i: nat)
    requires n * SECTOR <= |buf| && i < n
    ensures SectorWrites(lba, n, buf)[i] == Write(SectorAddr(lba, i), Cut(buf, BufferAt(i), SECTOR))
    decreases n
  {
    if i < n - 1 {
      SectorWriteAt(lba, n - 1, buf, i);
    }
  }

  /** The first k cells read from an address on. */
  function CellsFrom(c: Cache, a: nat, k: nat): (b: seq<u8>)
    requires Shaped(c)
    ensures |b| == 16 * k
    decreases k, a
  {
    if k == 0 then [] else CellsFrom(c, a, k - 1) + CellBytes(Fetched(c, a + 16 * (k - 1)))
  }

  function SectorBytes(c: Cache, a: nat): (b: seq<u8>)
    requires Shaped(c)
    ensures |b| == SECTOR
  {
    CellsFrom(c, a, 32)
  }

  lemma CellsNone(c: Cache, a: nat)
    requires Shaped(c)
    ensures CellsFrom(c, a, 0) == []
  {
  }

  lemma CellsStep(c: Cache, a: nat, k: nat)
    requires Shaped(c)
    ensures CellsFrom(c, a, k + 1) == CellsFrom(c, a, k) + CellBytes(Fetched(c, a + 16 * k))
  {
  }

  /** Copying the next cell behind the cells copied so far. */
  lemma CellCopied(c: Cache, a: nat, k: nat, was: seq<u8>, now: seq<u8>, at: nat)
    requires Shaped(c) && at + 16 * (k + 1) <= |was|
    requires now == Spliced(was, at, CellsFrom(c, a, k))
    ensures Spliced(now, at + 16 * k, CellBytes(Fetched(c, a + 16 * k)))
         == Spliced(was, at, CellsFrom(c, a, k + 1))
  {
    CellsStep(c, a, k);
    SplicedTwice(was, at, CellsFrom(c, a, k), CellBytes(Fetched(c, a + 16 * k)));
  }

  datatype Served = Served(buf: seq<u8>, ok: bool)

  /** serve_read from sector i on: it stops with failure at the first sector beyond capacity. */
  function ServedFrom(c: Cache, lba: u64, n: nat, i: nat, capacity: u64, buf: seq<u8>): (s: Served)
    requires Shaped(c) && i <= n && n * SECTOR <= |buf|
    ensures |s.buf| == |buf|
    decreases n - i
  {
    if i == n then Served(buf, true)
    else if SectorAddr(lba, i) >= capacity then Served(buf, false)
    else ServedFrom(c, lba, n, i + 1, capacity, Spliced(buf, BufferAt(i), SectorBytes(c, SectorAddr(lba, i))))
  }

  class SubstrateService {
    const manifold: SubstrateManifold
    const virtualCapacityBytes: u64
    var highestAccessedVaddr: u64
    var preemptionHorizon: u64

    constructor (manifold: SubstrateManifold, capacity: u64)
      ensures this.manifold == manifold && virtualCapacityBytes == capacity
      ensures highestAccessedVaddr == 0 && preemptionHorizon == 0
    {
      this.manifold := manifold;
      virtualCapacityBytes := capacity;
      highestAccessedVaddr, preemptionHorizon := 0, 0;
    }

    method ServeWrite(lba: u64, sectorCount: u32, guestBuffer: seq<u8>) returns (ok: bool)
      requires manifold.Valid() && sectorCount * SECTOR <= |guestBuffer|
      modifies manifold, manifold.cacheState, manifold.vblockMap, manifold.cachePool
      ensures manifold.Valid() && ok
      ensures manifold.View() == Run(old(manifold.View()), SectorWrites(lba, sectorCount, guestBuffer))
    {
      hide Run, SectorWrites, Materialized;
      ghost var c := manifold.View();
      NothingWritten(c, lba, guestBuffer);
      for i := 0 to sectorCount
        invariant manifold.Valid()
        invariant manifold.View() == Run(c, SectorWrites(lba, i, guestBuffer))
      {
        var currentLba := (lba + i) % TWO64;
        var vaddr := (currentLba * SECTOR) % TWO64;
        var at := (i * SECTOR) % TWO32;
        SectorInBlock(SectorAddr(lba, i));
        SectorWritesStep(c, lba, i, guestBuffer);
        InBlockFits(manifold.View(), vaddr, Cut(guestBuffer, at, SECTOR));
        manifold.MaterializeRange(vaddr, Cut(guestBuffer, at, SECTOR));
      }
      return true;
    }

    /** Copies one sector cell by cell into the guest buffer. */
    method ReadSector(vaddr: u64, out: array<u8>, at: nat)
      requires manifold.Valid() && vaddr + SECTOR <= TWO64 && at + SECTOR <= out.Length && out != manifold.cachePool
      modifies out
      ensures out[..] == Spliced(old(out[..]), at, SectorBytes(manifold.View(), vaddr))
    {
      hide CellsFrom, Spliced, Fetched;
      ghost var was := out[..];
      SplicedNothing(was, at);
      CellsNone(manifold.View(), vaddr);
      for k := 0 to 32
        invariant out[..] == Spliced(was, at, CellsFrom(manifold.View(), vaddr, k))
      {
        CellCopied(manifold.View(), vaddr, k, was, out[..], at);
        ReadCell(vaddr + 16 * k, out, at + 16 * k);
      }
    }

    /** One fetched cell into the guest buffer. */
    method ReadCell(vaddr: u64, out: array<u8>, at: nat)
      requires manifold.Valid() && at + 16 <= out.Length && out != manifold.cachePool
      modifies out
      ensures out[..] == Spliced(old(out[..]), at, CellBytes(Fetched(manifold.View(), vaddr)))
    {
      var atom := manifold.HolographicFetch(vaddr);
      CopyBytes(CellBytes(atom), out, at);
    }

    method ServeRead(lba: u64, sectorCount: u32, guestBuffer: array<u8>) returns (ok: bool)
      requires manifold.Valid() && sectorCount * SECTOR <= guestBuffer.Length
      requires guestBuffer != manifold.cachePool
      modifies this, guestBuffer
      ensures Served(guestBuffer[..], ok) ==
        ServedFrom(manifold.View(), lba, sectorCount, 0, virtualCapacityBytes, old(guestBuffer[..]))
      ensures ok <==> forall i :: 0 <= i < sectorCount ==> SectorAddr(lba, i) < virtualCapacityBytes
      ensures var start := (lba * SECTOR) % TWO64;
        if start >= old(highestAccessedVaddr)
        then highestAccessedVaddr == start && preemptionHorizon == (start + (sectorCount * SECTOR) % TWO32) % TWO64
        else highestAccessedVaddr == old(highestAccessedVaddr) && preemptionHorizon == old(preemptionHorizon)
    {
      hide ServedFrom, SectorBytes, SectorIn, LastAt, SectorAddr, Positions, Reach;
      var startVaddr := (lba * SECTOR) % TWO64;
      if startVaddr >= highestAccessedVaddr {
        highestAccessedVaddr := startVaddr;
        preemptionHorizon := (startVaddr + (sectorCount * SECTOR) % TWO32) % TWO64;
      }
      ServedIs(manifold.View(), lba, sectorCount, virtualCapacityBytes, guestBuffer[..]);
      ok := ReadSectors(lba, sectorCount, guestBuffer);
    }

    /** The sector loop of serve_read. */
    method ReadSectors(lba: u64, sectorCount: u32, out: array<u8>) returns (ok: bool)
      requires manifold.Valid() && sectorCount * SECTOR <= out.Length && out != manifold.cachePool
      modifies out
      ensures Served(out[..], ok) ==
        ServedFrom(manifold.View(), lba, sectorCount, 0, virtualCapacityBytes, old(out[..]))
    {
      hide SectorBytes, Spliced;
      ghost var whole := ServedFrom(manifold.View(), lba, sectorCount, 0, virtualCapacityBytes, out[..]);
      for i := 0 to sectorCount
        invariant ServedFrom(manifold.View(), lba, sectorCount, i, virtualCapacityBytes, out[..]) == whole
      {
        var currentLba := (lba + i) % TWO64;
        var vaddr := (currentLba * SECTOR) % TWO64;
        assert vaddr == SectorAddr(lba, i);
        if vaddr >= virtualCapacityBytes {
          return false;
        }
        LastSector(vaddr);
        ReadSector(vaddr, out, (i * SECTOR) % TWO32);
      }
      return true;
    }
  }

  // ---------------------------------------------------------------- what a sector read sees

  lemma CutCell(b: seq<u8>, at: nat, k: nat)
    requires at + 16 * (k + 1) <= |b|
    ensures Cut(b, at, 16 * k) + Cut(b, at + 16 * k, 16) == Cut(b, at, 16 * (k + 1))
  {
  }

  /** Cell j of a sector, as the reader copies it. */
  lemma CellOfResident(c: Cache, a: nat, j: nat)
    requires Shaped(c) && a % SECTOR == 0 && j < 32 && Resident(c, VBlock(a))
    ensures Offset(a) + SECTOR <= BLOCK_BYTES
    ensures CellBytes(Fetched(c, a + 16 * j)) == Cut(Contents(c, VBlock(a)), Offset(a) + 16 * j, 16)
  {
    SectorInBlock(a);
    SectorCell(a, 16 * j);
    FetchedCell(c, a + 16 * j);
    CellBytesFrom(Cut(Contents(c, VBlock(a)), Offset(a) + 16 * j, 16));
  }

  lemma CellOfAbsent(c: Cache, a: nat, j: nat)
    requires Shaped(c) && a % SECTOR == 0 && j < 32 && !Resident(c, VBlock(a))
    ensures CellBytes(Fetched(c, a + 16 * j)) == Zeros(16)
  {
    SectorCell(a, 16 * j);
    FetchedCell(c, a + 16 * j);
    ZeroCell();
  }

  lemma {:induction false} CellsOfResident(c: Cache, a: nat, k: nat, b: seq<u8>, o: nat)
    requires Shaped(c) && a % SECTOR == 0 && k <= 32 && Resident(c, VBlock(a))
    requires b == Contents(c, VBlock(a)) && o == Offset(a) && o + SECTOR <= BLOCK_BYTES
    ensures CellsFrom(c, a, k) == Cut(b, o, 16 * k)
    decreases k
  {
    if k > 0 {
      var j := k - 1;
      CellsOfResident(c, a, j, b, o);
      CellOfResident(c, a, j);
      CellsStep(c, a, j);
      CutCell(b, o, j);
    }
  }

  lemma ZeroCell()
    ensures CellBytes(Value128(0, 0)) == Zeros(16)
  {
    ZeroBytes(8);
    ZerosAppend(8, 8);
  }

  lemma {:induction false} CellsOfAbsent(c: Cache, a: nat, k: nat)
    requires Shaped(c) && a % SECTOR == 0 && k <= 32 && !Resident(c, VBlock(a))
    ensures CellsFrom(c, a, k) == Zeros(16 * k)
    decreases k
  {
    if k > 0 {
      var j := k - 1;
      CellsOfAbsent(c, a, j);
      CellOfAbsent(c, a, j);
      CellsStep(c, a, j);
      ZerosAppend(16 * j, 16);
    }
  }

  /** A sector of a resident block reads as its bytes, one of an absent block as zeros. */
  lemma SectorRead(c: Cache, a: nat)
    requires Shaped(c) && a % SECTOR == 0
    ensures Offset(a) + SECTOR <= BLOCK_BYTES
    ensures SectorBytes(c, a) ==
      if Resident(c, VBlock(a)) then Cut(Contents(c, VBlock(a)), Offset(a), SECTOR) else Zeros(SECTOR)
  {
    SectorInBlock(a);
    if Resident(c, VBlock(a)) {
      CellsOfResident(c, a, 32, Contents(c, VBlock(a)), Offset(a));
    } else {
      CellsOfAbsent(c, a, 32);
    }
  }

  // ---------------------------------------------------------------- reading back a write

  /** A write request of n sectors from a buffer that holds them, below the end of addresses. */
  ghost predicate Request(c: Cache, lba: u64, n: nat, buf: seq<u8>) {
    Shaped(c) && NoDuplicates(c) && n * SECTOR <= |buf| && (lba + n) * SECTOR <= TWO64
  }

  lemma OtherSector(lba: u64, n: nat, i: nat, j: nat)
    requires i < j < n && (lba + n) * SECTOR <= TWO64
    requires VBlock(SectorAddr(lba, i)) == VBlock(SectorAddr(lba, j))
    ensures Offset(SectorAddr(lba, i)) + SECTOR <= Offset(SectorAddr(lba, j))
    ensures VBlock(SectorAddr(lba, j - 1)) == VBlock(SectorAddr(lba, j))
  {
    PlainSector(lba, n, i);
    PlainSector(lba, n, j);
    PlainSector(lba, n, j - 1);
    SectorInBlock(SectorAddr(lba, i));
    SectorInBlock(SectorAddr(lba, j));
    var x, y := lba + i, lba + j;
    assert VBlock(x * SECTOR) == x / 32 && VBlock(y * SECTOR) == y / 32;
    assert VBlock((y - 1) * SECTOR) == (y - 1) / 32;
  }

  lemma SplicedThere(was: seq<u8>, at: nat, src: seq<u8>)
    requires at + |src| <= |was|
    ensures Cut(Spliced(was, at, src), at, |src|) == src
  {
    SplicedSlice(was, at, src);
  }

  /** If its block is resident, sector i holds its data. */
  ghost predicate Kept(r: Cache, lba: u64, buf: seq<u8>, i: nat)
    requires Shaped(r) && (i + 1) * SECTOR <= |buf|
  {
    var a := SectorAddr(lba, i);
    Resident(r, VBlock(a)) ==>
      Offset(a) + SECTOR <= BLOCK_BYTES &&
      Cut(Contents(r, VBlock(a)), Offset(a), SECTOR) == Cut(buf, BufferAt(i), SECTOR)
  }

  lemma KeptLast(c: Cache, lba: u64, i: nat, buf: seq<u8>)
    requires Shaped(c) && NoDuplicates(c) && (i + 1) * SECTOR <= |buf|
    ensures InBlock(SectorAddr(lba, i), SECTOR)
    ensures Kept(Materialized(c, SectorAddr(lba, i), Cut(buf, BufferAt(i), SECTOR)), lba, buf, i)
  {
    var b, data := SectorAddr(lba, i), Cut(buf, BufferAt(i), SECTOR);
    SectorInBlock(b);
    MaterializedBlock(c, b, data);
    SplicedThere(SlotBytes(c, AcquiredSlot(c, VBlock(b))), Offset(b), data);
  }

  lemma KeptEarlier(c: Cache, lba: u64, n: nat, j: nat, buf: seq<u8>, i: nat)
    requires Request(c, lba, n, buf) && i < j < n && Kept(c, lba, buf, i)
    requires Resident(c, VBlock(SectorAddr(lba, j - 1)))
    ensures InBlock(SectorAddr(lba, j), SECTOR)
    ensures Kept(Materialized(c, SectorAddr(lba, j), Cut(buf, BufferAt(j), SECTOR)), lba, buf, i)
  {
    var a, b, data := SectorAddr(lba, i), SectorAddr(lba, j), Cut(buf, BufferAt(j), SECTOR);
    SectorInBlock(a);
    SectorInBlock(b);
    if VBlock(a) != VBlock(b) {
      MaterializedOther(c, b, data, VBlock(a));
    } else {
      OtherSector(lba, n, i, j);
      MaterializedBlock(c, b, data);
      SplicedBeside(Contents(c, VBlock(b)), Offset(b), data, Offset(a), SECTOR);
    }
  }

  lemma SectorWritesStep(c: Cache, lba: u64, n: nat, buf: seq<u8>)
    requires Shaped(c) && (n + 1) * SECTOR <= |buf|
    ensures InBlock(SectorAddr(lba, n), SECTOR)
    ensures Run(c, SectorWrites(lba, n + 1, buf))
         == Materialized(Run(c, SectorWrites(lba, n, buf)), SectorAddr(lba, n), Cut(buf, BufferAt(n), SECTOR))
  {
    SectorInBlock(SectorAddr(lba, n));
    assert SectorWrites(lba, n + 1, buf)[..n] == SectorWrites(lba, n, buf);
  }

  /**
   In any state of the cache: after a write of n sectors, sector i either still holds its data
   or its block has been evicted by the later sectors of the same write.
   */
  lemma {:induction false} SectorKept(c: Cache, lba: u64, n: nat, m: nat, buf: seq<u8>, i: nat)
    requires Request(c, lba, n, buf) && i < m <= n
    ensures Kept(Run(c, SectorWrites(lba, m, buf)), lba, buf, i)
    decreases m
  {
    hide Run, SectorWrites, Kept, Materialized, NoDuplicates, Resident, SectorAddr, BufferAt;
    var j := m - 1;
    var before := Run(c, SectorWrites(lba, j, buf));
    RunNoDuplicates(c, SectorWrites(lba, j, buf));
    SectorWritesStep(c, lba, j, buf);
    if i == j {
      KeptLast(before, lba, j, buf);
    } else {
      SectorKept(c, lba, n, j, buf, i);
      LastSectorResident(c, lba, j, buf);
      KeptEarlier(before, lba, n, j, buf, i);
    }
  }

  lemma LastSectorResident(c: Cache, lba: u64, n: nat, buf: seq<u8>)
    requires Shaped(c) && NoDuplicates(c) && 0 < n && n * SECTOR <= |buf|
    ensures Resident(Run(c, SectorWrites(lba, n, buf)), VBlock(SectorAddr(lba, n - 1)))
  {
    RunNoDuplicates(c, SectorWrites(lba, n - 1, buf));
    SectorWritesStep(c, lba, n - 1, buf);
    MaterializedBlock(Run(c, SectorWrites(lba, n - 1, buf)), SectorAddr(lba, n - 1), Cut(buf, BufferAt(n - 1), SECTOR));
  }

  /** What reading sector i back yields after a write, in any state of the cache. */
  lemma SectorReadBack(c: Cache, lba: u64, n: nat, buf: seq<u8>, i: nat)
    requires Request(c, lba, n, buf) && i < n
    ensures var r := Run(c, SectorWrites(lba, n, buf));
            var a := SectorAddr(lba, i);
            SectorBytes(r, a) == if Resident(r, VBlock(a)) then Cut(buf, BufferAt(i), SECTOR) else Zeros(SECTOR)
  {
    SectorKept(c, lba, n, n, buf, i);
    SectorRead(Run(c, SectorWrites(lba, n, buf)), SectorAddr(lba, i));
  }

  // ---------------------------------------------------------------- positions in the buffer

  /** The 32-bit buffer offset comes round after this many sectors. */
  const WRAP_SECTORS: nat := 0x80_0000

  /** How many sector positions of the buffer a request of n sectors uses. */
  function Positions(n: nat): nat {
    if n < WRAP_SECTORS then n else WRAP_SECTORS
  }

  lemma BufferPosition(i: nat)
    ensures BufferAt(i) == (i % WRAP_SECTORS) * SECTOR
  {
    DivModUnique(i * SECTOR, TWO32, i / WRAP_SECTORS, (i % WRAP_SECTORS) * SECTOR);
  }

  /** The last sector of a request that shares position p. */
  function LastAt(n: nat, p: nat): (i: nat)
    requires p < Positions(n)
  {
    p + (n - 1 - p) / WRAP_SECTORS * WRAP_SECTORS
  }

  lemma LastAtIs(n: nat, p: nat, i: nat)
    requires p < Positions(n) && i < n
    ensures LastAt(n, p) < n && LastAt(n, p) % WRAP_SECTORS == p
    ensures i % WRAP_SECTORS == p ==> i <= LastAt(n, p)
    ensures n <= WRAP_SECTORS ==> LastAt(n, p) == p
  {
    var q := (n - 1 - p) / WRAP_SECTORS;
    DivModUnique(LastAt(n, p), WRAP_SECTORS, q, p);
    if n <= WRAP_SECTORS {
      DivModUnique(n - 1 - p, WRAP_SECTORS, 0, n - 1 - p);
    }
    assert n - 1 - p < (q + 1) * WRAP_SECTORS;
  }

  /** The bytes at position p. */
  function SectorIn(buf: seq<u8>, p: nat): (b: seq<u8>)
    requires (p + 1) * SECTOR <= |buf|
    ensures |b| == SECTOR
  {
    Cut(buf, p * SECTOR, SECTOR)
  }

  /** One sector laid over its position: that position changes, the others stay. */
  lemma SectorLaid(buf: seq<u8>, i: nat, bytes: seq<u8>, p: nat)
    requires (i % WRAP_SECTORS + 1) * SECTOR <= |buf| && (p + 1) * SECTOR <= |buf| && |bytes| == SECTOR
    ensures BufferAt(i) + SECTOR <= |buf|
    ensures SectorIn(Spliced(buf, BufferAt(i), bytes), p) == if i % WRAP_SECTORS == p then bytes else SectorIn(buf, p)
  {
    BufferPosition(i);
    if i % WRAP_SECTORS == p {
      SplicedThere(buf, BufferAt(i), bytes);
    } else {
      SplicedBeside(buf, BufferAt(i), bytes, p * SECTOR, SECTOR);
    }
  }

  /** The sectors of a request from i on all lie below the capacity. */
  ghost predicate Below(lba: u64, n: nat, i: nat, capacity: u64) {
    forall k :: i <= k < n ==> SectorAddr(lba, k) < capacity
  }

  lemma BelowNext(lba: u64, n: nat, i: nat, capacity: u64)
    requires Below(lba, n, i, capacity) && i < n
    ensures SectorAddr(lba, i) < capacity && Below(lba, n, i + 1, capacity)
  {
  }

  lemma WithinCapacity(lba: u64, n: nat, capacity: u64)
    requires (lba + n) * SECTOR <= capacity
    ensures Below(lba, n, 0, capacity)
  {
    hide SectorAddr;
    forall k | 0 <= k < n
      ensures SectorAddr(lba, k) < capacity
    {
      PlainSector(lba, n, k);
    }
  }

  /** One turn of a read below the capacity. */
  lemma ServedStep(c: Cache, lba: u64, n: nat, i: nat, capacity: u64, buf: seq<u8>)
    requires Shaped(c) && i < n && n * SECTOR <= |buf| && SectorAddr(lba, i) < capacity
    ensures ServedFrom(c, lba, n, i, capacity, buf)
         == ServedFrom(c, lba, n, i + 1, capacity, Spliced(buf, BufferAt(i), SectorBytes(c, SectorAddr(lba, i))))
  {
  }

  lemma ServedStop(c: Cache, lba: u64, n: nat, i: nat, capacity: u64, buf: seq<u8>)
    requires Shaped(c) && i < n && n * SECTOR <= |buf| && SectorAddr(lba, i) >= capacity
    ensures ServedFrom(c, lba, n, i, capacity, buf) == Served(buf, false)
  {
  }

  lemma ServedEnd(c: Cache, lba: u64, n: nat, capacity: u64, buf: seq<u8>)
    requires Shaped(c) && n * SECTOR <= |buf|
    ensures ServedFrom(c, lba, n, n, capacity, buf) == Served(buf, true)
  {
  }

  /** Below the capacity a read succeeds, and the last sector that shares a position decides it. */
  lemma {:induction false} ServedWithin(c: Cache, lba: u64, n: nat, i: nat, capacity: u64, buf: seq<u8>, p: nat)
    requires Shaped(c) && i <= n && n * SECTOR <= |buf| && Below(lba, n, i, capacity) && p < Positions(n)
    ensures var s := ServedFrom(c, lba, n, i, capacity, buf);
      && s.ok
      && SectorIn(s.buf, p) ==
           if LastAt(n, p) >= i then SectorBytes(c, SectorAddr(lba, LastAt(n, p))) else SectorIn(buf, p)
    decreases n - i
  {
    hide ServedFrom, SectorBytes, Spliced, Shaped, SectorIn, BufferAt, LastAt, SectorAddr, Below;
    if i == n {
      ServedEnd(c, lba, n, capacity, buf);
      LastAtIs(n, p, n - 1);
    } else {
      BelowNext(lba, n, i, capacity);
      ServedStep(c, lba, n, i, capacity, buf);
      SectorLaid(buf, i, SectorBytes(c, SectorAddr(lba, i)), p);
      ServedWithin(c, lba, n, i + 1, capacity, Spliced(buf, BufferAt(i), SectorBytes(c, SectorAddr(lba, i))), p);
      LastAtIs(n, p, i);
    }
  }

  /** Bytes behind the positions that a request uses stay as they were. */
  lemma {:induction false} ServedBeyond(c: Cache, lba: u64, n: nat, i: nat, capacity: u64, buf: seq<u8>, k: nat)
    requires Shaped(c) && i <= n && n * SECTOR <= |buf| && Below(lba, n, i, capacity)
    requires Positions(n) * SECTOR <= k < |buf|
    ensures ServedFrom(c, lba, n, i, capacity, buf).buf[k] == buf[k]
    decreases n - i
  {
    hide ServedFrom, SectorBytes, Spliced, Shaped, SectorAddr, Below;
    if i == n {
      ServedEnd(c, lba, n, capacity, buf);
    } else {
      BelowNext(lba, n, i, capacity);
      ServedStep(c, lba, n, i, capacity, buf);
      BufferPosition(i);
      SplicedAt(buf, BufferAt(i), SectorBytes(c, SectorAddr(lba, i)), k);
      ServedBeyond(c, lba, n, i + 1, capacity, Spliced(buf, BufferAt(i), SectorBytes(c, SectorAddr(lba, i))), k);
    }
  }

  /** The first sector from i on that does not lie below the capacity, or n. */
  function Reach(lba: u64, n: nat, i: nat, capacity: u64): (j: nat)
    requires i <= n
    ensures i <= j <= n && (forall k :: i <= k < j ==> SectorAddr(lba, k) < capacity)
    ensures j < n ==> SectorAddr(lba, j) >= capacity
    decreases n - i
  {
    if i == n || SectorAddr(lba, i) >= capacity then i else Reach(lba, n, i + 1, capacity)
  }

  lemma ReachNext(lba: u64, n: nat, i: nat, capacity: u64)
    requires i < n
    ensures Reach(lba, n, i, capacity) == if SectorAddr(lba, i) >= capacity then i else Reach(lba, n, i + 1, capacity)
  {
  }

  /** A read does what the sectors before the first one beyond the capacity do. */
  lemma {:induction false} ServedUpTo(c: Cache, lba: u64, n: nat, i: nat, capacity: u64, buf: seq<u8>)
    requires Shaped(c) && i <= n && n * SECTOR <= |buf|
    ensures ServedFrom(c, lba, n, i, capacity, buf) ==
      var j := Reach(lba, n, i, capacity); Served(ServedFrom(c, lba, j, i, capacity, buf).buf, j == n)
    decreases n - i
  {
    hide ServedFrom, SectorBytes, Spliced, Shaped, SectorAddr, Reach;
    var j := Reach(lba, n, i, capacity);
    if i == n {
      ServedEnd(c, lba, n, capacity, buf);
    } else if SectorAddr(lba, i) >= capacity {
      ReachNext(lba, n, i, capacity);
      ServedStop(c, lba, n, i, capacity, buf);
      ServedEnd(c, lba, i, capacity, buf);
    } else {
      ReachNext(lba, n, i, capacity);
      ServedStep(c, lba, n, i, capacity, buf);
      ServedStep(c, lba, j, i, capacity, buf);
      ServedUpTo(c, lba, n, i + 1, capacity, Spliced(buf, BufferAt(i), SectorBytes(c, SectorAddr(lba, i))));
    }
  }

  /**
   Any read request: it succeeds exactly if every sector lies below the capacity. With j the first
   that does not, each position that the sectors before j use holds the last of them that shares
   it, and every byte behind these positions stays; for j = 0 the whole buffer does.
   */
  lemma ServedIs(c: Cache, lba: u64, n: nat, capacity: u64, buf: seq<u8>)
    requires Shaped(c) && n * SECTOR <= |buf|
    ensures var s, j := ServedFrom(c, lba, n, 0, capacity, buf), Reach(lba, n, 0, capacity);
      && (s.ok <==> forall i :: 0 <= i < n ==> SectorAddr(lba, i) < capacity)
      && (s.ok <==> j == n)
      && s.buf == ServedFrom(c, lba, j, 0, capacity, buf).buf
      && (forall p :: 0 <= p < Positions(j) ==>
            SectorIn(s.buf, p) == SectorBytes(c, SectorAddr(lba, LastAt(j, p))))
      && (forall k :: Positions(j) * SECTOR <= k < |buf| ==> s.buf[k] == buf[k])
      && (j == 0 ==> s.buf == buf)
  {
    hide ServedFrom, SectorBytes, SectorIn, LastAt, SectorAddr;
    var s, j := ServedFrom(c, lba, n, 0, capacity, buf), Reach(lba, n, 0, capacity);
    ServedUpTo(c, lba, n, 0, capacity, buf);
    forall p | 0 <= p < Positions(j)
      ensures SectorIn(s.buf, p) == SectorBytes(c, SectorAddr(lba, LastAt(j, p)))
    {
      ServedWithin(c, lba, j, 0, capacity, buf, p);
    }
    forall k | Positions(j) * SECTOR <= k < |buf|
      ensures s.buf[k] == buf[k]
    {
      ServedBeyond(c, lba, j, 0, capacity, buf, k);
    }
  }

  /** Two buffers agree on the first m positions exactly if they agree on each of them. */
  lemma SamePositions(a: seq<u8>, b: seq<u8>, m: nat)
    requires m * SECTOR <= |a| && m * SECTOR <= |b|
    ensures Cut(a, 0, m * SECTOR) == Cut(b, 0, m * SECTOR) <==>
            forall p :: 0 <= p < m ==> SectorIn(a, p) == SectorIn(b, p)
  {
    if Cut(a, 0, m * SECTOR) == Cut(b, 0, m * SECTOR) {
      forall p | 0 <= p < m
        ensures SectorIn(a, p) == SectorIn(b, p)
      {
        CutCut(a, 0, m * SECTOR, p * SECTOR, SECTOR);
        CutCut(b, 0, m * SECTOR, p * SECTOR, SECTOR);
      }
    }
    if forall p :: 0 <= p < m ==> SectorIn(a, p) == SectorIn(b, p) {
      forall k | 0 <= k < m * SECTOR
        ensures Cut(a, 0, m * SECTOR)[k] == Cut(b, 0, m * SECTOR)[k]
      {
        SameByte(a, b, m, k);
      }
    }
  }

  lemma SameByte(a: seq<u8>, b: seq<u8>, m: nat, k: nat)
    requires k < m * SECTOR <= |a| && m * SECTOR <= |b|
    requires SectorIn(a, k / SECTOR) == SectorIn(b, k / SECTOR)
    ensures Cut(a, 0, m * SECTOR)[k] == Cut(b, 0, m * SECTOR)[k]
  {
    hide Cut;
    CutAt(a, k / SECTOR * SECTOR, SECTOR, k % SECTOR);
    CutAt(b, k / SECTOR * SECTOR, SECTOR, k % SECTOR);
    CutAt(a, 0, m * SECTOR, k);
    CutAt(b, 0, m * SECTOR, k);
  }

  /** The sector that decides position p survived, or nobody can tell because it was all zeros. */
  ghost predicate Intact(r: Cache, lba: u64, n: nat, buf: seq<u8>, p: nat)
    requires Shaped(r) && p < Positions(n) && n * SECTOR <= |buf|
  {
    Resident(r, VBlock(SectorAddr(lba, LastAt(n, p)))) || SectorIn(buf, p) == Zeros(SECTOR)
  }

  /** A position comes back exactly if the sector that decides it is intact. */
  lemma PositionReadBack(c: Cache, lba: u64, n: nat, capacity: u64, buf: seq<u8>, guest: seq<u8>, p: nat)
    requires Request(c, lba, n, buf) && n * SECTOR <= |guest| && (lba + n) * SECTOR <= capacity && p < Positions(n)
    ensures var r := Run(c, SectorWrites(lba, n, buf));
            SectorIn(ServedFrom(r, lba, n, 0, capacity, guest).buf, p) == SectorIn(buf, p)
            <==> Intact(r, lba, n, buf, p)
  {
    hide ServedFrom, SectorWrites, Run, LastAt, SectorBytes, Resident;
    var r := Run(c, SectorWrites(lba, n, buf));
    LastAtIs(n, p, n - 1);
    WithinCapacity(lba, n, capacity);
    ServedWithin(r, lba, n, 0, capacity, guest, p);
    SectorReadBack(c, lba, n, buf, LastAt(n, p));
    BufferPosition(LastAt(n, p));
  }

  /**
   Writing n sectors and reading them back, in any state: the read succeeds, a position of the
   buffer comes back exactly if the last sector that shares it is intact, and what lies behind the
   positions used is not touched.
   */
  lemma ReadBackIff(c: Cache, lba: u64, n: nat, capacity: u64, buf: seq<u8>, guest: seq<u8>)
    requires Request(c, lba, n, buf) && n * SECTOR <= |guest| && (lba + n) * SECTOR <= capacity
    ensures var r := Run(c, SectorWrites(lba, n, buf));
            var s := ServedFrom(r, lba, n, 0, capacity, guest);
            var m := Positions(n);
            && s.ok
            && (Cut(s.buf, 0, m * SECTOR) == Cut(buf, 0, m * SECTOR) <==>
                forall p :: 0 <= p < m ==> Intact(r, lba, n, buf, p))
            && (forall k :: m * SECTOR <= k < |guest| ==> s.buf[k] == guest[k])
  {
    hide SectorWrites, Run, LastAt, SectorIn, Intact, Cut, ServedFrom;
    var r, m := Run(c, SectorWrites(lba, n, buf)), Positions(n);
    var s := ServedFrom(r, lba, n, 0, capacity, guest);
    WithinCapacity(lba, n, capacity);
    if n == 0 {
      ServedEnd(r, lba, 0, capacity, guest);
    } else {
      ServedWithin(r, lba, n, 0, capacity, guest, 0);
    }
    forall p | 0 <= p < m
      ensures SectorIn(s.buf, p) == SectorIn(buf, p) <==> Intact(r, lba, n, buf, p)
    {
      PositionReadBack(c, lba, n, capacity, buf, guest, p);
    }
    forall k | m * SECTOR <= k < |guest|
      ensures s.buf[k] == guest[k]
    {
      ServedBeyond(r, lba, n, 0, capacity, guest, k);
    }
    SamePositions(s.buf, buf, m);
  }

  /** 32769 sectors in a row touch more than 1024 blocks. */
  lemma SectorLimit(lba: u64, n: nat, buf: seq<u8>)
    requires n * SECTOR <= |buf| && (lba + n) * SECTOR <= TWO64
    requires |Touched(SectorWrites(lba, n, buf))| <= CACHE_POOL_SIZE
    ensures n <= 0x8000
  {
    if n > 0x8000 {
      var ops, first := SectorWrites(lba, n, buf), lba / 32;
      var h := seq(CACHE_POOL_SIZE + 1, k requires 0 <= k <= CACHE_POOL_SIZE => first + k);
      forall k | 0 <= k < |h|
        ensures h[k] in Touched(ops)
      {
        var i := if k == 0 then 0 else 32 * (first + k) - lba;
        SectorWriteAt(lba, n, buf, i);
        PlainSector(lba, n, i);
        assert VBlock((lba + i) * SECTOR) == (lba + i) / 32;
        assert VBlock(ops[i].vaddr) == h[k];
      }
      DistinctCount(h, Touched(ops));
    }
  }

  /** Into absent blocks, at most 1024 of them, a write reads back whole. */
  lemma WriteThenRead(c: Cache, lba: u64, n: nat, capacity: u64, buf: seq<u8>, guest: seq<u8>)
    requires n * SECTOR <= |buf| && n * SECTOR <= |guest| && (lba + n) * SECTOR <= capacity
    requires Fits(c, SectorWrites(lba, n, buf), Touched(SectorWrites(lba, n, buf)))
    ensures var r := Run(c, SectorWrites(lba, n, buf));
            var s := ServedFrom(r, lba, n, 0, capacity, guest);
            s.ok && Cut(s.buf, 0, n * SECTOR) == Cut(buf, 0, n * SECTOR)
  {
    hide Run, ServedFrom, SectorWrites, LastAt, Cut;
    var ops := SectorWrites(lba, n, buf);
    SectorLimit(lba, n, buf);
    ReadBackIff(c, lba, n, capacity, buf, guest);
    forall p | 0 <= p < n
      ensures Intact(Run(c, ops), lba, n, buf, p)
    {
      LastAtIs(n, p, p);
      BurstResident(c, ops, Touched(ops), p);
      SectorWriteAt(lba, n, buf, p);
    }
  }

  lemma NothingWritten(c: Cache, lba: u64, buf: seq<u8>)
    requires Shaped(c)
    ensures Run(c, SectorWrites(lba, 0, buf)) == c
  {
  }
}
