/**
 Which blocks of a write request are still resident when the request ends, and so which sectors
 can be read back, told from the state of the cache before the request.
 */
module RequestResidency {
  import opened Bits
  import opened Memory
  import opened ManifoldModel
  import opened ManifoldRuns
  import opened Deadlines
  import opened BlockSweep
  import opened SubstrateService

  /** The block of sector i, counted from the first block of the request. */
  function BlockTurn(lba: nat, i: nat): nat {
    (lba + i) / 32 - lba / 32
  }

  /** How many blocks the first n sectors touch. */
  function BlocksTouched(lba: nat, n: nat): nat {
    if n == 0 then 0 else BlockTurn(lba, n - 1) + 1
  }

  lemma SectorBlock(lba: u64, n: nat, i: nat)
    requires i < n && (lba + n) * SECTOR <= TWO64
    ensures VBlock(SectorAddr(lba, i)) == lba / 32 + BlockTurn(lba, i)
  {
    PlainSector(lba, n, i);
    assert ((lba + i) * SECTOR) / BLOCK_BYTES == (lba + i) / 32;
  }

  lemma TurnStep(lba: nat, n: nat)
    ensures n > 0 ==> BlockTurn(lba, n) == BlockTurn(lba, n - 1) || BlockTurn(lba, n) == BlockTurn(lba, n - 1) + 1
    ensures BlockTurn(lba, 0) == 0
  {
  }

  lemma TurnBelow(lba: nat, n: nat, i: nat)
    requires i < n
    ensures BlockTurn(lba, i) < BlocksTouched(lba, n)
  {
  }

  // ---------------------------------------------------------------- the directory

  lemma FoundAgain(c: Cache, v: nat)
    requires Shaped(c) && Resident(c, v)
    ensures Acquired(c, v) == c
  {
  }

  lemma SweptNext(c: Cache, v0: nat, t: nat)
    requires Shaped(c)
    ensures Swept(c, v0, t + 1) == Acquired(Swept(c, v0, t), v0 + t)
    ensures Swept(c, v0, 0) == c
  {
    hide Taken;
    NothingTaken(c);
    NextAccess(c, Range(v0, t), v0 + t, 0);
  }

  lemma SweptNoDuplicates(c: Cache, v0: nat, t: nat)
    requires Shaped(c) && NoDuplicates(c)
    ensures NoDuplicates(Swept(c, v0, t))
  {
    TakenTracks(c, Range(v0, t), 0);
  }

  /** The next sector of a request takes in its block, whether the sweep has reached it or not. */
  lemma SweepNext(c: Cache, lba: u64, n: nat, buf: seq<u8>)
    requires n > 0 && Request(c, lba, n, buf)
    requires SameDirectory(Swept(c, lba / 32, BlocksTouched(lba, n - 1)), Run(c, SectorWrites(lba, n - 1, buf)))
    ensures Swept(c, lba / 32, BlocksTouched(lba, n))
         == Acquired(Swept(c, lba / 32, BlocksTouched(lba, n - 1)), VBlock(SectorAddr(lba, n - 1)))
  {
    hide Swept, Run, SectorWrites, NoDuplicates, Acquired, Materialized, SectorAddr, BlockTurn, SameDirectory, Resident;
    var v0, m := lba / 32, BlocksTouched(lba, n - 1);
    TurnStep(lba, n - 1);
    SectorBlock(lba, n, n - 1);
    if BlocksTouched(lba, n) == m {
      LastSectorResident(c, lba, n - 1, buf);
      SectorBlock(lba, n, n - 2);
      SweptNoDuplicates(c, v0, m);
      SameResidents(Swept(c, v0, m), Run(c, SectorWrites(lba, n - 1, buf)), VBlock(SectorAddr(lba, n - 1)));
      FoundAgain(Swept(c, v0, m), VBlock(SectorAddr(lba, n - 1)));
    } else {
      SweptNext(c, v0, m);
    }
  }

  /** A write request sweeps over its blocks. */
  lemma {:induction false} RequestSweeps(c: Cache, lba: u64, n: nat, buf: seq<u8>)
    requires Request(c, lba, n, buf)
    ensures SameDirectory(Swept(c, lba / 32, BlocksTouched(lba, n)), Run(c, SectorWrites(lba, n, buf)))
    decreases n
  {
    hide Swept, Run, SectorWrites, NoDuplicates, Acquired, Materialized, SectorAddr, BlockTurn, SameDirectory;
    if n == 0 {
      SweptNext(c, lba / 32, 0);
      NothingWritten(c, lba, buf);
      SameAsItself(c);
    } else {
      var m := BlocksTouched(lba, n - 1);
      RequestSweeps(c, lba, n - 1, buf);
      SweepNext(c, lba, n, buf);
      SectorWritesStep(c, lba, n - 1, buf);
      SweptNoDuplicates(c, lba / 32, m);
      WriteDirectory(Swept(c, lba / 32, m), Run(c, SectorWrites(lba, n - 1, buf)),
                     Write(SectorAddr(lba, n - 1), Cut(buf, BufferAt(n - 1), SECTOR)));
    }
  }

  lemma SameAsItself(c: Cache)
    ensures SameDirectory(c, c)
  {
  }

  // ---------------------------------------------------------------- the exact condition

  /** Whether the block of sector i is resident at the end of a request, in terms of the state before. */
  predicate SectorSurvives(c: Cache, lba: u64, n: nat, i: nat)
    requires Shaped(c)
  {
    Survives(c, lba / 32, BlocksTouched(lba, n), BlockTurn(lba, i))
  }

  lemma SectorResidentIff(c: Cache, lba: u64, n: nat, buf: seq<u8>, i: nat)
    requires Request(c, lba, n, buf) && i < n
    ensures Resident(Run(c, SectorWrites(lba, n, buf)), VBlock(SectorAddr(lba, i))) <==> SectorSurvives(c, lba, n, i)
  {
    hide Swept, Run, SectorWrites, NoDuplicates, SectorAddr, BlockTurn, SameDirectory, Survives, Resident, SlotOf;
    var v0, m := lba / 32, BlocksTouched(lba, n);
    RequestSweeps(c, lba, n, buf);
    SectorBlock(lba, n, i);
    TurnBelow(lba, n, i);
    SweptNoDuplicates(c, v0, m);
    SweptIff(c, v0, m, BlockTurn(lba, i));
    SameResidents(Swept(c, v0, m), Run(c, SectorWrites(lba, n, buf)), v0 + BlockTurn(lba, i));
  }

  /**
   From any state of the cache, and for any number of sectors: a write that is read back within
   capacity succeeds and returns what was written exactly if, for every position of the buffer, the
   block of the last sector that shares the position survives the request, or the bytes there are
   zeros. Up to 2^23 sectors every sector has a position of its own.
   */
  lemma WriteReadIff(c: Cache, lba: u64, n: nat, capacity: u64, buf: seq<u8>, guest: seq<u8>)
    requires Request(c, lba, n, buf) && n * SECTOR <= |guest| && (lba + n) * SECTOR <= capacity
    ensures var s := ServedFrom(Run(c, SectorWrites(lba, n, buf)), lba, n, 0, capacity, guest);
            var m := Positions(n);
            && s.ok
            && (Cut(s.buf, 0, m * SECTOR) == Cut(buf, 0, m * SECTOR) <==>
                forall p :: 0 <= p < m ==>
                  SectorSurvives(c, lba, n, LastAt(n, p)) || SectorIn(buf, p) == Zeros(SECTOR))
            && (forall k :: m * SECTOR <= k < |guest| ==> s.buf[k] == guest[k])
    ensures n <= WRAP_SECTORS ==> Positions(n) == n && forall p :: 0 <= p < n ==> LastAt(n, p) == p
  {
    hide Run, SectorWrites, ServedFrom, Cut, SectorSurvives, LastAt, SectorIn;
    var r, m := Run(c, SectorWrites(lba, n, buf)), Positions(n);
    ReadBackIff(c, lba, n, capacity, buf, guest);
    forall p | 0 <= p < m
      ensures Intact(r, lba, n, buf, p) <==>
              SectorSurvives(c, lba, n, LastAt(n, p)) || SectorIn(buf, p) == Zeros(SECTOR)
      ensures n <= WRAP_SECTORS ==> LastAt(n, p) == p
    {
      LastAtIs(n, p, n - 1);
      SectorResidentIff(c, lba, n, buf, LastAt(n, p));
    }
    hide Intact;
    assert (forall p :: 0 <= p < m ==> Intact(r, lba, n, buf, p)) <==>
           forall p :: 0 <= p < m ==> SectorSurvives(c, lba, n, LastAt(n, p)) || SectorIn(buf, p) == Zeros(SECTOR);
  }

  /**
   A first block that is already resident is lost exactly if the request creates more blocks than
   its slot is away from the victim slot.
   */
  lemma FirstBlockLostIff(c: Cache, lba: u64, n: nat, buf: seq<u8>)
    requires Request(c, lba, n, buf) && n > 0 && Resident(c, lba / 32)
    ensures !Resident(Run(c, SectorWrites(lba, n, buf)), lba / 32)
      <==> Distance(c, lba / 32) < CreationCount(c, lba / 32, BlocksTouched(lba, n))
  {
    hide Run, SectorWrites, NoDuplicates, SectorAddr, Distance;
    SectorBlock(lba, n, 0);
    SectorResidentIff(c, lba, n, buf, 0);
    FirstIsHit(c, lba / 32);
  }

  lemma FirstIsHit(c: Cache, v: nat)
    requires Shaped(c) && Resident(c, v)
    ensures Hit(c, v, 0) && SlotOf(c, v) < CACHE_POOL_SIZE
  {
  }

  /**
   Residency before the write does not help but harms: if the first of two consecutive blocks
   sits in the victim slot and the second is absent, writing both loses the first.
   */
  lemma ResidentBlockLost(c: Cache, buf: seq<u8>)
    requires Shaped(c) && NoDuplicates(c) && 33 * SECTOR <= |buf|
    requires Maps(c, Victim(c), 0) && !Resident(c, 1)
    ensures !Resident(Run(c, SectorWrites(0, 33, buf)), 0)
  {
    hide Run, SectorWrites;
    SlotUnique(c, 0, Victim(c));
    FirstBlockLostIff(c, 0, 33, buf);
    FirstIsHit(c, 0);
    assert CreationCount(c, 0, 1) == 0;
    assert CreationCount(c, 0, 2) == 1;
  }
}
