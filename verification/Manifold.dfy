/** The substrate manifold: the cache updated in place. */
module Manifold {
  import opened Bits
  import opened Memory
  import opened Mixing
  import opened ManifoldModel

  class SubstrateManifold {
    const cachePool: array<u8>
    const cacheState: array<BlockState>
    const vblockMap: array<nat>
    var vblockCounter: u32

    ghost predicate Valid()
      reads this, cacheState, vblockMap, cachePool
    {
      cachePool.Length == POOL_BYTES && cacheState.Length == vblockMap.Length == CACHE_POOL_SIZE
    }

    ghost function View(): (c: Cache)
      requires Valid()
      reads this, cachePool, cacheState, vblockMap
      ensures Shaped(c)
    {
      Cache(cacheState[..], vblockMap[..], vblockCounter, cachePool[..])
    }

    /** The pool comes from the page allocator with whatever bytes it holds. */
    constructor (pool: array<u8>)
      requires pool.Length == POOL_BYTES
      ensures Valid() && cachePool == pool && fresh(cacheState) && fresh(vblockMap)
      ensures View().counter == 0 && View().pool == pool[..]
      ensures forall i :: 0 <= i < CACHE_POOL_SIZE ==> View().state[i] == EMPTY
    {
      cachePool := pool;
      cacheState := new BlockState[CACHE_POOL_SIZE](_ => EMPTY);
      vblockMap := new nat[CACHE_POOL_SIZE](_ => 0);
      vblockCounter := 0;
    }

    /** get_physical_block without create: the search alone, which changes nothing. */
    method FindPhysicalBlock(vblock: nat) returns (phys: nat)
      requires Valid()
      ensures phys == SlotOf(View(), vblock)
    {
      ghost var c := View();
      for i := 0 to CACHE_POOL_SIZE
        invariant SlotOf(c, vblock) == FirstSlot(c, vblock, i)
      {
        if cacheState[i] != EMPTY && vblockMap[i] == vblock {
          assert Maps(c, i, vblock);
          return i;
        }
        assert !Maps(c, i, vblock);
      }
      return CACHE_POOL_SIZE;
    }

    /** get_physical_block with create: an absent block takes the victim slot. */
    method GetPhysicalBlock(vblock: nat) returns (phys: nat)
      requires Valid()
      modifies this, cacheState, vblockMap
      ensures Valid()
      ensures View() == Acquired(old(View()), vblock)
      ensures phys == AcquiredSlot(old(View()), vblock)
    {
      ghost var c := View();
      phys := FindPhysicalBlock(vblock);
      if phys < CACHE_POOL_SIZE {
        return;
      }
      var victim := vblockCounter % CACHE_POOL_SIZE;
      vblockMap[victim] := vblock;
      cacheState[victim] := RESIDENT;
      vblockCounter := (vblockCounter + 1) % TWO32;
      assert View() == Created(c, vblock);
      return victim;
    }

    method HolographicFetch(vaddr: u64) returns (v: Value128)
      requires Valid()
      ensures v == Fetched(View(), vaddr)
    {
      var phys := FindPhysicalBlock(VBlock(vaddr));
      if phys == CACHE_POOL_SIZE {
        return Value128(0, 0);
      }
      var at := phys * BLOCK_BYTES + Offset(vaddr);
      assert cachePool[at..at + 16] == Cut(View().pool, at, 16);
      return CellFrom(cachePool[at..at + 16]);
    }

    /** Copies data from the addressed cell on; the copy must not leave the pool. */
    method MaterializeRange(vaddr: u64, data: seq<u8>)
      requires Valid() && FitsPool(View(), vaddr, |data|)
      modifies this, cacheState, vblockMap, cachePool
      ensures Valid() && View() == CopiedOver(old(View()), vaddr, data)
    {
      var phys := GetPhysicalBlock(VBlock(vaddr));
      CopyBytes(data, cachePool, phys * BLOCK_BYTES + Offset(vaddr));
    }

    method ClearSlot(slot: u16)
      requires Valid()
      modifies cacheState
      ensures Valid() && View() == SlotCleared(old(View()), slot)
    {
      var phys := slot % CACHE_POOL_SIZE;
      cacheState[phys] := EMPTY;
      assert View() == SlotCleared(old(View()), slot);
    }

    method ReadSlot(slot: u16, out: array<u8>, maxLen: nat) returns (n: nat)
      requires Valid() && maxLen <= out.Length && out != cachePool
      modifies out
      ensures n == |SlotRead(View(), slot, maxLen)|
      ensures out[..] == Spliced(old(out[..]), 0, SlotRead(View(), slot, maxLen))
    {
      var phys := slot % CACHE_POOL_SIZE;
      if cacheState[phys] == EMPTY {
        SplicedNothing(out[..], 0);
        return 0;
      }
      n := if maxLen < 16 then maxLen else 16;
      var at := phys * BLOCK_BYTES;
      assert cachePool[at..at + n] == SlotRead(View(), slot, maxLen);
      CopyBytes(cachePool[at..at + n], out, 0);
    }

    method WriteSlot(slot: u16, data: seq<u8>) returns (n: nat)
      requires Valid()
      modifies cacheState, cachePool
      ensures Valid() && View() == SlotWritten(old(View()), slot, data)
      ensures n == if |data| < 16 then |data| else 16
    {
      var phys := slot % CACHE_POOL_SIZE;
      cacheState[phys] := RESIDENT;
      n := if |data| < 16 then |data| else 16;
      CopyBytes(data[..n], cachePool, phys * BLOCK_BYTES);
    }

    /** Asks about a slot of the pool, whatever its name says. */
    method IsBlockResident(index: u32) returns (yes: bool)
      requires Valid()
      ensures yes <==> index < CACHE_POOL_SIZE && View().state[index] == RESIDENT
    {
      if index >= CACHE_POOL_SIZE {
        return false;
      }
      return cacheState[index] == RESIDENT;
    }
  }
}
