/**
 The block cache as a value: 1024 slots over one flat pool of bytes, filled first in, first out
 by a 32-bit counter.
 */
module ManifoldModel {
  import opened Bits
  import opened Memory
  import opened Mixing

  const CACHE_POOL_SIZE: nat := 1024
  const BLOCK_BYTES: nat := 16384
  const POOL_BYTES: nat := 0x100_0000

  datatype BlockState = EMPTY | RESIDENT | DIRTY

  datatype Cache = Cache(state: seq<BlockState>, vmap: seq<nat>, counter: u32, pool: seq<u8>)

  ghost predicate Shaped(c: Cache) {
    |c.state| == |c.vmap| == CACHE_POOL_SIZE && |c.pool| == POOL_BYTES
  }

  // ---------------------------------------------------------------- addresses and cells

  function VBlock(vaddr: nat): nat {
    vaddr / BLOCK_BYTES
  }

  /** Byte offset of the 16-byte cell that an address falls in, within its block. */
  function Offset(vaddr: nat): (o: nat)
    ensures o % 16 == 0 && o + 16 <= BLOCK_BYTES
  {
    ((vaddr / 16) % 1024) * 16
  }

  predicate InBlock(vaddr: nat, len: nat) {
    Offset(vaddr) + len <= BLOCK_BYTES
  }

  /** Atoms lie in the pool with hi first. */
  function CellBytes(v: Value128): (b: seq<u8>)
    ensures |b| == 16
  {
    LeBytes(v.hi, 8) + LeBytes(v.lo, 8)
  }

  /** The ten bits of a route. */
  function Route(v: Value128): (r: nat)
    ensures r < LENS_COUNT
  {
    Shr(v.hi, 54) % LENS_COUNT
  }

  /** The route as a quotient: bits 54 to 63 of hi. */
  lemma RouteIs(v: Value128)
    ensures Route(v) == v.hi / 0x40_0000_0000_0000
  {
    hide Pow2, Shr;
    Pow2Values();
    Pow2Add(8, 2);
    Pow2Add(54, 10);
    assert Pow2(54) == 0x40_0000_0000_0000;
    ShrIsDiv(v.hi, 54, 0x40_0000_0000_0000);
  }

  /** An address is its block, its cell in the block and its byte in the cell. */
  lemma AddressSplit(vaddr: nat)
    ensures vaddr == 16384 * VBlock(vaddr) + Offset(vaddr) + vaddr % 16
    ensures Offset(vaddr) % 16 == 0 && Offset(vaddr) < 16384
  {
    DivModUnique(vaddr, BLOCK_BYTES, vaddr / 16 / 1024, (vaddr / 16) % 1024 * 16 + vaddr % 16);
  }

  /** Byte b of a cell in the pool: hi, then lo, least significant byte first. */
  lemma CellByteAt(v: Value128, b: nat)
    requires b < 16
    ensures CellBytes(v)[b] == if b < 8 then Shr(v.hi, 8 * b) % 0x100 else Shr(v.lo, 8 * (b - 8)) % 0x100
  {
    hide LeBytes, Shr;
    if b < 8 {
      LeBytesAt(v.hi, 8, b);
    } else {
      LeBytesAt(v.lo, 8, b - 8);
    }
  }

  function CellFrom(b: seq<u8>): Value128
    requires |b| == 16
  {
    FromLeBound(b[..8]);
    FromLeBound(b[8..]);
    Pow2Values();
    Value128(FromLe(b[..8]), FromLe(b[8..]))
  }

  lemma CellFromBytes(v: Value128)
    ensures CellFrom(CellBytes(v)) == v
  {
    Pow2Values();
    FromLeOfLeBytes(v.hi, 8);
    FromLeOfLeBytes(v.lo, 8);
    assert CellBytes(v)[..8] == LeBytes(v.hi, 8) && CellBytes(v)[8..] == LeBytes(v.lo, 8);
  }

  lemma CellBytesFrom(b: seq<u8>)
    requires |b| == 16
    ensures CellBytes(CellFrom(b)) == b
  {
    LeBytesOfFromLe(b[..8]);
    LeBytesOfFromLe(b[8..]);
    assert b == b[..8] + b[8..];
  }

  // ---------------------------------------------------------------- lookup

  predicate Maps(c: Cache, i: nat, v: nat)
    requires |c.state| == |c.vmap|
  {
    i < |c.state| && c.state[i] != EMPTY && c.vmap[i] == v
  }

  ghost predicate Resident(c: Cache, v: nat)
    requires Shaped(c)
  {
    exists i :: 0 <= i < CACHE_POOL_SIZE && Maps(c, i, v)
  }

  /** No two occupied slots hold the same block. */
  ghost predicate NoDuplicates(c: Cache)
    requires Shaped(c)
  {
    forall i, j :: 0 <= i < j < CACHE_POOL_SIZE && c.state[i] != EMPTY && c.state[j] != EMPTY ==>
      c.vmap[i] != c.vmap[j]
  }

  /** The first slot from i on that maps v; CACHE_POOL_SIZE if there is none. */
  function FirstSlot(c: Cache, v: nat, i: nat): (s: nat)
    requires Shaped(c) && i <= CACHE_POOL_SIZE
    ensures i <= s <= CACHE_POOL_SIZE
    ensures s < CACHE_POOL_SIZE ==> Maps(c, s, v)
    ensures forall k :: i <= k < s ==> !Maps(c, k, v)
    decreases CACHE_POOL_SIZE - i, c
  {
    if i == CACHE_POOL_SIZE || Maps(c, i, v) then i else FirstSlot(c, v, i + 1)
  }

  function SlotOf(c: Cache, v: nat): (s: nat)
    requires Shaped(c)
    ensures s <= CACHE_POOL_SIZE
    ensures s < CACHE_POOL_SIZE ==> Maps(c, s, v)
    ensures s < CACHE_POOL_SIZE <==> Resident(c, v)
  {
    FirstSlot(c, v, 0)
  }

  lemma SameSlot(c: Cache, v: nat, i: nat, j: nat)
    requires Shaped(c) && NoDuplicates(c) && Maps(c, i, v) && Maps(c, j, v)
    ensures i == j
  {
    assert c.vmap[i] == c.vmap[j];
  }

  lemma SlotUnique(c: Cache, v: nat, i: nat)
    requires Shaped(c) && NoDuplicates(c) && Maps(c, i, v)
    ensures SlotOf(c, v) == i
  {
    SameSlot(c, v, SlotOf(c, v), i);
  }

  // ---------------------------------------------------------------- operations

  function Victim(c: Cache): (s: nat)
    ensures s < CACHE_POOL_SIZE
  {
    c.counter % CACHE_POOL_SIZE
  }

  /** 1024 divides 2^32: a count that wraps at 32 bits still picks the same slot. */
  lemma WrappedCount(n: nat)
    ensures (n % TWO32) % CACHE_POOL_SIZE == n % CACHE_POOL_SIZE
    ensures (n % TWO32 + 1) % TWO32 == (n + 1) % TWO32
  {
    var q, r := n / TWO32, n % TWO32;
    var a, b := r / CACHE_POOL_SIZE, r % CACHE_POOL_SIZE;
    assert n == (q * 0x40_0000 + a) * CACHE_POOL_SIZE + b;
    DivModUnique(n, CACHE_POOL_SIZE, q * 0x40_0000 + a, b);
    if r + 1 == TWO32 {
      DivModUnique(n + 1, TWO32, q + 1, 0);
    } else {
      DivModUnique(n + 1, TWO32, q, r + 1);
    }
  }

  /** A block taken in: the victim slot is remapped, its old bytes stay where they are. */
  function Created(c: Cache, v: nat): (r: Cache)
    requires Shaped(c)
    ensures Shaped(r)
  {
    c.(state := c.state[Victim(c) := RESIDENT], vmap := c.vmap[Victim(c) := v], counter := (c.counter + 1) % TWO32)
  }

  /** Exactly what taking in a block changes; its slot becomes RESIDENT, never DIRTY. */
  lemma CreatedIs(c: Cache, v: nat, i: nat)
    requires Shaped(c) && i < 1024
    ensures var r, s := Created(c, v), c.counter % 1024;
      && r.state[i] == (if i == s then RESIDENT else c.state[i])
      && r.vmap[i] == (if i == s then v else c.vmap[i])
      && r.counter == (c.counter + 1) % 0x1_0000_0000 && r.pool == c.pool
  {
  }

  /** get_physical_block with create set: a hit changes nothing. */
  function Acquired(c: Cache, v: nat): (r: Cache)
    requires Shaped(c)
    ensures Shaped(r)
  {
    if SlotOf(c, v) < CACHE_POOL_SIZE then c else Created(c, v)
  }

  function AcquiredSlot(c: Cache, v: nat): (s: nat)
    requires Shaped(c)
    ensures s < CACHE_POOL_SIZE
  {
    if SlotOf(c, v) < CACHE_POOL_SIZE then SlotOf(c, v) else Victim(c)
  }

  function Fetched(c: Cache, vaddr: nat): Value128
    requires Shaped(c)
  {
    var s := SlotOf(c, VBlock(vaddr));
    if s == CACHE_POOL_SIZE then Value128(0, 0)
    else CellFrom(Cut(c.pool, s * BLOCK_BYTES + Offset(vaddr), 16))
  }

  function Materialized(c: Cache, vaddr: nat, data: seq<u8>): (r: Cache)
    requires Shaped(c) && InBlock(vaddr, |data|)
    ensures Shaped(r)
  {
    var a := Acquired(c, VBlock(vaddr));
    a.(pool := Spliced(a.pool, AcquiredSlot(c, VBlock(vaddr)) * BLOCK_BYTES + Offset(vaddr), data))
  }

  /** All that the copy needs to stay inside the pool; it may leave its block. */
  predicate FitsPool(c: Cache, vaddr: nat, len: nat)
    requires Shaped(c)
  {
    AcquiredSlot(c, VBlock(vaddr)) * BLOCK_BYTES + Offset(vaddr) + len <= POOL_BYTES
  }

  /** materialize_range without the limit of a block: the copy runs on into the following slots. */
  function CopiedOver(c: Cache, vaddr: nat, data: seq<u8>): (r: Cache)
    requires Shaped(c) && FitsPool(c, vaddr, |data|)
    ensures Shaped(r)
  {
    var a := Acquired(c, VBlock(vaddr));
    a.(pool := Spliced(a.pool, AcquiredSlot(c, VBlock(vaddr)) * BLOCK_BYTES + Offset(vaddr), data))
  }

  lemma InBlockFits(c: Cache, vaddr: nat, data: seq<u8>)
    requires Shaped(c) && InBlock(vaddr, |data|)
    ensures FitsPool(c, vaddr, |data|) && CopiedOver(c, vaddr, data) == Materialized(c, vaddr, data)
  {
  }

  function SlotCleared(c: Cache, slot: u16): (r: Cache)
    requires Shaped(c)
    ensures Shaped(r)
  {
    c.(state := c.state[slot % CACHE_POOL_SIZE := EMPTY])
  }

  /** read_slot: at most sixteen bytes of the first cell, nothing from an empty slot. */
  function SlotRead(c: Cache, slot: u16, maxLen: nat): (b: seq<u8>)
    requires Shaped(c)
    ensures |b| <= 16
  {
    var s := slot % CACHE_POOL_SIZE;
    if c.state[s] == EMPTY then [] else Cut(c.pool, s * BLOCK_BYTES, if maxLen < 16 then maxLen else 16)
  }

  /** What write_slot takes of its data. */
  function SlotData(data: seq<u8>): (d: seq<u8>)
    ensures |d| <= 16
  {
    data[..if |data| < 16 then |data| else 16]
  }

  /** write_slot: the slot counts as resident again, whatever block number it still carries. */
  function SlotWritten(c: Cache, slot: u16, data: seq<u8>): (r: Cache)
    requires Shaped(c)
    ensures Shaped(r)
  {
    var s := slot % CACHE_POOL_SIZE;
    c.(state := c.state[s := RESIDENT], pool := Spliced(c.pool, s * BLOCK_BYTES, SlotData(data)))
  }

  // ---------------------------------------------------------------- contents of a block

  function SlotBytes(c: Cache, s: nat): (b: seq<u8>)
    requires Shaped(c) && s < CACHE_POOL_SIZE
    ensures |b| == BLOCK_BYTES
  {
    Cut(c.pool, s * BLOCK_BYTES, BLOCK_BYTES)
  }

  /** The bytes of a resident block. */
  function Contents(c: Cache, v: nat): (b: seq<u8>)
    requires Shaped(c) && Resident(c, v)
    ensures |b| == BLOCK_BYTES
  {
    SlotBytes(c, SlotOf(c, v))
  }

  /** A write inside one slot changes that slot only, and there only the written range. */
  lemma WriteOneSlot(pool: seq<u8>, s: nat, o: nat, data: seq<u8>, t: nat)
    requires |pool| == POOL_BYTES && s < CACHE_POOL_SIZE && t < CACHE_POOL_SIZE && o + |data| <= BLOCK_BYTES
    ensures var now := Spliced(pool, s * BLOCK_BYTES + o, data);
            Cut(now, t * BLOCK_BYTES, BLOCK_BYTES) ==
              if t == s then Spliced(Cut(pool, s * BLOCK_BYTES, BLOCK_BYTES), o, data)
              else Cut(pool, t * BLOCK_BYTES, BLOCK_BYTES)
  {
    var now, base := Spliced(pool, s * BLOCK_BYTES + o, data), t * BLOCK_BYTES;
    var was := Cut(pool, base, BLOCK_BYTES);
    var expected := if t == s then Spliced(was, o, data) else was;
    forall k | 0 <= k < BLOCK_BYTES
      ensures Cut(now, base, BLOCK_BYTES)[k] == expected[k]
    {
      SplicedAt(pool, s * BLOCK_BYTES + o, data, base + k);
      if t == s {
        SplicedAt(was, o, data, k);
      }
    }
  }

  /**
   What a copy does to byte o of slot t, whether or not it stays in its block: the bytes after the
   end of a block go to the slot behind it, whichever block that slot holds.
   */
  lemma CopiedByte(c: Cache, vaddr: nat, data: seq<u8>, t: nat, o: nat)
    requires Shaped(c) && FitsPool(c, vaddr, |data|) && t < CACHE_POOL_SIZE && o < BLOCK_BYTES
    ensures var from, at := AcquiredSlot(c, VBlock(vaddr)) * BLOCK_BYTES + Offset(vaddr), t * BLOCK_BYTES + o;
      SlotBytes(CopiedOver(c, vaddr, data), t)[o] ==
        if from <= at < from + |data| then data[at - from] else SlotBytes(c, t)[o]
  {
    var r := CopiedOver(c, vaddr, data);
    var from := AcquiredSlot(c, VBlock(vaddr)) * BLOCK_BYTES + Offset(vaddr);
    hide Cut, Spliced, AcquiredSlot, Offset;
    SplicedAt(c.pool, from, data, t * BLOCK_BYTES + o);
    CutAt(c.pool, t * BLOCK_BYTES, BLOCK_BYTES, o);
    CutAt(r.pool, t * BLOCK_BYTES, BLOCK_BYTES, o);
  }

  /** A fetch reads the cell from the contents of its block, and zeros from an absent one. */
  lemma FetchedCell(c: Cache, vaddr: nat)
    requires Shaped(c)
    ensures Resident(c, VBlock(vaddr)) ==>
      Fetched(c, vaddr) == CellFrom(Cut(Contents(c, VBlock(vaddr)), Offset(vaddr), 16))
    ensures !Resident(c, VBlock(vaddr)) ==> Fetched(c, vaddr) == Value128(0, 0)
  {
    if Resident(c, VBlock(vaddr)) {
      var base := SlotOf(c, VBlock(vaddr)) * BLOCK_BYTES;
      CutCut(c.pool, base, BLOCK_BYTES, Offset(vaddr), 16);
    }
  }

  // ---------------------------------------------------------------- slots by number

  /** What read_slot returns: nothing from an empty slot, else the first bytes of its block, at most sixteen. */
  lemma SlotReadIs(c: Cache, slot: u16, maxLen: nat, k: nat)
    requires Shaped(c)
    ensures c.state[slot % 1024] == EMPTY ==> SlotRead(c, slot, maxLen) == []
    ensures c.state[slot % 1024] != EMPTY ==> |SlotRead(c, slot, maxLen)| == if maxLen < 16 then maxLen else 16
    ensures k < |SlotRead(c, slot, maxLen)| ==> SlotRead(c, slot, maxLen)[k] == c.pool[16384 * (slot % 1024) + k]
  {
  }

  /** What write_slot changes besides the bytes: the slot becomes RESIDENT and keeps its block number. */
  lemma SlotWrittenIs(c: Cache, slot: u16, data: seq<u8>, i: nat)
    requires Shaped(c) && i < 1024
    ensures var r := SlotWritten(c, slot, data);
      && r.state[i] == (if i == slot % 1024 then RESIDENT else c.state[i])
      && r.vmap == c.vmap && r.counter == c.counter
  {
  }

  /** What write_slot stores comes back from read_slot, and other slots read as before. */
  lemma SlotReadBack(c: Cache, slot: u16, data: seq<u8>, other: u16, maxLen: nat)
    requires Shaped(c)
    ensures SlotRead(SlotWritten(c, slot, data), slot, |data|) == data[..if |data| < 16 then |data| else 16]
    ensures other % 1024 != slot % 1024 ==>
      SlotRead(SlotWritten(c, slot, data), other, maxLen) == SlotRead(c, other, maxLen)
  {
    hide Spliced;
    var s, t, d := slot % CACHE_POOL_SIZE, other % CACHE_POOL_SIZE, SlotData(data);
    SplicedSlice(c.pool, s * BLOCK_BYTES, d);
    if s != t {
      SplicedBeside(c.pool, s * BLOCK_BYTES, d, t * BLOCK_BYTES, if maxLen < 16 then maxLen else 16);
    }
  }

  /**
   write_slot does not set a block number, so an empty slot comes back with the one it had. No
   block is then held twice exactly if the slot was in use or its old block is not held elsewhere.
   */
  lemma SlotWrittenUniqueIff(c: Cache, slot: u16, data: seq<u8>)
    requires Shaped(c) && NoDuplicates(c)
    ensures NoDuplicates(SlotWritten(c, slot, data)) <==>
      c.state[slot % 1024] != EMPTY || !Resident(c, c.vmap[slot % 1024])
  {
    var s, r := slot % CACHE_POOL_SIZE, SlotWritten(c, slot, data);
    if c.state[s] == EMPTY && Resident(c, c.vmap[s]) {
      var i :| 0 <= i < CACHE_POOL_SIZE && Maps(c, i, c.vmap[s]);
      assert r.state[i] != EMPTY && r.state[s] != EMPTY && r.vmap[i] == r.vmap[s] && i != s;
    }
    if c.state[s] == EMPTY && !Resident(c, c.vmap[s]) {
      forall i | 0 <= i < CACHE_POOL_SIZE && c.state[i] != EMPTY
        ensures c.vmap[i] != c.vmap[s]
      {
        assert !Maps(c, i, c.vmap[s]);
      }
    }
  }

  /** A cleared slot that is written is found again under its old block, with its old bytes behind the data. */
  lemma SlotRevived(c: Cache, slot: u16, data: seq<u8>)
    requires Shaped(c) && NoDuplicates(c) && c.state[slot % 1024] == EMPTY && !Resident(c, c.vmap[slot % 1024])
    ensures var r, v := SlotWritten(c, slot, data), c.vmap[slot % 1024];
      && Resident(r, v) && SlotOf(r, v) == slot % 1024
      && Contents(r, v) == Spliced(SlotBytes(c, slot % 1024), 0, SlotData(data))
  {
    hide Spliced, NoDuplicates, SlotOf;
    var s, r := slot % CACHE_POOL_SIZE, SlotWritten(c, slot, data);
    SlotWrittenUniqueIff(c, slot, data);
    assert Maps(r, s, c.vmap[s]);
    SlotUnique(r, c.vmap[s], s);
    WriteOneSlot(c.pool, s, 0, SlotData(data), s);
  }

  // ---------------------------------------------------------------- what an operation does to the blocks

  /** Whether taking in v would push w out. */
  ghost predicate Evicts(c: Cache, v: nat, w: nat)
    requires Shaped(c)
  {
    !Resident(c, v) && w != v && Maps(c, Victim(c), w)
  }

  lemma AcquiredBlocks(c: Cache, v: nat, w: nat)
    requires Shaped(c) && NoDuplicates(c)
    ensures NoDuplicates(Acquired(c, v))
    ensures SlotOf(Acquired(c, v), v) == AcquiredSlot(c, v)
    ensures w != v ==> (Resident(Acquired(c, v), w) <==> Resident(c, w) && !Evicts(c, v, w))
    ensures w != v && Resident(Acquired(c, v), w) ==> SlotOf(Acquired(c, v), w) == SlotOf(c, w)
  {
    var a := Acquired(c, v);
    if !Resident(c, v) {
      assert forall i :: 0 <= i < CACHE_POOL_SIZE ==> !Maps(c, i, v);
      forall i, j | 0 <= i < j < CACHE_POOL_SIZE && a.state[i] != EMPTY && a.state[j] != EMPTY
        ensures a.vmap[i] != a.vmap[j]
      {
        assert !Maps(c, i, v) && !Maps(c, j, v);
        assert i != Victim(c) && j != Victim(c) ==> c.vmap[i] != c.vmap[j];
      }
      assert Maps(a, Victim(c), v);
      SlotUnique(a, v, Victim(c));
      if w != v {
        if Resident(a, w) {
          var s := SlotOf(a, w);
          assert Maps(c, s, w);
          SlotUnique(c, w, s);
        }
        if Resident(c, w) && !Evicts(c, v, w) {
          var s := SlotOf(c, w);
          assert Maps(a, s, w);
        }
      }
    }
  }

  lemma SamePlaces(c: Cache, d: Cache, w: nat)
    requires Shaped(c) && Shaped(d) && c.state == d.state && c.vmap == d.vmap && NoDuplicates(c)
    ensures Resident(c, w) <==> Resident(d, w)
    ensures SlotOf(c, w) == SlotOf(d, w) && NoDuplicates(d)
  {
    if Resident(c, w) {
      assert Maps(d, SlotOf(c, w), w);
      SlotUnique(d, w, SlotOf(c, w));
    }
    if Resident(d, w) {
      assert Maps(c, SlotOf(d, w), w);
    }
  }

  /** The written block is resident afterwards and holds the data over what its slot held. */
  lemma MaterializedBlock(c: Cache, vaddr: nat, data: seq<u8>)
    requires Shaped(c) && NoDuplicates(c) && InBlock(vaddr, |data|)
    ensures var v := VBlock(vaddr);
            var r := Materialized(c, vaddr, data);
            && NoDuplicates(r) && Resident(r, v)
            && Contents(r, v) == Spliced(SlotBytes(c, AcquiredSlot(c, v)), Offset(vaddr), data)
  {
    hide Spliced, NoDuplicates, SlotOf;
    var v := VBlock(vaddr);
    var a, r, s := Acquired(c, v), Materialized(c, vaddr, data), AcquiredSlot(c, v);
    AcquiredBlocks(c, v, v);
    SamePlaces(a, r, v);
    WriteOneSlot(c.pool, s, Offset(vaddr), data, s);
  }

  /** Every other block is either untouched or, if its slot was the victim, gone. */
  lemma MaterializedOther(c: Cache, vaddr: nat, data: seq<u8>, w: nat)
    requires Shaped(c) && NoDuplicates(c) && InBlock(vaddr, |data|) && w != VBlock(vaddr)
    ensures var r := Materialized(c, vaddr, data);
            && (Resident(r, w) <==> Resident(c, w) && !Evicts(c, VBlock(vaddr), w))
            && (Resident(r, w) ==> Contents(r, w) == Contents(c, w))
  {
    var v := VBlock(vaddr);
    var a, r, s := Acquired(c, v), Materialized(c, vaddr, data), AcquiredSlot(c, v);
    AcquiredBlocks(c, v, w);
    SamePlaces(a, r, w);
    if Resident(r, w) {
      var t := SlotOf(r, w);
      AcquiredBlocks(c, v, v);
      assert a.vmap[s] == v && a.vmap[t] == w;
      WriteOneSlot(c.pool, s, Offset(vaddr), data, t);
    }
  }

  lemma SlotClearedBlocks(c: Cache, slot: u16, w: nat)
    requires Shaped(c) && NoDuplicates(c)
    ensures var r := SlotCleared(c, slot);
            && NoDuplicates(r)
            && (Resident(r, w) <==> Resident(c, w) && SlotOf(c, w) != slot % CACHE_POOL_SIZE)
            && (Resident(r, w) ==> Contents(r, w) == Contents(c, w))
  {
    var r := SlotCleared(c, slot);
    if Resident(r, w) {
      var s := SlotOf(r, w);
      assert Maps(c, s, w);
      SlotUnique(c, w, s);
    }
    if Resident(c, w) && SlotOf(c, w) != slot % CACHE_POOL_SIZE {
      assert Maps(r, SlotOf(c, w), w);
    }
  }
}
