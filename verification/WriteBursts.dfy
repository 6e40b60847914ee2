/** Runs of writes that touch at most 1024 blocks, none of which was resident before. */
module WriteBursts {
  import opened Bits
  import opened Memory
  import opened ManifoldModel
  import opened ManifoldRuns

  ghost predicate AllWrites(ops: seq<Op>) {
    forall i :: 0 <= i < |ops| ==> ops[i].Write?
  }

  function Touched(ops: seq<Op>): set<nat> {
    set i | 0 <= i < |ops| && ops[i].Write? :: VBlock(ops[i].vaddr)
  }

  /** Every block of the burst fits the cache and starts out absent. */
  ghost predicate Fits(c: Cache, ops: seq<Op>, blocks: set<nat>) {
    && Shaped(c) && NoDuplicates(c) && AllWrites(ops) && |blocks| <= CACHE_POOL_SIZE
    && (forall i :: 0 <= i < |ops| ==> VBlock(ops[i].vaddr) in blocks)
    && (forall v :: v in blocks ==> !Resident(c, v))
  }

  ghost predicate Distinct(h: seq<nat>) {
    forall i, j :: 0 <= i < j < |h| ==> h[i] != h[j]
  }

  lemma {:induction false} DistinctCount(h: seq<nat>, s: set<nat>)
    requires Distinct(h) && forall i :: 0 <= i < |h| ==> h[i] in s
    ensures |h| <= |s|
    decreases |h|
  {
    if |h| > 0 {
      var last := h[|h| - 1];
      DistinctCount(h[..|h| - 1], s - {last});
    }
  }

  /** Where the creations of a burst sit: in consecutive slots from the counter on. */
  ghost predicate Placed(c: Cache, r: Cache, h: seq<nat>, blocks: set<nat>)
    requires Shaped(c) && Shaped(r)
  {
    && r.counter == (c.counter + |h|) % TWO32
    && Distinct(h) && (forall i :: 0 <= i < |h| ==> h[i] in blocks)
    && (forall i :: 0 <= i < |h| ==> Maps(r, (c.counter + i) % CACHE_POOL_SIZE, h[i]))
    && (forall v :: v in blocks && Resident(r, v) ==> v in h)
  }

  lemma SlotsApart(n: nat, i: nat, k: nat)
    requires i < k < CACHE_POOL_SIZE
    ensures (n + i) % CACHE_POOL_SIZE != (n + k) % CACHE_POOL_SIZE
  {
  }

  lemma CounterSlot(n: nat, k: nat)
    ensures ((n + k) % TWO32) % CACHE_POOL_SIZE == (n + k) % CACHE_POOL_SIZE
    ensures ((n + k) % TWO32 + 1) % TWO32 == (n + k + 1) % TWO32
  {
    WrappedCount(n + k);
  }

  /** A creation takes the slot after those of the creations before it. */
  lemma CreatedSlots(c: Cache, r: Cache, h: seq<nat>, v: nat)
    requires Shaped(c) && Shaped(r) && |h| < CACHE_POOL_SIZE
    requires r.counter == (c.counter + |h|) % TWO32
    requires forall i :: 0 <= i < |h| ==> Maps(r, (c.counter + i) % CACHE_POOL_SIZE, h[i])
    ensures Created(r, v).counter == (c.counter + |h + [v]|) % TWO32
    ensures forall i :: 0 <= i < |h + [v]| ==>
      Maps(Created(r, v), (c.counter + i) % CACHE_POOL_SIZE, (h + [v])[i])
  {
    CounterSlot(c.counter, |h|);
    forall i | 0 <= i < |h + [v]|
      ensures Maps(Created(r, v), (c.counter + i) % CACHE_POOL_SIZE, (h + [v])[i])
    {
      if i < |h| {
        SlotsApart(c.counter, i, |h|);
        assert Maps(r, (c.counter + i) % CACHE_POOL_SIZE, h[i]);
      }
    }
  }

  lemma CreatedOther(r: Cache, v: nat, w: nat)
    requires Shaped(r) && NoDuplicates(r) && !Resident(r, v) && w != v && Resident(Created(r, v), w)
    ensures Resident(r, w)
  {
    AcquiredBlocks(r, v, w);
  }

  lemma NotPlaced(c: Cache, r: Cache, h: seq<nat>, v: nat)
    requires Shaped(c) && Shaped(r) && !Resident(r, v)
    requires forall i :: 0 <= i < |h| ==> Maps(r, (c.counter + i) % CACHE_POOL_SIZE, h[i])
    ensures v !in h
  {
    forall i | 0 <= i < |h|
      ensures h[i] != v
    {
      assert Maps(r, (c.counter + i) % CACHE_POOL_SIZE, h[i]);
    }
  }

  lemma PlacedCreation(c: Cache, r: Cache, h: seq<nat>, blocks: set<nat>, v: nat)
    requires Shaped(c) && Shaped(r) && NoDuplicates(r) && |blocks| <= CACHE_POOL_SIZE
    requires Placed(c, r, h, blocks) && v in blocks && !Resident(r, v)
    ensures Placed(c, Created(r, v), h + [v], blocks)
  {
    hide Maps, Resident, Created, NoDuplicates;
    var g, d := h + [v], Created(r, v);
    NotPlaced(c, r, h, v);
    DistinctCount(g, blocks);
    CreatedSlots(c, r, h, v);
    forall w | w in blocks && Resident(d, w)
      ensures w in g
    {
      if w != v {
        CreatedOther(r, v, w);
        assert w in h;
        assert forall i :: 0 <= i < |h| ==> h[i] == g[i];
      }
    }
  }

  lemma {:induction false} BurstPlaced(c: Cache, ops: seq<Op>, blocks: set<nat>)
    requires Fits(c, ops, blocks)
    ensures Placed(c, Run(c, ops), Creations(c, ops), blocks)
    ensures forall i :: 0 <= i < |ops| ==> VBlock(ops[i].vaddr) in Creations(c, ops)
    decreases |ops|
  {
    if |ops| > 0 {
      hide Placed, NoDuplicates, SlotOf, Step;
      var init, last := ops[..|ops| - 1], ops[|ops| - 1];
      BurstPlaced(c, init, blocks);
      RunNoDuplicates(c, init);
      assert VBlock(last.vaddr) in blocks;
      PlacedWrite(c, Run(c, init), Creations(c, init), blocks, last);
      forall i | 0 <= i < |ops|
        ensures VBlock(ops[i].vaddr) in Creations(c, ops)
      {
        if i < |ops| - 1 {
          assert VBlock(init[i].vaddr) in Creations(c, init);
        }
      }
    }
  }

  /** One write of the burst adds its block to the creations unless it is there already. */
  lemma PlacedWrite(c: Cache, r: Cache, h: seq<nat>, blocks: set<nat>, op: Op)
    requires Shaped(c) && Shaped(r) && NoDuplicates(r) && |blocks| <= CACHE_POOL_SIZE
    requires Placed(c, r, h, blocks) && op.Write? && VBlock(op.vaddr) in blocks
    ensures var v := VBlock(op.vaddr);
            var g := if SlotOf(r, v) == CACHE_POOL_SIZE then h + [v] else h;
            Placed(c, Step(r, op), g, blocks) && v in g
  {
    var v := VBlock(op.vaddr);
    if Resident(r, v) {
      SamePlacement(c, r, Step(r, op), h, blocks);
    } else {
      PlacedCreation(c, r, h, blocks, v);
      SamePlacement(c, Created(r, v), Step(r, op), h + [v], blocks);
      assert v == (h + [v])[|h|];
    }
  }

  lemma SamePlacement(c: Cache, r: Cache, d: Cache, h: seq<nat>, blocks: set<nat>)
    requires Shaped(c) && Shaped(r) && Shaped(d)
    requires r.state == d.state && r.vmap == d.vmap && r.counter == d.counter
    requires Placed(c, r, h, blocks)
    ensures Placed(c, d, h, blocks)
  {
    forall i | 0 <= i < |h|
      ensures Maps(d, (c.counter + i) % CACHE_POOL_SIZE, h[i])
    {
      assert Maps(r, (c.counter + i) % CACHE_POOL_SIZE, h[i]);
    }
    forall w | w in blocks && Resident(d, w)
      ensures w in h
    {
      assert Maps(r, SlotOf(d, w), w);
    }
  }

  /** After the burst, and at every point of it, every block touched so far is resident. */
  lemma BurstResident(c: Cache, ops: seq<Op>, blocks: set<nat>, i: nat)
    requires Fits(c, ops, blocks) && i < |ops|
    ensures Resident(Run(c, ops), VBlock(ops[i].vaddr))
  {
    hide Run, Creations, Fits, Placed, VBlock;
    BurstFits(c, ops, blocks);
    BurstPlaced(c, ops, blocks);
    var v := VBlock(ops[i].vaddr);
    assert v in Creations(c, ops);
    PlacedResident(c, Run(c, ops), Creations(c, ops), blocks, v);
  }

  lemma PlacedResident(c: Cache, r: Cache, h: seq<nat>, blocks: set<nat>, v: nat)
    requires Shaped(c) && Shaped(r) && Placed(c, r, h, blocks) && v in h
    ensures Resident(r, v)
  {
    var k :| 0 <= k < |h| && h[k] == v;
    assert Maps(r, (c.counter + k) % CACHE_POOL_SIZE, h[k]);
  }

  /** The byte at offset o of block v is covered by a write. */
  predicate Covers(op: Op, v: nat, o: nat) {
    op.Write? && VBlock(op.vaddr) == v && Offset(op.vaddr) <= o < Offset(op.vaddr) + |op.data|
  }

  /** A byte that no later write of the burst covers is the last byte written there. */
  lemma {:induction false} BurstByte(c: Cache, ops: seq<Op>, blocks: set<nat>, i: nat, k: nat)
    requires Fits(c, ops, blocks) && i < |ops| && k < |ops[i].data|
    requires forall j :: i < j < |ops| ==> !Covers(ops[j], VBlock(ops[i].vaddr), Offset(ops[i].vaddr) + k)
    ensures LastByte(c, ops, VBlock(ops[i].vaddr), Offset(ops[i].vaddr) + k) == Some(ops[i].data[k])
    decreases |ops|
  {
    var n, init := |ops| - 1, ops[..|ops| - 1];
    if i < n {
      assert !Covers(ops[n], VBlock(ops[i].vaddr), Offset(ops[i].vaddr) + k);
      assert forall j :: i < j < n ==> init[j] == ops[j];
      BurstByte(c, init, blocks, i, k);
      BurstResident(c, init, blocks, i);
    }
  }

  /** A write reaches into the 16 bytes at offset o of block v. */
  predicate Overlaps(op: Op, v: nat, o: nat) {
    op.Write? && VBlock(op.vaddr) == v && Offset(op.vaddr) < o + 16 && o < Offset(op.vaddr) + |op.data|
  }

  lemma CoversOverlaps(op: Op, v: nat, o: nat, k: nat)
    requires k < 16 && !Overlaps(op, v, o)
    ensures !Covers(op, v, o + k)
  {
  }

  lemma BurstFits(c: Cache, ops: seq<Op>, blocks: set<nat>)
    requires Fits(c, ops, blocks)
    ensures Shaped(c) && NoDuplicates(c) && forall i :: 0 <= i < |ops| ==> ops[i].Write?
  {
  }

  /** Fetching a cell that was written in the burst and not written again returns it. */
  lemma BurstFetch(c: Cache, ops: seq<Op>, blocks: set<nat>, i: nat, at: nat, vaddr: nat)
    requires Fits(c, ops, blocks) && i < |ops| && at + 16 <= |ops[i].data|
    requires VBlock(vaddr) == VBlock(ops[i].vaddr) && Offset(vaddr) == Offset(ops[i].vaddr) + at
    requires forall j :: i < j < |ops| ==> !Overlaps(ops[j], VBlock(vaddr), Offset(vaddr))
    ensures Fetched(Run(c, ops), vaddr) == CellFrom(Cut(ops[i].data, at, 16))
  {
    hide Run, Fetched, LastByte, Fits, Overlaps, Covers, VBlock, Offset, Cut, CellFrom, Resident;
    BurstFits(c, ops, blocks);
    var cell := Cut(ops[i].data, at, 16);
    forall k | 0 <= k < 16
      ensures LastByte(c, ops, VBlock(vaddr), Offset(vaddr) + k) == Some(cell[k])
    {
      forall j | i < j < |ops|
        ensures !Covers(ops[j], VBlock(ops[i].vaddr), Offset(ops[i].vaddr) + (at + k))
      {
        CoversOverlaps(ops[j], VBlock(vaddr), Offset(vaddr), k);
      }
      BurstByte(c, ops, blocks, i, at + k);
      CutAt(ops[i].data, at, 16, k);
    }
    BurstResident(c, ops, blocks, i);
    FetchAfterRun(c, ops, vaddr, cell);
  }
}
