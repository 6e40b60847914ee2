/**
 Runs of the cache: which blocks are resident after any number of creations, and which bytes a
 fetch can rely on.
 */
module ManifoldRuns {
  import opened Bits
  import opened Memory
  import opened Mixing
  import opened ManifoldModel

  datatype RawOp = Fetch(vaddr: nat) | Write(vaddr: nat, data: seq<u8>) | ClearSlot(slot: u16)

  /** Writes stay inside a block. */
  type Op = op: RawOp | op.Write? ==> InBlock(op.vaddr, |op.data|) witness Fetch(0)

  function Step(c: Cache, op: Op): (r: Cache)
    requires Shaped(c)
    ensures Shaped(r)
  {
    match op
    case Fetch(_) => c
    case Write(vaddr, data) => Materialized(c, vaddr, data)
    case ClearSlot(slot) => SlotCleared(c, slot)
  }

  function Run(c: Cache, ops: seq<Op>): (r: Cache)
    requires Shaped(c)
    ensures Shaped(r)
    decreases |ops|
  {
    if |ops| == 0 then c else Step(Run(c, ops[..|ops| - 1]), ops[|ops| - 1])
  }

  /** The cache as constructed: every slot empty, counter zero, arbitrary old bytes. */
  ghost predicate Initial(c: Cache) {
    Shaped(c) && c.counter == 0 && forall i :: 0 <= i < CACHE_POOL_SIZE ==> c.state[i] == EMPTY
  }

  // ---------------------------------------------------------------- no block is held twice

  lemma StepNoDuplicates(c: Cache, op: Op)
    requires Shaped(c) && NoDuplicates(c)
    ensures NoDuplicates(Step(c, op))
  {
    match op
    case Fetch(_) =>
    case Write(vaddr, data) => MaterializedBlock(c, vaddr, data);
    case ClearSlot(slot) => SlotClearedBlocks(c, slot, 0);
  }

  /** Fetches, writes and slot clears in any order never leave a block in two slots. */
  lemma {:induction false} RunNoDuplicates(c: Cache, ops: seq<Op>)
    requires Shaped(c) && NoDuplicates(c)
    ensures NoDuplicates(Run(c, ops))
    decreases |ops|
  {
    if |ops| > 0 {
      RunNoDuplicates(c, ops[..|ops| - 1]);
      StepNoDuplicates(Run(c, ops[..|ops| - 1]), ops[|ops| - 1]);
    }
  }

  /**
   The DIRTY state is never entered: after any run from a cache without it, a slot holds a block
   exactly if it is RESIDENT, which is what is_block_resident reports.
   */
  lemma {:induction false} OccupiedIsResident(c: Cache, ops: seq<Op>, i: nat)
    requires Shaped(c) && i < CACHE_POOL_SIZE && c.state[i] != DIRTY
    ensures Run(c, ops).state[i] == RESIDENT <==> Run(c, ops).state[i] != EMPTY
    decreases |ops|
  {
    if |ops| > 0 {
      OccupiedIsResident(c, ops[..|ops| - 1], i);
    }
  }

  // ---------------------------------------------------------------- first in, first out

  /** The blocks taken in during a run, in order. */
  function Creations(c: Cache, ops: seq<Op>): seq<nat>
    requires Shaped(c)
    decreases |ops|
  {
    if |ops| == 0 then []
    else
      var init, last := ops[..|ops| - 1], ops[|ops| - 1];
      if last.Write? && SlotOf(Run(c, init), VBlock(last.vaddr)) == CACHE_POOL_SIZE
      then Creations(c, init) + [VBlock(last.vaddr)] else Creations(c, init)
  }

  /** The last 1024 creations sit in the slots numbered by their index; nothing else is held. */
  ghost predicate Window(c: Cache, h: seq<nat>)
    requires Shaped(c)
  {
    && c.counter == |h| % TWO32
    && (forall m :: 0 <= m < |h| && |h| <= m + CACHE_POOL_SIZE ==> Maps(c, m % CACHE_POOL_SIZE, h[m]))
    && (forall s :: |h| <= s < CACHE_POOL_SIZE ==> c.state[s] == EMPTY)
  }

  /** The counter may wrap: 1024 divides 2^32, so the victim slot does not notice. */
  lemma VictimIsCount(c: Cache, h: seq<nat>)
    requires Shaped(c) && Window(c, h)
    ensures Victim(c) == |h| % CACHE_POOL_SIZE
    ensures (c.counter + 1) % TWO32 == (|h| + 1) % TWO32
  {
    WrappedCount(|h|);
  }

  lemma SlotNumbers(n: nat, m: nat)
    requires m < n < m + CACHE_POOL_SIZE
    ensures m % CACHE_POOL_SIZE != n % CACHE_POOL_SIZE
  {
  }

  lemma CreatedWindow(c: Cache, h: seq<nat>, v: nat)
    requires Shaped(c) && Window(c, h)
    ensures Window(Created(c, v), h + [v])
  {
    var r, g := Created(c, v), h + [v];
    VictimIsCount(c, h);
    forall m | 0 <= m < |g| && |g| <= m + CACHE_POOL_SIZE
      ensures Maps(r, m % CACHE_POOL_SIZE, g[m])
    {
      if m < |h| {
        SlotNumbers(|h|, m);
        assert Maps(c, m % CACHE_POOL_SIZE, h[m]);
      }
    }
  }

  lemma {:induction false} RunWindow(c: Cache, ops: seq<Op>)
    requires Initial(c) && forall i :: 0 <= i < |ops| ==> !ops[i].ClearSlot?
    ensures Window(Run(c, ops), Creations(c, ops))
    decreases |ops|
  {
    if |ops| > 0 {
      var init, last := ops[..|ops| - 1], ops[|ops| - 1];
      RunWindow(c, init);
      var before, h := Run(c, init), Creations(c, init);
      if last.Write? && !Resident(before, VBlock(last.vaddr)) {
        var v := VBlock(last.vaddr);
        CreatedWindow(before, h, v);
        SameWindow(Created(before, v), Materialized(before, last.vaddr, last.data), h + [v]);
      } else if last.Write? {
        SameWindow(before, Materialized(before, last.vaddr, last.data), h);
      }
    }
  }

  lemma SameWindow(c: Cache, d: Cache, h: seq<nat>)
    requires Shaped(c) && Shaped(d) && c.state == d.state && c.vmap == d.vmap && c.counter == d.counter
    requires Window(c, h)
    ensures Window(d, h)
  {
    forall m | 0 <= m < |h| && |h| <= m + CACHE_POOL_SIZE
      ensures Maps(d, m % CACHE_POOL_SIZE, h[m])
    {
      assert Maps(c, m % CACHE_POOL_SIZE, h[m]);
    }
  }

  /**
   Without slot operations a block whose latest creation was the m-th is resident exactly while
   at most 1024 creations, counting its own, have happened since; hits do not prolong its stay.
   */
  lemma FifoWindow(c: Cache, ops: seq<Op>, m: nat)
    requires Initial(c) && forall i :: 0 <= i < |ops| ==> !ops[i].ClearSlot?
    requires m < |Creations(c, ops)|
    requires forall k :: m < k < |Creations(c, ops)| ==> Creations(c, ops)[k] != Creations(c, ops)[m]
    ensures Resident(Run(c, ops), Creations(c, ops)[m]) <==> |Creations(c, ops)| <= m + CACHE_POOL_SIZE
  {
    var h, r := Creations(c, ops), Run(c, ops);
    var n, v := |h|, h[m];
    RunWindow(c, ops);
    if n <= m + CACHE_POOL_SIZE {
      assert Maps(r, m % CACHE_POOL_SIZE, v);
    }
    if Resident(r, v) {
      var k := ResidentSince(r, h, v);
    }
  }

  /** The most recent index below n that is congruent to an occupied slot. */
  function LatestAt(n: nat, s: nat): (k: nat)
    requires s < CACHE_POOL_SIZE && s < n
    ensures k < n <= k + CACHE_POOL_SIZE && k % CACHE_POOL_SIZE == s
  {
    n - 1 - (n - 1 - s) % CACHE_POOL_SIZE
  }

  /** A resident block was taken in within the last 1024 creations. */
  lemma ResidentSince(c: Cache, h: seq<nat>, v: nat) returns (k: nat)
    requires Shaped(c) && Window(c, h) && Resident(c, v)
    ensures k < |h| <= k + CACHE_POOL_SIZE && h[k] == v
  {
    k := LatestAt(|h|, SlotOf(c, v));
    assert Maps(c, k % CACHE_POOL_SIZE, h[k]);
  }

  /** A block never taken in is never resident. */
  lemma NeverCreated(c: Cache, ops: seq<Op>, v: nat)
    requires Initial(c) && forall i :: 0 <= i < |ops| ==> !ops[i].ClearSlot?
    requires v !in Creations(c, ops)
    ensures !Resident(Run(c, ops), v)
  {
    var h, r := Creations(c, ops), Run(c, ops);
    RunWindow(c, ops);
    if Resident(r, v) {
      var k := ResidentSince(r, h, v);
    }
  }

  // ---------------------------------------------------------------- read your writes

  /** The byte last written at offset o of block v since the block was last taken in, if any. */
  function LastByte(c: Cache, ops: seq<Op>, v: nat, o: nat): Option<u8>
    requires Shaped(c)
    decreases |ops|
  {
    if |ops| == 0 then None
    else
      var init, last := ops[..|ops| - 1], ops[|ops| - 1];
      if last.Write? && VBlock(last.vaddr) == v then
        if Offset(last.vaddr) <= o < Offset(last.vaddr) + |last.data| then Some(last.data[o - Offset(last.vaddr)])
        else if SlotOf(Run(c, init), v) < CACHE_POOL_SIZE then LastByte(c, init, v, o)
        else None
      else LastByte(c, init, v, o)
  }

  /** While a block is resident, every byte written since its creation reads as last written. */
  lemma {:induction false} ReadYourWrites(c: Cache, ops: seq<Op>, v: nat, o: nat)
    requires Shaped(c) && NoDuplicates(c) && o < BLOCK_BYTES
    requires Resident(Run(c, ops), v) && LastByte(c, ops, v, o).Some?
    ensures Contents(Run(c, ops), v)[o] == LastByte(c, ops, v, o).value
    decreases |ops|
  {
    var init, last := ops[..|ops| - 1], ops[|ops| - 1];
    var before := Run(c, init);
    RunNoDuplicates(c, init);
    match last
    case Fetch(_) =>
      ReadYourWrites(c, init, v, o);
    case ClearSlot(slot) =>
      SlotClearedBlocks(before, slot, v);
      ReadYourWrites(c, init, v, o);
    case Write(vaddr, data) =>
      if VBlock(vaddr) != v {
        MaterializedOther(before, vaddr, data, v);
        ReadYourWrites(c, init, v, o);
      } else {
        MaterializedBlock(before, vaddr, data);
        SplicedAt(SlotBytes(before, AcquiredSlot(before, v)), Offset(vaddr), data, o);
        if !(Offset(vaddr) <= o < Offset(vaddr) + |data|) {
          ReadYourWrites(c, init, v, o);
        }
      }
  }

  /** All sixteen bytes at an offset have been written since the block was taken in. */
  ghost predicate CellWritten(c: Cache, ops: seq<Op>, v: nat, o: nat, cell: seq<u8>)
    requires Shaped(c)
  {
    |cell| == 16 && forall k :: 0 <= k < 16 ==> LastByte(c, ops, v, o + k) == Some(cell[k])
  }

  lemma CellByte(c: Cache, ops: seq<Op>, v: nat, o: nat, cell: seq<u8>, k: nat)
    requires Shaped(c) && NoDuplicates(c) && o + 16 <= BLOCK_BYTES && k < 16
    requires CellWritten(c, ops, v, o, cell) && Resident(Run(c, ops), v)
    ensures Contents(Run(c, ops), v)[o + k] == cell[k]
  {
    assert LastByte(c, ops, v, o + k) == Some(cell[k]);
    ReadYourWrites(c, ops, v, o + k);
  }

  /**
   What a fetch returns after any run: zeros from an absent block, and from a resident one the
   cell last written, once all sixteen bytes have been written since the block was taken in.
   */
  lemma FetchAfterRun(c: Cache, ops: seq<Op>, vaddr: nat, cell: seq<u8>)
    requires Shaped(c) && NoDuplicates(c) && |cell| == 16
    ensures !Resident(Run(c, ops), VBlock(vaddr)) ==> Fetched(Run(c, ops), vaddr) == Value128(0, 0)
    ensures Resident(Run(c, ops), VBlock(vaddr)) && CellWritten(c, ops, VBlock(vaddr), Offset(vaddr), cell) ==>
      Fetched(Run(c, ops), vaddr) == CellFrom(cell)
  {
    var r, v := Run(c, ops), VBlock(vaddr);
    FetchedCell(r, vaddr);
    if Resident(r, v) && CellWritten(c, ops, v, Offset(vaddr), cell) {
      forall k | 0 <= k < 16
        ensures Cut(Contents(r, v), Offset(vaddr), 16)[k] == cell[k]
      {
        CellByte(c, ops, v, Offset(vaddr), cell, k);
      }
      assert Cut(Contents(r, v), Offset(vaddr), 16) == cell;
    }
  }
}
