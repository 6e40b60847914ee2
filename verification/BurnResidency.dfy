/**
 Writes of single cells from any state of the cache: which of them a later fetch finds, and so
 which burnt chains resolve, told from the state before and the writes alone.
 */
module BurnResidency {
  import opened Bits
  import opened Memory
  import opened Mixing
  import opened ManifoldModel
  import opened ManifoldRuns
  import opened Deadlines
  import opened Transducer

  /** Every operation writes one cell. */
  ghost predicate CellWrites(ops: seq<Op>) {
    forall i :: 0 <= i < |ops| ==> ops[i].Write? && |ops[i].data| == 16
  }

  /** The slot of a block within its deadline. */
  function Place(c: Cache, vs: seq<nat>, w: nat): (s: nat)
    requires Shaped(c) && Count(c, vs) <= Deadline(c, vs, w)
    ensures s < CACHE_POOL_SIZE
  {
    (c.counter + Deadline(c, vs, w)) % CACHE_POOL_SIZE
  }

  /** The block of the last write is within its deadline. */
  lemma LastPlaced(c: Cache, ops: seq<Op>)
    requires Shaped(c) && |ops| > 0 && CellWrites(ops)
    ensures Count(c, Blocks(ops)) <= Deadline(c, Blocks(ops), VBlock(ops[|ops| - 1].vaddr))
  {
    JustTaken(c, Blocks(ops[..|ops| - 1]), VBlock(ops[|ops| - 1].vaddr));
  }

  /** The last write went to the cell at offset o of slot s. */
  predicate HitsCell(c: Cache, ops: seq<Op>, s: nat, o: nat)
    requires Shaped(c) && |ops| > 0 && CellWrites(ops)
  {
    LastPlaced(c, ops);
    var a := ops[|ops| - 1].vaddr;
    Place(c, Blocks(ops), VBlock(a)) == s && Offset(a) == o
  }

  /** What a cell of the pool holds after the writes: the last write to it, or its old bytes. */
  function CellAfter(c: Cache, ops: seq<Op>, s: nat, o: nat): (cell: seq<u8>)
    requires Shaped(c) && CellWrites(ops) && s < CACHE_POOL_SIZE && o + 16 <= BLOCK_BYTES
    ensures |cell| == 16
    decreases |ops|
  {
    if |ops| == 0 then Cut(c.pool, s * BLOCK_BYTES + o, 16)
    else if HitsCell(c, ops, s, o) then ops[|ops| - 1].data
    else CellAfter(c, ops[..|ops| - 1], s, o)
  }

  /** What a fetch finds after the writes. */
  function FetchedAfter(c: Cache, ops: seq<Op>, a: nat): Value128
    requires Shaped(c) && CellWrites(ops)
  {
    if Count(c, Blocks(ops)) <= Deadline(c, Blocks(ops), VBlock(a))
    then CellFrom(CellAfter(c, ops, Place(c, Blocks(ops), VBlock(a)), Offset(a)))
    else Value128(0, 0)
  }

  lemma WritesOnly(ops: seq<Op>)
    requires CellWrites(ops)
    ensures NoClears(ops)
  {
  }

  /** After a run, a block within its deadline is in its place, and no other block is resident. */
  lemma PlacedAfterRun(c: Cache, ops: seq<Op>, w: nat)
    requires Shaped(c) && NoDuplicates(c) && CellWrites(ops)
    ensures if Count(c, Blocks(ops)) <= Deadline(c, Blocks(ops), w)
            then SlotOf(Run(c, ops), w) == Place(c, Blocks(ops), w)
            else SlotOf(Run(c, ops), w) == CACHE_POOL_SIZE
  {
    hide Count, Deadline, Taken, Run, NoDuplicates, SameDirectory;
    WritesOnly(ops);
    RunDirectory(c, ops);
    TakenTracks(c, Blocks(ops), w);
    SameResidents(Taken(c, Blocks(ops)), Run(c, ops), w);
  }

  /** The slot that the last write goes to is the place of its block afterwards. */
  lemma LastSlot(c: Cache, ops: seq<Op>)
    requires Shaped(c) && NoDuplicates(c) && |ops| > 0 && CellWrites(ops)
    ensures var v := VBlock(ops[|ops| - 1].vaddr);
      && Count(c, Blocks(ops)) <= Deadline(c, Blocks(ops), v)
      && AcquiredSlot(Run(c, ops[..|ops| - 1]), v) == Place(c, Blocks(ops), v)
  {
    hide Count, Deadline, NoDuplicates, Place;
    var before, last := Run(c, ops[..|ops| - 1]), ops[|ops| - 1];
    LastPlaced(c, ops);
    PlacedAfterRun(c, ops, VBlock(last.vaddr));
    RunNoDuplicates(c, ops[..|ops| - 1]);
    AcquiredBlocks(before, VBlock(last.vaddr), 0);
    AcquiredBlocks(before, VBlock(last.vaddr), VBlock(last.vaddr));
    SamePlaces(Acquired(before, VBlock(last.vaddr)), Run(c, ops), VBlock(last.vaddr));
  }

  /** Two cells of the pool are the same or apart. */
  lemma CellsOfPool(s: nat, o: nat, t: nat, q: nat)
    requires o % 16 == 0 && q % 16 == 0 && o + 16 <= BLOCK_BYTES && q + 16 <= BLOCK_BYTES
    ensures (s == t && o == q) || s * BLOCK_BYTES + o + 16 <= t * BLOCK_BYTES + q
         || t * BLOCK_BYTES + q + 16 <= s * BLOCK_BYTES + o
  {
    var a, b := o / 16, q / 16;
    assert o == 16 * a && q == 16 * b && a < 1024 && b < 1024;
    assert 1024 * s + a == 1024 * t + b ==> s == t && a == b;
  }

  lemma CellOverCell(pool: seq<u8>, at: nat, cell: seq<u8>, from: nat)
    requires |cell| == 16 && at + 16 <= |pool| && from + 16 <= |pool|
    ensures from == at ==> Cut(Spliced(pool, at, cell), from, 16) == cell
    ensures from + 16 <= at || at + 16 <= from ==> Cut(Spliced(pool, at, cell), from, 16) == Cut(pool, from, 16)
  {
    forall k | 0 <= k < 16
      ensures from == at ==> Cut(Spliced(pool, at, cell), from, 16)[k] == cell[k]
      ensures from + 16 <= at || at + 16 <= from ==> Cut(Spliced(pool, at, cell), from, 16)[k] == Cut(pool, from, 16)[k]
    {
      SplicedAt(pool, at, cell, from + k);
    }
  }

  lemma StepPool(c: Cache, op: Op)
    requires Shaped(c) && op.Write? && |op.data| == 16
    ensures Step(c, op).pool ==
      Spliced(c.pool, AcquiredSlot(c, VBlock(op.vaddr)) * BLOCK_BYTES + Offset(op.vaddr), op.data)
  {
  }

  /** From any state, every cell of the pool holds what was last written to it. */
  lemma {:induction false} CellAfterRun(c: Cache, ops: seq<Op>, s: nat, o: nat)
    requires Shaped(c) && NoDuplicates(c) && CellWrites(ops)
    requires s < CACHE_POOL_SIZE && o % 16 == 0 && o + 16 <= BLOCK_BYTES
    ensures Cut(Run(c, ops).pool, s * BLOCK_BYTES + o, 16) == CellAfter(c, ops, s, o)
    decreases |ops|
  {
    hide Count, Deadline, NoDuplicates, Cut, Spliced, Step, AcquiredSlot, Offset, Place;
    if |ops| > 0 {
      var init, last := ops[..|ops| - 1], ops[|ops| - 1];
      CellAfterRun(c, init, s, o);
      LastSlot(c, ops);
      StepPool(Run(c, init), last);
      var t, q := AcquiredSlot(Run(c, init), VBlock(last.vaddr)), Offset(last.vaddr);
      CellsOfPool(s, o, t, q);
      CellOverCell(Run(c, init).pool, t * BLOCK_BYTES + q, last.data, s * BLOCK_BYTES + o);
    }
  }

  /** From any state, and told from that state and the writes alone: what a fetch finds after them. */
  lemma FetchedAfterIs(c: Cache, ops: seq<Op>, a: nat)
    requires Shaped(c) && NoDuplicates(c) && CellWrites(ops)
    ensures Fetched(Run(c, ops), a) == FetchedAfter(c, ops, a)
  {
    hide Count, Deadline, NoDuplicates, Run, CellAfter, SlotOf, Offset, Cut, CellFrom;
    PlacedAfterRun(c, ops, VBlock(a));
    if Count(c, Blocks(ops)) <= Deadline(c, Blocks(ops), VBlock(a)) {
      CellAfterRun(c, ops, Place(c, Blocks(ops), VBlock(a)), Offset(a));
    }
  }

  // ---------------------------------------------------------------- chains

  /** The burns of a chain leave this answer for step i. */
  predicate Answered(c: Cache, script: seq<u64>, results: seq<u64>, i: nat)
    requires Shaped(c) && i < |script| == |results|
  {
    BurnsAreCells(script, results);
    var v := FetchedAfter(c, Burns(script, results), Intent(script, results, i));
    v.lo == results[i] && (v.hi != 0 || v.lo != 0)
  }

  lemma BurnsAreCells(script: seq<u64>, results: seq<u64>)
    requires |script| == |results|
    ensures CellWrites(Burns(script, results))
  {
  }

  /** The first m steps of the chain resolve without fault to the burnt results. */
  ghost predicate ResolvesTo(c: Cache, script: seq<u64>, results: seq<u64>, m: nat)
    requires Shaped(c) && m <= |script| == |results|
  {
    Resolved(Run(c, Burns(script, results)), script[..m], 0) == ExecutionState(Before(results, m), false)
  }

  /** One more step resolves to its result exactly if its answer is there. */
  lemma NextStep(c: Cache, script: seq<u64>, results: seq<u64>, m: nat)
    requires Shaped(c) && NoDuplicates(c) && m < |script| == |results| && ResolvesTo(c, script, results, m)
    ensures ResolvesTo(c, script, results, m + 1) <==> Answered(c, script, results, m)
  {
    hide NoDuplicates, Run, Burns, Fetched, FetchedAfter;
    var r := Run(c, Burns(script, results));
    BurnsAreCells(script, results);
    FetchedAfterIs(c, Burns(script, results), Intent(script, results, m));
    assert script[..m + 1] == script[..m] + [script[m]];
    ResolvedAppend(r, script[..m], [script[m]], 0);
    OneStep(r, script[m], Before(results, m));
  }

  lemma OneStep(r: Cache, word: u64, last: u64)
    requires Shaped(r)
    ensures var v := Fetched(r, Xor64(last, word));
      Resolved(r, [word], last) ==
        if v.hi == 0 && v.lo == 0 then ExecutionState(last, true) else ExecutionState(v.lo, false)
  {
    hide Fetched;
    assert [word][1..] == [];
  }

  /**
   From any state of the cache, with intents anywhere: every prefix of a burnt chain up to m steps
   resolves without fault to its burnt result exactly if the state before and the burns leave the
   answers of these steps where the fetches look.
   */
  lemma {:induction false} ChainResolvesIff(c: Cache, script: seq<u64>, results: seq<u64>, m: nat)
    requires Shaped(c) && NoDuplicates(c) && m <= |script| == |results|
    ensures (forall k :: 0 <= k <= m ==> ResolvesTo(c, script, results, k))
      <==> forall i :: 0 <= i < m ==> Answered(c, script, results, i)
    decreases m
  {
    hide NoDuplicates, Run, Burns, Answered, Resolved;
    if m == 0 {
      EmptyPrefix(c, script, results);
    } else {
      ChainResolvesIff(c, script, results, m - 1);
      if forall k :: 0 <= k <= m - 1 ==> ResolvesTo(c, script, results, k) {
        assert ResolvesTo(c, script, results, m - 1);
        NextStep(c, script, results, m - 1);
      }
    }
  }

  lemma EmptyPrefix(c: Cache, script: seq<u64>, results: seq<u64>)
    requires Shaped(c) && |script| == |results|
    ensures ResolvesTo(c, script, results, 0)
  {
  }

  // ---------------------------------------------------------------- answers that are kept

  lemma PlacesApart(c: Cache, ops: seq<Op>, v: nat, w: nat)
    requires Shaped(c) && NoDuplicates(c) && CellWrites(ops) && v != w
    requires Count(c, Blocks(ops)) <= Deadline(c, Blocks(ops), v)
    requires Count(c, Blocks(ops)) <= Deadline(c, Blocks(ops), w)
    ensures Place(c, Blocks(ops), v) != Place(c, Blocks(ops), w)
  {
    hide Count, Deadline, Run, NoDuplicates, Place;
    PlacedAfterRun(c, ops, v);
    PlacedAfterRun(c, ops, w);
    assert Maps(Run(c, ops), SlotOf(Run(c, ops), v), v) && Maps(Run(c, ops), SlotOf(Run(c, ops), w), w);
  }

  /** No later write goes to the cell that write i went to. */
  ghost predicate LastInCell(ops: seq<Op>, i: nat)
    requires i < |ops| && CellWrites(ops)
  {
    forall j :: i < j < |ops| ==>
      VBlock(ops[j].vaddr) != VBlock(ops[i].vaddr) || Offset(ops[j].vaddr) != Offset(ops[i].vaddr)
  }

  /** The deadline that the block of write i has right after it. */
  function DeadlineAt(c: Cache, ops: seq<Op>, i: nat): int
    requires Shaped(c) && i < |ops| && CellWrites(ops)
  {
    Deadline(c, Blocks(ops[..i + 1]), VBlock(ops[i].vaddr))
  }

  lemma LastBlock(ops: seq<Op>)
    requires CellWrites(ops) && |ops| > 0
    ensures Blocks(ops) == Blocks(ops[..|ops| - 1]) + [VBlock(ops[|ops| - 1].vaddr)]
    ensures CellWrites(ops[..|ops| - 1])
  {
  }

  /** A write elsewhere leaves the deadline of a block in time, and the cell. */
  lemma KeptOnce(c: Cache, ops: seq<Op>, v: nat, o: nat)
    requires Shaped(c) && NoDuplicates(c) && CellWrites(ops) && |ops| > 0 && o + 16 <= BLOCK_BYTES
    requires VBlock(ops[|ops| - 1].vaddr) != v || Offset(ops[|ops| - 1].vaddr) != o
    requires Count(c, Blocks(ops)) <= Deadline(c, Blocks(ops[..|ops| - 1]), v)
    ensures var init := ops[..|ops| - 1];
      && Count(c, Blocks(init)) <= Count(c, Blocks(ops))
      && Deadline(c, Blocks(ops), v) == Deadline(c, Blocks(init), v)
      && CellAfter(c, ops, Place(c, Blocks(ops), v), o) == CellAfter(c, init, Place(c, Blocks(init), v), o)
  {
    hide Count, Deadline, NoDuplicates, VBlock, Offset, Blocks;
    var init, w := ops[..|ops| - 1], VBlock(ops[|ops| - 1].vaddr);
    LastBlock(ops);
    NextAccess(c, Blocks(init), w, v);
    LastPlaced(c, ops);
    if w != v {
      PlacesApart(c, ops, v, w);
    }
  }

  /** The last write is where its block is. */
  lemma KeptLast(c: Cache, ops: seq<Op>)
    requires Shaped(c) && |ops| > 0 && CellWrites(ops)
    ensures var i := |ops| - 1;
      && Count(c, Blocks(ops)) <= Deadline(c, Blocks(ops), VBlock(ops[i].vaddr)) == DeadlineAt(c, ops, i)
      && CellAfter(c, ops, Place(c, Blocks(ops), VBlock(ops[i].vaddr)), Offset(ops[i].vaddr)) == ops[i].data
  {
    hide Count, Deadline, Blocks;
    assert ops[..|ops|] == ops;
    LastPlaced(c, ops);
  }

  lemma CountGrows(c: Cache, ops: seq<Op>)
    requires Shaped(c) && |ops| > 0 && CellWrites(ops)
    ensures Count(c, Blocks(ops[..|ops| - 1])) <= Count(c, Blocks(ops))
  {
    hide Count, Deadline, Blocks;
    LastBlock(ops);
    NextAccess(c, Blocks(ops[..|ops| - 1]), VBlock(ops[|ops| - 1].vaddr), 0);
  }

  lemma {:induction false} WriteKept(c: Cache, ops: seq<Op>, i: nat)
    requires Shaped(c) && NoDuplicates(c) && CellWrites(ops) && i < |ops| && LastInCell(ops, i)
    requires Count(c, Blocks(ops)) <= DeadlineAt(c, ops, i)
    ensures Deadline(c, Blocks(ops), VBlock(ops[i].vaddr)) == DeadlineAt(c, ops, i)
    ensures CellAfter(c, ops, Place(c, Blocks(ops), VBlock(ops[i].vaddr)), Offset(ops[i].vaddr)) == ops[i].data
    decreases |ops|
  {
    hide Count, Deadline, NoDuplicates, VBlock, Offset, Blocks, CellAfter, Place;
    var n := |ops| - 1;
    if i == n {
      KeptLast(c, ops);
    } else {
      assert ops[..n][..i + 1] == ops[..i + 1];
      CountGrows(c, ops);
      WriteKept(c, ops[..n], i);
      KeptOnce(c, ops, VBlock(ops[i].vaddr), Offset(ops[i].vaddr));
    }
  }

  /**
   A burn keeps its answer if no later burn shares its cell, its result is not zero, and the burns
   do not create more blocks than the deadline that its block has right after it.
   */
  lemma KeptAnswer(c: Cache, script: seq<u64>, results: seq<u64>, i: nat)
    requires Shaped(c) && NoDuplicates(c) && i < |script| == |results|
    requires DistinctCells(script, results) && results[i] != 0
    requires CellWrites(Burns(script, results))
    requires Count(c, Blocks(Burns(script, results))) <= DeadlineAt(c, Burns(script, results), i)
    ensures Answered(c, script, results, i)
  {
    hide Count, Deadline, NoDuplicates, DeadlineAt, CellAfter;
    var ops := Burns(script, results);
    forall j | i < j < |ops|
      ensures VBlock(ops[j].vaddr) != VBlock(ops[i].vaddr) || Offset(ops[j].vaddr) != Offset(ops[i].vaddr)
    {
      SameCell(ops[i].vaddr, ops[j].vaddr);
    }
    WriteKept(c, ops, i);
    CellFromBytes(Value128(0, results[i]));
  }

  lemma SameCell(a: nat, b: nat)
    requires a / 16 != b / 16
    ensures VBlock(a) != VBlock(b) || Offset(a) != Offset(b)
  {
    assert VBlock(a) == (a / 16) / 1024 && VBlock(b) == (b / 16) / 1024;
  }
}
