/** The audit log: a ring of 1024 cells inside one block of the manifold. */
module AuditLog {
  import opened Bits
  import opened Memory
  import opened Mixing
  import opened ManifoldModel
  import opened ManifoldRuns
  import opened Deadlines
  import opened Manifold

  const LOG_BASE_VADDR: u64 := 0xFFFF_FF00_0000_0000
  const LOG_CELLS: nat := 1024
  const LOG_BLOCK: nat := 0x3_FFFF_FC00_0000

  /** `(type << 56) | 0xDEADBEEF` over the metadata. */
  function EntryOf(kind: u8, metadata: u64): Value128 {
    Value128(kind * 0x100_0000_0000_0000 + 0xDEAD_BEEF, metadata)
  }

  /** The kind sits in the top byte over the mark, as the shift and the `|` put it there. */
  lemma EntryFields(kind: u8, metadata: u64)
    ensures var e := EntryOf(kind, metadata);
      && e.hi == Or(0xDEAD_BEEF, Shl(kind, 56)) && e.lo == metadata
      && Shr(e.hi, 56) == kind && Low(e.hi, 56) == 0xDEAD_BEEF
  {
    hide Pow2, Shr, Low, Shl, Or;
    Pow2Values();
    Pow2Add(32, 16);
    Pow2Add(48, 8);
    assert Pow2(56) == 0x100_0000_0000_0000;
    ShlIsMul(kind, 56);
    OrShifted(0xDEAD_BEEF, kind, 56);
    JoinBits(0xDEAD_BEEF, kind, 56);
  }

  function LogAddr(head: nat): u64
    requires head < LOG_CELLS
  {
    LOG_BASE_VADDR + head * 16
  }

  /** Every log address lies in the same block, in the cell of its own number. */
  lemma LogCell(head: nat)
    requires head < LOG_CELLS
    ensures LogAddr(head) == 0xFFFF_FF00_0000_0000 + 16 * head
    ensures VBlock(LogAddr(head)) == LOG_BLOCK == 0x3_FFFF_FC00_0000 && Offset(LogAddr(head)) == 16 * head
    ensures InBlock(LogAddr(head), 16)
  {
    assert LogAddr(head) == 16 * (0xFFF_FFF0_0000_0000 + head);
    assert LogAddr(head) / 16 == 1024 * LOG_BLOCK + head;
    assert VBlock(LogAddr(head)) == (LogAddr(head) / 16) / 1024;
  }

  class AuditLogger {
    const manifold: SubstrateManifold
    var logHead: nat

    constructor (manifold: SubstrateManifold)
      ensures this.manifold == manifold && logHead == 0
    {
      this.manifold := manifold;
      logHead := 0;
    }

    method Log(kind: u8, metadata: u64)
      requires manifold.Valid() && logHead < LOG_CELLS
      modifies this, manifold, manifold.cacheState, manifold.vblockMap, manifold.cachePool
      ensures manifold.Valid() && logHead < LOG_CELLS
      ensures LogState(manifold.View(), logHead) ==
        LogStep(LogState(old(manifold.View()), old(logHead)), Traffic.Log(kind, metadata))
    {
      var vaddr := LOG_BASE_VADDR + logHead * 16;
      LogCell(logHead);
      InBlockFits(manifold.View(), vaddr, CellBytes(EntryOf(kind, metadata)));
      manifold.MaterializeRange(vaddr, CellBytes(EntryOf(kind, metadata)));
      logHead := (logHead + 1) % LOG_CELLS;
    }
  }

  // ---------------------------------------------------------------- runs

  /** Log calls interleaved with other use of the cache. */
  datatype Traffic = Log(kind: u8, metadata: u64) | Other(op: Op)

  datatype LogState = LogState(cache: Cache, head: nat)

  ghost predicate ValidState(s: LogState) {
    Shaped(s.cache) && s.head < LOG_CELLS
  }

  function LogStep(s: LogState, t: Traffic): (r: LogState)
    requires ValidState(s)
    ensures ValidState(r)
  {
    match t
    case Log(kind, metadata) =>
      LogCell(s.head);
      LogState(Materialized(s.cache, LogAddr(s.head), CellBytes(EntryOf(kind, metadata))), (s.head + 1) % LOG_CELLS)
    case Other(op) => LogState(Step(s.cache, op), s.head)
  }

  function LogRun(s: LogState, ts: seq<Traffic>): (r: LogState)
    requires ValidState(s)
    ensures ValidState(r)
    decreases |ts|
  {
    if |ts| == 0 then s else LogStep(LogRun(s, ts[..|ts| - 1]), ts[|ts| - 1])
  }

  /** The events logged, in order. */
  function Events(ts: seq<Traffic>): seq<Value128>
    decreases |ts|
  {
    if |ts| == 0 then []
    else
      var init, last := ts[..|ts| - 1], ts[|ts| - 1];
      if last.Log? then Events(init) + [EntryOf(last.kind, last.metadata)] else Events(init)
  }

  /** The rest of the traffic writes elsewhere, and once there is an event its block is never lost. */
  ghost predicate Undisturbed(s: LogState, ts: seq<Traffic>)
    requires ValidState(s)
    decreases |ts|
  {
    |ts| == 0 ||
    var last := ts[|ts| - 1];
    && Undisturbed(s, ts[..|ts| - 1])
    && (last.Other? && last.op.Write? ==> VBlock(last.op.vaddr) != LOG_BLOCK)
    && (|Events(ts)| > 0 ==> Resident(LogRun(s, ts).cache, LOG_BLOCK))
  }

  /** Cell k mod 1024 holds event k, for each of the last 1024 events. */
  ghost predicate Holds(c: Cache, events: seq<Value128>)
    requires Shaped(c)
  {
    |events| > 0 ==>
      && Resident(c, LOG_BLOCK)
      && forall k :: 0 <= k < |events| <= k + LOG_CELLS ==>
           Cut(Contents(c, LOG_BLOCK), 16 * (k % LOG_CELLS), 16) == CellBytes(events[k])
  }

  lemma OtherCells(n: nat, k: nat)
    requires k < n < k + LOG_CELLS
    ensures 16 * (k % LOG_CELLS) + 16 <= 16 * (n % LOG_CELLS) || 16 * (n % LOG_CELLS) + 16 <= 16 * (k % LOG_CELLS)
  {
  }

  lemma CellReplaced(was: seq<u8>, at: nat, cell: seq<u8>, from: nat)
    requires |cell| == 16 && at + 16 <= |was| && from + 16 <= |was|
    ensures from == at ==> Cut(Spliced(was, at, cell), from, 16) == cell
    ensures from + 16 <= at || at + 16 <= from ==> Cut(Spliced(was, at, cell), from, 16) == Cut(was, from, 16)
  {
    forall k | 0 <= k < 16
      ensures from == at ==> Cut(Spliced(was, at, cell), from, 16)[k] == cell[k]
      ensures from + 16 <= at || at + 16 <= from ==> Cut(Spliced(was, at, cell), from, 16)[k] == Cut(was, from, 16)[k]
    {
      SplicedAt(was, at, cell, from + k);
    }
  }

  lemma LoggedHolds(c: Cache, events: seq<Value128>, e: Value128)
    requires Shaped(c) && NoDuplicates(c) && Holds(c, events)
    ensures InBlock(LogAddr(|events| % LOG_CELLS), 16)
    ensures Holds(Materialized(c, LogAddr(|events| % LOG_CELLS), CellBytes(e)), events + [e])
  {
    var n, at := |events|, LogAddr(|events| % LOG_CELLS);
    LogCell(n % LOG_CELLS);
    MaterializedBlock(c, at, CellBytes(e));
    var r, all, was := Materialized(c, at, CellBytes(e)), events + [e], SlotBytes(c, AcquiredSlot(c, LOG_BLOCK));
    forall k | 0 <= k < |all| <= k + LOG_CELLS
      ensures Cut(Contents(r, LOG_BLOCK), 16 * (k % LOG_CELLS), 16) == CellBytes(all[k])
    {
      CellReplaced(was, 16 * (n % LOG_CELLS), CellBytes(e), 16 * (k % LOG_CELLS));
      if k < n {
        OtherCells(n, k);
        assert Cut(Contents(c, LOG_BLOCK), 16 * (k % LOG_CELLS), 16) == CellBytes(events[k]);
      }
    }
  }

  lemma OtherHolds(c: Cache, events: seq<Value128>, op: Op)
    requires Shaped(c) && NoDuplicates(c) && Holds(c, events)
    requires op.Write? ==> VBlock(op.vaddr) != LOG_BLOCK
    requires |events| > 0 ==> Resident(Step(c, op), LOG_BLOCK)
    ensures Holds(Step(c, op), events)
  {
    if |events| > 0 {
      match op
      case Fetch(_) =>
      case Write(vaddr, data) => MaterializedOther(c, vaddr, data, LOG_BLOCK);
      case ClearSlot(slot) => SlotClearedBlocks(c, slot, LOG_BLOCK);
    }
  }

  /** What holds of the log after the given events. */
  ghost predicate Keeps(s: LogState, events: seq<Value128>) {
    ValidState(s) && NoDuplicates(s.cache) && s.head == |events| % LOG_CELLS && Holds(s.cache, events)
  }

  lemma NextHead(n: nat)
    ensures (n % LOG_CELLS + 1) % LOG_CELLS == (n + 1) % LOG_CELLS
  {
  }

  lemma LogKeeps(s: LogState, events: seq<Value128>, kind: u8, metadata: u64)
    requires Keeps(s, events)
    ensures Keeps(LogStep(s, Log(kind, metadata)), events + [EntryOf(kind, metadata)])
  {
    hide Materialized, Holds, NoDuplicates, CellBytes, EntryOf, LogAddr, Shaped;
    LogCell(s.head);
    LoggedHolds(s.cache, events, EntryOf(kind, metadata));
    MaterializedBlock(s.cache, LogAddr(s.head), CellBytes(EntryOf(kind, metadata)));
    NextHead(|events|);
  }

  lemma OtherKeeps(s: LogState, events: seq<Value128>, op: Op)
    requires Keeps(s, events)
    requires op.Write? ==> VBlock(op.vaddr) != LOG_BLOCK
    requires |events| > 0 ==> Resident(Step(s.cache, op), LOG_BLOCK)
    ensures Keeps(LogStep(s, Other(op)), events)
  {
    OtherHolds(s.cache, events, op);
    StepNoDuplicates(s.cache, op);
  }

  /** After any interleaving that keeps the log's block, the ring holds the latest events. */
  lemma {:induction false} LogHolds(s: LogState, ts: seq<Traffic>)
    requires ValidState(s) && NoDuplicates(s.cache) && s.head == 0 && Undisturbed(s, ts)
    ensures Keeps(LogRun(s, ts), Events(ts))
    decreases |ts|
  {
    if |ts| > 0 {
      var init, last := ts[..|ts| - 1], ts[|ts| - 1];
      LogHolds(s, init);
      match last
      case Log(kind, metadata) => LogKeeps(LogRun(s, init), Events(init), kind, metadata);
      case Other(op) => OtherKeeps(LogRun(s, init), Events(init), op);
    }
  }

  function Latest(n: nat): nat {
    if n < LOG_CELLS then n else LOG_CELLS
  }

  /** Reading the ring back from the oldest event still held. */
  function Recovered(c: Cache, n: nat): seq<Value128>
    requires Shaped(c)
  {
    seq(Latest(n), j requires 0 <= j < Latest(n) => Fetched(c, LogAddr((n - Latest(n) + j) % LOG_CELLS)))
  }

  lemma FetchedEvent(c: Cache, events: seq<Value128>, k: nat)
    requires Shaped(c) && Holds(c, events) && k < |events| <= k + LOG_CELLS
    ensures Fetched(c, LogAddr(k % LOG_CELLS)) == events[k]
  {
    LogCell(k % LOG_CELLS);
    FetchedCell(c, LogAddr(k % LOG_CELLS));
    assert Cut(Contents(c, LOG_BLOCK), 16 * (k % LOG_CELLS), 16) == CellBytes(events[k]);
    CellFromBytes(events[k]);
  }

  /** The last min(n, 1024) events come back in order. */
  lemma EventsRecovered(s: LogState, ts: seq<Traffic>)
    requires ValidState(s) && NoDuplicates(s.cache) && s.head == 0 && Undisturbed(s, ts)
    ensures var n := |Events(ts)|;
            Recovered(LogRun(s, ts).cache, n) == Events(ts)[n - Latest(n)..]
  {
    hide LogRun, Undisturbed, Holds, Fetched, Events, LogAddr, NoDuplicates;
    LogHolds(s, ts);
    var c, events := LogRun(s, ts).cache, Events(ts);
    var n, m := |events|, Latest(|events|);
    forall j | 0 <= j < m
      ensures Recovered(c, n)[j] == events[n - m..][j]
    {
      FetchedEvent(c, events, n - m + j);
    }
  }

  // ---------------------------------------------------------------- when the block stays

  /** What a piece of traffic does to the cache, with the log's head as it is then. */
  function OpOf(head: nat, t: Traffic): Op
    requires head < LOG_CELLS
  {
    match t
    case Log(kind, metadata) =>
      LogCell(head);
      Write(LogAddr(head), CellBytes(EntryOf(kind, metadata)))
    case Other(op) => op
  }

  function LogOps(s: LogState, ts: seq<Traffic>): (ops: seq<Op>)
    requires ValidState(s)
    ensures |ops| == |ts|
    decreases |ts|
  {
    if |ts| == 0 then []
    else LogOps(s, ts[..|ts| - 1]) + [OpOf(LogRun(s, ts[..|ts| - 1]).head, ts[|ts| - 1])]
  }

  lemma {:induction false} LogOpsRun(s: LogState, ts: seq<Traffic>)
    requires ValidState(s)
    ensures Run(s.cache, LogOps(s, ts)) == LogRun(s, ts).cache
    decreases |ts|
  {
    if |ts| > 0 {
      LogOpsRun(s, ts[..|ts| - 1]);
      assert LogOps(s, ts)[..|ts| - 1] == LogOps(s, ts[..|ts| - 1]);
    }
  }

  /** The other users clear no slot and write to other blocks. */
  ghost predicate Elsewhere(ts: seq<Traffic>) {
    forall i :: 0 <= i < |ts| && ts[i].Other? ==>
      !ts[i].op.ClearSlot? && (ts[i].op.Write? ==> VBlock(ts[i].op.vaddr) != LOG_BLOCK)
  }

  lemma {:induction false} LogOpsNoClears(s: LogState, ts: seq<Traffic>)
    requires ValidState(s) && Elsewhere(ts)
    ensures NoClears(LogOps(s, ts))
    decreases |ts|
  {
    if |ts| > 0 {
      LogOpsNoClears(s, ts[..|ts| - 1]);
    }
  }

  /** The blocks that the traffic accesses by writing, in order. */
  function LogBlocks(s: LogState, ts: seq<Traffic>): seq<nat>
    requires ValidState(s)
  {
    Blocks(LogOps(s, ts))
  }

  lemma LogBlocksStep(s: LogState, ts: seq<Traffic>)
    requires ValidState(s) && |ts| > 0
    ensures var init, last := LogBlocks(s, ts[..|ts| - 1]), ts[|ts| - 1];
      LogBlocks(s, ts) ==
        if last.Log? then init + [LOG_BLOCK]
        else if last.op.Write? then init + [VBlock(last.op.vaddr)]
        else init
  {
    var n := |ts| - 1;
    LogCell(LogRun(s, ts[..n]).head);
    assert LogOps(s, ts)[..n] == LogOps(s, ts[..n]);
  }

  /** Where the first event is. */
  function FirstLog(ts: seq<Traffic>): (i: nat)
    requires |Events(ts)| > 0
    ensures i < |ts|
    decreases |ts|
  {
    if |Events(ts[..|ts| - 1])| > 0 then FirstLog(ts[..|ts| - 1]) else |ts| - 1
  }

  /**
   The count of creations up to which the log's block stays, once it has been accessed: the
   distance of its slot, if it is found there, and 1024 more than the count so far otherwise.
   */
  function LogDeadline(s: LogState, ts: seq<Traffic>): nat
    requires ValidState(s) && |Events(ts)| > 0
  {
    var k := Count(s.cache, LogBlocks(s, ts[..FirstLog(ts)]));
    if SlotOf(s.cache, LOG_BLOCK) < CACHE_POOL_SIZE && k <= Distance(s.cache, LOG_BLOCK)
    then Distance(s.cache, LOG_BLOCK)
    else k + CACHE_POOL_SIZE
  }

  /** Told from the state before: the creations have not passed the deadline of the log's block. */
  predicate LogStays(s: LogState, ts: seq<Traffic>)
    requires ValidState(s)
  {
    |Events(ts)| > 0 ==> Count(s.cache, LogBlocks(s, ts)) <= LogDeadline(s, ts)
  }

  /** As long as the block stays, its deadline is that of its first access. */
  ghost predicate Settled(s: LogState, ts: seq<Traffic>)
    requires ValidState(s)
  {
    var d := Deadline(s.cache, LogBlocks(s, ts), LOG_BLOCK);
    if |Events(ts)| > 0 then LogStays(s, ts) ==> d == LogDeadline(s, ts)
    else d == if SlotOf(s.cache, LOG_BLOCK) < CACHE_POOL_SIZE then Distance(s.cache, LOG_BLOCK) else -1
  }

  lemma FirstLogIs(ts: seq<Traffic>)
    requires |Events(ts)| > 0
    ensures if |Events(ts[..|ts| - 1])| > 0
            then ts[..FirstLog(ts)] == ts[..|ts| - 1][..FirstLog(ts[..|ts| - 1])]
            else ts[..FirstLog(ts)] == ts[..|ts| - 1]
  {
    FirstLogStep(ts);
    hide FirstLog, Events;
    if |Events(ts[..|ts| - 1])| > 0 {
      TakeTake(ts, |ts| - 1, FirstLog(ts));
    }
  }

  lemma FirstLogStep(ts: seq<Traffic>)
    requires |Events(ts)| > 0
    ensures |ts| > 0
    ensures FirstLog(ts) == if |Events(ts[..|ts| - 1])| > 0 then FirstLog(ts[..|ts| - 1]) else |ts| - 1
  {
  }

  lemma TakeTake<T>(s: seq<T>, n: nat, k: nat)
    requires k <= n <= |s|
    ensures s[..n][..k] == s[..k]
  {
  }

  lemma LogDeadlineStep(s: LogState, ts: seq<Traffic>)
    requires ValidState(s) && |ts| > 0 && |Events(ts[..|ts| - 1])| > 0
    ensures |Events(ts)| > 0 && LogDeadline(s, ts) == LogDeadline(s, ts[..|ts| - 1])
  {
    FirstLogIs(ts);
  }

  /** The first event settles the deadline. */
  lemma FirstEvent(s: LogState, ts: seq<Traffic>)
    requires ValidState(s) && |ts| > 0 && |Events(ts[..|ts| - 1])| == 0 && ts[|ts| - 1].Log?
    requires Settled(s, ts[..|ts| - 1])
    ensures Settled(s, ts) && LogStays(s, ts)
  {
    hide Count, Deadline, LogBlocks, Distance, SlotOf;
    LogBlocksStep(s, ts);
    FirstLogIs(ts);
    NextAccess(s.cache, LogBlocks(s, ts[..|ts| - 1]), LOG_BLOCK, LOG_BLOCK);
  }

  /** A further access by the log, or any access to another block, leaves the deadline. */
  lemma LaterAccess(s: LogState, ts: seq<Traffic>)
    requires ValidState(s) && |ts| > 0 && Elsewhere(ts)
    requires |Events(ts[..|ts| - 1])| > 0 || ts[|ts| - 1].Other?
    requires Settled(s, ts[..|ts| - 1])
    ensures Settled(s, ts) && (LogStays(s, ts) ==> LogStays(s, ts[..|ts| - 1]))
  {
    hide Count, Deadline, LogBlocks, LogDeadline;
    var init, last := ts[..|ts| - 1], ts[|ts| - 1];
    LogBlocksStep(s, ts);
    if |Events(init)| > 0 {
      LogDeadlineStep(s, ts);
    }
    if last.Log? {
      NextAccess(s.cache, LogBlocks(s, init), LOG_BLOCK, LOG_BLOCK);
    } else if last.op.Write? {
      NextAccess(s.cache, LogBlocks(s, init), VBlock(last.op.vaddr), LOG_BLOCK);
    }
  }

  lemma LogResidentIff(s: LogState, ts: seq<Traffic>)
    requires ValidState(s) && NoDuplicates(s.cache) && Elsewhere(ts) && |Events(ts)| > 0 && Settled(s, ts)
    ensures LogStays(s, ts) ==> Resident(LogRun(s, ts).cache, LOG_BLOCK)
    ensures !LogStays(s, ts) && Deadline(s.cache, LogBlocks(s, ts), LOG_BLOCK) == LogDeadline(s, ts) ==>
      !Resident(LogRun(s, ts).cache, LOG_BLOCK)
  {
    hide Count, Deadline, LogDeadline, LogRun, LogOps;
    LogOpsNoClears(s, ts);
    LogOpsRun(s, ts);
    ResidentAfterRunIff(s.cache, LogOps(s, ts), LOG_BLOCK);
  }

  /** The access that passes the deadline does not renew it. */
  lemma LastAccess(s: LogState, ts: seq<Traffic>)
    requires ValidState(s) && |ts| > 0 && Elsewhere(ts) && |Events(ts[..|ts| - 1])| > 0
    requires Settled(s, ts[..|ts| - 1]) && LogStays(s, ts[..|ts| - 1])
    ensures Deadline(s.cache, LogBlocks(s, ts), LOG_BLOCK) == LogDeadline(s, ts) && |Events(ts)| > 0
  {
    hide Count, Deadline, LogBlocks, LogDeadline;
    var init, last := ts[..|ts| - 1], ts[|ts| - 1];
    LogBlocksStep(s, ts);
    LogDeadlineStep(s, ts);
    if last.Log? {
      NextAccess(s.cache, LogBlocks(s, init), LOG_BLOCK, LOG_BLOCK);
    } else if last.op.Write? {
      NextAccess(s.cache, LogBlocks(s, init), VBlock(last.op.vaddr), LOG_BLOCK);
    }
  }

  lemma NothingLogged(s: LogState)
    requires ValidState(s)
    ensures Settled(s, []) && LogStays(s, []) && Undisturbed(s, [])
  {
  }

  /**
   From any state of the cache, with other users that clear no slot and write elsewhere: the log's
   block is never lost exactly if the creations do not pass its deadline.
   */
  lemma {:induction false} UndisturbedIff(s: LogState, ts: seq<Traffic>)
    requires ValidState(s) && NoDuplicates(s.cache) && Elsewhere(ts)
    ensures Undisturbed(s, ts) <==> LogStays(s, ts)
    ensures Settled(s, ts)
    decreases |ts|
  {
    hide LogStays, Settled, LogRun, Resident, NoDuplicates, LogDeadline;
    if |ts| == 0 {
      NothingLogged(s);
      assert ts == [];
    } else {
      var init := ts[..|ts| - 1];
      UndisturbedIff(s, init);
      if |Events(init)| == 0 && ts[|ts| - 1].Log? {
        FirstEvent(s, ts);
        NoEventStays(s, init);
        LogResidentIff(s, ts);
      } else {
        LaterAccess(s, ts);
        if |Events(init)| == 0 {
          NoEventStays(s, init);
          NoEventStays(s, ts);
        } else {
          LogResidentIff(s, ts);
          if LogStays(s, init) {
            LastAccess(s, ts);
          }
        }
      }
    }
  }

  lemma NoEventStays(s: LogState, ts: seq<Traffic>)
    requires ValidState(s) && |Events(ts)| == 0
    ensures LogStays(s, ts)
  {
  }

  /** With a condition on the state before alone, the latest events are recovered. */
  lemma EventsRecoveredWithin(s: LogState, ts: seq<Traffic>)
    requires ValidState(s) && NoDuplicates(s.cache) && s.head == 0 && Elsewhere(ts) && LogStays(s, ts)
    ensures var n := |Events(ts)|;
            Recovered(LogRun(s, ts).cache, n) == Events(ts)[n - Latest(n)..]
  {
    hide LogStays, Recovered, LogRun, Events, Undisturbed, Settled;
    UndisturbedIff(s, ts);
    EventsRecovered(s, ts);
  }

  /** From an empty cache the deadline is 1024 creations after those before the first event. */
  lemma DeadlineFromEmpty(s: LogState, ts: seq<Traffic>)
    requires ValidState(s) && Initial(s.cache) && |Events(ts)| > 0
    ensures NoDuplicates(s.cache)
    ensures LogDeadline(s, ts) == Count(s.cache, LogBlocks(s, ts[..FirstLog(ts)])) + CACHE_POOL_SIZE
  {
    hide Count, LogBlocks;
    if SlotOf(s.cache, LOG_BLOCK) < CACHE_POOL_SIZE {
      assert false;
    }
  }
}
