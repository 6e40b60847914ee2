/**
 Which blocks are resident after any sequence of accesses, told from the state before. Every block
 has a deadline: the count of creations up to which it stays.
 */
module Deadlines {
  import opened Bits
  import opened ManifoldModel
  import opened ManifoldRuns

  /** The cache after taking in some blocks, one after the other. */
  function Taken(c: Cache, vs: seq<nat>): (r: Cache)
    requires Shaped(c)
    ensures Shaped(r)
    decreases |vs|
  {
    if |vs| == 0 then c else Acquired(Taken(c, vs[..|vs| - 1]), vs[|vs| - 1])
  }

  /** How many creations a resident block survives: the distance of its slot from the victim slot. */
  function Distance(c: Cache, w: nat): (d: nat)
    requires Shaped(c)
    ensures d < CACHE_POOL_SIZE
  {
    (SlotOf(c, w) + CACHE_POOL_SIZE - Victim(c)) % CACHE_POOL_SIZE
  }

  /** The creations that taking in the blocks causes, computed from the state before. */
  function Count(c: Cache, vs: seq<nat>): (k: nat)
    requires Shaped(c)
    ensures k <= |vs|
    decreases |vs|
  {
    if |vs| == 0 then 0
    else
      var init, last := vs[..|vs| - 1], vs[|vs| - 1];
      if Count(c, init) <= Deadline(c, init, last) then Count(c, init) else Count(c, init) + 1
  }

  /**
   The count of creations up to which block w stays: the distance of its slot at first, 1024 more
   than the count at each creation of its own, and -1 if it was never there.
   */
  function Deadline(c: Cache, vs: seq<nat>, w: nat): int
    requires Shaped(c)
    decreases |vs|
  {
    if |vs| == 0 then if SlotOf(c, w) < CACHE_POOL_SIZE then Distance(c, w) else -1
    else
      var init, last := vs[..|vs| - 1], vs[|vs| - 1];
      if w == last && Deadline(c, init, w) < Count(c, init) then Count(c, init) + CACHE_POOL_SIZE
      else Deadline(c, init, w)
  }

  // ---------------------------------------------------------------- slots and counts

  /** Block w is resident exactly up to its deadline, in the slot of the deadline. */
  ghost predicate Tracks(c: Cache, s: Cache, vs: seq<nat>, w: nat)
    requires Shaped(c) && Shaped(s)
  {
    && (Resident(s, w) <==> Count(c, vs) <= Deadline(c, vs, w))
    && (Resident(s, w) ==> SlotOf(s, w) == (c.counter + Deadline(c, vs, w)) % CACHE_POOL_SIZE)
  }

  lemma SlotOfDistance(slot: nat, n: nat)
    requires slot < CACHE_POOL_SIZE
    ensures (n + (slot + CACHE_POOL_SIZE - n % CACHE_POOL_SIZE) % CACHE_POOL_SIZE) % CACHE_POOL_SIZE == slot
  {
    var q, v := n / CACHE_POOL_SIZE, n % CACHE_POOL_SIZE;
    if v <= slot {
      DivModUnique(slot + CACHE_POOL_SIZE - v, CACHE_POOL_SIZE, 1, slot - v);
      DivModUnique(n + (slot - v), CACHE_POOL_SIZE, q, slot);
    } else {
      DivModUnique(slot + CACHE_POOL_SIZE - v, CACHE_POOL_SIZE, 0, slot + CACHE_POOL_SIZE - v);
      DivModUnique(n + (slot + CACHE_POOL_SIZE - v), CACHE_POOL_SIZE, q + 1, slot);
    }
  }

  lemma TracksAtStart(c: Cache, w: nat)
    requires Shaped(c)
    ensures Tracks(c, c, [], w)
  {
    if Resident(c, w) {
      SlotOfDistance(SlotOf(c, w), c.counter);
    }
  }

  /** One more access: the count and every deadline. */
  lemma NextAccess(c: Cache, vs: seq<nat>, v: nat, w: nat)
    requires Shaped(c)
    ensures Taken(c, vs + [v]) == Acquired(Taken(c, vs), v)
    ensures Count(c, vs + [v]) == if Count(c, vs) <= Deadline(c, vs, v) then Count(c, vs) else Count(c, vs) + 1
    ensures Deadline(c, vs + [v], w) ==
      if w == v && Deadline(c, vs, w) < Count(c, vs) then Count(c, vs) + CACHE_POOL_SIZE else Deadline(c, vs, w)
  {
    assert (vs + [v])[..|vs|] == vs;
  }

  lemma Split(vs: seq<nat>)
    requires |vs| > 0
    ensures vs == vs[..|vs| - 1] + [vs[|vs| - 1]]
  {
  }

  /** The deadline of a resident block is less than 1024 creations away. */
  lemma {:induction false} DeadlineNear(c: Cache, vs: seq<nat>, w: nat)
    requires Shaped(c)
    ensures Deadline(c, vs, w) < Count(c, vs) + CACHE_POOL_SIZE
    decreases |vs|
  {
    if |vs| > 0 {
      var init, last := vs[..|vs| - 1], vs[|vs| - 1];
      DeadlineNear(c, init, w);
      Split(vs);
      NextAccess(c, init, last, w);
    }
  }

  /** Two counts less than 1024 apart name the same slot only if they are equal. */
  lemma SameSlotCount(n: nat, k: nat, d: nat)
    requires k <= d < k + CACHE_POOL_SIZE
    ensures (n + k) % CACHE_POOL_SIZE == (n + d) % CACHE_POOL_SIZE <==> k == d
  {
    var a, b := (n + k) / CACHE_POOL_SIZE, (n + d) / CACHE_POOL_SIZE;
    if (n + k) % CACHE_POOL_SIZE == (n + d) % CACHE_POOL_SIZE {
      assert (b - a) * CACHE_POOL_SIZE == d - k;
    }
  }

  lemma VictimAfter(c: Cache, s: Cache, k: nat)
    requires s.counter == (c.counter + k) % TWO32
    ensures Victim(s) == (c.counter + k) % CACHE_POOL_SIZE
    ensures (s.counter + 1) % TWO32 == (c.counter + (k + 1)) % TWO32
  {
    WrappedCount(c.counter + k);
  }

  /** A resident block sits in the victim slot exactly if its deadline has come. */
  lemma DueIsVictim(c: Cache, s: Cache, vs: seq<nat>, w: nat)
    requires Shaped(c) && Shaped(s) && Tracks(c, s, vs, w) && Resident(s, w)
    requires s.counter == (c.counter + Count(c, vs)) % TWO32
    ensures SlotOf(s, w) == Victim(s) <==> Deadline(c, vs, w) == Count(c, vs)
  {
    hide Count, Deadline, SlotOf, Victim;
    DeadlineNear(c, vs, w);
    VictimAfter(c, s, Count(c, vs));
    SameSlotCount(c.counter, Count(c, vs), Deadline(c, vs, w));
  }

  lemma VictimHolds(s: Cache, w: nat)
    requires Shaped(s) && NoDuplicates(s) && Resident(s, w)
    ensures Maps(s, Victim(s), w) <==> SlotOf(s, w) == Victim(s)
  {
    if Maps(s, Victim(s), w) {
      SlotUnique(s, w, Victim(s));
    }
  }

  lemma SameResidue(n: nat)
    ensures (n + CACHE_POOL_SIZE) % CACHE_POOL_SIZE == n % CACHE_POOL_SIZE
  {
  }

  lemma TakenSlot(s: Cache, v: nat)
    requires Shaped(s)
    ensures AcquiredSlot(s, v) == if Resident(s, v) then SlotOf(s, v) else Victim(s)
    ensures Resident(s, v) ==> Acquired(s, v) == s
    ensures !Resident(s, v) ==> Acquired(s, v) == Created(s, v)
    ensures SlotOf(Acquired(s, v), v) == AcquiredSlot(s, v) ==> Resident(Acquired(s, v), v)
  {
  }

  // ---------------------------------------------------------------- one access

  lemma TracksOther(c: Cache, s: Cache, vs: seq<nat>, v: nat, w: nat)
    requires Shaped(c) && Shaped(s) && NoDuplicates(s) && w != v
    requires s.counter == (c.counter + Count(c, vs)) % TWO32
    requires Tracks(c, s, vs, w) && Tracks(c, s, vs, v)
    ensures Tracks(c, Acquired(s, v), vs + [v], w)
  {
    hide Count, Deadline, SlotOf, Acquired, NoDuplicates, Victim, Maps;
    AcquiredBlocks(s, v, w);
    NextAccess(c, vs, v, w);
    if Resident(s, w) {
      VictimHolds(s, w);
      DueIsVictim(c, s, vs, w);
    }
  }

  lemma TracksTaken(c: Cache, s: Cache, vs: seq<nat>, v: nat)
    requires Shaped(c) && Shaped(s) && NoDuplicates(s) && Tracks(c, s, vs, v)
    requires s.counter == (c.counter + Count(c, vs)) % TWO32
    ensures Tracks(c, Acquired(s, v), vs + [v], v)
  {
    hide Count, Deadline, SlotOf, Acquired, NoDuplicates, Victim, Maps;
    AcquiredBlocks(s, v, v);
    TakenSlot(s, v);
    NextAccess(c, vs, v, v);
    VictimAfter(c, s, Count(c, vs));
    SameResidue(c.counter + Count(c, vs));
  }

  lemma TakenCounter(c: Cache, s: Cache, vs: seq<nat>, v: nat)
    requires Shaped(c) && Shaped(s) && Tracks(c, s, vs, v)
    requires s.counter == (c.counter + Count(c, vs)) % TWO32
    ensures Acquired(s, v).counter == (c.counter + Count(c, vs + [v])) % TWO32
  {
    hide Count, Deadline, SlotOf, Acquired, Victim;
    TakenSlot(s, v);
    NextAccess(c, vs, v, v);
    VictimAfter(c, s, Count(c, vs));
  }

  // ---------------------------------------------------------------- any sequence of accesses

  /** From any state, every block is where the count and the deadlines say, after any accesses. */
  lemma {:induction false} TakenTracks(c: Cache, vs: seq<nat>, w: nat)
    requires Shaped(c) && NoDuplicates(c)
    ensures NoDuplicates(Taken(c, vs))
    ensures Taken(c, vs).counter == (c.counter + Count(c, vs)) % TWO32
    ensures Tracks(c, Taken(c, vs), vs, w)
    decreases |vs|
  {
    hide Acquired, NoDuplicates, Tracks, Taken, Count, Resident, SlotOf, Maps, Shaped;
    if |vs| == 0 {
      NothingTaken(c);
      assert vs == [];
      TracksAtStart(c, w);
    } else {
      var init, v := vs[..|vs| - 1], vs[|vs| - 1];
      Split(vs);
      TakenTracks(c, init, w);
      TakenTracks(c, init, v);
      NextAccess(c, init, v, w);
      AcquiredBlocks(Taken(c, init), v, w);
      TakenCounter(c, Taken(c, init), init, v);
      if w == v {
        TracksTaken(c, Taken(c, init), init, v);
      } else {
        TracksOther(c, Taken(c, init), init, v, w);
      }
    }
  }

  lemma NothingTaken(c: Cache)
    requires Shaped(c)
    ensures Taken(c, []) == c && Count(c, []) == 0
  {
  }

  /**
   From any state and after any sequence of accesses: a block is resident exactly if the creations
   have not passed its deadline, both told from the state before.
   */
  lemma ResidentIff(c: Cache, vs: seq<nat>, w: nat)
    requires Shaped(c) && NoDuplicates(c)
    ensures Resident(Taken(c, vs), w) <==> Count(c, vs) <= Deadline(c, vs, w)
  {
    hide Count, Deadline, Taken;
    TakenTracks(c, vs, w);
  }

  /** A block that is taken in last is within its deadline. */
  lemma JustTaken(c: Cache, vs: seq<nat>, v: nat)
    requires Shaped(c)
    ensures Count(c, vs + [v]) <= Deadline(c, vs + [v], v)
  {
    hide Count, Deadline;
    NextAccess(c, vs, v, v);
  }

  // ---------------------------------------------------------------- runs

  /** Two caches that differ at most in the bytes of the pool. */
  ghost predicate SameDirectory(c: Cache, d: Cache) {
    c.state == d.state && c.vmap == d.vmap && c.counter == d.counter
  }

  lemma SameResidents(c: Cache, d: Cache, w: nat)
    requires Shaped(c) && Shaped(d) && SameDirectory(c, d) && NoDuplicates(c)
    ensures SlotOf(c, w) == SlotOf(d, w) && (Resident(c, w) <==> Resident(d, w))
    ensures NoDuplicates(d) && AcquiredSlot(c, w) == AcquiredSlot(d, w)
  {
    SamePlaces(c, d, w);
  }

  /** A write changes the directory as taking in its block does. */
  lemma WriteDirectory(c: Cache, d: Cache, op: Op)
    requires Shaped(c) && Shaped(d) && SameDirectory(c, d) && NoDuplicates(c) && op.Write?
    ensures SameDirectory(Acquired(c, VBlock(op.vaddr)), Step(d, op))
  {
    hide SlotOf, NoDuplicates;
    SameResidents(c, d, VBlock(op.vaddr));
  }

  /** The blocks that the writes of a run access, in order. */
  function Blocks(ops: seq<Op>): (vs: seq<nat>)
    ensures |vs| <= |ops|
    decreases |ops|
  {
    if |ops| == 0 then []
    else
      var init, last := ops[..|ops| - 1], ops[|ops| - 1];
      if last.Write? then Blocks(init) + [VBlock(last.vaddr)] else Blocks(init)
  }

  ghost predicate NoClears(ops: seq<Op>) {
    forall i :: 0 <= i < |ops| ==> !ops[i].ClearSlot?
  }

  /** Without slot operations, a run changes the directory as accessing its blocks does. */
  lemma {:induction false} RunDirectory(c: Cache, ops: seq<Op>)
    requires Shaped(c) && NoDuplicates(c) && NoClears(ops)
    ensures SameDirectory(Taken(c, Blocks(ops)), Run(c, ops))
    decreases |ops|
  {
    hide Taken, NoDuplicates, Acquired, Shaped, SlotOf, Resident;
    if |ops| == 0 {
      NothingTaken(c);
    } else {
      var init, last := ops[..|ops| - 1], ops[|ops| - 1];
      RunDirectory(c, init);
      TakenTracks(c, Blocks(init), 0);
      if last.Write? {
        WriteDirectory(Taken(c, Blocks(init)), Run(c, init), last);
        NextAccess(c, Blocks(init), VBlock(last.vaddr), 0);
      }
    }
  }

  /** After any run without slot operations, from any state, told from that state alone. */
  lemma ResidentAfterRunIff(c: Cache, ops: seq<Op>, w: nat)
    requires Shaped(c) && NoDuplicates(c) && NoClears(ops)
    ensures Resident(Run(c, ops), w) <==> Count(c, Blocks(ops)) <= Deadline(c, Blocks(ops), w)
  {
    hide Count, Deadline, Taken, Run, NoDuplicates, NoClears, SameDirectory, SlotOf, Resident;
    RunDirectory(c, ops);
    TakenTracks(c, Blocks(ops), w);
    ResidentIff(c, Blocks(ops), w);
    SameResidents(Taken(c, Blocks(ops)), Run(c, ops), w);
  }
}
