/** Taking in consecutive blocks from any state of the cache: which blocks are resident afterwards. */
module BlockSweep {
  import opened ManifoldModel
  import opened Deadlines

  /** Blocks v0, v0 + 1, ..., v0 + t - 1. */
  function Range(v0: nat, t: nat): (vs: seq<nat>)
    ensures |vs| == t
    decreases t
  {
    if t == 0 then [] else Range(v0, t - 1) + [v0 + (t - 1)]
  }

  /** The cache after taking them in. */
  function Swept(c: Cache, v0: nat, t: nat): (r: Cache)
    requires Shaped(c)
    ensures Shaped(r)
  {
    Taken(c, Range(v0, t))
  }

  /** Block w is resident before, and still is after k creations of other blocks. */
  predicate Outlasts(c: Cache, w: nat, k: nat)
    requires Shaped(c)
  {
    SlotOf(c, w) < CACHE_POOL_SIZE && k <= Distance(c, w)
  }

  /** The creations that taking in the first t blocks causes, computed from the state before. */
  function CreationCount(c: Cache, v0: nat, t: nat): (k: nat)
    requires Shaped(c)
    ensures k <= t
    decreases t
  {
    if t == 0 then 0
    else
      var k := CreationCount(c, v0, t - 1);
      if Outlasts(c, v0 + (t - 1), k) then k else k + 1
  }

  /** Block v0 + u is found when its turn comes. */
  predicate Hit(c: Cache, v0: nat, u: nat)
    requires Shaped(c)
  {
    Outlasts(c, v0 + u, CreationCount(c, v0, u))
  }

  /**
   Block v0 + u is resident after the first m turns, told from the state before: a block found at
   its turn as long as its old slot lasts, a created one for 1024 creations.
   */
  predicate Survives(c: Cache, v0: nat, m: nat, u: nat)
    requires Shaped(c)
  {
    if Hit(c, v0, u) then Outlasts(c, v0 + u, CreationCount(c, v0, m))
    else CreationCount(c, v0, m) <= CreationCount(c, v0, u) + CACHE_POOL_SIZE
  }

  /** The deadline of a block in closed form: each block of a sweep has one turn only. */
  function SweepDeadline(c: Cache, v0: nat, t: nat, w: nat): int
    requires Shaped(c)
  {
    if v0 <= w < v0 + t && !Hit(c, v0, w - v0) then CreationCount(c, v0, w - v0) + CACHE_POOL_SIZE
    else if SlotOf(c, w) < CACHE_POOL_SIZE then Distance(c, w)
    else -1
  }

  lemma {:induction false} CountMonotone(c: Cache, v0: nat, u: nat, t: nat)
    requires Shaped(c) && u <= t
    ensures CreationCount(c, v0, u) <= CreationCount(c, v0, t)
    decreases t
  {
    if u < t {
      CountMonotone(c, v0, u, t - 1);
    }
  }

  lemma CreatedCounts(c: Cache, v0: nat, u: nat)
    requires Shaped(c)
    ensures CreationCount(c, v0, u + 1) == CreationCount(c, v0, u) + if Hit(c, v0, u) then 0 else 1
  {
  }

  lemma DeadlineStep(c: Cache, v0: nat, t: nat, w: nat)
    requires Shaped(c)
    ensures SweepDeadline(c, v0, t + 1, w) ==
      if w == v0 + t && !Hit(c, v0, t) then CreationCount(c, v0, t) + CACHE_POOL_SIZE
      else SweepDeadline(c, v0, t, w)
  {
    hide CreationCount, Hit, Distance;
  }

  lemma NextDeadline(c: Cache, v0: nat, t: nat)
    requires Shaped(c)
    ensures CreationCount(c, v0, t) <= SweepDeadline(c, v0, t, v0 + t) <==> Hit(c, v0, t)
  {
    hide CreationCount, Distance;
  }

  lemma NoRange(c: Cache, v0: nat, w: nat)
    requires Shaped(c)
    ensures Count(c, Range(v0, 0)) == CreationCount(c, v0, 0)
    ensures Deadline(c, Range(v0, 0), w) == SweepDeadline(c, v0, 0, w)
  {
  }

  lemma RangeStep(v0: nat, t: nat)
    ensures Range(v0, t + 1) == Range(v0, t) + [v0 + t]
  {
  }

  /** For consecutive blocks, the count and the deadlines are those of the closed form. */
  lemma {:induction false} SweepDeadlines(c: Cache, v0: nat, t: nat, w: nat)
    requires Shaped(c)
    ensures Count(c, Range(v0, t)) == CreationCount(c, v0, t)
    ensures Deadline(c, Range(v0, t), w) == SweepDeadline(c, v0, t, w)
    decreases t
  {
    hide Count, Deadline, SweepDeadline, CreationCount, Range, Hit;
    if t == 0 {
      NoRange(c, v0, w);
    } else {
      SweepDeadlines(c, v0, t - 1, w);
      SweepDeadlines(c, v0, t - 1, v0 + (t - 1));
      RangeStep(v0, t - 1);
      NextAccess(c, Range(v0, t - 1), v0 + (t - 1), w);
      NextDeadline(c, v0, t - 1);
      DeadlineStep(c, v0, t - 1, w);
      CreatedCounts(c, v0, t - 1);
    }
  }

  /**
   From any state of the cache, and told from that state alone: which of the blocks taken in are
   resident at the end.
   */
  lemma SweptIff(c: Cache, v0: nat, m: nat, u: nat)
    requires Shaped(c) && NoDuplicates(c) && u < m
    ensures Resident(Swept(c, v0, m), v0 + u) <==> Survives(c, v0, m, u)
  {
    hide CreationCount, Distance, SlotOf, Count, Deadline, Taken, Range;
    ResidentIff(c, Range(v0, m), v0 + u);
    SweepDeadlines(c, v0, m, v0 + u);
  }

  /** A block outside the range is pushed out exactly once the creations reach its slot. */
  lemma BesideSweepIff(c: Cache, v0: nat, m: nat, w: nat)
    requires Shaped(c) && NoDuplicates(c) && !(v0 <= w < v0 + m)
    ensures Resident(Swept(c, v0, m), w) <==> Outlasts(c, w, CreationCount(c, v0, m))
  {
    hide CreationCount, Distance, SlotOf, Count, Deadline, Taken, Range;
    ResidentIff(c, Range(v0, m), w);
    SweepDeadlines(c, v0, m, w);
  }
}
