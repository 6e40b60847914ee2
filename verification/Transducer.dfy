/** Chains of precomputed answers: burning them into the manifold and resolving scripts. */
module Transducer {
  import opened Bits
  import opened Memory
  import opened Mixing
  import opened ManifoldModel
  import opened ManifoldRuns
  import opened WriteBursts
  import opened Manifold

  datatype ExecutionState = ExecutionState(lastResolve: u64, fault: bool)

  /** The atom that burn_atom stores: hi is zero. */
  function Terminal(result: u64): (b: seq<u8>)
    ensures |b| == 16
  {
    CellBytes(Value128(0, result))
  }

  /** Following a script from a previous result; an all-zero atom is a fault. */
  function Resolved(c: Cache, script: seq<u64>, last: u64): ExecutionState
    requires Shaped(c)
    decreases |script|
  {
    if |script| == 0 then ExecutionState(last, false)
    else
      var terminal := Fetched(c, Xor64(last, script[0]));
      if terminal.hi == 0 && terminal.lo == 0 then ExecutionState(last, true)
      else Resolved(c, script[1..], terminal.lo)
  }

  class LogicTransducer {
    const manifold: SubstrateManifold

    constructor (manifold: SubstrateManifold)
      ensures this.manifold == manifold
    {
      this.manifold := manifold;
    }

    /** A burn is sixteen bytes at a cell, so it never leaves its block. */
    method BurnAtom(intent: u64, result: u64)
      requires manifold.Valid()
      modifies manifold, manifold.cacheState, manifold.vblockMap, manifold.cachePool
      ensures manifold.Valid()
      ensures manifold.View() == Materialized(old(manifold.View()), intent, Terminal(result))
    {
      InBlockFits(manifold.View(), intent, Terminal(result));
      manifold.MaterializeRange(intent, CellBytes(Value128(0, result)));
    }

    method ResolveChain(script: seq<u64>) returns (state: ExecutionState)
      requires manifold.Valid()
      ensures state == Resolved(manifold.View(), script, 0)
    {
      ghost var c := manifold.View();
      var last: u64 := 0;
      assert script[0..] == script;
      for i := 0 to |script|
        invariant Resolved(c, script[i..], last) == Resolved(c, script, 0)
      {
        assert script[i..][1..] == script[i + 1..];
        var intent := Xor64(last, script[i]);
        var terminal := manifold.HolographicFetch(intent);
        if terminal.hi == 0 && terminal.lo == 0 {
          return ExecutionState(last, true);
        }
        last := terminal.lo;
      }
      return ExecutionState(last, false);
    }
  }

  // ---------------------------------------------------------------- faults

  /** Resolving in two stretches is resolving in one, unless the first faults. */
  lemma {:induction false} ResolvedAppend(c: Cache, a: seq<u64>, b: seq<u64>, last: u64)
    requires Shaped(c)
    ensures Resolved(c, a + b, last) ==
      if Resolved(c, a, last).fault then Resolved(c, a, last)
      else Resolved(c, b, Resolved(c, a, last).lastResolve)
    decreases |a|
  {
    if |a| == 0 {
      assert a + b == b;
    } else {
      assert (a + b)[1..] == a[1..] + b;
      var terminal := Fetched(c, Xor64(last, a[0]));
      if !(terminal.hi == 0 && terminal.lo == 0) {
        ResolvedAppend(c, a[1..], b, terminal.lo);
      }
    }
  }

  /** The answers along a script: each is the low word found where the one before it points. */
  function Answers(c: Cache, script: seq<u64>, last: u64): (a: seq<u64>)
    requires Shaped(c)
    ensures |a| == |script| + 1 && a[0] == last
    ensures forall i :: 0 <= i < |script| ==> a[i + 1] == Fetched(c, Xor(a[i], script[i])).lo
    decreases |script|
  {
    if |script| == 0 then [last]
    else [last] + Answers(c, script[1..], Fetched(c, Xor64(last, script[0])).lo)
  }

  /** The length of the longest prefix of a script that resolves without fault. */
  function FaultFree(c: Cache, script: seq<u64>, last: u64): (n: nat)
    requires Shaped(c)
    ensures n <= |script|
    decreases |script|
  {
    if |script| == 0 then 0
    else
      var terminal := Fetched(c, Xor64(last, script[0]));
      if terminal.hi == 0 && terminal.lo == 0 then 0 else 1 + FaultFree(c, script[1..], terminal.lo)
  }

  /**
   What resolving returns, in any state: the words found on the fault-free prefix are nonzero in at
   least one half, the answer after it is returned, and a fault means that the next word is zero
   in both halves.
   */
  lemma {:induction false} ResolvedIs(c: Cache, script: seq<u64>, last: u64)
    requires Shaped(c)
    ensures var a, n, r := Answers(c, script, last), FaultFree(c, script, last), Resolved(c, script, last);
      && r == ExecutionState(a[n], n < |script|)
      && (n < |script| ==> Fetched(c, Xor(a[n], script[n])) == Value128(0, 0))
      && forall i :: 0 <= i < n ==>
           Fetched(c, Xor(a[i], script[i])).hi != 0 || Fetched(c, Xor(a[i], script[i])).lo != 0
    decreases |script|
  {
    hide Fetched, Xor;
    if |script| > 0 {
      var v, rest := Fetched(c, Xor64(last, script[0])), script[1..];
      if v.hi != 0 || v.lo != 0 {
        ResolvedIs(c, rest, v.lo);
        var a, b := Answers(c, script, last), Answers(c, rest, v.lo);
        assert a == [last] + b;
        forall i | 0 <= i < FaultFree(c, script, last)
          ensures Fetched(c, Xor(a[i], script[i])).hi != 0 || Fetched(c, Xor(a[i], script[i])).lo != 0
        {
          if i > 0 {
            assert a[i] == b[i - 1] && script[i] == rest[i - 1];
          }
        }
      }
    }
  }

  /**
   In any state a script returns the result of its longest fault-free prefix: that prefix
   resolves cleanly to the same value, every longer one faults, and the fault flag tells whether
   anything was left over.
   */
  lemma {:induction false} LongestPrefix(c: Cache, script: seq<u64>, last: u64, m: nat)
    requires Shaped(c) && m <= |script|
    ensures Resolved(c, script[..m], last).fault <==> m > FaultFree(c, script, last)
    ensures m >= FaultFree(c, script, last) ==>
      Resolved(c, script[..m], last).lastResolve == Resolved(c, script, last).lastResolve
    ensures Resolved(c, script, last).fault <==> FaultFree(c, script, last) < |script|
    decreases |script|
  {
    if |script| > 0 {
      var terminal := Fetched(c, Xor64(last, script[0]));
      if !(terminal.hi == 0 && terminal.lo == 0) {
        LongestPrefix(c, script[1..], terminal.lo, if m == 0 then 0 else m - 1);
        if m > 0 {
          assert script[..m][1..] == script[1..][..m - 1];
        }
      }
    }
  }

  // ---------------------------------------------------------------- burning a chain

  /** The result before step i: nothing resolves to zero at the start. */
  function Before(results: seq<u64>, i: nat): u64
    requires i <= |results|
  {
    if i == 0 then 0 else results[i - 1]
  }

  /** The address that step i of a chain looks at. */
  function Intent(script: seq<u64>, results: seq<u64>, i: nat): u64
    requires i < |script| == |results|
  {
    Xor64(Before(results, i), script[i])
  }

  /** The burns that prepare a chain. */
  function Burns(script: seq<u64>, results: seq<u64>): (ops: seq<Op>)
    requires |script| == |results|
    ensures |ops| == |script| && AllWrites(ops)
  {
    seq(|script|, i requires 0 <= i < |script| => Write(Intent(script, results, i), Terminal(results[i])))
  }

  /** Intents fall in different 16-byte cells. */
  ghost predicate DistinctCells(script: seq<u64>, results: seq<u64>)
    requires |script| == |results|
  {
    forall i, j :: 0 <= i < j < |script| ==> Intent(script, results, i) / 16 != Intent(script, results, j) / 16
  }

  /** The chain from step i on: it runs to the end or stops before the first zero result. */
  function Outcome(results: seq<u64>, i: nat): ExecutionState
    requires i <= |results|
    decreases |results| - i
  {
    if i == |results| then ExecutionState(Before(results, i), false)
    else if results[i] == 0 then ExecutionState(Before(results, i), true)
    else Outcome(results, i + 1)
  }

  lemma CellsApart(a: nat, b: nat)
    requires a / 16 != b / 16 && VBlock(a) == VBlock(b)
    ensures Offset(a) + 16 <= Offset(b) || Offset(b) + 16 <= Offset(a)
  {
    assert VBlock(a) == (a / 16) / 1024 && VBlock(b) == (b / 16) / 1024;
  }

  lemma BurntFetch(c: Cache, script: seq<u64>, results: seq<u64>, blocks: set<nat>, i: nat)
    requires i < |script| == |results|
    requires Fits(c, Burns(script, results), blocks) && DistinctCells(script, results)
    ensures Fetched(Run(c, Burns(script, results)), Intent(script, results, i)) == Value128(0, results[i])
  {
    var ops, a := Burns(script, results), Intent(script, results, i);
    forall j | i < j < |ops|
      ensures !Overlaps(ops[j], VBlock(a), Offset(a))
    {
      if VBlock(ops[j].vaddr) == VBlock(a) {
        CellsApart(a, Intent(script, results, j));
      }
    }
    BurstFetch(c, ops, blocks, i, 0, a);
    assert Cut(Terminal(results[i]), 0, 16) == Terminal(results[i]);
    CellFromBytes(Value128(0, results[i]));
  }

  /**
   A chain burnt into absent blocks, at most 1024 of them and with every intent in its own cell,
   resolves step by step to the burnt results; a zero result is the only way it can fault.
   */
  lemma {:induction false} BurntChainFrom(c: Cache, script: seq<u64>, results: seq<u64>, blocks: set<nat>, i: nat)
    requires i <= |script| == |results|
    requires Fits(c, Burns(script, results), blocks) && DistinctCells(script, results)
    ensures Resolved(Run(c, Burns(script, results)), script[i..], Before(results, i)) == Outcome(results, i)
    decreases |script| - i
  {
    if i < |script| {
      assert script[i..][1..] == script[i + 1..];
      BurntFetch(c, script, results, blocks, i);
      if results[i] != 0 {
        BurntChainFrom(c, script, results, blocks, i + 1);
      }
    }
  }

  lemma {:induction false} OutcomeClean(results: seq<u64>, i: nat)
    requires i <= |results|
    ensures !Outcome(results, i).fault <==> forall k :: i <= k < |results| ==> results[k] != 0
    ensures !Outcome(results, i).fault ==> Outcome(results, i).lastResolve == Before(results, |results|)
    decreases |results| - i
  {
    if i < |results| && results[i] != 0 {
      OutcomeClean(results, i + 1);
    }
  }

  /** The whole chain resolves without fault to its last result exactly if no result is zero. */
  lemma BurntChainResolves(c: Cache, script: seq<u64>, results: seq<u64>)
    requires |script| == |results| > 0
    requires Fits(c, Burns(script, results), Touched(Burns(script, results))) && DistinctCells(script, results)
    ensures Resolved(Run(c, Burns(script, results)), script, 0) == ExecutionState(results[|results| - 1], false)
      <==> forall k :: 0 <= k < |results| ==> results[k] != 0
  {
    assert script[0..] == script;
    BurntChainFrom(c, script, results, Touched(Burns(script, results)), 0);
    OutcomeClean(results, 0);
  }
}
