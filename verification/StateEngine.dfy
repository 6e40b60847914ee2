/** The state engine: 64 speculative steps, then one that consults the manifold. */
module StateEngine {
  import opened Bits
  import opened Mixing
  import opened ManifoldModel
  import opened Manifold

  const ENTROPY_THRESHOLD: nat := 64
  const ERROR_ROUTE: nat := 0x3FE
  const FREE_ROUTE: nat := 0x3FD

  datatype Engine = Engine(state: u16, chaos: u32)

  /** The low word and the route of the value; a speculative value leaves its other bits unset. */
  datatype ExecutionResult = ExecutionResult(
    prevState: u16, input: u16, nextState: u16, lo: u64, route: nat, valid: bool)

  /** `(state << 10) | (input & 0x3FF)` */
  function Address(state: u16, input: u16): u64 {
    state * LENS_COUNT + input % LENS_COUNT
  }

  lemma AddressIsOr(state: u16, input: u16)
    ensures Address(state, input) == Or(input % LENS_COUNT, state * LENS_COUNT)
  {
    Pow2Values();
    Pow2Add(8, 2);
    OrShifted(input % LENS_COUNT, state, 10);
  }

  /** `(state ^ input) & LENS_MASK` */
  function Blend(state: u16, input: u16): (r: u16)
    ensures r < LENS_COUNT
  {
    Xor(state, input) % LENS_COUNT
  }

  predicate Consults(e: Engine) {
    e.chaos >= ENTROPY_THRESHOLD
  }

  /** A fetched route is taken as the next state exactly if it is neither FREE nor ERROR. */
  predicate ValidRoute(route: nat) {
    route != FREE_ROUTE && route != ERROR_ROUTE
  }

  function NextEngine(c: Cache, e: Engine, input: u16): Engine
    requires Shaped(c)
  {
    if !Consults(e) then Engine(Blend(e.state, input), e.chaos + 1)
    else
      var route := Route(Fetched(c, Address(e.state, input)));
      if ValidRoute(route) then Engine(route, 0)
      else Engine(Blend(e.state, input), 0)
  }

  /** A step in the source's terms, with every constant written out. */
  lemma NextEngineIs(c: Cache, e: Engine, input: u16)
    requires Shaped(c)
    ensures var blend := Xor(e.state, input) % 1024;
      var route := Fetched(c, e.state * 1024 + input % 1024).hi / 0x40_0000_0000_0000;
      NextEngine(c, e, input) ==
        if e.chaos < 64 then Engine(blend, e.chaos + 1)
        else if route == 0x3FD || route == 0x3FE then Engine(blend, 0)
        else Engine(route, 0)
  {
    hide Fetched, Route, Xor;
    RouteIs(Fetched(c, e.state * 1024 + input % 1024));
  }

  class StateEngine {
    const topo: SubstrateManifold
    var currentState: u16
    var chaosAccumulator: u32

    constructor (topo: SubstrateManifold)
      ensures this.topo == topo && currentState == 0 && chaosAccumulator == 0
    {
      this.topo := topo;
      currentState, chaosAccumulator := 0, 0;
    }

    function View(): Engine
      reads this
    {
      Engine(currentState, chaosAccumulator)
    }

    method Reset(initialState: u16)
      modifies this
      ensures View() == Engine(initialState, 0)
    {
      currentState := initialState;
      chaosAccumulator := 0;
    }

    method Step(input: u16) returns (res: ExecutionResult)
      requires topo.Valid()
      modifies this
      ensures View() == NextEngine(topo.View(), old(View()), input)
      ensures res.prevState == old(currentState) && res.input == input && res.nextState == currentState
      ensures !Consults(old(View())) ==>
        && res.valid && res.route == 0x3FD
        && res.lo == Xor(((old(currentState) * 1024 + input % 1024) * 0x517C_C1B7_2722_0A95)
                         % 0x1_0000_0000_0000_0000, input)
      ensures Consults(old(View())) ==>
        var v := Fetched(topo.View(), old(currentState) * 1024 + input % 1024);
        && res.lo == v.lo && res.route == v.hi / 0x40_0000_0000_0000
        && (res.valid <==> res.route != 0x3FD && res.route != 0x3FE)
    {
      var vaddr := currentState * LENS_COUNT + input % LENS_COUNT;
      var prev, currentChaos := currentState, chaosAccumulator;
      chaosAccumulator := (currentChaos + 1) % TWO32;
      if currentChaos < ENTROPY_THRESHOLD {
        currentState := Xor(prev, input) % LENS_COUNT;
        return ExecutionResult(prev, input, currentState, Xor64(Mul64(vaddr, PHI_LO), input), FREE_ROUTE, true);
      }
      var v := topo.HolographicFetch(vaddr);
      var next := Route(v);
      RouteIs(v);
      chaosAccumulator := 0;
      if next != FREE_ROUTE && next != ERROR_ROUTE {
        currentState := next;
        return ExecutionResult(prev, input, next, v.lo, next, true);
      }
      currentState := Xor(prev, input) % LENS_COUNT;
      return ExecutionResult(prev, input, currentState, v.lo, next, false);
    }
  }

  // ---------------------------------------------------------------- runs

  /** One step of a run: the cache as it is at that step, and the input. */
  datatype Turn = Turn(cache: Cache, input: u16)

  /** Every step sees a cache; what other users do to it between steps is arbitrary. */
  ghost predicate Shapes(turns: seq<Turn>) {
    forall i :: 0 <= i < |turns| ==> Shaped(turns[i].cache)
  }

  function EngineRun(e: Engine, turns: seq<Turn>): Engine
    requires Shapes(turns)
    decreases |turns|
  {
    if |turns| == 0 then e
    else NextEngine(turns[|turns| - 1].cache, EngineRun(e, turns[..|turns| - 1]), turns[|turns| - 1].input)
  }

  /** How many of the steps consult the manifold. */
  function Fetches(e: Engine, turns: seq<Turn>): nat
    requires Shapes(turns)
    decreases |turns|
  {
    if |turns| == 0 then 0
    else
      var init := turns[..|turns| - 1];
      Fetches(e, init) + if Consults(EngineRun(e, init)) then 1 else 0
  }

  lemma NextCount(n: nat)
    ensures (n + 1) % 65 == if n % 65 == 64 then 0 else n % 65 + 1
    ensures (n + 1) / 65 == if n % 65 == 64 then n / 65 + 1 else n / 65
  {
    if n % 65 == 64 {
      DivModUnique(n + 1, 65, n / 65 + 1, 0);
    } else {
      DivModUnique(n + 1, 65, n / 65, n % 65 + 1);
    }
  }

  /** From reset, step t consults the manifold exactly if t mod 65 is 64, so n steps fetch n/65 times. */
  lemma {:induction false} Cadence(state: u16, turns: seq<Turn>)
    requires Shapes(turns)
    ensures EngineRun(Engine(state, 0), turns).chaos == |turns| % 65
    ensures Consults(EngineRun(Engine(state, 0), turns)) <==> |turns| % 65 == 64
    ensures Fetches(Engine(state, 0), turns) == |turns| / 65
    decreases |turns|
  {
    if |turns| > 0 {
      hide Route, Blend, Fetched;
      Cadence(state, turns[..|turns| - 1]);
      NextCount(|turns| - 1);
    }
  }

  lemma {:induction false} MaskedAfterOneStep(e: Engine, turns: seq<Turn>)
    requires Shapes(turns) && |turns| > 0
    ensures EngineRun(e, turns).state < LENS_COUNT
  {
  }

  /** Whatever the initial state, every address the manifold is asked for is below 2^20. */
  lemma FetchAddressBound(state: u16, turns: seq<Turn>, input: u16)
    requires Shapes(turns) && Consults(EngineRun(Engine(state, 0), turns))
    ensures Address(EngineRun(Engine(state, 0), turns).state, input) < 0x10_0000
  {
    Cadence(state, turns);
    MaskedAfterOneStep(Engine(state, 0), turns);
  }

  /** A step that consults an absent block counts as valid and leads to state zero. */
  lemma AbsentLeadsToZero(c: Cache, e: Engine, input: u16)
    requires Shaped(c) && Consults(e) && !Resident(c, VBlock(Address(e.state, input)))
    ensures Route(Fetched(c, Address(e.state, input))) == 0 && ValidRoute(0)
    ensures NextEngine(c, e, input) == Engine(0, 0)
  {
    FetchedCell(c, Address(e.state, input));
    ShrZero(54);
  }

  lemma {:induction false} ShrZero(k: nat)
    ensures Shr(0, k) == 0
    decreases k
  {
    if k > 0 {
      ShrZero(k - 1);
    }
  }

  // ---------------------------------------------------------------- a speculative window

  function XorAll(inputs: seq<u16>): nat
    decreases |inputs|
  {
    if |inputs| == 0 then 0 else Xor(XorAll(inputs[..|inputs| - 1]), inputs[|inputs| - 1])
  }

  lemma TenBits(x: nat, y: nat)
    ensures Xor(x % LENS_COUNT, y) % LENS_COUNT == Xor(x, y) % LENS_COUNT
  {
    Pow2Values();
    Pow2Add(8, 2);
    XorSplit(x, y, 10);
    XorSplit(x % LENS_COUNT, y, 10);
    ShrIsDiv(x, 10, LENS_COUNT);
    ShrIsDiv(y, 10, LENS_COUNT);
    ShrIsDiv(x % LENS_COUNT, 10, LENS_COUNT);
    ShrIsDiv(Xor(x, y), 10, LENS_COUNT);
    ShrIsDiv(Xor(x % LENS_COUNT, y), 10, LENS_COUNT);
  }

  function Inputs(turns: seq<Turn>): (s: seq<u16>)
    ensures |s| == |turns|
  {
    seq(|turns|, i requires 0 <= i < |turns| => turns[i].input)
  }

  /** Within a window the state is the masked xor of the start state and all inputs so far. */
  lemma {:induction false} WindowState(state: u16, turns: seq<Turn>)
    requires Shapes(turns) && 0 < |turns| <= ENTROPY_THRESHOLD
    ensures EngineRun(Engine(state, 0), turns)
         == Engine(Xor(state, XorAll(Inputs(turns))) % LENS_COUNT, |turns|)
    decreases |turns|
  {
    var n, init := |turns| - 1, turns[..|turns| - 1];
    var last := turns[n].input;
    assert Inputs(turns)[..n] == Inputs(init);
    Cadence(state, init);
    XorAssociates(state, XorAll(Inputs(init)), last);
    if n == 0 {
      XorZero(last);
      XorZero(state);
      assert XorAll(Inputs(turns)) == Xor(0, last);
    } else {
      WindowState(state, init);
      TenBits(Xor(state, XorAll(Inputs(init))), last);
    }
  }

  lemma XorAllNext(inputs: seq<u16>)
    requires |inputs| > 0
    ensures XorAll(inputs) == Xor(XorAll(inputs[..|inputs| - 1]), inputs[|inputs| - 1])
  {
  }

  /** The last two of three terms trade places. */
  lemma XorTrade(x: nat, y: nat, z: nat)
    ensures Xor(Xor(x, y), z) == Xor(Xor(x, z), y)
  {
    hide Xor;
    XorAssociates(x, y, z);
    XorCommutes(y, z);
    XorAssociates(x, z, y);
  }

  lemma {:induction false} XorAllWithout(inputs: seq<u16>, i: nat)
    requires i < |inputs|
    ensures XorAll(inputs) == Xor(XorAll(inputs[..i] + inputs[i + 1..]), inputs[i])
    decreases |inputs|
  {
    hide Xor, XorAll;
    var n := |inputs| - 1;
    var init, rest := inputs[..n], inputs[..i] + inputs[i + 1..];
    XorAllNext(inputs);
    if i == n {
      assert rest == init;
    } else {
      XorAllWithout(init, i);
      var inner := init[..i] + init[i + 1..];
      assert rest[..|rest| - 1] == inner && rest[|rest| - 1] == inputs[n];
      XorAllNext(rest);
      XorTrade(XorAll(inner), inputs[i], inputs[n]);
    }
  }

  /** Exclusive or does not see the order of its arguments. */
  lemma {:induction false} XorAllPermuted(a: seq<u16>, b: seq<u16>)
    requires multiset(a) == multiset(b)
    ensures XorAll(a) == XorAll(b)
    decreases |a|
  {
    assert |a| == |multiset(a)| == |multiset(b)| == |b|;
    if |a| > 0 {
      var n := |a| - 1;
      assert a[n] in multiset(b);
      var i :| 0 <= i < |b| && b[i] == a[n];
      var rest := b[..i] + b[i + 1..];
      assert a == a[..n] + [a[n]];
      assert b == b[..i] + [b[i]] + b[i + 1..];
      assert multiset(a[..n]) == multiset(a) - multiset{a[n]};
      assert multiset(rest) == multiset(b) - multiset{b[i]};
      XorAllPermuted(a[..n], rest);
      XorAllWithout(b, i);
    }
  }

  /** Reordering the inputs of a window leaves its end state the same, whatever happens to the cache. */
  lemma WindowPermuted(state: u16, a: seq<Turn>, b: seq<Turn>)
    requires Shapes(a) && Shapes(b)
    requires |a| <= ENTROPY_THRESHOLD && multiset(Inputs(a)) == multiset(Inputs(b))
    ensures EngineRun(Engine(state, 0), a) == EngineRun(Engine(state, 0), b)
  {
    assert |a| == |multiset(Inputs(a))| == |multiset(Inputs(b))| == |b|;
    if |a| > 0 {
      WindowState(state, a);
      WindowState(state, b);
      XorAllPermuted(Inputs(a), Inputs(b));
    }
  }
}
