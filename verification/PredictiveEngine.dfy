/** The speculative ring: one producer pushes predictions, one consumer checks them in order. */
module PredictiveEngine {
  import opened Bits
  import opened Memory
  import opened Mixing
  import opened ManifoldModel
  import opened Manifold

  const RING: nat := 256

  datatype Record = Record(vaddr: u64, predicted: Value128)

  lemma GuessFits(stale: u64, route: nat)
    requires route < LENS_COUNT
    ensures Low(stale, 52) + Shl(route, 54) < TWO64
    ensures Shr(Low(stale, 52) + Shl(route, 54), 54) == route
  {
    hide Pow2, Shr, Low, Shl;
    ShrLow(stale, 52);
    Pow2Monotone(52, 54);
    Pow2Values();
    Pow2Add(8, 2);
    Pow2Add(54, 10);
    JoinLess(Low(stale, 52), route, 54, 10);
    JoinBits(Low(stale, 52), route, 54);
  }

  /** The guess for an address: a hash and the speculative route over whatever bits were there. */
  function Guess(vaddr: u64, stale: u64, speculativeRoute: u16): Value128 {
    GuessFits(stale, speculativeRoute % LENS_COUNT);
    Value128(Low(stale, 52) + Shl(speculativeRoute % LENS_COUNT, 54), Xor64(Mul64(vaddr, PHI_LO), PHI_HI))
  }

  /** The substrate confirms a record: low word and route agree. */
  predicate Agrees(c: Cache, r: Record)
    requires Shaped(c)
  {
    var actual := Fetched(c, r.vaddr);
    actual.lo == r.predicted.lo && Route(actual) == Route(r.predicted)
  }

  /** Agreement, word by word: equal low words, and equal bits 54 to 63 of the high words. */
  lemma AgreesIff(c: Cache, r: Record)
    requires Shaped(c)
    ensures Agrees(c, r) <==>
      && Fetched(c, r.vaddr).lo == r.predicted.lo
      && Fetched(c, r.vaddr).hi / 0x40_0000_0000_0000 == r.predicted.hi / 0x40_0000_0000_0000
  {
    hide Fetched, Route;
    RouteIs(Fetched(c, r.vaddr));
    RouteIs(r.predicted);
  }

  /** The bits of a guess: the hash below, the speculative route over the old payload bits above. */
  lemma GuessBits(vaddr: u64, stale: u64, speculativeRoute: u16)
    ensures var g := Guess(vaddr, stale, speculativeRoute);
      && g.lo == Xor((vaddr * 0x517C_C1B7_2722_0A95) % 0x1_0000_0000_0000_0000, 0x9E37_79B9_7F4A_7C15)
      && g.hi / 0x40_0000_0000_0000 == speculativeRoute % 1024
      && g.hi % 0x10_0000_0000_0000 == stale % 0x10_0000_0000_0000
      && (g.hi / 0x10_0000_0000_0000) % 4 == 0
  {
    hide Pow2, Shr, Low, Shl, Xor;
    var route := speculativeRoute % LENS_COUNT;
    var hi := Low(stale, 52) + Shl(route, 54);
    GuessFits(stale, route);
    RouteIs(Guess(vaddr, stale, speculativeRoute));
    Pow2Values();
    Pow2Add(32, 16);
    Pow2Add(48, 4);
    Pow2Add(54, 10);
    Pow2Add(52, 2);
    ShrIsDiv(stale, 52, 0x10_0000_0000_0000);
    ShlIsMul(route, 54);
    DivModUnique(hi, 0x10_0000_0000_0000, 4 * route, stale % 0x10_0000_0000_0000);
  }

  /** Whether a guess is confirmed does not depend on the bits that were there before it. */
  lemma StaleBitsIgnored(c: Cache, vaddr: u64, stale: u64, other: u64, speculativeRoute: u16)
    requires Shaped(c)
    ensures Route(Guess(vaddr, stale, speculativeRoute)) == speculativeRoute % LENS_COUNT
    ensures Agrees(c, Record(vaddr, Guess(vaddr, stale, speculativeRoute)))
      <==> Agrees(c, Record(vaddr, Guess(vaddr, other, speculativeRoute)))
  {
    hide Fetched, Shr, Low, Shl, Mul64, Xor64;
    GuessFits(stale, speculativeRoute % LENS_COUNT);
    GuessFits(other, speculativeRoute % LENS_COUNT);
  }

  // ---------------------------------------------------------------- the ring

  function Outstanding(head: nat, tail: nat): (n: nat)
    requires head < RING && tail < RING
    ensures n < RING
  {
    (head + RING - tail) % RING
  }

  /** The slot k places after tail. */
  function SlotAfter(tail: nat, k: nat): (s: nat)
    ensures s < RING
  {
    (tail + k) % RING
  }

  /** The records between tail and head, oldest first. */
  function Pending(ring: seq<Record>, head: nat, tail: nat): (p: seq<Record>)
    requires |ring| == RING && head < RING && tail < RING
    ensures |p| == Outstanding(head, tail)
  {
    seq(Outstanding(head, tail), k requires 0 <= k < Outstanding(head, tail) => ring[SlotAfter(tail, k)])
  }

  /** The length of the longest prefix that the substrate confirms. */
  function Confirmed(c: Cache, p: seq<Record>): (k: nat)
    requires Shaped(c)
    ensures k <= |p|
    ensures forall i :: 0 <= i < k ==> Agrees(c, p[i])
    ensures k < |p| ==> !Agrees(c, p[k])
  {
    if |p| == 0 || !Agrees(c, p[0]) then 0 else 1 + Confirmed(c, p[1..])
  }

  lemma PushedPending(ring: seq<Record>, head: nat, tail: nat, r: Record)
    requires |ring| == RING && head < RING && tail < RING
    ensures Pending(ring[head := r], (head + 1) % RING, tail) ==
      if Outstanding(head, tail) < RING - 1 then Pending(ring, head, tail) + [r] else []
  {
    var n := Outstanding(head, tail);
    assert SlotAfter(tail, n) == head;
    if n < RING - 1 {
      assert Outstanding((head + 1) % RING, tail) == n + 1;
      forall k | 0 <= k < n
        ensures SlotAfter(tail, k) != head
      {
      }
    }
  }

  lemma PoppedOutstanding(head: nat, tail: nat)
    requires head < RING && tail < RING && head != tail
    ensures Outstanding(head, tail) > 0
    ensures Outstanding(head, SlotAfter(tail, 1)) == Outstanding(head, tail) - 1
    ensures SlotAfter(tail, 0) == tail
  {
    assert Outstanding(head, tail) == if head >= tail then head - tail else head + RING - tail;
    assert SlotAfter(tail, 1) == if tail + 1 == RING then 0 else tail + 1;
  }

  lemma SlotsShift(tail: nat, k: nat)
    ensures SlotAfter(SlotAfter(tail, 1), k) == SlotAfter(tail, k + 1)
  {
  }

  lemma PoppedPending(ring: seq<Record>, head: nat, tail: nat)
    requires |ring| == RING && head < RING && tail < RING && head != tail
    ensures |Pending(ring, head, tail)| > 0
    ensures Pending(ring, head, tail)[0] == ring[tail]
    ensures Pending(ring, head, SlotAfter(tail, 1)) == Pending(ring, head, tail)[1..]
  {
    PoppedOutstanding(head, tail);
    var popped, rest := Pending(ring, head, SlotAfter(tail, 1)), Pending(ring, head, tail)[1..];
    forall k | 0 <= k < |popped|
      ensures popped[k] == rest[k]
    {
      SlotsShift(tail, k);
    }
  }

  /** A check of q has committed a prefix and still has rest before it. */
  ghost predicate Checking(c: Cache, q: seq<Record>, committed: seq<Record>, rest: seq<Record>)
    requires Shaped(c)
  {
    q == committed + rest && Confirmed(c, q) == |committed| + Confirmed(c, rest)
  }

  lemma CheckStarts(c: Cache, q: seq<Record>)
    requires Shaped(c)
    ensures Checking(c, q, [], q)
  {
    assert q == [] + q;
  }

  lemma CheckedOne(c: Cache, q: seq<Record>, committed: seq<Record>, rest: seq<Record>)
    requires Shaped(c) && Checking(c, q, committed, rest) && |rest| > 0 && Agrees(c, rest[0])
    ensures Checking(c, q, committed + [rest[0]], rest[1..])
  {
    hide Agrees;
    assert rest == [rest[0]] + rest[1..];
    ConfirmedOne(c, rest);
    hide Confirmed;
  }

  lemma ConfirmedOne(c: Cache, p: seq<Record>)
    requires Shaped(c) && |p| > 0 && Agrees(c, p[0])
    ensures Confirmed(c, p) == 1 + Confirmed(c, p[1..])
  {
  }

  /** The outcome of a check of q: the confirmed prefix, and whether anything was left over. */
  ghost predicate Outcome(c: Cache, q: seq<Record>, committed: seq<Record>, rollback: bool)
    requires Shaped(c)
  {
    committed == q[..Confirmed(c, q)] && (rollback <==> Confirmed(c, q) < |q|)
  }

  lemma CheckEnds(c: Cache, q: seq<Record>, committed: seq<Record>, rest: seq<Record>)
    requires Shaped(c) && Checking(c, q, committed, rest) && (|rest| > 0 ==> !Agrees(c, rest[0]))
    ensures Outcome(c, q, committed, |rest| > 0)
  {
  }

  /** The outcome, spelled out over the fetched cells. */
  lemma OutcomeMeans(c: Cache, q: seq<Record>, committed: seq<Record>, rollback: bool)
    requires Shaped(c) && Outcome(c, q, committed, rollback)
    ensures committed <= q && (rollback <==> |committed| < |q|)
    ensures forall i :: 0 <= i < |committed| ==>
      && Fetched(c, committed[i].vaddr).lo == committed[i].predicted.lo
      && Fetched(c, committed[i].vaddr).hi / 0x40_0000_0000_0000 == committed[i].predicted.hi / 0x40_0000_0000_0000
    ensures rollback ==> var next := q[|committed|];
      || Fetched(c, next.vaddr).lo != next.predicted.lo
      || Fetched(c, next.vaddr).hi / 0x40_0000_0000_0000 != next.predicted.hi / 0x40_0000_0000_0000
  {
    hide Fetched, Agrees;
    forall i | 0 <= i < |committed|
      ensures Agrees(c, committed[i])
      ensures Fetched(c, committed[i].vaddr).lo == committed[i].predicted.lo
      ensures Fetched(c, committed[i].vaddr).hi / 0x40_0000_0000_0000
           == committed[i].predicted.hi / 0x40_0000_0000_0000
    {
      AgreesIff(c, committed[i]);
    }
    if rollback {
      AgreesIff(c, q[|committed|]);
    }
  }

  class PredictiveEngine {
    const substrate: SubstrateManifold
    const specRing: array<Record>
    var head: nat
    var tail: nat

    ghost predicate Valid()
      reads this
    {
      specRing.Length == RING && head < RING && tail < RING
    }

    ghost function Queue(): seq<Record>
      requires Valid()
      reads this, specRing
    {
      Pending(specRing[..], head, tail)
    }

    constructor (substrate: SubstrateManifold, specRing: array<Record>)
      requires specRing.Length == RING
      ensures Valid() && this.substrate == substrate && this.specRing == specRing
      ensures Queue() == []
    {
      this.substrate, this.specRing := substrate, specRing;
      head, tail := 0, 0;
    }

    /** Pushes a guess. A push onto 255 outstanding records makes the ring look empty. */
    method SpeculativeFetch(vaddr: u64, stale: u64, speculativeRoute: u16) returns (guess: Value128)
      requires Valid()
      modifies this`head, specRing
      ensures Valid() && guess == Guess(vaddr, stale, speculativeRoute)
      ensures guess.lo == Xor((vaddr * 0x517C_C1B7_2722_0A95) % 0x1_0000_0000_0000_0000, 0x9E37_79B9_7F4A_7C15)
      ensures guess.hi / 0x40_0000_0000_0000 == speculativeRoute % 1024
      ensures Queue() == if |old(Queue())| < RING - 1 then old(Queue()) + [Record(vaddr, guess)] else []
    {
      guess := Guess(vaddr, stale, speculativeRoute);
      GuessBits(vaddr, stale, speculativeRoute);
      var currentHead := head;
      var next := (currentHead + 1) % RING;
      PushedPending(specRing[..], currentHead, tail, Record(vaddr, guess));
      specRing[currentHead] := Record(vaddr, guess);
      head := next;
    }

    /** Fetches the address of a record and compares low word and route. */
    method Compare(record: Record) returns (agrees: bool)
      requires substrate.Valid()
      ensures agrees <==> Agrees(substrate.View(), record)
    {
      var actual := substrate.HolographicFetch(record.vaddr);
      agrees := actual.lo == record.predicted.lo && Route(actual) == Route(record.predicted);
    }

    /** One turn of verify_consensus: commits the oldest record or drops everything. */
    method CheckNext() returns (agrees: bool, record: Record)
      requires Valid() && substrate.Valid() && tail != head
      modifies this`head, this`tail
      ensures Valid() && |old(Queue())| > 0 && record == old(Queue())[0]
      ensures agrees <==> Agrees(substrate.View(), record)
      ensures agrees <==>
        && Fetched(substrate.View(), record.vaddr).lo == record.predicted.lo
        && Fetched(substrate.View(), record.vaddr).hi / 0x40_0000_0000_0000
           == record.predicted.hi / 0x40_0000_0000_0000
      ensures agrees ==> Queue() == old(Queue())[1..]
      ensures agrees ==> Outstanding(head, tail) < Outstanding(old(head), old(tail))
      ensures !agrees ==> head == tail
    {
      PoppedPending(specRing[..], head, tail);
      PoppedOutstanding(head, tail);
      var currentTail := tail;
      record := specRing[currentTail];
      agrees := Compare(record);
      AgreesIff(substrate.View(), record);
      if agrees {
        tail := (currentTail + 1) % RING;
      } else {
        head := currentTail;
      }
    }

    /**
     Commits the longest confirmed prefix in push order. If records are left, the rollback is
     signalled and they are dropped.
     */
    method VerifyConsensus() returns (committed: seq<Record>, rollback: bool)
      requires Valid() && substrate.Valid()
      modifies this`head, this`tail
      ensures Valid()
      ensures head == tail && Queue() == []
      ensures committed <= old(Queue()) && (rollback <==> |committed| < |old(Queue())|)
      ensures forall i :: 0 <= i < |committed| ==>
        && Fetched(substrate.View(), committed[i].vaddr).lo == committed[i].predicted.lo
        && Fetched(substrate.View(), committed[i].vaddr).hi / 0x40_0000_0000_0000
           == committed[i].predicted.hi / 0x40_0000_0000_0000
      ensures rollback ==> var next := old(Queue())[|committed|];
        || Fetched(substrate.View(), next.vaddr).lo != next.predicted.lo
        || Fetched(substrate.View(), next.vaddr).hi / 0x40_0000_0000_0000 != next.predicted.hi / 0x40_0000_0000_0000
      ensures Outcome(substrate.View(), old(Queue()), committed, rollback)
    {
      hide Pending, Confirmed, Agrees, Checking, Outcome, Shaped, Fetched;
      ghost var c, q := substrate.View(), Queue();
      CheckStarts(c, q);
      committed, rollback := [], false;
      while tail != head
        invariant Valid() && Checking(c, q, committed, Queue())
        decreases Outstanding(head, tail)
      {
        ghost var rest := Queue();
        var agrees, record := CheckNext();
        if !agrees {
          CheckEnds(c, q, committed, rest);
          OutcomeMeans(c, q, committed, true);
          return committed, true;
        }
        CheckedOne(c, q, committed, rest);
        committed := committed + [record];
      }
      CheckEnds(c, q, committed, Queue());
      OutcomeMeans(c, q, committed, false);
      return committed, false;
    }
  }

  // ---------------------------------------------------------------- interleaved producer and consumer

  /**
   A push in progress: the head it read, and which of the three words of the record are stored.
   Up to the store barrier the stores may come in any order.
   */
  datatype Producer = Idle | Storing(h: nat, rec: Record, vaddr: bool, hi: bool, lo: bool)

  /** A check in progress: the tail it read, and the words loaded so far, in any order. */
  datatype Consumer = Looking | Loading(t: nat, vaddr: Option<u64>, hi: Option<u64>, lo: Option<u64>)

  /**
   The shared ring with both sides. published lists the pushes that have not been rolled back;
   commits lists what the consumer has committed, as it read it.
   */
  datatype System = System(
    ring: seq<Record>, head: nat, tail: nat, producer: Producer, consumer: Consumer,
    published: seq<Record>, commits: seq<Record>)

  datatype Action =
    | Begin(rec: Record) | StoreVaddr | StoreHi | StoreLo | Publish
    | Look | LoadVaddr | LoadHi | LoadLo | Settle(agrees: bool)

  ghost predicate Formed(s: System) {
    && |s.ring| == RING && s.head < RING && s.tail < RING
    && (s.producer.Storing? ==> s.producer.h < RING)
    && (s.consumer.Loading? ==> s.consumer.t < RING)
  }

  /** All three words have been loaded. */
  predicate Loaded(k: Consumer) {
    k.Loading? && k.vaddr.Some? && k.hi.Some? && k.lo.Some?
  }

  /** The record as the consumer read it. */
  function Held(k: Consumer): Record
    requires Loaded(k)
  {
    Record(k.vaddr.value, Value128(k.hi.value, k.lo.value))
  }

  /** Each side takes its steps once per record; nothing here limits how the sides interleave. */
  ghost predicate Possible(s: System, a: Action) {
    match a
    case Begin(_) => s.producer.Idle?
    case StoreVaddr => s.producer.Storing? && !s.producer.vaddr
    case StoreHi => s.producer.Storing? && !s.producer.hi
    case StoreLo => s.producer.Storing? && !s.producer.lo
    case Publish => s.producer.Storing? && s.producer.vaddr && s.producer.hi && s.producer.lo
    case Look => s.consumer.Looking?
    case LoadVaddr => s.consumer.Loading? && s.consumer.vaddr.None?
    case LoadHi => s.consumer.Loading? && s.consumer.hi.None?
    case LoadLo => s.consumer.Loading? && s.consumer.lo.None?
    case Settle(_) => Loaded(s.consumer)
  }

  /** The first n published records survive a rollback. */
  function Kept(published: seq<Record>, n: nat): seq<Record> {
    if n <= |published| then published[..n] else published
  }

  function Act(s: System, a: Action): (r: System)
    requires Formed(s) && Possible(s, a)
    ensures Formed(r)
  {
    match a
    case Begin(rec) => s.(producer := Storing(s.head, rec, false, false, false))
    case StoreVaddr =>
      var p := s.producer;
      s.(ring := s.ring[p.h := s.ring[p.h].(vaddr := p.rec.vaddr)], producer := p.(vaddr := true))
    case StoreHi =>
      var p := s.producer;
      s.(ring := s.ring[p.h := StoredHi(s.ring[p.h], p.rec)], producer := p.(hi := true))
    case StoreLo =>
      var p := s.producer;
      s.(ring := s.ring[p.h := StoredLo(s.ring[p.h], p.rec)], producer := p.(lo := true))
    case Publish =>
      s.(head := (s.producer.h + 1) % RING, producer := Idle, published := s.published + [s.producer.rec])
    case Look => if s.tail != s.head then s.(consumer := Loading(s.tail, None, None, None)) else s
    case LoadVaddr => s.(consumer := s.consumer.(vaddr := Some(s.ring[s.consumer.t].vaddr)))
    case LoadHi => s.(consumer := s.consumer.(hi := Some(s.ring[s.consumer.t].predicted.hi)))
    case LoadLo => s.(consumer := s.consumer.(lo := Some(s.ring[s.consumer.t].predicted.lo)))
    case Settle(agrees) =>
      if agrees then
        s.(tail := (s.consumer.t + 1) % RING, consumer := Looking, commits := s.commits + [Held(s.consumer)])
      else
        s.(head := s.consumer.t, consumer := Looking, published := Kept(s.published, |s.commits|))
  }

  function StoredHi(was: Record, rec: Record): Record {
    was.(predicted := was.predicted.(hi := rec.predicted.hi))
  }

  function StoredLo(was: Record, rec: Record): Record {
    was.(predicted := was.predicted.(lo := rec.predicted.lo))
  }

  /** The words stored so far are those of the record being pushed. */
  ghost predicate Storage(p: Producer, slot: Record) {
    p.Storing? ==>
      && (p.vaddr ==> slot.vaddr == p.rec.vaddr)
      && (p.hi ==> slot.predicted.hi == p.rec.predicted.hi)
      && (p.lo ==> slot.predicted.lo == p.rec.predicted.lo)
  }

  /** The words loaded so far are those of a record. */
  ghost predicate Agreement(k: Consumer, r: Record) {
    k.Loading? ==>
      && (k.vaddr.Some? ==> k.vaddr.value == r.vaddr)
      && (k.hi.Some? ==> k.hi.value == r.predicted.hi)
      && (k.lo.Some? ==> k.lo.value == r.predicted.lo)
  }

  /** How many published records are not committed yet. */
  function Backlog(s: System): int {
    |s.published| - |s.commits|
  }

  /** The slots of the published records from index `from` on hold them. */
  ghost predicate Pends(s: System, from: nat) {
    forall i :: from <= i < |s.published| ==> i % RING < |s.ring| && s.ring[i % RING] == s.published[i]
  }

  /** The words of a slot that the consumer still has to load are those of a record. */
  ghost predicate Unread(k: Consumer, slot: Record, r: Record) {
    && (k.Looking? || k.vaddr.None? ==> slot.vaddr == r.vaddr)
    && (k.Looking? || k.hi.None? ==> slot.predicted.hi == r.predicted.hi)
    && (k.Looking? || k.lo.None? ==> slot.predicted.lo == r.predicted.lo)
  }

  /**
   What both sides rely on. At most 255 records are pending, or 256 while a check is under way; in
   that case head has come round to tail, and of the oldest record only the words not yet loaded
   are still needed.
   */
  ghost predicate Ordered(s: System) {
    && Formed(s) && |s.commits| <= |s.published|
    && s.commits == s.published[..|s.commits|]
    && (Backlog(s) < RING || (Backlog(s) == RING && s.consumer.Loading?))
    && s.head == |s.published| % RING && s.tail == |s.commits| % RING
    && Pends(s, |s.commits| + 1)
    && (0 < Backlog(s) < RING ==> s.ring[s.tail] == s.published[|s.commits|])
    && (Backlog(s) == RING ==> Unread(s.consumer, s.ring[s.tail], s.published[|s.commits|]))
    && (s.producer.Storing? ==> s.producer.h == s.head)
    && Storage(s.producer, s.ring[s.head])
    && (s.consumer.Loading? ==>
          s.consumer.t == s.tail && Backlog(s) > 0 && Agreement(s.consumer, s.published[|s.commits|]))
  }

  /**
   What each side may do. A record is published onto at most 254 pending ones, or onto 255 while a
   check is under way. A store that meets 256 pending records changes no word the check still has
   to load. A rollback comes during a push only where head has come round to tail.
   */
  ghost predicate Disciplined(s: System, a: Action)
    requires Formed(s) && Possible(s, a)
  {
    var n, k := Backlog(s), s.consumer;
    match a
    case StoreVaddr =>
      n < RING || (k.Loading? && k.vaddr.Some?) || s.producer.rec.vaddr == s.published[|s.commits|].vaddr
    case StoreHi =>
      n < RING || (k.Loading? && k.hi.Some?) || s.producer.rec.predicted.hi == s.published[|s.commits|].predicted.hi
    case StoreLo =>
      n < RING || (k.Loading? && k.lo.Some?) || s.producer.rec.predicted.lo == s.published[|s.commits|].predicted.lo
    case Publish => n < RING - 1 || (n == RING - 1 && k.Loading?)
    case Settle(agrees) => agrees || s.producer.Idle? || n == RING
    case _ => true
  }

  /**
   What the two sides can see: the commits are the published records in order, every word loaded
   so far is one of the next record, and a new check finds a record exactly if one is pending.
   */
  ghost predicate Right(s: System) {
    && |s.commits| <= |s.published| && s.commits == s.published[..|s.commits|]
    && (s.consumer.Looking? ==> (s.head == s.tail <==> Backlog(s) == 0))
    && (s.consumer.Loading? ==> Backlog(s) > 0 && Agreement(s.consumer, s.published[|s.commits|]))
  }

  // ---------------------------------------------------------------- one action

  lemma SlotFree(i: nat, p: nat, k: nat)
    requires k <= i < p < k + RING
    ensures i % RING != p % RING
  {
  }

  lemma NextSlot(n: nat)
    ensures (n % RING + 1) % RING == (n + 1) % RING
  {
  }

  /** A change of the slot at head leaves alone the pending records that are elsewhere. */
  lemma HeadSlotFree(s: System, from: nat, slot: Record)
    requires Formed(s) && Pends(s, from) && s.head == |s.published| % RING
    requires from <= |s.published| < from + RING
    ensures Pends(s.(ring := s.ring[s.head := slot]), from)
  {
    forall i | from <= i < |s.published|
      ensures i % RING < RING && s.ring[s.head := slot][i % RING] == s.published[i]
    {
      SlotFree(i, |s.published|, from);
    }
  }

  lemma SamePending(s: System, r: System, from: nat)
    requires Pends(s, from) && r.ring == s.ring && r.published == s.published
    ensures Pends(r, from)
  {
  }

  lemma StoreKeepsOrder(s: System, a: Action)
    requires Ordered(s) && Possible(s, a) && (a.StoreVaddr? || a.StoreHi? || a.StoreLo?)
    ensures Ordered(Act(s, a)) <==> Disciplined(s, a)
  {
    var r, n := Act(s, a), |s.commits|;
    if Backlog(s) > 0 {
      HeadSlotFree(s, n + 1, r.ring[s.head]);
    }
    HeadIsTail(s);
    hide Pends;
    assert r.ring == s.ring[s.head := r.ring[s.head]];
    SamePending(s.(ring := r.ring), r, n + 1);
  }

  /** Head and tail meet exactly with no record pending or with 256. */
  lemma HeadIsTail(s: System)
    requires Ordered(s)
    ensures s.head == s.tail <==> Backlog(s) == 0 || Backlog(s) == RING
  {
    MeetIff(|s.published|, |s.commits|);
  }

  lemma MeetIff(p: nat, k: nat)
    requires k <= p <= k + RING
    ensures p % RING == k % RING <==> p == k || p == k + RING
  {
    if k < p < k + RING {
      SlotFree(k, p, k);
    }
  }

  lemma PublishKeepsOrder(s: System)
    requires Ordered(s) && Possible(s, Publish)
    ensures Ordered(Act(s, Publish)) <==> Disciplined(s, Publish)
  {
    var r := Act(s, Publish);
    NextSlot(|s.published|);
    PendsMore(s, r, |s.commits| + 1);
    hide Pends;
  }

  lemma PendsMore(s: System, r: System, from: nat)
    requires Pends(s, from) && r.ring == s.ring && |s.ring| == RING && |r.published| == |s.published| + 1
    requires r.published[..|s.published|] == s.published
    requires s.ring[|s.published| % RING] == r.published[|s.published|]
    ensures Pends(r, from)
  {
    forall i | from <= i < |r.published|
      ensures i % RING < |r.ring| && r.ring[i % RING] == r.published[i]
    {
      if i < |s.published| {
        assert s.ring[i % RING] == s.published[i] == r.published[i];
      }
    }
  }

  lemma LoadKeepsOrder(s: System, a: Action)
    requires Ordered(s) && Possible(s, a) && (a.LoadVaddr? || a.LoadHi? || a.LoadLo?)
    ensures Ordered(Act(s, a))
  {
    hide Pends;
    SamePending(s, Act(s, a), |s.commits| + 1);
  }

  lemma CommitKeepsOrder(s: System)
    requires Ordered(s) && Possible(s, Settle(true))
    ensures Ordered(Act(s, Settle(true)))
  {
    var r := Act(s, Settle(true));
    NextSlot(|s.commits|);
    assert Held(s.consumer) == s.published[|s.commits|];
    assert Pends(r, |r.commits| + 1);
    if Backlog(r) > 0 {
      assert s.ring[|r.commits| % RING] == s.published[|r.commits|];
    }
  }

  lemma RollbackOrder(s: System)
    requires Ordered(s) && Possible(s, Settle(false))
    ensures Ordered(Act(s, Settle(false))) <==> Disciplined(s, Settle(false))
  {
    HeadIsTail(s);
    assert Pends(Act(s, Settle(false)), |s.commits| + 1);
  }

  lemma LookKeepsOrder(s: System)
    requires Ordered(s) && Possible(s, Look)
    ensures Ordered(Act(s, Look))
  {
    HeadIsTail(s);
    SamePending(s, Act(s, Look), |s.commits| + 1);
  }

  /** From any ordered state, an action keeps the order exactly if it keeps the discipline. */
  lemma OrderedIffDisciplined(s: System, a: Action)
    requires Ordered(s) && Possible(s, a)
    ensures Ordered(Act(s, a)) <==> Disciplined(s, a)
  {
    match a
    case Begin(_) => SamePending(s, Act(s, a), |s.commits| + 1);
    case StoreVaddr => StoreKeepsOrder(s, a);
    case StoreHi => StoreKeepsOrder(s, a);
    case StoreLo => StoreKeepsOrder(s, a);
    case Publish => PublishKeepsOrder(s);
    case Look => LookKeepsOrder(s);
    case LoadVaddr => LoadKeepsOrder(s, a);
    case LoadHi => LoadKeepsOrder(s, a);
    case LoadLo => LoadKeepsOrder(s, a);
    case Settle(agrees) => if agrees { CommitKeepsOrder(s); } else { RollbackOrder(s); }
  }

  lemma OrderedIsRight(s: System)
    requires Ordered(s)
    ensures Right(s)
  {
    HeadIsTail(s);
  }

  // ---------------------------------------------------------------- runs

  /** Every action is possible in the state it is taken in. */
  ghost predicate Feasible(s: System, actions: seq<Action>)
    requires Formed(s)
    decreases |actions|
  {
    |actions| == 0 || (Possible(s, actions[0]) && Feasible(Act(s, actions[0]), actions[1..]))
  }

  ghost function After(s: System, actions: seq<Action>): (r: System)
    requires Formed(s) && Feasible(s, actions)
    ensures Formed(r)
    decreases |actions|
  {
    if |actions| == 0 then s else After(Act(s, actions[0]), actions[1..])
  }

  /** Every action keeps the discipline in the state it is taken in. */
  ghost predicate Follows(s: System, actions: seq<Action>)
    requires Formed(s) && Feasible(s, actions)
    decreases |actions|
  {
    |actions| == 0 || (Disciplined(s, actions[0]) && Follows(Act(s, actions[0]), actions[1..]))
  }

  /** The order holds at the start and after every action. */
  ghost predicate AlwaysOrdered(s: System, actions: seq<Action>)
    requires Formed(s) && Feasible(s, actions)
    decreases |actions|
  {
    Ordered(s) && (|actions| == 0 || AlwaysOrdered(Act(s, actions[0]), actions[1..]))
  }

  ghost predicate Starts(s: System) {
    |s.ring| == RING && s.head == 0 && s.tail == 0 && s.producer.Idle? && s.consumer.Looking?
    && s.published == [] && s.commits == []
  }

  /** The order survives a whole run exactly if every action of it keeps the discipline. */
  lemma {:induction false} RunOrderedIff(s: System, actions: seq<Action>)
    requires Ordered(s) && Feasible(s, actions)
    ensures AlwaysOrdered(s, actions) <==> Follows(s, actions)
    decreases |actions|
  {
    OrderedFormed(s);
    hide Ordered, Disciplined, Act, Possible;
    if |actions| > 0 {
      OrderedIffDisciplined(s, actions[0]);
      if Ordered(Act(s, actions[0])) {
        RunOrderedIff(Act(s, actions[0]), actions[1..]);
      } else {
        NotAlways(Act(s, actions[0]), actions[1..]);
      }
    }
  }

  lemma OrderedFormed(s: System)
    requires Ordered(s)
    ensures Formed(s)
  {
  }

  lemma NotAlways(s: System, actions: seq<Action>)
    requires Formed(s) && Feasible(s, actions) && !Ordered(s)
    ensures !AlwaysOrdered(s, actions)
  {
  }

  lemma {:induction false} LastOrdered(s: System, actions: seq<Action>)
    requires Formed(s) && Feasible(s, actions) && AlwaysOrdered(s, actions)
    ensures Ordered(After(s, actions))
    decreases |actions|
  {
    hide Ordered, Act, Possible;
    if |actions| > 0 {
      LastOrdered(Act(s, actions[0]), actions[1..]);
    }
  }

  /**
   However the micro-steps interleave under the discipline: a record the consumer has loaded is
   the oldest published one, all of its words, and what it has committed are the published
   records in order.
   */
  lemma InterleavedOrder(s: System, actions: seq<Action>)
    requires Starts(s) && Formed(s) && Feasible(s, actions) && Follows(s, actions)
    ensures var r := After(s, actions);
      && Right(r) && r.commits <= r.published
      && (r.consumer.Looking? ==> (r.head == r.tail <==> r.commits == r.published))
      && (r.consumer.Loading? ==> |r.commits| < |r.published|)
      && (Loaded(r.consumer) ==> |r.commits| < |r.published| && Held(r.consumer) == r.published[|r.commits|])
  {
    assert Ordered(s);
    RunOrderedIff(s, actions);
    LastOrdered(s, actions);
    OrderedIsRight(After(s, actions));
  }

  // ---------------------------------------------------------------- what a caller can check

  /** A push begins only on fewer than 255 pending records, and a rollback comes only between pushes. */
  ghost predicate Careful(s: System, a: Action) {
    && (a.Begin? ==> Backlog(s) < RING - 1)
    && (a.Settle? && !a.agrees ==> s.producer.Idle?)
  }

  ghost predicate AllCareful(s: System, actions: seq<Action>)
    requires Formed(s) && Feasible(s, actions)
    decreases |actions|
  {
    |actions| == 0 || (Careful(s, actions[0]) && AllCareful(Act(s, actions[0]), actions[1..]))
  }

  /** A push in progress finds room when it publishes. */
  ghost predicate Room(s: System) {
    Backlog(s) < RING && (s.producer.Storing? ==> Backlog(s) < RING - 1)
  }

  lemma CarefulKeepsRoom(s: System, a: Action)
    requires Ordered(s) && Room(s) && Possible(s, a) && Careful(s, a)
    ensures Disciplined(s, a) && Room(Act(s, a))
  {
  }

  /** Care is enough: the pending records only get fewer between the begin of a push and its end. */
  lemma {:induction false} CarefulFollows(s: System, actions: seq<Action>)
    requires Ordered(s) && Room(s) && Feasible(s, actions) && AllCareful(s, actions)
    ensures Follows(s, actions)
    decreases |actions|
  {
    OrderedFormed(s);
    hide Ordered, Disciplined, Act, Possible, Careful, Room;
    if |actions| > 0 {
      CarefulKeepsRoom(s, actions[0]);
      OrderedIffDisciplined(s, actions[0]);
      CarefulFollows(Act(s, actions[0]), actions[1..]);
    }
  }

  // ---------------------------------------------------------------- sequences of actions

  lemma {:induction false} AfterAppend(s: System, a: seq<Action>, b: seq<Action>)
    requires Formed(s) && Feasible(s, a) && Feasible(After(s, a), b)
    ensures Feasible(s, a + b) && After(s, a + b) == After(After(s, a), b)
    ensures Follows(s, a) && Follows(After(s, a), b) ==> Follows(s, a + b)
    decreases |a|
  {
    hide Act, Possible, Disciplined;
    if |a| == 0 {
      assert a + b == b;
    } else {
      AfterAppend(Act(s, a[0]), a[1..], b);
      assert (a + b)[1..] == a[1..] + b;
    }
  }

  lemma AfterOne(s: System, a: Action)
    requires Formed(s) && Possible(s, a)
    ensures Feasible(s, [a]) && After(s, [a]) == Act(s, a) && (Follows(s, [a]) <==> Disciplined(s, a))
  {
    hide Act, Possible, Disciplined;
    assert [a][1..] == [];
  }

  lemma AfterFirst(s: System, a: Action, rest: seq<Action>)
    requires Formed(s) && Possible(s, a) && Feasible(Act(s, a), rest)
    ensures Feasible(s, [a] + rest) && After(s, [a] + rest) == After(Act(s, a), rest)
    ensures Follows(s, [a] + rest) <==> Disciplined(s, a) && Follows(Act(s, a), rest)
  {
    hide Act, Possible, Disciplined;
    assert ([a] + rest)[1..] == rest;
  }

  /** The stores that a push still has to make. */
  function Missing(p: Producer): seq<Action>
    requires p.Storing?
  {
    (if p.vaddr then [] else [StoreVaddr]) + (if p.hi then [] else [StoreHi]) + (if p.lo then [] else [StoreLo])
  }

  /** The state once a push in progress is complete. */
  function PushEnded(s: System): (r: System)
    requires Formed(s) && s.producer.Storing?
    ensures Formed(r)
  {
    var p := s.producer;
    s.(ring := s.ring[p.h := p.rec], head := (p.h + 1) % RING, producer := Idle, published := s.published + [p.rec])
  }

  /** The first of the missing stores brings a push closer to the same end. */
  lemma StoreOne(s: System) returns (a: Action)
    requires Formed(s) && s.producer.Storing? && Storage(s.producer, s.ring[s.producer.h])
    requires !(s.producer.vaddr && s.producer.hi && s.producer.lo)
    ensures Possible(s, a) && (Backlog(s) < RING ==> Disciplined(s, a))
    ensures var r := Act(s, a);
      && r.producer.Storing? && Storage(r.producer, r.ring[r.producer.h]) && PushEnded(r) == PushEnded(s)
      && Missing(s.producer) == [a] + Missing(r.producer)
      && |Missing(r.producer)| < |Missing(s.producer)| && Backlog(r) == Backlog(s)
  {
    var p := s.producer;
    a := if !p.vaddr then StoreVaddr else if !p.hi then StoreHi else StoreLo;
    assert Act(s, a).ring[p.h := p.rec] == s.ring[p.h := p.rec];
  }

  lemma PublishEnds(s: System)
    requires Formed(s) && s.producer.Storing? && Storage(s.producer, s.ring[s.producer.h])
    requires s.producer.vaddr && s.producer.hi && s.producer.lo
    ensures Feasible(s, Missing(s.producer) + [Publish])
    ensures After(s, Missing(s.producer) + [Publish]) == PushEnded(s)
    ensures Backlog(s) < RING - 1 ==> Follows(s, Missing(s.producer) + [Publish])
  {
    hide Feasible, After, Follows;
    var p := s.producer;
    assert s.ring[p.h := p.rec] == s.ring;
    assert Missing(p) + [Publish] == [Publish];
    AfterOne(s, Publish);
  }

  /** A push ends in the same state whatever it still has to store. */
  lemma FinishPush(s: System)
    requires Formed(s) && s.producer.Storing? && Storage(s.producer, s.ring[s.producer.h])
    ensures Feasible(s, Missing(s.producer) + [Publish])
    ensures After(s, Missing(s.producer) + [Publish]) == PushEnded(s)
    ensures Backlog(s) < RING - 1 ==> Follows(s, Missing(s.producer) + [Publish])
    decreases |Missing(s.producer)|
  {
    hide Act, Possible, PushEnded, Missing, Storage, Disciplined, Backlog, Feasible, After, Follows;
    if s.producer.vaddr && s.producer.hi && s.producer.lo {
      PublishEnds(s);
    } else {
      var a := StoreOne(s);
      var r := Act(s, a);
      assert Missing(s.producer) + [Publish] == [a] + (Missing(r.producer) + [Publish]);
      FinishPush(r);
      AfterFirst(s, a, Missing(r.producer) + [Publish]);
    }
  }

  /** The loads that a check still has to make. */
  function Unloaded(k: Consumer): seq<Action>
    requires k.Loading?
  {
    (if k.vaddr.Some? then [] else [LoadVaddr]) + (if k.hi.Some? then [] else [LoadHi])
    + (if k.lo.Some? then [] else [LoadLo])
  }

  /** Some record has been committed, and the consumer looks at the next slot. */
  ghost predicate CheckEnded(s: System, r: System) {
    s.consumer.Loading? && Formed(s) && Formed(r) && |r.commits| == |s.commits| + 1 &&
    r == s.(tail := (s.consumer.t + 1) % RING, consumer := Looking, commits := r.commits)
  }

  lemma LoadOne(s: System) returns (a: Action)
    requires Formed(s) && s.consumer.Loading? && !Loaded(s.consumer)
    ensures Possible(s, a) && Disciplined(s, a)
    ensures var r := Act(s, a);
      && r.consumer.Loading? && Unloaded(s.consumer) == [a] + Unloaded(r.consumer)
      && |Unloaded(r.consumer)| < |Unloaded(s.consumer)|
      && r == s.(consumer := r.consumer) && r.consumer.t == s.consumer.t
  {
    var k := s.consumer;
    a := if k.vaddr.None? then LoadVaddr else if k.hi.None? then LoadHi else LoadLo;
  }

  /** A check under way can always be ended with a commit. */
  lemma FinishCheck(s: System)
    requires Formed(s) && s.consumer.Loading?
    ensures Feasible(s, Unloaded(s.consumer) + [Settle(true)])
    ensures Follows(s, Unloaded(s.consumer) + [Settle(true)])
    ensures CheckEnded(s, After(s, Unloaded(s.consumer) + [Settle(true)]))
    decreases |Unloaded(s.consumer)|
  {
    hide Act, Possible, Unloaded, Disciplined, Loaded, CheckEnded, Feasible, After, Follows;
    if Loaded(s.consumer) {
      CommitEnds(s);
    } else {
      var a := LoadOne(s);
      var r := Act(s, a);
      assert Unloaded(s.consumer) + [Settle(true)] == [a] + (Unloaded(r.consumer) + [Settle(true)]);
      FinishCheck(r);
      AfterFirst(s, a, Unloaded(r.consumer) + [Settle(true)]);
      SameEnd(s, r, After(r, Unloaded(r.consumer) + [Settle(true)]));
    }
  }

  lemma CommitEnds(s: System)
    requires Formed(s) && Loaded(s.consumer)
    ensures Feasible(s, Unloaded(s.consumer) + [Settle(true)])
    ensures Follows(s, Unloaded(s.consumer) + [Settle(true)])
    ensures CheckEnded(s, After(s, Unloaded(s.consumer) + [Settle(true)]))
  {
    hide Feasible, After, Follows;
    assert Unloaded(s.consumer) + [Settle(true)] == [Settle(true)];
    AfterOne(s, Settle(true));
  }

  lemma SameEnd(s: System, r: System, end: System)
    requires s.consumer.Loading? && r.consumer.Loading? && r.consumer.t == s.consumer.t && Formed(s)
    requires r == s.(consumer := r.consumer) && CheckEnded(r, end)
    ensures CheckEnded(s, end)
  {
  }

  /** A check that loads the record at tail. */
  const CHECK: seq<Action> := [Look] + ([LoadVaddr] + ([LoadHi] + [LoadLo]))

  lemma LoadRecord(s: System)
    requires Formed(s) && s.consumer.Looking? && s.tail != s.head
    ensures Feasible(s, CHECK) && Follows(s, CHECK)
    ensures var r := After(s, CHECK);
      r == s.(consumer := r.consumer) && Loaded(r.consumer) && Held(r.consumer) == s.ring[s.tail]
      && r.consumer.t == s.tail
  {
    var s1 := Act(s, Look);
    var s2 := Act(s1, LoadVaddr);
    var s3 := Act(s2, LoadHi);
    AfterOne(s3, LoadLo);
    AfterFirst(s2, LoadHi, [LoadLo]);
    AfterFirst(s1, LoadVaddr, [LoadHi] + [LoadLo]);
    AfterFirst(s, Look, [LoadVaddr] + ([LoadHi] + [LoadLo]));
  }

  // ---------------------------------------------------------------- what a breach does

  /**
   A push published onto 255 pending records while no check is under way makes the ring look
   empty: head meets tail with 256 records in between, and a check finds none of them.
   */
  lemma PublishOntoFullHides(s: System)
    requires Ordered(s) && Possible(s, Publish) && Backlog(s) == RING - 1 && s.consumer.Looking?
    ensures var r := Act(s, Publish);
      r.head == r.tail && Backlog(r) == RING && Act(r, Look) == r && !Right(r)
  {
    NextSlot(|s.published|);
    MeetIff(|s.published| + 1, |s.commits|);
  }

  /** Published while a check is under way, the 256 records stay reachable: the check makes room again. */
  lemma PublishDuringCheckRecovers(s: System)
    requires Ordered(s) && Possible(s, Publish) && Backlog(s) == RING - 1 && s.consumer.Loading?
    ensures var actions := Unloaded(s.consumer) + [Settle(true)];
      var r := Act(s, Publish);
      Feasible(r, actions) && Ordered(After(r, actions)) && Backlog(After(r, actions)) == RING - 1
  {
    var r := Act(s, Publish);
    PublishKeepsOrder(s);
    hide Ordered, Right;
    FinishCheck(r);
    RunOrderedIff(r, Unloaded(r.consumer) + [Settle(true)]);
    LastOrdered(r, Unloaded(r.consumer) + [Settle(true)]);
  }

  /** One more push onto 256 pending records hides them as soon as the check under way has ended. */
  lemma PublishOntoMoreHides(s: System)
    requires Ordered(s) && Possible(s, Publish) && Backlog(s) == RING
    ensures var actions := Unloaded(s.consumer) + [Settle(true)];
      var r := Act(s, Publish);
      Feasible(r, actions) && Follows(r, actions) && !Right(After(r, actions))
  {
    NextSlot(|s.published|);
    NextSlot(|s.commits|);
    MeetIff(|s.published| + 1, |s.commits| + 1);
    FinishCheck(Act(s, Publish));
    hide Ordered;
  }

  /** A store that changes a word which the check under way still needs gives it a wrong word. */
  lemma StoreTears(s: System, a: Action) returns (load: Action)
    requires Ordered(s) && Possible(s, a) && (a.StoreVaddr? || a.StoreHi? || a.StoreLo?) && !Disciplined(s, a)
    ensures var r := Act(s, a);
      Feasible(r, [load]) && Follows(r, [load]) && !Right(After(r, [load]))
  {
    HeadIsTail(s);
    load := if a.StoreVaddr? then LoadVaddr else if a.StoreHi? then LoadHi else LoadLo;
    AfterOne(Act(s, a), load);
  }

  /** The end of a push after a rollback during it. */
  lemma DroppedPush(s: System)
    requires Ordered(s) && s.producer.Storing? && Loaded(s.consumer) && Backlog(s) < RING
    ensures Feasible(Act(s, Settle(false)), Missing(s.producer) + [Publish])
    ensures Follows(Act(s, Settle(false)), Missing(s.producer) + [Publish])
    ensures var r := After(Act(s, Settle(false)), Missing(s.producer) + [Publish]);
      && Formed(r) && r.consumer.Looking? && r.published == s.commits + [s.producer.rec] && r.commits == s.commits
      && r.ring[r.tail] == s.published[|s.commits|]
      && r.tail == s.tail && r.head == (|s.published| + 1) % RING
  {
    HeadIsTail(s);
    NextSlot(|s.published|);
    hide Pends;
    FinishPush(Act(s, Settle(false)));
  }

  /**
   From every ordered state with at most 254 pending records, after a rollback during a push the
   next check reads the rolled-back record instead of the one that was pushed.
   */
  lemma RollbackDuringPushRevives(s: System)
    requires Ordered(s) && s.producer.Storing? && Loaded(s.consumer) && Backlog(s) < RING - 1
    ensures var actions := (Missing(s.producer) + [Publish]) + CHECK;
      var dropped := Act(s, Settle(false));
      && Feasible(dropped, actions) && Follows(dropped, actions)
      && var r := After(dropped, actions);
      && r.published == s.commits + [s.producer.rec] && r.commits == s.commits
      && Loaded(r.consumer) && Held(r.consumer) == s.published[|s.commits|]
      && r.tail == s.tail == r.consumer.t && r.head == (|s.published| + 1) % RING
  {
    DroppedPush(s);
    MeetIff(|s.published| + 1, |s.commits|);
    hide Ordered, Act, Disciplined;
    var dropped := Act(s, Settle(false));
    LoadRecord(After(dropped, Missing(s.producer) + [Publish]));
    AfterAppend(dropped, Missing(s.producer) + [Publish], CHECK);
  }

  /** With 255 pending records the pushed record is hidden instead: head meets tail in front of it. */
  lemma RollbackDuringFullPushHides(s: System)
    requires Ordered(s) && s.producer.Storing? && Loaded(s.consumer) && Backlog(s) == RING - 1
    ensures var actions := Missing(s.producer) + [Publish];
      var dropped := Act(s, Settle(false));
      && Feasible(dropped, actions) && Follows(dropped, actions)
      && var r := After(dropped, actions);
      && r.head == r.tail && Backlog(r) == 1 && !Right(r)
  {
    DroppedPush(s);
    MeetIff(|s.published| + 1, |s.commits|);
  }

  /** A rollback during a push always goes wrong in the end, even if the two records are equal. */
  lemma RollbackGoesWrong(s: System) returns (actions: seq<Action>)
    requires Ordered(s) && s.producer.Storing? && Loaded(s.consumer) && Backlog(s) < RING
    ensures var dropped := Act(s, Settle(false));
      Feasible(dropped, actions) && Follows(dropped, actions) && !Right(After(dropped, actions))
  {
    if Backlog(s) == RING - 1 {
      RollbackDuringFullPushHides(s);
      actions := Missing(s.producer) + [Publish];
    } else {
      RollbackDuringPushRevives(s);
      var dropped, revived := Act(s, Settle(false)), (Missing(s.producer) + [Publish]) + CHECK;
      var r := After(dropped, revived);
      if Held(r.consumer) != s.producer.rec {
        actions := revived;
      } else {
        NextSlot(|s.commits|);
        MeetIff(|s.published| + 1, |s.commits| + 1);
        hide Act, Disciplined;
        FinishCheck(r);
        AfterAppend(dropped, revived, Unloaded(r.consumer) + [Settle(true)]);
        actions := revived + (Unloaded(r.consumer) + [Settle(true)]);
      }
    }
  }

  /** Whatever both sides do from here within the discipline, what they see is right. */
  ghost predicate Safe(s: System)
    requires Formed(s)
  {
    forall w: seq<Action> :: Feasible(s, w) && Follows(s, w) ==> Right(After(s, w))
  }

  lemma OrderedIsSafe(s: System)
    requires Ordered(s)
    ensures Safe(s)
  {
    OrderedFormed(s);
    hide Ordered, Right;
    forall w: seq<Action> | Feasible(s, w) && Follows(s, w)
      ensures Right(After(s, w))
    {
      RunOrderedIff(s, w);
      LastOrdered(s, w);
      OrderedIsRight(After(s, w));
    }
  }

  /** A breach leads to a wrong view by actions that are all within the discipline. */
  lemma BreachGoesWrong(s: System, a: Action) returns (w: seq<Action>)
    requires Ordered(s) && Possible(s, a) && !Disciplined(s, a)
    ensures Feasible(Act(s, a), w) && Follows(Act(s, a), w) && !Right(After(Act(s, a), w))
  {
    match a
    case Publish =>
      if Backlog(s) == RING - 1 {
        PublishOntoFullHides(s);
        w := [];
      } else {
        PublishOntoMoreHides(s);
        w := Unloaded(s.consumer) + [Settle(true)];
      }
    case Settle(_) =>
      w := RollbackGoesWrong(s);
    case _ =>
      var load := StoreTears(s, a);
      w := [load];
  }

  /**
   From any ordered state, an action is safe exactly if it keeps the discipline: no later view of
   either side can be wrong, whatever they do within the discipline; and a breach makes one wrong.
   */
  lemma SafeIffDisciplined(s: System, a: Action)
    requires Ordered(s) && Possible(s, a)
    ensures Safe(Act(s, a)) <==> Disciplined(s, a)
  {
    OrderedFormed(s);
    hide Ordered, Right, Act, Disciplined, Possible;
    OrderedIffDisciplined(s, a);
    if Disciplined(s, a) {
      OrderedIsSafe(Act(s, a));
    } else {
      var w := BreachGoesWrong(s, a);
    }
  }

  /** Every state of the run is safe. */
  ghost predicate AlwaysSafe(s: System, actions: seq<Action>)
    requires Formed(s) && Feasible(s, actions)
    decreases |actions|
  {
    Safe(s) && (|actions| == 0 || AlwaysSafe(Act(s, actions[0]), actions[1..]))
  }

  lemma NotAlwaysSafe(s: System, actions: seq<Action>)
    requires Formed(s) && Feasible(s, actions) && !Safe(s)
    ensures !AlwaysSafe(s, actions)
  {
    hide Safe;
  }

  /**
   However single loads and stores interleave from the start: every state of a run is safe exactly
   if every action of it keeps the discipline.
   */
  lemma {:induction false} RunSafeIff(s: System, actions: seq<Action>)
    requires Ordered(s) && Feasible(s, actions)
    ensures AlwaysSafe(s, actions) <==> Follows(s, actions)
    decreases |actions|
  {
    OrderedFormed(s);
    hide Ordered, Right, Act, Disciplined, Possible, Safe;
    OrderedIsSafe(s);
    if |actions| > 0 {
      SafeIffDisciplined(s, actions[0]);
      OrderedIffDisciplined(s, actions[0]);
      if Disciplined(s, actions[0]) {
        RunSafeIff(Act(s, actions[0]), actions[1..]);
      } else {
        NotAlwaysSafe(Act(s, actions[0]), actions[1..]);
      }
    }
  }
}
