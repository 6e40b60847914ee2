/**
 The correction-stream encoder: for every byte it searches 2048 candidates of a noise generator,
 and records the bytes that none of them reproduces.
 */
module Evaporate {
  import opened Bits
  import opened Mixing

  const CANDIDATES: nat := 2048
  const STRIDE: nat := 14

  // ---------------------------------------------------------------- context

  /** absorb: one byte mixed into the context. */
  function Absorb(ctx: Value128, byte: u8): Value128 {
    var hi := Rotl64(Xor64(ctx.hi, Mul64(byte, PHI_HI)), 7);
    var lo := Rotl64(Xor64(ctx.lo, Mul64(byte, PHI_LO)), 11);
    var hi' := Xor64(hi, lo / TWO32);
    Value128(hi', Xor64(lo, hi' / TWO32))
  }

  /** absorb in the source's terms, with shifts as products and quotients. */
  lemma AbsorbIs(ctx: Value128, byte: u8)
    ensures var h := Xor(ctx.hi, (byte * 0x9E37_79B9_7F4A_7C15) % 0x1_0000_0000_0000_0000);
      var l := Xor(ctx.lo, (byte * 0x517C_C1B7_2722_0A95) % 0x1_0000_0000_0000_0000);
      var h7 := (h * 0x80) % 0x1_0000_0000_0000_0000 + h / 0x200_0000_0000_0000;
      var l11 := (l * 0x800) % 0x1_0000_0000_0000_0000 + l / 0x20_0000_0000_0000;
      && Absorb(ctx, byte).hi == Xor(h7, l11 / 0x1_0000_0000)
      && Absorb(ctx, byte).lo == Xor(l11, Absorb(ctx, byte).hi / 0x1_0000_0000)
  {
    hide Xor, Pow2, Rotl64;
    RotationSizes();
    Rotl64Is(Xor64(ctx.hi, Mul64(byte, PHI_HI)), 7, 0x80, 0x200_0000_0000_0000);
    Rotl64Is(Xor64(ctx.lo, Mul64(byte, PHI_LO)), 11, 0x800, 0x20_0000_0000_0000);
  }

  lemma RotationSizes()
    ensures Pow2(7) == 0x80 && Pow2(57) == 0x200_0000_0000_0000
    ensures Pow2(11) == 0x800 && Pow2(53) == 0x20_0000_0000_0000
  {
    Pow2Values();
    Pow2Add(4, 3);
    Pow2Add(8, 3);
    Pow2Add(32, 16);
    Pow2Add(48, 5);
    Pow2Add(53, 4);
  }

  /** The context after a sequence of bytes. */
  function Absorbed(ctx: Value128, bytes: seq<u8>): Value128
    decreases |bytes|
  {
    if |bytes| == 0 then ctx else Absorb(Absorbed(ctx, bytes[..|bytes| - 1]), bytes[|bytes| - 1])
  }

  lemma RotlInjective(x: u64, y: u64, k: nat)
    requires 0 < k < 64 && Rotl64(x, k) == Rotl64(y, k)
    ensures x == y
  {
    Rotl64Back(x, k);
    Rotl64Back(y, k);
  }

  lemma AbsorbInjective(c: Value128, d: Value128, byte: u8)
    requires Absorb(c, byte) == Absorb(d, byte)
    ensures c == d
  {
    var p, q := Xor64(c.hi, Mul64(byte, PHI_HI)), Xor64(d.hi, Mul64(byte, PHI_HI));
    var r, s := Xor64(c.lo, Mul64(byte, PHI_LO)), Xor64(d.lo, Mul64(byte, PHI_LO));
    XorInjective(Rotl64(r, 11), Rotl64(s, 11), Absorb(c, byte).hi / TWO32);
    XorInjective(Rotl64(p, 7), Rotl64(q, 7), Rotl64(r, 11) / TWO32);
    RotlInjective(r, s, 11);
    RotlInjective(p, q, 7);
    XorInjective(c.hi, d.hi, Mul64(byte, PHI_HI));
    XorInjective(c.lo, d.lo, Mul64(byte, PHI_LO));
  }

  /** Absorbing the same bytes never makes two contexts meet. */
  lemma {:induction false} AbsorbedInjective(c: Value128, d: Value128, bytes: seq<u8>)
    requires Absorbed(c, bytes) == Absorbed(d, bytes)
    ensures c == d
    decreases |bytes|
  {
    if |bytes| > 0 {
      var init := bytes[..|bytes| - 1];
      AbsorbInjective(Absorbed(c, init), Absorbed(d, init), bytes[|bytes| - 1]);
      AbsorbedInjective(c, d, init);
    }
  }

  // ---------------------------------------------------------------- noise and checks

  function NoiseStart(shi: u64, slo: u64, slot: u16, basis: u8): Value128 {
    Value128(Xor64(Xor64(shi, Mul64(slot, PHI_LO)), Mul64(basis, 0xBF58476D1CE4E5B9)),
             Xor64(Xor64(slo, Mul64(slot, PHI_HI)), Mul64(basis, 0x94D049BB133111EB)))
  }

  /** Where the noise starts, in the source's terms. */
  lemma NoiseStartIs(shi: u64, slo: u64, slot: u16, basis: u8)
    ensures var s := NoiseStart(shi, slo, slot, basis);
      && s.hi == Xor(Xor(shi, (slot * 0x517C_C1B7_2722_0A95) % 0x1_0000_0000_0000_0000),
                     (basis * 0xBF58_476D_1CE4_E5B9) % 0x1_0000_0000_0000_0000)
      && s.lo == Xor(Xor(slo, (slot * 0x9E37_79B9_7F4A_7C15) % 0x1_0000_0000_0000_0000),
                     (basis * 0x94D0_49BB_1331_11EB) % 0x1_0000_0000_0000_0000)
  {
    hide Xor;
  }

  /** The byte of the noise state that a position in the stride selects. */
  function NoiseByte(s: Value128, bytePos: nat): u8
    requires bytePos < STRIDE
  {
    if bytePos < 8 then Shr(s.lo, 8 * bytePos) % 0x100 else Shr(s.hi, 8 * (bytePos - 8)) % 0x100
  }

  function Noise(shi: u64, slo: u64, slot: u16, basis: u8, entry: u16, bytePos: nat): u8
    requires bytePos < STRIDE
  {
    NoiseByte(Stirred(NoiseStart(shi, slo, slot, basis), 13, 17, entry + 1), bytePos)
  }

  /** A noise byte, bit by bit: bits of lo for the first eight positions, bits of hi for the others. */
  lemma NoiseBit(shi: u64, slo: u64, slot: u16, basis: u8, entry: u16, bytePos: nat, b: nat)
    requires bytePos < 14 && b < 8
    ensures BitAt(Noise(shi, slo, slot, basis, entry, bytePos), b) ==
      var s := Stirred(NoiseStart(shi, slo, slot, basis), 13, 17, entry + 1);
      if bytePos < 8 then BitAt(s.lo, 8 * bytePos + b) else BitAt(s.hi, 8 * (bytePos - 8) + b)
  {
    hide BitAt, Shr, Low, Pow2, Stirred, NoiseStart;
    var s := Stirred(NoiseStart(shi, slo, slot, basis), 13, 17, entry + 1);
    var x, at := if bytePos < 8 then s.lo else s.hi, if bytePos < 8 then 8 * bytePos else 8 * (bytePos - 8);
    Pow2Values();
    ShrIsDiv(Shr(x, at), 8, 0x100);
    LowBit(Shr(x, at), 8, b);
    ShrBit(x, at, b);
  }

  /** The 16-bit loop counter of noise_at after k increments. */
  function LoopCounter(k: nat): u16 {
    k % 0x1_0000
  }

  /** The loop `for (uint16_t j = 0; j <= entry; j++)` ends exactly if entry is not 65535. */
  lemma NoiseLoopEnds(entry: u16)
    ensures (exists k: nat :: LoopCounter(k) > entry) <==> entry < 0xFFFF
  {
    if entry < 0xFFFF {
      assert LoopCounter(entry + 1) > entry;
    }
  }

  /** The loop of noise_at. */
  method NoiseLoop(start: Value128, entry: u16) returns (state: Value128)
    requires entry < 0xFFFF
    ensures state == Stirred(start, 13, 17, entry + 1)
  {
    state := start;
    var j: u16 := 0;
    while j <= entry
      invariant j <= entry + 1 && state == Stirred(start, 13, 17, j)
      decreases entry + 1 - j
    {
      state := StreamStep(state);
      NextCounter(j);
      j := (j + 1) % 0x1_0000;
    }
  }

  lemma NextCounter(j: u16)
    requires j < 0xFFFF
    ensures (j + 1) % 0x1_0000 == j + 1
  {
  }

  method NoiseAt(shi: u64, slo: u64, slot: u16, basis: u8, entry: u16, bytePos: nat) returns (noise: u8)
    requires bytePos < STRIDE && entry < 0xFFFF
    ensures noise == Noise(shi, slo, slot, basis, entry, bytePos)
  {
    var state := NoiseLoop(NoiseStart(shi, slo, slot, basis), entry);
    noise := NoiseByte(state, bytePos);
  }

  function Finish(mix: u64, factor: u64): u8 {
    ShrAtMost(mix, 33);
    var a := Xor64(mix, Shr(mix, 33));
    var b := Mul64(a, factor);
    Xor(b, Shr(b, 33)) % 0x100
  }

  function PositionCrc(shi: u64, slo: u64, ctx: Value128, position: u64): u8 {
    Finish(Xor64(Xor64(Xor64(Xor64(ctx.hi, ctx.lo), Mul64(position, PHI_HI)), shi), slo), 0xFF51AFD7ED558CCD)
  }

  function CandidateCrc(shi: u64, slo: u64, slot: u16, basis: u8, entry: u16, bytePos: u8, position: u64,
                        ctx: Value128): u8 {
    var a := Xor64(Xor64(Xor64(shi, slo), Mul64(slot, PHI_HI)), Mul64(basis, PHI_LO));
    var b := Xor64(Xor64(a, entry * 0x1_0000), bytePos);
    var c := Xor64(b, Mul64(position, 0x94D049BB133111EB));
    Finish(Xor64(Xor64(c, ctx.hi), (ctx.lo * 8) % TWO64), 0xC4CEB9FE1A85EC53)
  }

  /** `mix ^= mix >> 33; mix *= factor; mix ^= mix >> 33`, and the lowest byte of that. */
  lemma FinishIs(mix: u64, factor: u64)
    ensures var b := (Xor(mix, mix / 0x2_0000_0000) * factor) % 0x1_0000_0000_0000_0000;
            Finish(mix, factor) == Xor(b, b / 0x2_0000_0000) % 0x100
  {
    hide Xor, Shr, Low, Pow2;
    Pow2Values();
    Pow2Add(1, 32);
    ShrAtMost(mix, 33);
    var b := Mul64(Xor64(mix, Shr(mix, 33)), factor);
    ShrIsDiv(mix, 33, 0x2_0000_0000);
    ShrIsDiv(b, 33, 0x2_0000_0000);
  }

  /** What the check of a position mixes, bit by bit. */
  lemma PositionCrcIs(shi: u64, slo: u64, ctx: Value128, position: u64) returns (mix: u64)
    ensures PositionCrc(shi, slo, ctx, position) == Finish(mix, 0xFF51_AFD7_ED55_8CCD)
    ensures forall i :: 0 <= i < 64 ==>
      var p := BitAt((position * 0x9E37_79B9_7F4A_7C15) % 0x1_0000_0000_0000_0000, i);
      BitAt(mix, i) == (BitAt(ctx.hi, i) + BitAt(ctx.lo, i) + BitAt(shi, i) + BitAt(slo, i) + p) % 2
  {
    hide Xor, BitAt, Finish;
    var p := Mul64(position, PHI_HI);
    var a := Xor64(ctx.hi, ctx.lo);
    var b := Xor64(a, p);
    var c := Xor64(b, shi);
    mix := Xor64(c, slo);
    forall i | 0 <= i < 64
      ensures BitAt(mix, i)
           == (BitAt(ctx.hi, i) + BitAt(ctx.lo, i) + BitAt(shi, i) + BitAt(slo, i) + BitAt(p, i)) % 2
    {
      XorBit(ctx.hi, ctx.lo, i);
      XorBit(a, p, i);
      XorBit(b, shi, i);
      XorBit(c, slo, i);
    }
  }

  /** One more word mixed in adds its bit. */
  lemma BitAdded(x: nat, y: nat, i: nat, sum: nat) returns (next: nat)
    requires BitAt(x, i) == sum % 2
    ensures next == sum + BitAt(y, i) && BitAt(Xor(x, y), i) == next % 2
  {
    hide Xor, BitAt;
    XorBit(x, y, i);
    next := sum + BitAt(y, i);
  }

  /** What the check of a candidate mixes, bit by bit. */
  lemma CandidateCrcIs(shi: u64, slo: u64, slot: u16, basis: u8, entry: u16, bytePos: u8, position: u64,
                       ctx: Value128) returns (mix: u64)
    ensures CandidateCrc(shi, slo, slot, basis, entry, bytePos, position, ctx) == Finish(mix, 0xC4CE_B9FE_1A85_EC53)
    ensures forall i :: 0 <= i < 64 ==>
      var p := BitAt((slot * 0x9E37_79B9_7F4A_7C15) % 0x1_0000_0000_0000_0000, i);
      var q := BitAt((basis * 0x517C_C1B7_2722_0A95) % 0x1_0000_0000_0000_0000, i);
      var r := BitAt((position * 0x94D0_49BB_1331_11EB) % 0x1_0000_0000_0000_0000, i);
      var l := BitAt((ctx.lo * 8) % 0x1_0000_0000_0000_0000, i);
      BitAt(mix, i) == (BitAt(shi, i) + BitAt(slo, i) + p + q + BitAt(entry * 0x1_0000, i)
                        + BitAt(bytePos, i) + r + BitAt(ctx.hi, i) + l) % 2
  {
    hide Xor, BitAt, Finish;
    var p, q, r, l := Mul64(slot, PHI_HI), Mul64(basis, PHI_LO), Mul64(position, 0x94D049BB133111EB), Mul64(ctx.lo, 8);
    var a := Xor64(shi, slo);
    var b := Xor64(a, p);
    var c := Xor64(b, q);
    var d := Xor64(c, entry * 0x1_0000);
    var e := Xor64(d, bytePos);
    var f := Xor64(e, r);
    var g := Xor64(f, ctx.hi);
    mix := Xor64(g, l);
    forall i | 0 <= i < 64
      ensures BitAt(mix, i)
           == (BitAt(shi, i) + BitAt(slo, i) + BitAt(p, i) + BitAt(q, i) + BitAt(entry * 0x1_0000, i)
               + BitAt(bytePos, i) + BitAt(r, i) + BitAt(ctx.hi, i) + BitAt(l, i)) % 2
    {
      XorBit(shi, slo, i);
      var s := BitAt(shi, i) + BitAt(slo, i);
      s := BitAdded(a, p, i, s);
      s := BitAdded(b, q, i, s);
      s := BitAdded(c, entry * 0x1_0000, i, s);
      s := BitAdded(d, bytePos, i, s);
      s := BitAdded(e, r, i, s);
      s := BitAdded(f, ctx.hi, i, s);
      s := BitAdded(g, l, i, s);
    }
  }

  // ---------------------------------------------------------------- the search

  /** The probe before candidate k. */
  function Probe(ctx: Value128, k: nat): Value128
    decreases k, ctx
  {
    if k == 0 then ctx else Absorb(Probe(ctx, k - 1), (k - 1) % 0x100)
  }

  /** The first probe is the context; each candidate that fails absorbs the low byte of its number. */
  lemma ProbeIs(ctx: Value128, k: nat)
    ensures Probe(ctx, 0) == ctx && Probe(ctx, k + 1) == Absorb(Probe(ctx, k), k % 0x100)
  {
    hide Absorb;
  }

  function EntryOf(i: nat): u16 {
    (i / STRIDE) % 0x1_0000
  }

  /** The candidate drawn from a probe reproduces byte i, and its check matches. */
  predicate Reproduces(shi: u64, slo: u64, ctx: Value128, probe: Value128, i: u64, byte: u8) {
    var basis, slot := probe.hi % 64, probe.lo % 1024;
    && Noise(shi, slo, slot, basis, EntryOf(i), i % STRIDE) == byte
    && CandidateCrc(shi, slo, slot, basis, EntryOf(i), i % STRIDE, i, ctx) == PositionCrc(shi, slo, ctx, i)
  }

  /** A candidate with the right byte and the wrong check, or the other way round, is no hit. */
  lemma BothMustAgree(shi: u64, slo: u64, ctx: Value128, probe: Value128, i: u64, byte: u8)
    ensures Reproduces(shi, slo, ctx, probe, i, byte) <==>
      && Noise(shi, slo, probe.lo % 1024, probe.hi % 64, (i / 14) % 0x1_0000, i % 14) == byte
      && CandidateCrc(shi, slo, probe.lo % 1024, probe.hi % 64, (i / 14) % 0x1_0000, i % 14, i, ctx)
         == PositionCrc(shi, slo, ctx, i)
  {
    hide Noise, CandidateCrc, PositionCrc;
  }

  /** For each of the 2048 candidates, whether it reproduces byte i. */
  function Outcomes(shi: u64, slo: u64, ctx: Value128, i: u64, byte: u8): (s: seq<bool>)
    ensures |s| == CANDIDATES
  {
    seq(CANDIDATES, k requires 0 <= k < CANDIDATES => Reproduces(shi, slo, ctx, Probe(ctx, k), i, byte))
  }

  method TryCandidate(shi: u64, slo: u64, ctx: Value128, probe: Value128, i: u64, byte: u8) returns (ok: bool)
    requires EntryOf(i) < 0xFFFF
    ensures ok <==> Reproduces(shi, slo, ctx, probe, i, byte)
  {
    var target := PositionCrc(shi, slo, ctx, i);
    var basis, slot := probe.hi % 64, probe.lo % 1024;
    var candidate := NoiseAt(shi, slo, slot, basis, EntryOf(i), i % STRIDE);
    var crc := CandidateCrc(shi, slo, slot, basis, EntryOf(i), i % STRIDE, i, ctx);
    ok := candidate == byte && crc == target;
  }

  lemma NoneFoundYet(outcomes: seq<bool>, k: nat)
    requires k < |outcomes| && true !in outcomes[..k] && !outcomes[k]
    ensures true !in outcomes[..k + 1]
  {
  }

  /** The candidate loop: stops at the first hit. */
  method Search(shi: u64, slo: u64, ctx: Value128, i: u64, byte: u8) returns (found: bool)
    requires EntryOf(i) < 0xFFFF
    ensures found <==> true in Outcomes(shi, slo, ctx, i, byte)
  {
    var probe := ctx;
    ghost var outcomes := Outcomes(shi, slo, ctx, i, byte);
    for k := 0 to CANDIDATES
      invariant probe == Probe(ctx, k)
      invariant true !in outcomes[..k]
    {
      var ok := TryCandidate(shi, slo, ctx, probe, i, byte);
      assert ok == outcomes[k];
      if ok {
        return true;
      }
      NoneFoundYet(outcomes, k);
      probe := Absorb(probe, k % 0x100);
    }
    assert outcomes[..CANDIDATES] == outcomes;
    return false;
  }

  // ---------------------------------------------------------------- the stream

  datatype Correction = Correction(delta: u32, value: u8, eccParity: u8)

  /** generate_ecc: parity of the value and the two low bytes of the distance. */
  function Parity(delta: u32, value: u8): u8 {
    Xor8(Xor8(value, delta % 0x100), (delta / 0x100) % 0x100)
  }

  /** A correction as generate_ecc leaves it. */
  function Made(delta: u32, value: u8): Correction {
    Correction(delta, value, Parity(delta, value))
  }

  /** Byte i is a hit: some candidate under the context of the bytes before it reproduces it. */
  predicate Hit(shi: u64, slo: u64, data: seq<u8>, i: nat)
    requires i < |data| < TWO64
  {
    true in Outcomes(shi, slo, Absorbed(Value128(0, 0), data[..i]), i, data[i])
  }

  function Hits(shi: u64, slo: u64, data: seq<u8>): (hits: seq<bool>)
    requires |data| < TWO64
    ensures |hits| == |data|
  {
    seq(|data|, i requires 0 <= i < |data| => Hit(shi, slo, data, i))
  }

  /** The encoder meets entry 65535, whose noise loop never ends, exactly beyond 917490 bytes. */
  lemma EveryNoiseLoopEndsIff(len: nat)
    ensures (forall i :: 0 <= i < len ==> EntryOf(i) < 0xFFFF) <==> len <= 917490
  {
    if len > 917490 {
      assert EntryOf(917490) == 0xFFFF;
    }
  }

  ghost predicate EncodedSoFar(hits: seq<bool>, data: seq<u8>, i: nat, out: seq<Correction>, sinceLast: nat) {
    i <= |data| == |hits| < TWO32 && sinceLast <= i && Stream(out, sinceLast) == Encoded(hits, data, i)
  }

  /** One turn of the byte loop; the 32-bit distance does not wrap. */
  lemma EncodedNext(hits: seq<bool>, data: seq<u8>, i: nat, out: seq<Correction>, sinceLast: u32)
    requires i < |data| && EncodedSoFar(hits, data, i, out, sinceLast)
    ensures hits[i] ==> EncodedSoFar(hits, data, i + 1, out, (sinceLast + 1) % TWO32)
    ensures !hits[i] ==> EncodedSoFar(hits, data, i + 1, out + [Made(sinceLast, data[i])], 0)
  {
  }

  lemma AbsorbedNext(data: seq<u8>, i: nat)
    requires i < |data|
    ensures Absorbed(Value128(0, 0), data[..i + 1]) == Absorb(Absorbed(Value128(0, 0), data[..i]), data[i])
  {
    assert data[..i + 1][..i] == data[..i];
  }

  /** evaporate_layer, for the lengths on which it ends. */
  method EvaporateLayer(shi: u64, slo: u64, data: seq<u8>) returns (out: seq<Correction>)
    requires |data| <= 917490
    ensures out == Encoded(Hits(shi, slo, data), data, |data|).corrections
  {
    EveryNoiseLoopEndsIff(|data|);
    ghost var hits := Hits(shi, slo, data);
    var ctx := Value128(0, 0);
    out := [];
    var sinceLast: u32 := 0;
    for i := 0 to |data|
      invariant ctx == Absorbed(Value128(0, 0), data[..i])
      invariant EncodedSoFar(hits, data, i, out, sinceLast)
    {
      var found := Search(shi, slo, ctx, i, data[i]);
      assert found == hits[i];
      EncodedNext(hits, data, i, out, sinceLast);
      if found {
        sinceLast := (sinceLast + 1) % TWO32;
      } else {
        out := out + [Made(sinceLast, data[i])];
        sinceLast := 0;
      }
      ctx := Absorb(ctx, data[i]);
      AbsorbedNext(data, i);
    }
  }

  /** The stream for the first n bytes, and the hits since its last correction. */
  datatype Stream = Stream(corrections: seq<Correction>, sinceLast: nat)

  function Encoded(hits: seq<bool>, data: seq<u8>, n: nat): (s: Stream)
    requires n <= |data| == |hits| < TWO32
    ensures s.sinceLast <= n
    decreases n
  {
    if n == 0 then Stream([], 0)
    else
      var s := Encoded(hits, data, n - 1);
      if hits[n - 1] then Stream(s.corrections, s.sinceLast + 1)
      else Stream(s.corrections + [Made(s.sinceLast, data[n - 1])], 0)
  }

  // ---------------------------------------------------------------- what the stream says

  /** Sum of the distances of the first k corrections. */
  function DeltaSum(cs: seq<Correction>, k: nat): nat
    requires k <= |cs|
    decreases k
  {
    if k == 0 then 0 else DeltaSum(cs, k - 1) + cs[k - 1].delta
  }

  /** Where correction k sits: all hits before it plus the corrections before it. */
  function Position(cs: seq<Correction>, k: nat): nat
    requires k < |cs|
  {
    DeltaSum(cs, k + 1) + k
  }

  lemma {:induction false} DeltaSumPrefix(cs: seq<Correction>, c: Correction, k: nat)
    requires k <= |cs|
    ensures DeltaSum(cs + [c], k) == DeltaSum(cs, k)
    decreases k
  {
    if k > 0 {
      DeltaSumPrefix(cs, c, k - 1);
    }
  }

  /** Corrections come in the order of their positions, and no position has two. */
  lemma {:induction false} PositionsIncrease(cs: seq<Correction>, j: nat, k: nat)
    requires j < k < |cs|
    ensures Position(cs, j) < Position(cs, k)
    decreases k
  {
    if j + 1 < k {
      PositionsIncrease(cs, j, k - 1);
    }
  }

  /** The stream accounts for every one of the first n bytes. */
  ghost predicate Accounts(hits: seq<bool>, data: seq<u8>, n: nat, s: Stream)
    requires n <= |data| == |hits|
  {
    && DeltaSum(s.corrections, |s.corrections|) + |s.corrections| + s.sinceLast == n
    && (forall k: nat :: k < |s.corrections| ==> LocatesMiss(hits, data, n, s.corrections, k))
    && (forall i :: 0 <= i < n && !hits[i] ==> Located(s.corrections, i))
  }

  /** Correction k points at a miss and carries its byte and parity. */
  ghost predicate LocatesMiss(hits: seq<bool>, data: seq<u8>, n: nat, cs: seq<Correction>, k: nat)
    requires n <= |data| == |hits| && k < |cs|
  {
    var p := Position(cs, k);
    p < n && !hits[p] && cs[k].value == data[p] && cs[k].eccParity == Parity(cs[k].delta, cs[k].value)
  }

  ghost predicate Located(cs: seq<Correction>, i: nat) {
    exists k :: 0 <= k < |cs| && Position(cs, k) == i
  }

  lemma MissAdded(hits: seq<bool>, data: seq<u8>, n: nat, s: Stream)
    requires n < |data| == |hits| < TWO32 && s.sinceLast <= n && Accounts(hits, data, n, s) && !hits[n]
    ensures var c := Made(s.sinceLast, data[n]);
            Accounts(hits, data, n + 1, Stream(s.corrections + [c], 0))
  {
    var cs, m := s.corrections, |s.corrections|;
    var c := Made(s.sinceLast, data[n]);
    var all := cs + [c];
    DeltaSumPrefix(cs, c, m);
    assert Position(all, m) == n;
    forall k: nat {:trigger LocatesMiss(hits, data, n + 1, all, k)} | k < |all|
      ensures LocatesMiss(hits, data, n + 1, all, k)
    {
      if k < m {
        DeltaSumPrefix(cs, c, k + 1);
        assert LocatesMiss(hits, data, n, cs, k);
      }
    }
    forall i | 0 <= i < n + 1 && !hits[i]
      ensures Located(all, i)
    {
      if i < n {
        assert Located(cs, i);
        var k :| 0 <= k < |cs| && Position(cs, k) == i;
        DeltaSumPrefix(cs, c, k + 1);
        assert Position(all, k) == i;
      }
    }
  }

  lemma HitAdded(hits: seq<bool>, data: seq<u8>, n: nat, s: Stream)
    requires n < |data| == |hits| < TWO32 && Accounts(hits, data, n, s) && hits[n]
    ensures Accounts(hits, data, n + 1, Stream(s.corrections, s.sinceLast + 1))
  {
    var cs := s.corrections;
    forall k: nat {:trigger LocatesMiss(hits, data, n + 1, cs, k)} | k < |cs|
      ensures LocatesMiss(hits, data, n + 1, cs, k)
    {
      assert LocatesMiss(hits, data, n, cs, k);
    }
  }

  /**
   The stream locates exactly the misses: correction k sits at the sum of the distances up to it
   plus k, carries that byte, and every position without a correction has a reproducing candidate.
   */
  lemma {:induction false} StreamLocatesMisses(hits: seq<bool>, data: seq<u8>, n: nat)
    requires n <= |data| == |hits| < TWO32
    ensures Accounts(hits, data, n, Encoded(hits, data, n))
    decreases n
  {
    if n > 0 {
      StreamLocatesMisses(hits, data, n - 1);
      if hits[n - 1] {
        HitAdded(hits, data, n - 1, Encoded(hits, data, n - 1));
      } else {
        MissAdded(hits, data, n - 1, Encoded(hits, data, n - 1));
      }
    }
  }

  /** A correction points at a position exactly if no candidate below 2048 reproduces the byte there. */
  lemma LocatedIffNotReproduced(shi: u64, slo: u64, data: seq<u8>, i: nat)
    requires i < |data| < TWO32
    ensures Located(Encoded(Hits(shi, slo, data), data, |data|).corrections, i)
      <==> !ReproducedBySome(shi, slo, Absorbed(Value128(0, 0), data[..i]), i, data[i])
  {
    var hits := Hits(shi, slo, data);
    hide Hits, Encoded, Absorbed, ReproducedBySome;
    StreamLocatesMisses(hits, data, |data|);
    LocatedIffMiss(hits, data, |data|, Encoded(hits, data, |data|), i);
    HitIsReproduced(shi, slo, data, i);
  }

  /**
   The same with both comparisons written out: a position gets no correction exactly if, for some
   candidate below 2048, the noise byte at the slot and basis of its probe is the data byte and
   its check is the check of the position.
   */
  lemma UncorrectedIff(shi: u64, slo: u64, data: seq<u8>, i: nat)
    requires i < |data| < TWO32
    ensures var ctx := Absorbed(Value128(0, 0), data[..i]);
      !Located(Encoded(Hits(shi, slo, data), data, |data|).corrections, i) <==>
        exists k :: 0 <= k < 2048 && var p := Probe(ctx, k);
          && Noise(shi, slo, p.lo % 1024, p.hi % 64, (i / 14) % 0x1_0000, i % 14) == data[i]
          && CandidateCrc(shi, slo, p.lo % 1024, p.hi % 64, (i / 14) % 0x1_0000, i % 14, i, ctx)
             == PositionCrc(shi, slo, ctx, i)
  {
    hide Hits, Encoded, Absorbed, Reproduces, Noise, CandidateCrc, PositionCrc, Probe, Located;
    var ctx := Absorbed(Value128(0, 0), data[..i]);
    LocatedIffNotReproduced(shi, slo, data, i);
    var cs := Encoded(Hits(shi, slo, data), data, |data|).corrections;
    forall k | 0 <= k < 2048
      ensures Reproduces(shi, slo, ctx, Probe(ctx, k), i, data[i]) <==>
        && Noise(shi, slo, Probe(ctx, k).lo % 1024, Probe(ctx, k).hi % 64, (i / 14) % 0x1_0000, i % 14) == data[i]
        && CandidateCrc(shi, slo, Probe(ctx, k).lo % 1024, Probe(ctx, k).hi % 64, (i / 14) % 0x1_0000, i % 14, i, ctx)
           == PositionCrc(shi, slo, ctx, i)
    {
      BothMustAgree(shi, slo, ctx, Probe(ctx, k), i, data[i]);
    }
    if !Located(cs, i) {
      var k :| 0 <= k < CANDIDATES && Reproduces(shi, slo, ctx, Probe(ctx, k), i, data[i]);
      assert 0 <= k < 2048 && var p := Probe(ctx, k);
        && Noise(shi, slo, p.lo % 1024, p.hi % 64, (i / 14) % 0x1_0000, i % 14) == data[i]
        && CandidateCrc(shi, slo, p.lo % 1024, p.hi % 64, (i / 14) % 0x1_0000, i % 14, i, ctx)
           == PositionCrc(shi, slo, ctx, i);
    }
  }

  lemma LocatedIffMiss(hits: seq<bool>, data: seq<u8>, n: nat, s: Stream, i: nat)
    requires i < n <= |data| == |hits| && Accounts(hits, data, n, s)
    ensures Located(s.corrections, i) <==> !hits[i]
  {
    if Located(s.corrections, i) {
      var k :| 0 <= k < |s.corrections| && Position(s.corrections, k) == i;
      assert LocatesMiss(hits, data, n, s.corrections, k);
    }
  }

  lemma HitIsReproduced(shi: u64, slo: u64, data: seq<u8>, i: nat)
    requires i < |data| < TWO64
    ensures Hits(shi, slo, data)[i] <==> ReproducedBySome(shi, slo, Absorbed(Value128(0, 0), data[..i]), i, data[i])
  {
    SomeOutcome(shi, slo, Absorbed(Value128(0, 0), data[..i]), i, data[i]);
  }

  ghost predicate ReproducedBySome(shi: u64, slo: u64, ctx: Value128, i: u64, byte: u8) {
    exists k :: 0 <= k < CANDIDATES && Reproduces(shi, slo, ctx, Probe(ctx, k), i, byte)
  }

  lemma SomeOutcome(shi: u64, slo: u64, ctx: Value128, i: u64, byte: u8)
    ensures true in Outcomes(shi, slo, ctx, i, byte) <==> ReproducedBySome(shi, slo, ctx, i, byte)
  {
    hide Reproduces, Probe;
    var outcomes := Outcomes(shi, slo, ctx, i, byte);
    if true in outcomes {
      var k :| 0 <= k < |outcomes| && outcomes[k];
      assert Reproduces(shi, slo, ctx, Probe(ctx, k), i, byte);
    }
    if ReproducedBySome(shi, slo, ctx, i, byte) {
      var k :| 0 <= k < CANDIDATES && Reproduces(shi, slo, ctx, Probe(ctx, k), i, byte);
      assert outcomes[k];
    }
  }

  // ---------------------------------------------------------------- putting the bytes back

  /** The bytes of the hits among the first n, in order. */
  function HitBytes(hits: seq<bool>, data: seq<u8>, n: nat): seq<u8>
    requires n <= |data| == |hits|
    decreases n
  {
    if n == 0 then []
    else if hits[n - 1] then HitBytes(hits, data, n - 1) + [data[n - 1]]
    else HitBytes(hits, data, n - 1)
  }

  /** Before each correction, as many hits as its distance says. */
  function Interleaved(cs: seq<Correction>, hits: seq<u8>): seq<u8>
    decreases |cs|
  {
    if |cs| == 0 then hits
    else
      var n, last := |cs| - 1, cs[|cs| - 1];
      var before := DeltaSum(cs, |cs|);
      if before <= |hits| then Interleaved(cs[..n], hits[..before]) + [last.value] + hits[before..]
      else Interleaved(cs[..n], hits)
  }

  lemma {:induction false} HitCount(hits: seq<bool>, data: seq<u8>, n: nat)
    requires n <= |data| == |hits| < TWO32
    ensures var s := Encoded(hits, data, n);
            |HitBytes(hits, data, n)| == DeltaSum(s.corrections, |s.corrections|) + s.sinceLast
    decreases n
  {
    if n > 0 {
      HitCount(hits, data, n - 1);
      if !hits[n - 1] {
        var s := Encoded(hits, data, n - 1);
        var c := Made(s.sinceLast, data[n - 1]);
        DeltaSumPrefix(s.corrections, c, |s.corrections|);
      }
    }
  }

  lemma InterleavedNothing()
    ensures Interleaved([], []) == []
  {
  }

  lemma InterleavedMoreHits(cs: seq<Correction>, hits: seq<u8>, b: u8)
    requires DeltaSum(cs, |cs|) <= |hits|
    ensures Interleaved(cs, hits + [b]) == Interleaved(cs, hits) + [b]
  {
    if |cs| > 0 {
      var before := DeltaSum(cs, |cs|);
      assert (hits + [b])[..before] == hits[..before];
      assert (hits + [b])[before..] == hits[before..] + [b];
    }
  }

  lemma InterleavedCorrection(cs: seq<Correction>, hits: seq<u8>, c: Correction)
    requires DeltaSum(cs + [c], |cs| + 1) == |hits|
    ensures Interleaved(cs + [c], hits) == Interleaved(cs, hits) + [c.value]
  {
    assert (cs + [c])[..|cs|] == cs;
    assert hits[..|hits|] == hits && hits[|hits|..] == [];
  }

  lemma RebuiltByMiss(s: Stream, bytes: seq<u8>, last: u8)
    requires s.sinceLast < TWO32 && |bytes| == DeltaSum(s.corrections, |s.corrections|) + s.sinceLast
    ensures Interleaved(s.corrections + [Made(s.sinceLast, last)], bytes) == Interleaved(s.corrections, bytes) + [last]
  {
    var c := Made(s.sinceLast, last);
    DeltaSumPrefix(s.corrections, c, |s.corrections|);
    InterleavedCorrection(s.corrections, bytes, c);
  }

  /** Corrections and hit bytes together rebuild the input. */
  lemma {:induction false} InterleavingRebuilds(hits: seq<bool>, data: seq<u8>, n: nat)
    requires n <= |data| == |hits| < TWO32
    ensures Interleaved(Encoded(hits, data, n).corrections, HitBytes(hits, data, n)) == data[..n]
    decreases n
  {
    hide Interleaved, DeltaSum, Made;
    InterleavedNothing();
    if n > 0 {
      var s, bytes, last := Encoded(hits, data, n - 1), HitBytes(hits, data, n - 1), data[n - 1];
      InterleavingRebuilds(hits, data, n - 1);
      HitCount(hits, data, n - 1);
      assert data[..n] == data[..n - 1] + [last];
      if hits[n - 1] {
        InterleavedMoreHits(s.corrections, bytes, last);
      } else {
        RebuiltByMiss(s, bytes, last);
      }
    }
  }

  // ---------------------------------------------------------------- healing a correction

  /** verify_and_heal: recomputes the value from the parity if they disagree. */
  function Healed(c: Correction): Correction {
    if Parity(c.delta, c.value) == c.eccParity then c
    else c.(value := Xor8(Xor8(c.eccParity, c.delta % 0x100), (c.delta / 0x100) % 0x100))
  }

  /** Whatever happens to the value alone, healing restores it. */
  lemma HealingRestoresValue(delta: u32, value: u8, damaged: u8)
    ensures Healed(Correction(delta, damaged, Parity(delta, value))) == Correction(delta, value, Parity(delta, value))
  {
    var a, b := delta % 0x100, (delta / 0x100) % 0x100;
    ParityUndone(value, a, b);
    ParityUndone(damaged, a, b);
  }

  /** Parity, bit by bit: the value and the two low bytes of the distance. */
  lemma ParityBit(delta: u32, value: u8, b: nat)
    requires b < 8
    ensures BitAt(Parity(delta, value), b) == (BitAt(value, b) + BitAt(delta, b) + BitAt(delta, b + 8)) % 2
  {
    hide BitAt, Xor, Shr, Low, Pow2;
    var low, high := delta % 0x100, (delta / 0x100) % 0x100;
    XorBit(value, low, b);
    XorBit(Xor(value, low), high, b);
    Pow2Values();
    ShrIsDiv(delta, 8, 0x100);
    LowBit(delta, 8, b);
    ShrIsDiv(Shr(delta, 8), 8, 0x100);
    LowBit(Shr(delta, 8), 8, b);
    ShrBit(delta, 8, b);
  }

  lemma ParityUndone(x: u8, a: u8, b: u8)
    ensures Xor8(Xor8(Xor8(Xor8(x, a), b), a), b) == x
  {
    XorAssociates(Xor(x, a), b, a);
    XorCommutes(b, a);
    XorAssociates(Xor(x, a), a, b);
    XorCancel(x, a);
    XorCancel(x, b);
  }
}
