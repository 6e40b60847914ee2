/**
 The 128-bit atom of the chained block store: 13 payload bytes, a ten-bit route and a two-bit
 check, all packed into two words.
 */
module BlockAtom {
  import opened Bits
  import opened Memory
  import opened Mixing

  const HALT_ROUTE: nat := 0x3FF
  const FREE_ROUTE: nat := 0x3FD
  const ENTRIES_PER_BLOCK: nat := 1024
  const PAYLOAD_BYTES_PER_HOP: nat := 13

  /** Bits 0 to 51 of hi are payload, bits 52 and 53 the check, bits 54 to 63 the route. */
  const CHECK_BIT: nat := 52
  const ROUTE_BIT: nat := 54

  lemma FieldSizes()
    ensures Pow2(10) == LENS_COUNT && Pow2(12) == 0x1000
    ensures Pow2(CHECK_BIT + 12) == TWO64 && Pow2(ROUTE_BIT + 10) == TWO64
  {
    Pow2Values();
    Pow2Add(8, 2);
    Pow2Add(8, 4);
  }

  // ---------------------------------------------------------------- bit fields

  function Route(v: Value128): (r: nat)
    ensures r < ENTRIES_PER_BLOCK
  {
    FieldSizes();
    SplitBits(v.hi, ROUTE_BIT, 10);
    Shr(v.hi, ROUTE_BIT)
  }

  function Crc(v: Value128): nat {
    Low(Shr(v.hi, CHECK_BIT), 2)
  }

  /** Route and check as quotients: bits 54 to 63 and bits 52 to 53 of hi. */
  lemma FieldsAre(v: Value128)
    ensures Route(v) == v.hi / 0x40_0000_0000_0000
    ensures Crc(v) == (v.hi / 0x10_0000_0000_0000) % 4
  {
    hide Pow2, Shr, Low;
    Pow2Values();
    Pow2Add(32, 16);
    Pow2Add(48, 4);
    Pow2Add(52, 2);
    ShrIsDiv(v.hi, ROUTE_BIT, 0x40_0000_0000_0000);
    ShrIsDiv(v.hi, CHECK_BIT, 0x10_0000_0000_0000);
    ShrIsDiv(Shr(v.hi, CHECK_BIT), 2, 4);
  }

  /** The cascade `fold ^= fold >> width` for width, width / 2, ..., 2; two bits remain. */
  function FoldDown(fold: nat, width: nat): (bits: nat)
    ensures bits < 4
    decreases width, fold
  {
    if width < 2 then fold % 4 else FoldDown(Xor(fold, Shr(fold, width)), width / 2)
  }

  function ComputeCrc(v: Value128): nat {
    FoldDown(Xor(Low(v.hi, CHECK_BIT), v.lo), 32)
  }

  predicate CrcValid(v: Value128) {
    Crc(v) == ComputeCrc(v)
  }

  /** A word put together from payload bits, check and route. */
  function Packed(payload: nat, check: nat, route: nat): u64
    requires payload < Pow2(CHECK_BIT) && check < 4 && route < LENS_COUNT
  {
    FieldSizes();
    JoinLess(payload, check + 4 * route, CHECK_BIT, 12);
    payload + Shl(check + 4 * route, CHECK_BIT)
  }

  lemma PackedFields(payload: nat, check: nat, route: nat)
    requires payload < Pow2(CHECK_BIT) && check < 4 && route < LENS_COUNT
    ensures Shr(Packed(payload, check, route), ROUTE_BIT) == route
    ensures Low(Shr(Packed(payload, check, route), CHECK_BIT), 2) == check
    ensures Low(Packed(payload, check, route), CHECK_BIT) == payload
  {
    hide Pow2, Shr, Low, Shl;
    var h, top := Packed(payload, check, route), check + 4 * route;
    JoinBits(payload, top, CHECK_BIT);
    ShrShr(h, CHECK_BIT, 2);
    Pow2Values();
    ShrIsDiv(top, 2, 4);
  }

  /** pack_route: clears the upper twelve bits, then sets the route and the check. */
  function PackRoute(v: Value128, r: u16): Value128 {
    ShrLow(v.hi, CHECK_BIT);
    var payload := Low(v.hi, CHECK_BIT);
    var routed := Value128(Packed(payload, 0, r % LENS_COUNT), v.lo);
    Value128(Packed(payload, ComputeCrc(routed), r % LENS_COUNT), v.lo)
  }

  lemma PackRouteFields(v: Value128, r: u16)
    ensures Route(PackRoute(v, r)) == r % LENS_COUNT
    ensures Low(PackRoute(v, r).hi, CHECK_BIT) == Low(v.hi, CHECK_BIT) && PackRoute(v, r).lo == v.lo
    ensures CrcValid(PackRoute(v, r))
  {
    ShrLow(v.hi, CHECK_BIT);
    var payload, route := Low(v.hi, CHECK_BIT), r % LENS_COUNT;
    var routed := Value128(Packed(payload, 0, route), v.lo);
    PackedFields(payload, 0, route);
    PackedFields(payload, ComputeCrc(routed), route);
  }

  // ---------------------------------------------------------------- the check is a linear code

  /** Exclusive or of the n lowest base-4 digits of x. */
  function DigitSum(x: nat, n: nat): nat
    decreases n, x
  {
    if n == 0 then 0 else Xor(x % 4, DigitSum(x / 4, n - 1))
  }

  lemma LowTwo(x: nat, y: nat)
    ensures Xor(x, y) % 4 == Xor(x % 4, y % 4) && Xor(x, y) / 4 == Xor(x / 4, y / 4)
  {
    XorSplit(x, y, 2);
    ShrIsDiv(x, 2, 4);
    ShrIsDiv(y, 2, 4);
    ShrIsDiv(Xor(x, y), 2, 4);
  }

  lemma {:induction false} DigitSumLinear(x: nat, y: nat, n: nat)
    ensures DigitSum(Xor(x, y), n) == Xor(DigitSum(x, n), DigitSum(y, n))
    decreases n
  {
    if n == 0 {
      XorZero(0);
    } else {
      LowTwo(x, y);
      DigitSumLinear(x / 4, y / 4, n - 1);
      XorSwap(x % 4, y % 4, DigitSum(x / 4, n - 1), DigitSum(y / 4, n - 1));
    }
  }

  lemma {:induction false} DigitSumSplit(x: nat, n: nat, m: nat)
    ensures DigitSum(x, n + m) == Xor(DigitSum(x, n), DigitSum(Shr(x, 2 * n), m))
    decreases n
  {
    if n == 0 {
      XorZero(DigitSum(x, m));
    } else {
      var head, tail := DigitSum(x / 4, n - 1), DigitSum(Shr(x / 4, 2 * (n - 1)), m);
      DigitSumSplit(x / 4, n - 1, m);
      ShrPairs(x, n);
      XorAssociates(x % 4, head, tail);
      assert DigitSum(x, n + m) == Xor(x % 4, DigitSum(x / 4, n - 1 + m));
    }
  }

  lemma ShrPairs(x: nat, n: nat)
    requires n > 0
    ensures Shr(x, 2 * n) == Shr(x / 4, 2 * (n - 1))
  {
    ShrShr(x, 2, 2 * (n - 1));
    ShrIsDiv(x, 2, 4);
  }

  /** One folding step halves the number of digits and keeps their sum. */
  lemma FoldStep(y: nat, n: nat)
    ensures DigitSum(Xor(y, Shr(y, 2 * n)), n) == DigitSum(y, n + n)
  {
    DigitSumLinear(y, Shr(y, 2 * n), n);
    DigitSumSplit(y, n, n);
  }

  /** One turn of the cascade keeps the digit sum of the bits it keeps. */
  lemma FoldTurn(fold: nat, n: nat) returns (next: nat)
    requires n > 0
    ensures FoldDown(fold, 2 * n) == FoldDown(next, n)
    ensures DigitSum(next, n) == DigitSum(fold, 2 * n)
  {
    next := Xor(fold, Shr(fold, 2 * n));
    FoldStep(fold, n);
  }

  /** The shift-and-xor cascade computes the sum of all base-4 digits of the payload. */
  lemma ComputeCrcIsDigitSum(v: Value128)
    ensures ComputeCrc(v) == DigitSum(Xor(Low(v.hi, CHECK_BIT), v.lo), 32)
  {
    var fold1 := FoldTurn(Xor(Low(v.hi, CHECK_BIT), v.lo), 16);
    var fold2 := FoldTurn(fold1, 8);
    var fold3 := FoldTurn(fold2, 4);
    var fold4 := FoldTurn(fold3, 2);
    var fold5 := FoldTurn(fold4, 1);
    OneDigit(fold5);
  }

  lemma OneDigit(x: nat)
    ensures DigitSum(x, 1) == x % 4 && FoldDown(x, 1) == x % 4
  {
    XorZero(x % 4);
    assert DigitSum(x / 4, 0) == 0;
  }

  function XorAtoms(v: Value128, w: Value128): Value128 {
    Value128(Xor64(v.hi, w.hi), Xor64(v.lo, w.lo))
  }

  /** The check of a sum of atoms is the sum of their checks. */
  lemma ComputeCrcLinear(v: Value128, w: Value128)
    ensures ComputeCrc(XorAtoms(v, w)) == Xor(ComputeCrc(v), ComputeCrc(w))
    ensures Crc(XorAtoms(v, w)) == Xor(Crc(v), Crc(w))
  {
    var p, q := Low(v.hi, CHECK_BIT), Low(w.hi, CHECK_BIT);
    var s, t := Shr(v.hi, CHECK_BIT), Shr(w.hi, CHECK_BIT);
    XorSplit(v.hi, w.hi, CHECK_BIT);
    XorSplit(s, t, 2);
    XorSwap(p, q, v.lo, w.lo);
    DigitSumLinear(Xor(p, v.lo), Xor(q, w.lo), 32);
    ComputeCrcIsDigitSum(v);
    ComputeCrcIsDigitSum(w);
    ComputeCrcIsDigitSum(XorAtoms(v, w));
  }

  /** Damage to a valid atom escapes the check exactly when the damage is itself a valid atom. */
  lemma DamageUndetected(v: Value128, damage: Value128)
    requires CrcValid(v)
    ensures CrcValid(XorAtoms(v, damage)) <==> CrcValid(damage)
  {
    ComputeCrcLinear(v, damage);
    var c, s, t := Crc(v), Crc(damage), ComputeCrc(damage);
    XorCommutes(c, s);
    XorCommutes(c, t);
    if Xor(c, s) == Xor(c, t) {
      XorInjective(s, t, c);
    }
  }

  lemma {:induction false} SingleBitDigitSum(b: nat, n: nat)
    requires b < 2 * n
    ensures DigitSum(Pow2(b), n) != 0
    decreases n
  {
    if b < 2 {
      assert Pow2(b) == 1 || Pow2(b) == 2;
      ZeroDigits(n - 1);
      XorZero(Pow2(b));
    } else {
      var p := Pow2(b - 2);
      assert Pow2(b) == 4 * p;
      SingleBitDigitSum(b - 2, n - 1);
      XorZero(DigitSum(p, n - 1));
    }
  }

  lemma {:induction false} ZeroDigits(n: nat)
    ensures DigitSum(0, n) == 0
    decreases n
  {
    if n > 0 {
      ZeroDigits(n - 1);
      XorZero(0);
    }
  }

  /** The error pattern that flips one payload bit. */
  function Flip(b: nat, inHi: bool): Value128
    requires b < if inHi then 52 else 64
  {
    Pow2Values();
    Pow2Less(b, 64);
    if inHi then Value128(Pow2(b), 0) else Value128(0, Pow2(b))
  }

  lemma FlipInvalid(b: nat, inHi: bool)
    requires b < if inHi then 52 else 64
    ensures !CrcValid(Flip(b, inHi))
  {
    var flip := Flip(b, inHi);
    if inHi {
      Pow2Less(b, CHECK_BIT);
    }
    JoinBits(flip.hi, 0, CHECK_BIT);
    ShlIsMul(0, CHECK_BIT);
    XorZero(Pow2(b));
    ComputeCrcIsDigitSum(flip);
    SingleBitDigitSum(b, 32);
  }

  /** Flipping any one of the 116 payload bits is noticed, whatever the atom holds. */
  lemma SingleFlipDetected(v: Value128, b: nat, inHi: bool)
    requires CrcValid(v)
    requires b < if inHi then 52 else 64
    ensures !CrcValid(XorAtoms(v, Flip(b, inHi)))
  {
    DamageUndetected(v, Flip(b, inHi));
    FlipInvalid(b, inHi);
  }

  lemma {:induction false} Pow2Less(b: nat, k: nat)
    requires b < k
    ensures Pow2(b) < Pow2(k)
    decreases k
  {
    if b < k - 1 {
      Pow2Less(b, k - 1);
    }
  }

  // ---------------------------------------------------------------- payload

  /** The 13 payload bytes: eight from lo, then five from hi. */
  function Payload(v: Value128): (p: seq<u8>)
    ensures |p| == PAYLOAD_BYTES_PER_HOP
  {
    LeBytes(v.lo, 8) + LeBytes(v.hi, 5)
  }

  /** Payload byte i is byte i of lo, or byte i - 8 of hi. */
  lemma PayloadAt(v: Value128, i: nat)
    requires i < 13
    ensures Payload(v)[i] == if i < 8 then Shr(v.lo, 8 * i) % 0x100 else Shr(v.hi, 8 * (i - 8)) % 0x100
  {
    hide LeBytes, Shr;
    if i < 8 {
      LeBytesAt(v.lo, 8, i);
    } else {
      LeBytesAt(v.hi, 5, i - 8);
    }
  }

  /** get_payload: the first maxBytes payload bytes. */
  method GetPayload(v: Value128, maxBytes: nat) returns (out: seq<u8>)
    ensures out == Payload(v)[..if maxBytes < 13 then maxBytes else 13]
  {
    out := [];
    var i := 0;
    while i < 8 && |out| < maxBytes
      invariant i == |out| <= 8 && |out| <= maxBytes
      invariant out == Payload(v)[..|out|]
    {
      LeBytesAt(v.lo, 8, i);
      out := out + [Shr(v.lo, 8 * i) % 0x100];
      i := i + 1;
    }
    i := 0;
    while i < 5 && |out| < maxBytes
      invariant i <= 5 && |out| <= maxBytes
      invariant |out| == (if maxBytes < 8 then maxBytes else 8) + i
      invariant out == Payload(v)[..|out|]
    {
      LeBytesAt(v.hi, 5, i);
      out := out + [Shr(v.hi, 8 * i) % 0x100];
      i := i + 1;
    }
  }

  lemma {:induction false} FromLeAppend(b: seq<u8>, x: u8)
    ensures FromLe(b + [x]) == FromLe(b) + x * Pow2(8 * |b|)
  {
    if |b| == 0 {
      assert (b + [x])[1..] == [];
      assert [x][1..] == [];
    } else {
      assert (b + [x])[1..] == b[1..] + [x];
      FromLeAppend(b[1..], x);
      Pow2Step(|b[1..]|);
      Scale(x, Pow2(8 * |b[1..]|));
    }
  }

  lemma {:induction false} FromLePadded(b: seq<u8>, n: nat)
    ensures FromLe(b + Zeros(n)) == FromLe(b)
    decreases n, |b|
  {
    if |b| > 0 {
      assert (b + Zeros(n))[1..] == b[1..] + Zeros(n);
      FromLePadded(b[1..], n);
    } else if n > 0 {
      assert b + Zeros(n) == Zeros(n);
      assert Zeros(n)[1..] == b + Zeros(n - 1);
      FromLePadded(b, n - 1);
    } else {
      assert b + Zeros(0) == b;
    }
  }

  /** An atom whose payload is data padded with zero bytes; the upper twelve bits of hi stay. */
  function SetPayload(v: Value128, data: seq<u8>): Value128
    requires |data| <= PAYLOAD_BYTES_PER_HOP
  {
    var p := PadTo(data, PAYLOAD_BYTES_PER_HOP);
    FiveBytes(p[8..]);
    EightBytes(p[..8]);
    SplitBits(v.hi, CHECK_BIT, 12);
    FieldSizes();
    JoinLess(FromLe(p[8..]), Shr(v.hi, CHECK_BIT), CHECK_BIT, 12);
    Value128(FromLe(p[8..]) + Shl(Shr(v.hi, CHECK_BIT), CHECK_BIT), FromLe(p[..8]))
  }

  lemma EightBytes(b: seq<u8>)
    requires |b| == 8
    ensures FromLe(b) < TWO64
  {
    FromLeBound(b);
    Pow2Values();
  }

  lemma FiveBytes(b: seq<u8>)
    requires |b| == 5
    ensures FromLe(b) < Pow2(CHECK_BIT)
  {
    FromLeBound(b);
    Pow2Monotone(40, CHECK_BIT);
  }

  lemma SetPayloadFields(v: Value128, data: seq<u8>)
    requires |data| <= PAYLOAD_BYTES_PER_HOP
    ensures Payload(SetPayload(v, data)) == PadTo(data, PAYLOAD_BYTES_PER_HOP)
    ensures Shr(SetPayload(v, data).hi, CHECK_BIT) == Shr(v.hi, CHECK_BIT)
  {
    hide FromLe, LeBytes, Shr, Low, Shl;
    var p := PadTo(data, PAYLOAD_BYTES_PER_HOP);
    FiveBytes(p[8..]);
    EightBytes(p[..8]);
    LeBytesOfFromLe(p[..8]);
    LeBytesOfFromLe(p[8..]);
    var low, top := FromLe(p[8..]), Shr(v.hi, CHECK_BIT);
    JoinBits(low, top, CHECK_BIT);
    LeBytesOfLow(low + Shl(top, CHECK_BIT), 5, CHECK_BIT);
    assert p == p[..8] + p[8..];
  }

  /** pack_route leaves the payload bytes alone. */
  lemma PackRoutePayload(v: Value128, r: u16)
    ensures Payload(PackRoute(v, r)) == Payload(v)
  {
    PackRouteFields(v, r);
    LeBytesOfLow(v.hi, 5, CHECK_BIT);
    LeBytesOfLow(PackRoute(v, r).hi, 5, CHECK_BIT);
  }

  /** `word |= (uint64_t)x << (8 * n)` appends byte x to the n bytes gathered so far. */
  lemma GatherByte(b: seq<u8>, x: u8)
    ensures Or(FromLe(b), Shl(x, 8 * |b|)) == FromLe(b + [x])
  {
    hide Or, Shl, Pow2, FromLe;
    FromLeBound(b);
    ShlIsMul(x, 8 * |b|);
    OrShifted(FromLe(b), x, 8 * |b|);
    FromLeAppend(b, x);
  }

  lemma GatheredWords(data: seq<u8>, split: nat)
    requires |data| <= PAYLOAD_BYTES_PER_HOP
    requires split == if |data| < 8 then |data| else 8
    ensures FromLe(PadTo(data, PAYLOAD_BYTES_PER_HOP)[..8]) == FromLe(data[..split])
    ensures FromLe(PadTo(data, PAYLOAD_BYTES_PER_HOP)[8..]) == FromLe(data[split..])
  {
    hide FromLe;
    var p := PadTo(data, PAYLOAD_BYTES_PER_HOP);
    assert p[..8] == data[..split] + Zeros(8 - split);
    assert p[8..] == data[split..] + Zeros(5 - (|data| - split));
    FromLePadded(data[..split], 8 - split);
    FromLePadded(data[split..], 5 - (|data| - split));
  }

  /** What fits one atom. */
  function FirstHop(data: seq<u8>): (d: seq<u8>)
    ensures |d| <= PAYLOAD_BYTES_PER_HOP
  {
    if |data| <= PAYLOAD_BYTES_PER_HOP then data else data[..PAYLOAD_BYTES_PER_HOP]
  }

  /** One of the two loops of set_payload: gathers up to limit bytes from pos on. */
  method Gather(data: seq<u8>, pos: nat, limit: nat) returns (word: nat, next: nat)
    requires pos <= |data|
    ensures next == (if |data| - pos < limit then |data| else pos + limit)
    ensures word == FromLe(data[pos..next])
  {
    hide FromLe;
    GatherNothing(data, pos);
    word, next := 0, pos;
    var i := 0;
    while i < limit && next < |data|
      invariant next == pos + i <= |data| && i <= limit
      invariant word == FromLe(data[pos..next])
      decreases limit - i
    {
      GatherByte(data[pos..next], data[next]);
      assert data[pos..next + 1] == data[pos..next] + [data[next]];
      word := Or(word, Shl(data[next], i * 8));
      next := next + 1;
      i := i + 1;
    }
  }

  lemma GatherNothing(data: seq<u8>, pos: nat)
    requires pos <= |data|
    ensures FromLe(data[pos..pos]) == 0
  {
  }

  /** The gathered words and the kept top bits are the atom that holds the data. */
  lemma GatheredAtom(v: Value128, data: seq<u8>, split: nat, end: nat)
    requires split == if |data| < 8 then |data| else 8
    requires end == if |data| - split < 5 then |data| else split + 5
    ensures SetPayload(v, FirstHop(data)).lo == FromLe(data[..split])
    ensures SetPayload(v, FirstHop(data)).hi
         == Or(FromLe(data[split..end]), Shl(Shr(v.hi, CHECK_BIT), CHECK_BIT))
  {
    hide FromLe, Or, Shl, Shr, Pow2;
    var d, top := FirstHop(data), Shr(v.hi, CHECK_BIT);
    assert d[..split] == data[..split] && d[split..] == data[split..end];
    GatheredWords(d, split);
    FiveBytes(PadTo(d, PAYLOAD_BYTES_PER_HOP)[8..]);
    ShlIsMul(top, CHECK_BIT);
    OrShifted(FromLe(d[split..]), top, CHECK_BIT);
  }

  /** set_payload: the two gathering loops; more than 13 bytes are ignored, the top bits stay. */
  method StorePayload(v: Value128, data: seq<u8>) returns (w: Value128)
    ensures w == SetPayload(v, FirstHop(data))
    ensures Payload(w) == PadTo(FirstHop(data), PAYLOAD_BYTES_PER_HOP)
    ensures Shr(w.hi, CHECK_BIT) == Shr(v.hi, CHECK_BIT)
  {
    hide FromLe, Or, Shl, Shr, SetPayload;
    var topBits := Shl(Shr(v.hi, CHECK_BIT), CHECK_BIT);
    var lo, pos := Gather(data, 0, 8);
    var hi, end := Gather(data, pos, 5);
    assert data[0..pos] == data[..pos];
    GatheredAtom(v, data, pos, end);
    SetPayloadFields(v, FirstHop(data));
    w := Value128(Or(hi, topBits), lo);
  }
}
