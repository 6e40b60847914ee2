/**
 The 64-bit mixing steps that derive lens keys, keystreams and contexts. Each is a two-word
 Feistel-like step: a word is rotated and combined with a product of the other word.
 */
module Mixing {
  import opened Bits

  const PHI_HI: u64 := 0x9E3779B97F4A7C15
  const PHI_LO: u64 := 0x517CC1B727220A95

  /** A pair of 64-bit words: a seed, a lens key, a keystream state or an atom. */
  datatype Value128 = Value128(hi: u64, lo: u64)

  // ---------------------------------------------------------------- the common step

  /** Rotate hi by a and fold in lo, then rotate lo by b and fold in the new hi. */
  function Stir(s: Value128, a: nat, b: nat): Value128
    requires 0 < a < 64 && 0 < b < 64
  {
    var hi := Xor64(Rotl64(s.hi, a), Mul64(s.lo, PHI_HI));
    Value128(hi, Xor64(Rotl64(s.lo, b), Mul64(hi, PHI_LO)))
  }

  /**
   The step, bit by bit: each bit of the new hi is the rotated bit of the old hi plus the bit of a
   product of lo, each bit of the new lo the rotated bit of the old lo plus that of a product of
   the new hi.
   */
  lemma StirBits(s: Value128, a: nat, b: nat, i: nat)
    requires 0 < a < 64 && 0 < b < 64 && i < 64
    ensures BitAt(Stir(s, a, b).hi, i)
         == (BitAt(s.hi, (i + 64 - a) % 64)
             + BitAt((s.lo * 0x9E37_79B9_7F4A_7C15) % 0x1_0000_0000_0000_0000, i)) % 2
    ensures BitAt(Stir(s, a, b).lo, i)
         == (BitAt(s.lo, (i + 64 - b) % 64)
             + BitAt((Stir(s, a, b).hi * 0x517C_C1B7_2722_0A95) % 0x1_0000_0000_0000_0000, i)) % 2
  {
    hide BitAt, Xor, Rotl64;
    var hi := Stir(s, a, b).hi;
    Rotl64Bit(s.hi, a, i);
    Rotl64Bit(s.lo, b, i);
    XorBit(Rotl64(s.hi, a), Mul64(s.lo, PHI_HI), i);
    XorBit(Rotl64(s.lo, b), Mul64(hi, PHI_LO), i);
  }

  function Unstir(s: Value128, a: nat, b: nat): Value128
    requires 0 < a < 64 && 0 < b < 64
  {
    var lo := Rotl64(Xor64(s.lo, Mul64(s.hi, PHI_LO)), 64 - b);
    Value128(Rotl64(Xor64(s.hi, Mul64(lo, PHI_HI)), 64 - a), lo)
  }

  lemma UnstirStir(s: Value128, a: nat, b: nat)
    requires 0 < a < 64 && 0 < b < 64
    ensures Unstir(Stir(s, a, b), a, b) == s
  {
    var t := Stir(s, a, b);
    XorCancel(Rotl64(s.lo, b), Mul64(t.hi, PHI_LO));
    Rotl64Back(s.lo, b);
    XorCancel(Rotl64(s.hi, a), Mul64(s.lo, PHI_HI));
    Rotl64Back(s.hi, a);
  }

  lemma StirUnstir(t: Value128, a: nat, b: nat)
    requires 0 < a < 64 && 0 < b < 64
    ensures Stir(Unstir(t, a, b), a, b) == t
  {
    var s := Unstir(t, a, b);
    var q, p := Xor64(t.hi, Mul64(s.lo, PHI_HI)), Xor64(t.lo, Mul64(t.hi, PHI_LO));
    Rotl64Back(q, 64 - a);
    XorCancel(t.hi, Mul64(s.lo, PHI_HI));
    Rotl64Back(p, 64 - b);
    XorCancel(t.lo, Mul64(t.hi, PHI_LO));
  }

  lemma StirInjective(s: Value128, t: Value128, a: nat, b: nat)
    requires 0 < a < 64 && 0 < b < 64
    requires Stir(s, a, b) == Stir(t, a, b)
    ensures s == t
  {
    UnstirStir(s, a, b);
    UnstirStir(t, a, b);
  }

  /** n stirring steps. */
  function Stirred(s: Value128, a: nat, b: nat, n: nat): Value128
    requires 0 < a < 64 && 0 < b < 64
    decreases n, s
  {
    if n == 0 then s else Stir(Stirred(s, a, b, n - 1), a, b)
  }

  function Unstirred(s: Value128, a: nat, b: nat, n: nat): Value128
    requires 0 < a < 64 && 0 < b < 64
    decreases n
  {
    if n == 0 then s else Unstirred(Unstir(s, a, b), a, b, n - 1)
  }

  lemma {:induction false} UnstirredStirred(s: Value128, a: nat, b: nat, n: nat)
    requires 0 < a < 64 && 0 < b < 64
    ensures Unstirred(Stirred(s, a, b, n), a, b, n) == s
    decreases n
  {
    if n > 0 {
      UnstirStir(Stirred(s, a, b, n - 1), a, b);
      UnstirredStirred(s, a, b, n - 1);
    }
  }

  lemma {:induction false} StirredUnstirred(s: Value128, a: nat, b: nat, n: nat)
    requires 0 < a < 64 && 0 < b < 64
    ensures Stirred(Unstirred(s, a, b, n), a, b, n) == s
    decreases n
  {
    if n > 0 {
      StirredUnstirred(Unstir(s, a, b), a, b, n - 1);
      StirUnstir(s, a, b);
    }
  }

  /** Any number of steps has a two-sided inverse, so stirring permutes the 128-bit states. */
  lemma StirredBijective(s: Value128, a: nat, b: nat, n: nat)
    requires 0 < a < 64 && 0 < b < 64
    ensures Unstirred(Stirred(s, a, b, n), a, b, n) == s
    ensures Stirred(Unstirred(s, a, b, n), a, b, n) == s
  {
    UnstirredStirred(s, a, b, n);
    StirredUnstirred(s, a, b, n);
  }

  /** The step shared by block expansion, the image keystream and the noise generator. */
  method StreamStep(s: Value128) returns (t: Value128)
    ensures t == Stir(s, 13, 17)
  {
    var sh, sl := s.hi, s.lo;
    sh := Xor64(Rotl64(sh, 13), Mul64(sl, PHI_HI));
    sl := Xor64(Rotl64(sl, 17), Mul64(sh, PHI_LO));
    t := Value128(sh, sl);
  }

  // ---------------------------------------------------------------- key derivation

  const KDF_ROUNDS: nat := 250000

  /** The final compression loop of the key derivation. */
  method FinalCompression(sHi: u64, sLo: u64) returns (key: Value128)
    ensures key == Stirred(Value128(sHi, sLo), 31, 29, 250_000)
  {
    var hi, lo := sHi, sLo;
    for r := 0 to KDF_ROUNDS
      invariant Value128(hi, lo) == Stirred(Value128(sHi, sLo), 31, 29, r)
    {
      hi := Xor64(Rotl64(hi, 31), Mul64(lo, PHI_HI));
      lo := Xor64(Rotl64(lo, 29), Mul64(hi, PHI_LO));
    }
    key := Value128(hi, lo);
  }

  /** The 250000 final rounds lose nothing of the state they compress. */
  lemma FinalRoundsInjective(s: Value128, t: Value128)
    ensures Stirred(s, 31, 29, 250_000) == Stirred(t, 31, 29, 250_000) <==> s == t
  {
    StirredBijective(s, 31, 29, KDF_ROUNDS);
    StirredBijective(t, 31, 29, KDF_ROUNDS);
  }

  // ---------------------------------------------------------------- lens keys

  const LENS_COUNT: nat := 1024
  const LENS_ROUNDS: nat := 64

  /** One round for lens i; after the step the lens index is added to hi. */
  function LensRound(m: Value128, i: u64): Value128 {
    var t := Stir(m, 7, 11);
    Value128(Add64(t.hi, i), t.lo)
  }

  function LensStart(master: Value128, i: nat): Value128
    requires i < LENS_COUNT
  {
    Value128(Xor64(master.hi, i), Xor64(master.lo, i * TWO32))
  }

  function LensRounds(m: Value128, i: u64, n: nat): Value128
    decreases n, m
  {
    if n == 0 then m else LensRound(LensRounds(m, i, n - 1), i)
  }

  function LensKey(master: Value128, i: nat): Value128
    requires i < LENS_COUNT
  {
    LensRounds(LensStart(master, i), i, LENS_ROUNDS)
  }

  /** A lens key from its ingredients: the index goes into both words, then 64 rounds follow. */
  lemma LensKeyIs(master: Value128, i: nat)
    requires i < 1024
    ensures LensKey(master, i) == LensRounds(Value128(Xor(master.hi, i), Xor(master.lo, i * 0x1_0000_0000)), i, 64)
  {
    hide LensRounds;
  }

  /** A round is a step with rotations 7 and 11 after which hi grows by the index modulo 2^64. */
  lemma LensRoundsNext(m: Value128, i: u64, n: nat)
    requires n > 0
    ensures LensRounds(m, i, 0) == m
    ensures LensRounds(m, i, n).lo == Stir(LensRounds(m, i, n - 1), 7, 11).lo
    ensures LensRounds(m, i, n).hi == (Stir(LensRounds(m, i, n - 1), 7, 11).hi + i) % 0x1_0000_0000_0000_0000
  {
    hide Stir;
  }

  function LensKeys(master: Value128): (keys: seq<Value128>)
    ensures |keys| == LENS_COUNT
  {
    seq(LENS_COUNT, i requires 0 <= i < LENS_COUNT => LensKey(master, i))
  }

  /** The inner loop of LensGenerator::generate. */
  method MixLens(master: Value128, i: nat) returns (key: Value128)
    requires i < LENS_COUNT
    ensures key == LensKey(master, i)
  {
    var mixHi, mixLo := Xor64(master.hi, i), Xor64(master.lo, i * TWO32);
    for r := 0 to LENS_ROUNDS
      invariant Value128(mixHi, mixLo) == LensRounds(LensStart(master, i), i, r)
    {
      mixHi := Xor64(Rotl64(mixHi, 7), Mul64(mixLo, PHI_HI));
      mixLo := Xor64(Rotl64(mixLo, 11), Mul64(mixHi, PHI_LO));
      mixHi := Add64(mixHi, i);
    }
    key := Value128(mixHi, mixLo);
  }

  /** LensGenerator::generate: fills the table of lens keys in place. */
  method GenerateLensKeys(master: Value128, keys: array<Value128>)
    requires keys.Length == LENS_COUNT
    modifies keys
    ensures keys[..] == LensKeys(master)
  {
    ghost var all := LensKeys(master);
    for i := 0 to LENS_COUNT
      invariant keys[..i] == all[..i]
    {
      keys[i] := MixLens(master, i);
    }
  }

  lemma AddInjective(x: u64, y: u64, i: u64)
    requires Add64(x, i) == Add64(y, i)
    ensures x == y
  {
    var p, q := (x + i) / TWO64, (y + i) / TWO64;
    assert x - y == (p - q) * TWO64;
  }

  lemma XorInjective(x: nat, y: nat, p: nat)
    requires Xor(x, p) == Xor(y, p)
    ensures x == y
  {
    XorCancel(x, p);
    XorCancel(y, p);
  }

  lemma {:induction false} LensRoundsInjective(s: Value128, t: Value128, i: u64, n: nat)
    requires LensRounds(s, i, n) == LensRounds(t, i, n)
    ensures s == t
    decreases n
  {
    if n > 0 {
      var p, q := LensRounds(s, i, n - 1), LensRounds(t, i, n - 1);
      AddInjective(Stir(p, 7, 11).hi, Stir(q, 7, 11).hi, i);
      StirInjective(p, q, 7, 11);
      LensRoundsInjective(s, t, i, n - 1);
    }
  }

  /** For each lens, different master seeds give different keys. */
  lemma LensKeyInjective(s: Value128, t: Value128, i: nat)
    requires i < LENS_COUNT
    ensures LensKey(s, i) == LensKey(t, i) <==> s == t
  {
    if LensKey(s, i) == LensKey(t, i) {
      LensRoundsInjective(LensStart(s, i), LensStart(t, i), i, LENS_ROUNDS);
      XorInjective(s.hi, t.hi, i);
      XorInjective(s.lo, t.lo, i * TWO32);
    }
  }
}
