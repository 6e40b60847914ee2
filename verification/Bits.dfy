/**
 Machine words as bounded naturals. Shifts and masks are written with `/`, `%` and powers of
 two; the bitwise operators recurse on the binary digits of their arguments, so that proofs
 about words stay inside integer arithmetic.
 */
module Bits {

  const TWO32: nat := 0x1_0000_0000
  const TWO64: nat := 0x1_0000_0000_0000_0000

  type u8 = x: nat | x < 0x100
  type u16 = x: nat | x < 0x1_0000
  type u32 = x: nat | x < 0x1_0000_0000
  type u64 = x: nat | x < 0x1_0000_0000_0000_0000

  // ---------------------------------------------------------------- powers of two

  function Pow2(k: nat): (p: nat)
    ensures p > 0
  {
    if k == 0 then 1 else 2 * Pow2(k - 1)
  }

  /** Unfolding the definition once. */
  lemma Pow2Next(k: nat)
    requires k > 0
    ensures Pow2(k) == 2 * Pow2(k - 1)
  {
  }

  lemma DoubledLeft(p: nat, q: nat)
    ensures (2 * p) * q == 2 * (p * q)
  {
  }

  lemma {:induction false} Pow2Add(a: nat, b: nat)
    ensures Pow2(a + b) == Pow2(a) * Pow2(b)
  {
    if a > 0 {
      hide Pow2;
      Pow2Add(a - 1, b);
      Pow2Next(a + b);
      Pow2Next(a);
      DoubledLeft(Pow2(a - 1), Pow2(b));
    }
  }

  lemma Pow2Square(k: nat, p: nat)
    requires Pow2(k) == p
    ensures Pow2(2 * k) == p * p
  {
    Pow2Add(k, k);
  }

  lemma Pow2Values()
    ensures Pow2(1) == 2 && Pow2(2) == 4 && Pow2(4) == 16 && Pow2(8) == 0x100
    ensures Pow2(16) == 0x1_0000 && Pow2(32) == TWO32 && Pow2(64) == TWO64
  {
    assert Pow2(1) == 2;
    Pow2Square(1, 2);
    Pow2Square(2, 4);
    Pow2Square(4, 16);
    Pow2Square(8, 0x100);
    Pow2Square(16, 0x1_0000);
    Pow2Square(32, TWO32);
  }

  lemma {:induction false} Pow2Monotone(a: nat, b: nat)
    requires a <= b
    ensures Pow2(a) <= Pow2(b)
    decreases b
  {
    if a < b {
      Pow2Monotone(a, b - 1);
    }
  }

  // ---------------------------------------------------------------- division facts

  lemma MulMonotone(a: nat, b: nat, c: nat)
    requires a <= b
    ensures a * c <= b * c
  {
    assert (b - a) * c == b * c - a * c;
  }

  /** A quotient and remainder that fit are the quotient and remainder. */
  lemma DivModUnique(x: nat, d: nat, q: nat, r: nat)
    requires r < d && x == q * d + r
    ensures x / d == q && x % d == r
  {
    var p := x / d;
    assert p * d + x % d == x;
    if p < q {
      MulMonotone(p + 1, q, d);
    }
    if q < p {
      MulMonotone(q + 1, p, d);
    }
  }

  // ---------------------------------------------------------------- shifts and masks

  /** `x >> k` */
  function Shr(x: nat, k: nat): nat
    decreases k, x
  {
    if k == 0 then x else Shr(x / 2, k - 1)
  }

  /** The k lowest bits of x. */
  function Low(x: nat, k: nat): nat
    decreases k, x
  {
    if k == 0 then 0 else x % 2 + 2 * Low(x / 2, k - 1)
  }

  lemma {:induction false} ShrLow(x: nat, k: nat)
    ensures x == Shr(x, k) * Pow2(k) + Low(x, k) && Low(x, k) < Pow2(k)
    decreases k
  {
    if k > 0 {
      hide Pow2;
      ShrLow(x / 2, k - 1);
      Pow2Next(k);
      Doubled(Shr(x / 2, k - 1), Pow2(k - 1));
    }
  }

  /** Shifting and masking are division and remainder by the power of two. */
  lemma ShrIsDiv(x: nat, k: nat, d: nat)
    requires d == Pow2(k)
    ensures Shr(x, k) == x / d && Low(x, k) == x % d
  {
    ShrLow(x, k);
    DivModUnique(x, d, Shr(x, k), Low(x, k));
  }

  lemma {:induction false} ShrAtMost(x: nat, k: nat)
    ensures Shr(x, k) <= x
    decreases k
  {
    if k > 0 {
      ShrAtMost(x / 2, k - 1);
    }
  }

  /** `x << k`, not cut off. */
  function Shl(x: nat, k: nat): nat
    decreases k, x
  {
    if k == 0 then x else 2 * Shl(x, k - 1)
  }

  lemma {:induction false} ShlIsMul(x: nat, k: nat)
    ensures Shl(x, k) == x * Pow2(k)
    decreases k
  {
    if k > 0 {
      hide Pow2;
      ShlIsMul(x, k - 1);
      Pow2Next(k);
      Doubled(x, Pow2(k - 1));
    }
  }

  /** A value below bit k and one above it can be told apart again. */
  lemma JoinBits(low: nat, high: nat, k: nat)
    requires low < Pow2(k)
    ensures Shr(low + Shl(high, k), k) == high && Low(low + Shl(high, k), k) == low
  {
    var p, x := Pow2(k), low + Shl(high, k);
    ShlIsMul(high, k);
    DivModUnique(x, p, high, low);
    ShrIsDiv(x, k, p);
  }

  /** A value below 2^(j+k) splits into a part below 2^j and one below 2^k, and back. */
  lemma SplitBits(x: nat, j: nat, k: nat)
    ensures x == Low(x, j) + Shl(Shr(x, j), j) && Low(x, j) < Pow2(j)
    ensures x < Pow2(j + k) ==> Shr(x, j) < Pow2(k)
  {
    ShrLow(x, j);
    ShlIsMul(Shr(x, j), j);
    Pow2Add(j, k);
    var p, q, h := Pow2(j), Pow2(k), Shr(x, j);
    if h >= q {
      MulMonotone(q, h, p);
    }
  }

  /** A value below 2^j joined with one below 2^k stays below 2^(j+k). */
  lemma JoinLess(low: nat, high: nat, j: nat, k: nat)
    requires low < Pow2(j) && high < Pow2(k)
    ensures low + Shl(high, j) < Pow2(j + k)
  {
    ShlIsMul(high, j);
    Pow2Add(j, k);
    MulMonotone(high + 1, Pow2(k), Pow2(j));
  }

  lemma {:induction false} ShrShr(x: nat, j: nat, k: nat)
    ensures Shr(x, j + k) == Shr(Shr(x, j), k)
    decreases j
  {
    if j > 0 {
      ShrShr(x / 2, j - 1, k);
    }
  }

  // ---------------------------------------------------------------- bitwise operators

  /** Exclusive or of the two lowest bits. */
  function Bit(a: nat, b: nat): nat {
    if a % 2 == b % 2 then 0 else 1
  }

  function Xor(a: nat, b: nat): nat {
    if a == 0 && b == 0 then 0 else Bit(a, b) + 2 * Xor(a / 2, b / 2)
  }

  function And(a: nat, b: nat): nat {
    if a == 0 || b == 0 then 0
    else (if a % 2 == 1 && b % 2 == 1 then 1 else 0) + 2 * And(a / 2, b / 2)
  }

  function Or(a: nat, b: nat): nat {
    if a == 0 && b == 0 then 0
    else (if a % 2 == 1 || b % 2 == 1 then 1 else 0) + 2 * Or(a / 2, b / 2)
  }

  lemma Half(x: nat, bit: nat, rest: nat)
    requires bit < 2 && x == bit + 2 * rest
    ensures x % 2 == bit && x / 2 == rest
  {
  }

  lemma XorStep(a: nat, b: nat)
    ensures Xor(a, b) % 2 == Bit(a, b)
    ensures Xor(a, b) / 2 == Xor(a / 2, b / 2)
  {
    Half(Xor(a, b), Bit(a, b), Xor(a / 2, b / 2));
  }

  /** Two numbers with the same lowest bit and the same rest are equal. */
  lemma BitSplit(x: nat, y: nat)
    requires x % 2 == y % 2 && x / 2 == y / 2
    ensures x == y
  {
  }

  lemma {:induction false} XorLess(a: nat, b: nat, k: nat)
    requires a < Pow2(k) && b < Pow2(k)
    ensures Xor(a, b) < Pow2(k)
  {
    if k > 0 {
      XorLess(a / 2, b / 2, k - 1);
      XorStep(a, b);
    }
  }

  lemma {:induction false} AndLess(a: nat, b: nat, k: nat)
    requires a < Pow2(k)
    ensures And(a, b) < Pow2(k)
  {
    if a != 0 && b != 0 {
      AndLess(a / 2, b / 2, k - 1);
    }
  }

  lemma {:induction false} XorCommutes(a: nat, b: nat)
    ensures Xor(a, b) == Xor(b, a)
    decreases a + b
  {
    if a != 0 || b != 0 {
      XorCommutes(a / 2, b / 2);
    }
  }

  lemma {:induction false} XorZero(a: nat)
    ensures Xor(a, 0) == a && Xor(0, a) == a && Xor(a, a) == 0
  {
    if a != 0 {
      XorZero(a / 2);
    }
  }

  lemma {:induction false} XorAssociates(a: nat, b: nat, c: nat)
    ensures Xor(Xor(a, b), c) == Xor(a, Xor(b, c))
    decreases a + b + c
  {
    if a == 0 && b == 0 && c == 0 {
    } else {
      XorAssociates(a / 2, b / 2, c / 2);
      var ab, bc := Xor(a, b), Xor(b, c);
      XorStep(a, b);
      XorStep(b, c);
      XorStep(ab, c);
      XorStep(a, bc);
      BitSplit(Xor(ab, c), Xor(a, bc));
    }
  }

  lemma XorCancel(a: nat, b: nat)
    ensures Xor(Xor(a, b), b) == a
  {
    XorAssociates(a, b, b);
    XorZero(a);
    XorZero(b);
  }

  /** (a ^ b) ^ (c ^ d) == (a ^ c) ^ (b ^ d) */
  lemma XorSwap(a: nat, b: nat, c: nat, d: nat)
    ensures Xor(Xor(a, b), Xor(c, d)) == Xor(Xor(a, c), Xor(b, d))
  {
    XorAssociates(a, b, Xor(c, d));
    XorAssociates(b, c, d);
    XorCommutes(b, c);
    XorAssociates(c, b, d);
    XorAssociates(a, c, Xor(b, d));
  }

  /** Exclusive or works on the low k bits and on the rest separately. */
  lemma {:induction false} XorSplit(a: nat, b: nat, k: nat)
    ensures Low(Xor(a, b), k) == Xor(Low(a, k), Low(b, k))
    ensures Shr(Xor(a, b), k) == Xor(Shr(a, k), Shr(b, k))
    decreases k
  {
    if k == 0 {
      XorZero(0);
    } else {
      XorSplit(a / 2, b / 2, k - 1);
      XorStep(a, b);
      var c, d := Low(a, k), Low(b, k);
      XorStep(c, d);
      Half(c, a % 2, Low(a / 2, k - 1));
      Half(d, b % 2, Low(b / 2, k - 1));
      BitSplit(Low(Xor(a, b), k), Xor(c, d));
    }
  }

  lemma {:induction false} OrZero(a: nat)
    ensures Or(0, a) == a && Or(a, 0) == a
  {
    if a != 0 {
      OrZero(a / 2);
    }
  }

  /** Where no bit is set on both sides, `|` is addition. */
  lemma {:induction false} OrShifted(low: nat, high: nat, k: nat)
    requires low < Pow2(k)
    ensures Or(low, high * Pow2(k)) == low + high * Pow2(k)
    decreases k
  {
    if k == 0 {
      OrZero(high);
    } else {
      var p := Pow2(k - 1);
      OrShifted(low / 2, high, k - 1);
      Doubled(high, p);
      OrEven(low, high * p);
    }
  }

  lemma Doubled(h: nat, p: nat)
    ensures h * (2 * p) == 2 * (h * p)
  {
  }

  lemma OrEven(low: nat, h: nat)
    requires Or(low / 2, h) == low / 2 + h
    ensures Or(low, 2 * h) == low + 2 * h
  {
  }

  lemma {:induction false} OrCommutes(a: nat, b: nat)
    ensures Or(a, b) == Or(b, a)
    decreases a, b
  {
    if a != 0 && b != 0 {
      OrCommutes(a / 2, b / 2);
    } else {
      OrZero(a);
      OrZero(b);
    }
  }

  /** `(high << k) | low`, in that order, for a low part below bit k. */
  lemma OrBelow(high: nat, low: nat, k: nat)
    requires low < Pow2(k)
    ensures Or(Shl(high, k), low) == high * Pow2(k) + low
  {
    hide Or, Shl, Pow2;
    ShlIsMul(high, k);
    OrShifted(low, high, k);
    OrCommutes(low, high * Pow2(k));
  }

  lemma {:induction false} AndCommutes(a: nat, b: nat)
    ensures And(a, b) == And(b, a)
  {
    if a != 0 && b != 0 {
      AndCommutes(a / 2, b / 2);
    }
  }

  lemma OnesHalf(k: nat)
    requires k > 0
    ensures (Pow2(k) - 1) % 2 == 1 && (Pow2(k) - 1) / 2 == Pow2(k - 1) - 1
  {
  }

  /** Exclusive or with k ones is the complement within k bits. */
  lemma {:induction false} XorOnes(x: nat, k: nat)
    requires x < Pow2(k)
    ensures Xor(x, Pow2(k) - 1) == Pow2(k) - 1 - x
    decreases k
  {
    hide Xor;
    if k == 0 {
      XorZero(0);
    } else {
      XorOnes(x / 2, k - 1);
      OnesHalf(k);
      XorStep(x, Pow2(k) - 1);
      BitSplit(Xor(x, Pow2(k) - 1), Pow2(k) - 1 - x);
    }
  }

  lemma {:induction false} LowZero(k: nat)
    ensures Low(0, k) == 0
    decreases k
  {
    if k > 0 {
      LowZero(k - 1);
    }
  }

  // ---------------------------------------------------------------- 64-bit words

  function Xor64(a: u64, b: u64): u64 {
    Pow2Values();
    XorLess(a, b, 64);
    Xor(a, b)
  }

  function Xor8(a: u8, b: u8): u8 {
    Pow2Values();
    XorLess(a, b, 8);
    Xor(a, b)
  }

  function Mul64(a: u64, b: u64): u64 {
    (a * b) % TWO64
  }

  function Add64(a: u64, b: u64): u64 {
    (a + b) % TWO64
  }

  /** The two halves of a rotation never overlap, so the sum is the `|` of the source. */
  function Rotate(x: nat, up: nat, down: nat): nat
    requires up > 0 && down > 0
  {
    (x % down) * up + x / down
  }

  lemma RotateLess(x: nat, up: nat, down: nat)
    requires up > 0 && down > 0 && x < up * down
    ensures Rotate(x, up, down) < up * down
    ensures Rotate(x, up, down) % up == x / down && Rotate(x, up, down) / up == x % down
  {
    var q, r := x / down, x % down;
    assert x == q * down + r;
    if up <= q {
      MulMonotone(up, q, down);
    }
    MulMonotone(r + 1, down, up);
    DivModUnique(Rotate(x, up, down), up, r, q);
  }

  /** Turning back by the complementary amount undoes a rotation. */
  lemma RotateBack(x: nat, up: nat, down: nat)
    requires up > 0 && down > 0 && x < up * down
    ensures Rotate(Rotate(x, up, down), down, up) == x
  {
    RotateLess(x, up, down);
  }

  function Rotl64(x: u64, k: nat): u64
    requires 0 < k < 64
  {
    Pow2Add(k, 64 - k);
    Pow2Values();
    RotateLess(x, Pow2(k), Pow2(64 - k));
    Rotate(x, Pow2(k), Pow2(64 - k))
  }

  lemma Distribute(q: nat, d: nat, r: nat, u: nat)
    ensures (q * d + r) * u == q * (u * d) + r * u
  {
    assert (q * d) * u == q * (u * d);
  }

  /** A left shift within the word keeps exactly the bits below the cut. */
  lemma ShiftUp(x: nat, up: nat, down: nat, word: nat)
    requires down > 0 && up > 0 && word == up * down
    ensures word > 0 && (x * up) % word == (x % down) * up
  {
    var q, r := x / down, x % down;
    Distribute(q, down, r, up);
    MulMonotone(r + 1, down, up);
    DivModUnique(x * up, word, q, r * up);
  }

  /** `(x << k) | (x >> (n - k))` on n-bit words, with up = 2^k and down = 2^(n-k). */
  lemma RotateIsShiftOr(x: nat, k: nat, up: nat, down: nat, word: nat)
    requires up == Pow2(k) && down > 0 && word == up * down && x < word
    ensures word > 0 && Rotate(x, up, down) == Or(x / down, (x * up) % word)
  {
    RotateLess(x, up, down);
    ShiftUp(x, up, down, word);
    OrShifted(x / down, x % down, k);
  }

  /** A rotation in the source's terms: the shifted word, cut off, and the bits that fell out. */
  lemma Rotl64Is(x: u64, k: nat, up: nat, down: nat)
    requires 0 < k < 64 && up == Pow2(k) && down == Pow2(64 - k)
    ensures Rotl64(x, k) == (x * up) % TWO64 + x / down
  {
    hide Pow2;
    Pow2Add(k, 64 - k);
    Pow2Values();
    ShiftUp(x, up, down, TWO64);
  }

  lemma Rotl64Back(x: u64, k: nat)
    requires 0 < k < 64
    ensures Rotl64(Rotl64(x, k), 64 - k) == x
  {
    Pow2Add(k, 64 - k);
    Pow2Values();
    RotateBack(x, Pow2(k), Pow2(64 - k));
  }

  // ---------------------------------------------------------------- single bits

  /** `(x >> i) & 1` */
  function BitAt(x: nat, i: nat): (b: nat)
    ensures b < 2
  {
    Shr(x, i) % 2
  }

  lemma BitBelow(x: nat, i: nat)
    ensures BitAt(x, 0) == x % 2 && BitAt(x, i + 1) == BitAt(x / 2, i)
  {
  }

  lemma {:induction false} XorBit(a: nat, b: nat, i: nat)
    ensures BitAt(Xor(a, b), i) == (BitAt(a, i) + BitAt(b, i)) % 2
    decreases i
  {
    XorStep(a, b);
    if i > 0 {
      BitBelow(Xor(a, b), i - 1);
      BitBelow(a, i - 1);
      BitBelow(b, i - 1);
      XorBit(a / 2, b / 2, i - 1);
    }
  }

  lemma AndStep(a: nat, b: nat)
    ensures And(a, b) % 2 == (a % 2) * (b % 2) && And(a, b) / 2 == And(a / 2, b / 2)
  {
    Half(And(a, b), if a % 2 == 1 && b % 2 == 1 then 1 else 0, And(a / 2, b / 2));
  }

  lemma {:induction false} AndBit(a: nat, b: nat, i: nat)
    ensures BitAt(And(a, b), i) == BitAt(a, i) * BitAt(b, i)
    decreases i
  {
    AndStep(a, b);
    if i > 0 {
      BitBelow(And(a, b), i - 1);
      BitBelow(a, i - 1);
      BitBelow(b, i - 1);
      AndBit(a / 2, b / 2, i - 1);
    }
  }

  lemma OrStep(a: nat, b: nat)
    ensures Or(a, b) % 2 == (if a % 2 == 1 || b % 2 == 1 then 1 else 0) && Or(a, b) / 2 == Or(a / 2, b / 2)
  {
    Half(Or(a, b), if a % 2 == 1 || b % 2 == 1 then 1 else 0, Or(a / 2, b / 2));
  }

  lemma {:induction false} OrBit(a: nat, b: nat, i: nat)
    ensures BitAt(Or(a, b), i) == if BitAt(a, i) == 1 || BitAt(b, i) == 1 then 1 else 0
    decreases i
  {
    OrStep(a, b);
    if i > 0 {
      BitBelow(Or(a, b), i - 1);
      BitBelow(a, i - 1);
      BitBelow(b, i - 1);
      OrBit(a / 2, b / 2, i - 1);
    }
  }

  /** The complement within k bits flips every bit below k. */
  lemma {:induction false} ComplementBit(x: nat, k: nat, i: nat)
    requires i < k && x < Pow2(k)
    ensures BitAt(Pow2(k) - 1 - x, i) == 1 - BitAt(x, i)
    decreases k
  {
    var y := Pow2(k) - 1 - x;
    assert y == (1 - x % 2) + 2 * (Pow2(k - 1) - 1 - x / 2);
    Half(y, 1 - x % 2, Pow2(k - 1) - 1 - x / 2);
    if i > 0 {
      BitBelow(y, i - 1);
      BitBelow(x, i - 1);
      ComplementBit(x / 2, k - 1, i - 1);
    }
  }

  /** The bits of a shifted number, and of a number put together from two parts. */
  lemma ShrBit(x: nat, n: nat, i: nat)
    ensures BitAt(Shr(x, n), i) == BitAt(x, n + i)
  {
    ShrShr(x, n, i);
  }

  lemma {:induction false} LowBit(x: nat, k: nat, i: nat)
    ensures BitAt(Low(x, k), i) == if i < k then BitAt(x, i) else 0
    decreases k
  {
    if k == 0 {
      ZeroBit(i);
    } else {
      Half(Low(x, k), x % 2, Low(x / 2, k - 1));
      if i > 0 {
        BitBelow(Low(x, k), i - 1);
        BitBelow(x, i - 1);
        LowBit(x / 2, k - 1, i - 1);
      }
    }
  }

  lemma {:induction false} ZeroBit(i: nat)
    ensures BitAt(0, i) == 0
    decreases i
  {
    if i > 0 {
      BitBelow(0, i - 1);
      ZeroBit(i - 1);
    }
  }

  lemma JoinedBit(low: nat, high: nat, k: nat, i: nat)
    requires low < Pow2(k)
    ensures BitAt(low + Shl(high, k), i) == if i < k then BitAt(low, i) else BitAt(high, i - k)
  {
    JoinBits(low, high, k);
    if i < k {
      LowBit(low + Shl(high, k), k, i);
    } else {
      ShrBit(low + Shl(high, k), k, i - k);
    }
  }

  /** Bits from k on of a number below 2^k are zero. */
  lemma HighBit(x: nat, k: nat, i: nat)
    requires x < Pow2(k) <= Pow2(i)
    ensures BitAt(x, i) == 0
  {
    ShrIsDiv(x, i, Pow2(i));
    DivModUnique(x, Pow2(i), 0, x);
  }

  /** Turning a word of j + k bits down by k moves bit i + k to i, around the end. */
  lemma RotatedBit(x: nat, j: nat, k: nat, i: nat)
    requires x < Pow2(j + k) && i < j + k
    ensures Pow2(j) > 0 && Pow2(k) > 0
    ensures BitAt(Rotate(x, Pow2(j), Pow2(k)), i) == BitAt(x, if i < j then i + k else i - j)
  {
    var q, r := Shr(x, k), Low(x, k);
    ShrIsDiv(x, k, Pow2(k));
    ShlIsMul(r, j);
    Pow2Add(k, j);
    SplitBits(x, k, j);
    JoinedBit(q, r, j, i);
    if i < j {
      ShrBit(x, k, i);
    } else {
      LowBit(x, k, i - j);
    }
  }

  /** Bit i of a word turned up by k is bit i - k, around the end. */
  lemma Rotl64Bit(x: u64, k: nat, i: nat)
    requires 0 < k < 64 && i < 64
    ensures BitAt(Rotl64(x, k), i) == BitAt(x, (i + 64 - k) % 64)
  {
    hide BitAt, Pow2, Rotate;
    Pow2Values();
    RotatedBit(x, k, 64 - k, i);
  }

  /** Two numbers below 2^k with the same bits are the same. */
  lemma {:induction false} SameBits(x: nat, y: nat, k: nat)
    requires x < Pow2(k) && y < Pow2(k)
    requires forall i :: 0 <= i < k ==> BitAt(x, i) == BitAt(y, i)
    ensures x == y
    decreases k
  {
    if k > 0 {
      forall i | 0 <= i < k - 1
        ensures BitAt(x / 2, i) == BitAt(y / 2, i)
      {
        BitBelow(x, i);
        BitBelow(y, i);
        assert BitAt(x, i + 1) == BitAt(y, i + 1);
      }
      SameBits(x / 2, y / 2, k - 1);
      BitBelow(x, 0);
      BitBelow(y, 0);
      assert BitAt(x, 0) == BitAt(y, 0);
      BitSplit(x, y);
    }
  }

  // ---------------------------------------------------------------- bytes

  /** The n lowest bytes of w, least significant first. */
  function LeBytes(w: nat, n: nat): (b: seq<u8>)
    ensures |b| == n
  {
    if n == 0 then [] else [w % 0x100] + LeBytes(w / 0x100, n - 1)
  }

  function FromLe(b: seq<u8>): nat {
    if |b| == 0 then 0 else b[0] + 0x100 * FromLe(b[1..])
  }

  lemma {:induction false} FromLeBound(b: seq<u8>)
    ensures FromLe(b) < Pow2(8 * |b|)
  {
    if |b| > 0 {
      FromLeBound(b[1..]);
      Pow2Values();
      Pow2Add(8, 8 * |b[1..]|);
    }
  }

  lemma {:induction false} FromLeOfLeBytes(w: nat, n: nat)
    requires w < Pow2(8 * n)
    ensures FromLe(LeBytes(w, n)) == w
  {
    if n > 0 {
      Pow2Values();
      Pow2Add(8, 8 * (n - 1));
      FromLeOfLeBytes(w / 0x100, n - 1);
      assert LeBytes(w, n)[1..] == LeBytes(w / 0x100, n - 1);
    }
  }

  lemma {:induction false} LeBytesOfFromLe(b: seq<u8>)
    ensures LeBytes(FromLe(b), |b|) == b
  {
    if |b| > 0 {
      LeBytesOfFromLe(b[1..]);
      DivModUnique(FromLe(b), 0x100, FromLe(b[1..]), b[0]);
      assert b == [b[0]] + b[1..];
    }
  }

  lemma ShrByte(w: nat)
    ensures Shr(w, 8) == w / 0x100
  {
    Pow2Values();
    ShrIsDiv(w, 8, 0x100);
  }

  lemma Pow2Step(n: nat)
    ensures Pow2(8 * (n + 1)) == 0x100 * Pow2(8 * n)
  {
    Pow2Values();
    Pow2Add(8, 8 * n);
  }

  lemma Scale(x: nat, p: nat)
    ensures 0x100 * (x * p) == x * (0x100 * p)
  {
  }

  lemma ByteBelow(w: nat, x: nat)
    ensures (w + 0x100 * x) % 0x100 == w % 0x100 && (w + 0x100 * x) / 0x100 == w / 0x100 + x
  {
  }

  /** The n lowest bytes do not see what lies above them. */
  lemma {:induction false} LeBytesLow(w: nat, extra: nat, n: nat)
    ensures LeBytes(w + extra * Pow2(8 * n), n) == LeBytes(w, n)
    decreases n
  {
    if n > 0 {
      var p := Pow2(8 * (n - 1));
      Pow2Step(n - 1);
      Scale(extra, p);
      ByteBelow(w, extra * p);
      LeBytesLow(w / 0x100, extra, n - 1);
    }
  }

  lemma LeBytesOfLow(w: nat, n: nat, k: nat)
    requires 8 * n <= k
    ensures LeBytes(Low(w, k), n) == LeBytes(w, n)
  {
    var p, q, h := Pow2(8 * n), Pow2(k - 8 * n), Shr(w, k);
    Pow2Add(8 * n, k - 8 * n);
    ShrLow(w, k);
    Reassociate(h, p, q);
    LeBytesLow(Low(w, k), h * q, n);
  }

  lemma Reassociate(h: nat, p: nat, q: nat)
    ensures h * (p * q) == (h * q) * p
  {
  }

  /** Byte i is what `(uint8_t)(w >> (8 * i))` yields. */
  lemma {:induction false} LeBytesAt(w: nat, n: nat, i: nat)
    requires i < n
    ensures LeBytes(w, n)[i] == Shr(w, 8 * i) % 0x100
  {
    if i > 0 {
      LeBytesAt(w / 0x100, n - 1, i - 1);
      ShrShr(w, 8, 8 * (i - 1));
      ShrByte(w);
    }
  }
}
