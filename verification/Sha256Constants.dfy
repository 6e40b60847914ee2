/** Where the constants of the hash come from: the fractional parts of roots of the first primes. */
module Sha256Constants {
  import opened Bits
  import opened Sha256Spec

  // ---------------------------------------------------------------- primes

  predicate IsPrime(n: nat) {
    n >= 2 && forall d :: 2 <= d < n ==> n % d != 0
  }

  /** No prime up to 17 divides n, other than n itself. */
  predicate Sieved(n: nat) {
    && (n % 2 != 0 || n == 2) && (n % 3 != 0 || n == 3) && (n % 5 != 0 || n == 5) && (n % 7 != 0 || n == 7)
    && (n % 11 != 0 || n == 11) && (n % 13 != 0 || n == 13) && (n % 17 != 0 || n == 17)
  }

  /** A multiple of 2 to 17 other than itself does not get through. */
  lemma SmallFactor(n: nat, d: nat)
    requires 2 <= d <= 17 && d < n && n % d == 0
    ensures !Sieved(n)
  {
    if d % 2 == 0 {
      Divides(n, 2, d / 2);
    } else if d % 3 == 0 {
      Divides(n, 3, d / 3);
    } else if d == 5 {
      assert n % 5 == 0;
    } else if d == 7 {
      assert n % 7 == 0;
    } else if d == 11 {
      assert n % 11 == 0;
    } else if d == 13 {
      assert n % 13 == 0;
    } else {
      assert d == 17 && n % 17 == 0;
    }
  }

  /** What a multiple divides, its factor divides. */
  lemma Divides(n: nat, f: nat, k: nat)
    requires f > 0 && k > 0 && n % (f * k) == 0
    ensures n % f == 0
  {
    var q := n / (f * k);
    assert n == q * (f * k) == (q * k) * f;
    DivModUnique(n, f, q * k, 0);
  }

  /** Below 18 * 18 a composite number has a factor up to 17. */
  lemma CompositeFound(n: nat, d: nat)
    requires 2 <= d < n < 324 && n % d == 0
    ensures !Sieved(n)
  {
    hide Sieved;
    if d <= 17 {
      SmallFactor(n, d);
    } else {
      var e := n / d;
      assert n == e * d;
      if e >= 18 {
        MulMonotone(18, e, d);
      }
      DivModUnique(n, e, d, 0);
      SmallFactor(n, e);
    }
  }

  lemma SievedIffPrime(n: nat)
    requires 2 <= n < 324
    ensures Sieved(n) <==> IsPrime(n)
  {
    if !IsPrime(n) {
      var d :| 2 <= d < n && n % d == 0;
      CompositeFound(n, d);
    }
  }

  function Primes0(): (p: seq<nat>)
    ensures |p| == 16
  {
    [ 2, 3, 5, 7, 11, 13, 17, 19, 23, 29, 31, 37, 41, 43, 47, 53 ]
  }

  function Primes16(): (p: seq<nat>)
    ensures |p| == 16
  {
    [ 59, 61, 67, 71, 73, 79, 83, 89, 97, 101, 103, 107, 109, 113, 127, 131 ]
  }

  function Primes32(): (p: seq<nat>)
    ensures |p| == 16
  {
    [ 137, 139, 149, 151, 157, 163, 167, 173, 179, 181, 191, 193, 197, 199, 211, 223 ]
  }

  function Primes48(): (p: seq<nat>)
    ensures |p| == 16
  {
    [ 227, 229, 233, 239, 241, 251, 257, 263, 269, 271, 277, 281, 283, 293, 307, 311 ]
  }

  /** Entry t of a table of primes, from 2 to 311. */
  function Prime(t: nat): nat
    requires t < 64
  {
    if t < 16 then Primes0()[t]
    else if t < 32 then Primes16()[t - 16]
    else if t < 48 then Primes32()[t - 32]
    else Primes48()[t - 48]
  }

  // ---------------------------------------------------------------- roots

  /** a whole and the 32 bits of k behind the point are the cube root of p, cut off. */
  predicate CubeRootBits(a: nat, k: u32, p: nat) {
    var x := a * TWO32 + k;
    x * x * x <= p * TWO32 * TWO32 * TWO32 < (x + 1) * (x + 1) * (x + 1)
  }

  predicate SquareRootBits(a: nat, k: u32, p: nat) {
    var x := a * TWO32 + k;
    x * x <= p * TWO32 * TWO32 < (x + 1) * (x + 1)
  }

  lemma CubeRootsFrom0(t: nat)
    requires 0 <= t < 4
    ensures 2 <= Prime(t) < 324 && Sieved(Prime(t)) && exists a :: CubeRootBits(a, RoundConstant(t), Prime(t))
  {
    assert t == 0 ==> CubeRootBits(1, RoundConstant(t), Prime(t));
    assert t == 1 ==> CubeRootBits(1, RoundConstant(t), Prime(t));
    assert t == 2 ==> CubeRootBits(1, RoundConstant(t), Prime(t));
    assert t == 3 ==> CubeRootBits(1, RoundConstant(t), Prime(t));
  }

  lemma CubeRootsFrom4(t: nat)
    requires 4 <= t < 8
    ensures 2 <= Prime(t) < 324 && Sieved(Prime(t)) && exists a :: CubeRootBits(a, RoundConstant(t), Prime(t))
  {
    assert t == 4 ==> CubeRootBits(2, RoundConstant(t), Prime(t));
    assert t == 5 ==> CubeRootBits(2, RoundConstant(t), Prime(t));
    assert t == 6 ==> CubeRootBits(2, RoundConstant(t), Prime(t));
    assert t == 7 ==> CubeRootBits(2, RoundConstant(t), Prime(t));
  }

  lemma CubeRootsFrom8(t: nat)
    requires 8 <= t < 12
    ensures 2 <= Prime(t) < 324 && Sieved(Prime(t)) && exists a :: CubeRootBits(a, RoundConstant(t), Prime(t))
  {
    assert t == 8 ==> CubeRootBits(2, RoundConstant(t), Prime(t));
    assert t == 9 ==> CubeRootBits(3, RoundConstant(t), Prime(t));
    assert t == 10 ==> CubeRootBits(3, RoundConstant(t), Prime(t));
    assert t == 11 ==> CubeRootBits(3, RoundConstant(t), Prime(t));
  }

  lemma CubeRootsFrom12(t: nat)
    requires 12 <= t < 16
    ensures 2 <= Prime(t) < 324 && Sieved(Prime(t)) && exists a :: CubeRootBits(a, RoundConstant(t), Prime(t))
  {
    assert t == 12 ==> CubeRootBits(3, RoundConstant(t), Prime(t));
    assert t == 13 ==> CubeRootBits(3, RoundConstant(t), Prime(t));
    assert t == 14 ==> CubeRootBits(3, RoundConstant(t), Prime(t));
    assert t == 15 ==> CubeRootBits(3, RoundConstant(t), Prime(t));
  }

  lemma CubeRootsFrom16(t: nat)
    requires 16 <= t < 20
    ensures 2 <= Prime(t) < 324 && Sieved(Prime(t)) && exists a :: CubeRootBits(a, RoundConstant(t), Prime(t))
  {
    assert t == 16 ==> CubeRootBits(3, RoundConstant(t), Prime(t));
    assert t == 17 ==> CubeRootBits(3, RoundConstant(t), Prime(t));
    assert t == 18 ==> CubeRootBits(4, RoundConstant(t), Prime(t));
    assert t == 19 ==> CubeRootBits(4, RoundConstant(t), Prime(t));
  }

  lemma CubeRootsFrom20(t: nat)
    requires 20 <= t < 24
    ensures 2 <= Prime(t) < 324 && Sieved(Prime(t)) && exists a :: CubeRootBits(a, RoundConstant(t), Prime(t))
  {
    assert t == 20 ==> CubeRootBits(4, RoundConstant(t), Prime(t));
    assert t == 21 ==> CubeRootBits(4, RoundConstant(t), Prime(t));
    assert t == 22 ==> CubeRootBits(4, RoundConstant(t), Prime(t));
    assert t == 23 ==> CubeRootBits(4, RoundConstant(t), Prime(t));
  }

  lemma CubeRootsFrom24(t: nat)
    requires 24 <= t < 28
    ensures 2 <= Prime(t) < 324 && Sieved(Prime(t)) && exists a :: CubeRootBits(a, RoundConstant(t), Prime(t))
  {
    assert t == 24 ==> CubeRootBits(4, RoundConstant(t), Prime(t));
    assert t == 25 ==> CubeRootBits(4, RoundConstant(t), Prime(t));
    assert t == 26 ==> CubeRootBits(4, RoundConstant(t), Prime(t));
    assert t == 27 ==> CubeRootBits(4, RoundConstant(t), Prime(t));
  }

  lemma CubeRootsFrom28(t: nat)
    requires 28 <= t < 32
    ensures 2 <= Prime(t) < 324 && Sieved(Prime(t)) && exists a :: CubeRootBits(a, RoundConstant(t), Prime(t))
  {
    assert t == 28 ==> CubeRootBits(4, RoundConstant(t), Prime(t));
    assert t == 29 ==> CubeRootBits(4, RoundConstant(t), Prime(t));
    assert t == 30 ==> CubeRootBits(5, RoundConstant(t), Prime(t));
    assert t == 31 ==> CubeRootBits(5, RoundConstant(t), Prime(t));
  }

  lemma CubeRootsFrom32(t: nat)
    requires 32 <= t < 36
    ensures 2 <= Prime(t) < 324 && Sieved(Prime(t)) && exists a :: CubeRootBits(a, RoundConstant(t), Prime(t))
  {
    assert t == 32 ==> CubeRootBits(5, RoundConstant(t), Prime(t));
    assert t == 33 ==> CubeRootBits(5, RoundConstant(t), Prime(t));
    assert t == 34 ==> CubeRootBits(5, RoundConstant(t), Prime(t));
    assert t == 35 ==> CubeRootBits(5, RoundConstant(t), Prime(t));
  }

  lemma CubeRootsFrom36(t: nat)
    requires 36 <= t < 40
    ensures 2 <= Prime(t) < 324 && Sieved(Prime(t)) && exists a :: CubeRootBits(a, RoundConstant(t), Prime(t))
  {
    assert t == 36 ==> CubeRootBits(5, RoundConstant(t), Prime(t));
    assert t == 37 ==> CubeRootBits(5, RoundConstant(t), Prime(t));
    assert t == 38 ==> CubeRootBits(5, RoundConstant(t), Prime(t));
    assert t == 39 ==> CubeRootBits(5, RoundConstant(t), Prime(t));
  }

  lemma CubeRootsFrom40(t: nat)
    requires 40 <= t < 44
    ensures 2 <= Prime(t) < 324 && Sieved(Prime(t)) && exists a :: CubeRootBits(a, RoundConstant(t), Prime(t))
  {
    assert t == 40 ==> CubeRootBits(5, RoundConstant(t), Prime(t));
    assert t == 41 ==> CubeRootBits(5, RoundConstant(t), Prime(t));
    assert t == 42 ==> CubeRootBits(5, RoundConstant(t), Prime(t));
    assert t == 43 ==> CubeRootBits(5, RoundConstant(t), Prime(t));
  }

  lemma CubeRootsFrom44(t: nat)
    requires 44 <= t < 48
    ensures 2 <= Prime(t) < 324 && Sieved(Prime(t)) && exists a :: CubeRootBits(a, RoundConstant(t), Prime(t))
  {
    assert t == 44 ==> CubeRootBits(5, RoundConstant(t), Prime(t));
    assert t == 45 ==> CubeRootBits(5, RoundConstant(t), Prime(t));
    assert t == 46 ==> CubeRootBits(5, RoundConstant(t), Prime(t));
    assert t == 47 ==> CubeRootBits(6, RoundConstant(t), Prime(t));
  }

  lemma CubeRootsFrom48(t: nat)
    requires 48 <= t < 52
    ensures 2 <= Prime(t) < 324 && Sieved(Prime(t)) && exists a :: CubeRootBits(a, RoundConstant(t), Prime(t))
  {
    assert t == 48 ==> CubeRootBits(6, RoundConstant(t), Prime(t));
    assert t == 49 ==> CubeRootBits(6, RoundConstant(t), Prime(t));
    assert t == 50 ==> CubeRootBits(6, RoundConstant(t), Prime(t));
    assert t == 51 ==> CubeRootBits(6, RoundConstant(t), Prime(t));
  }

  lemma CubeRootsFrom52(t: nat)
    requires 52 <= t < 56
    ensures 2 <= Prime(t) < 324 && Sieved(Prime(t)) && exists a :: CubeRootBits(a, RoundConstant(t), Prime(t))
  {
    assert t == 52 ==> CubeRootBits(6, RoundConstant(t), Prime(t));
    assert t == 53 ==> CubeRootBits(6, RoundConstant(t), Prime(t));
    assert t == 54 ==> CubeRootBits(6, RoundConstant(t), Prime(t));
    assert t == 55 ==> CubeRootBits(6, RoundConstant(t), Prime(t));
  }

  lemma CubeRootsFrom56(t: nat)
    requires 56 <= t < 60
    ensures 2 <= Prime(t) < 324 && Sieved(Prime(t)) && exists a :: CubeRootBits(a, RoundConstant(t), Prime(t))
  {
    assert t == 56 ==> CubeRootBits(6, RoundConstant(t), Prime(t));
    assert t == 57 ==> CubeRootBits(6, RoundConstant(t), Prime(t));
    assert t == 58 ==> CubeRootBits(6, RoundConstant(t), Prime(t));
    assert t == 59 ==> CubeRootBits(6, RoundConstant(t), Prime(t));
  }

  lemma CubeRootsFrom60(t: nat)
    requires 60 <= t < 64
    ensures 2 <= Prime(t) < 324 && Sieved(Prime(t)) && exists a :: CubeRootBits(a, RoundConstant(t), Prime(t))
  {
    assert t == 60 ==> CubeRootBits(6, RoundConstant(t), Prime(t));
    assert t == 61 ==> CubeRootBits(6, RoundConstant(t), Prime(t));
    assert t == 62 ==> CubeRootBits(6, RoundConstant(t), Prime(t));
    assert t == 63 ==> CubeRootBits(6, RoundConstant(t), Prime(t));
  }

  /** Round constant t is the first 32 bits behind the point of the cube root of prime t. */
  lemma RoundConstantIsRoot(t: nat)
    requires t < 64
    ensures IsPrime(Prime(t)) && exists a :: CubeRootBits(a, RoundConstant(t), Prime(t))
  {
    hide IsPrime, Sieved, CubeRootBits, Prime, RoundConstant;
    if t < 4 {
      CubeRootsFrom0(t);
    } else if t < 8 {
      CubeRootsFrom4(t);
    } else if t < 12 {
      CubeRootsFrom8(t);
    } else if t < 16 {
      CubeRootsFrom12(t);
    } else if t < 20 {
      CubeRootsFrom16(t);
    } else if t < 24 {
      CubeRootsFrom20(t);
    } else if t < 28 {
      CubeRootsFrom24(t);
    } else if t < 32 {
      CubeRootsFrom28(t);
    } else if t < 36 {
      CubeRootsFrom32(t);
    } else if t < 40 {
      CubeRootsFrom36(t);
    } else if t < 44 {
      CubeRootsFrom40(t);
    } else if t < 48 {
      CubeRootsFrom44(t);
    } else if t < 52 {
      CubeRootsFrom48(t);
    } else if t < 56 {
      CubeRootsFrom52(t);
    } else if t < 60 {
      CubeRootsFrom56(t);
    } else {
      CubeRootsFrom60(t);
    }
    SievedIffPrime(Prime(t));
  }

  /** The initial hash value is the square roots of the first eight primes, in the same way. */
  lemma InitialValueIsRoots()
    ensures SquareRootBits(1, IV.a, 2) && SquareRootBits(1, IV.b, 3)
    ensures SquareRootBits(2, IV.c, 5) && SquareRootBits(2, IV.d, 7)
    ensures SquareRootBits(3, IV.e, 11) && SquareRootBits(3, IV.f, 13)
    ensures SquareRootBits(4, IV.g, 17) && SquareRootBits(4, IV.h, 19)
  {
  }

  lemma PowersMonotone(x: nat, y: nat)
    requires x <= y
    ensures x * x <= y * y && x * x * x <= y * y * y
  {
    MulMonotone(x, y, x);
    MulMonotone(x, y, y);
    MulMonotone(x * x, y * y, x);
    MulMonotone(x, y, y * y);
  }

  /** No other word has that property. */
  lemma CubeRootBitsUnique(a: nat, k: u32, b: nat, l: u32, p: nat)
    requires CubeRootBits(a, k, p) && CubeRootBits(b, l, p)
    ensures k == l
  {
    var x, y := a * TWO32 + k, b * TWO32 + l;
    if x < y {
      PowersMonotone(x + 1, y);
    }
    if y < x {
      PowersMonotone(y + 1, x);
    }
    DivModUnique(x, TWO32, a, k);
    DivModUnique(x, TWO32, b, l);
  }

  lemma SquareRootBitsUnique(a: nat, k: u32, b: nat, l: u32, p: nat)
    requires SquareRootBits(a, k, p) && SquareRootBits(b, l, p)
    ensures k == l
  {
    var x, y := a * TWO32 + k, b * TWO32 + l;
    if x < y {
      PowersMonotone(x + 1, y);
    }
    if y < x {
      PowersMonotone(y + 1, x);
    }
    DivModUnique(x, TWO32, a, k);
    DivModUnique(x, TWO32, b, l);
  }
}
