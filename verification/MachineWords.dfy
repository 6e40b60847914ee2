/**
 The 32-bit machine words of the hash. A bit vector denotes a number below 2^32, and each operator
 of the source on bit vectors denotes the operator on numbers that the specification uses.
 */
module MachineWords {
  import opened Bits
  import opened Sha256Spec

  // ---------------------------------------------------------------- the number a word denotes

  predicate Odd(b: bv32) {
    b & 1 == 1
  }

  function HalfWord(b: bv32): bv32 {
    b >> 1
  }

  /** The number that the n lowest bits of a word denote. */
  function Val(b: bv32, n: nat): nat
    decreases n
  {
    if n == 0 then 0 else (if Odd(b) then 1 else 0) + 2 * Val(HalfWord(b), n - 1)
  }

  lemma {:induction false} ValLess(b: bv32, n: nat)
    ensures Val(b, n) < Pow2(n)
    decreases n
  {
    hide Odd, HalfWord;
    if n > 0 {
      ValLess(HalfWord(b), n - 1);
    }
  }

  function Num(b: bv32): u32 {
    ValLess(b, 32);
    Pow2Values();
    Val(b, 32)
  }

  lemma ValStep(b: bv32, n: nat)
    requires n > 0
    ensures Val(b, n) % 2 == (if Odd(b) then 1 else 0) && Val(b, n) / 2 == Val(HalfWord(b), n - 1)
  {
    hide Odd, HalfWord;
  }

  lemma ValNothing(b: bv32)
    ensures Val(b, 0) == 0
  {
  }

  // ---------------------------------------------------------------- operators by name

  // A proof that hides these names leaves the bits of the words alone.

  function XorW(a: bv32, b: bv32): bv32 {
    a ^ b
  }

  function AndW(a: bv32, b: bv32): bv32 {
    a & b
  }

  function OrW(a: bv32, b: bv32): bv32 {
    a | b
  }

  function NotW(a: bv32): bv32 {
    !a
  }

  function Sum(a: bv32, b: bv32): bv32 {
    a + b
  }

  // ---------------------------------------------------------------- bitwise operators

  lemma XorWords(a: bv32, b: bv32)
    ensures HalfWord(XorW(a, b)) == XorW(HalfWord(a), HalfWord(b)) && (Odd(XorW(a, b)) <==> Odd(a) != Odd(b))
  {
  }

  lemma {:induction false} XorVal(a: bv32, b: bv32, n: nat)
    ensures Val(XorW(a, b), n) == Xor(Val(a, n), Val(b, n))
    decreases n
  {
    hide Xor, XorW, Val, Odd, HalfWord;
    if n == 0 {
      ValNothing(a);
      ValNothing(b);
      ValNothing(XorW(a, b));
      XorZero(0);
    } else {
      XorVal(HalfWord(a), HalfWord(b), n - 1);
      XorWords(a, b);
      ValStep(a, n);
      ValStep(b, n);
      ValStep(XorW(a, b), n);
      XorStep(Val(a, n), Val(b, n));
      BitSplit(Val(XorW(a, b), n), Xor(Val(a, n), Val(b, n)));
    }
  }

  lemma AndWords(a: bv32, b: bv32)
    ensures HalfWord(AndW(a, b)) == AndW(HalfWord(a), HalfWord(b)) && (Odd(AndW(a, b)) <==> Odd(a) && Odd(b))
  {
  }

  lemma {:induction false} AndVal(a: bv32, b: bv32, n: nat)
    ensures Val(AndW(a, b), n) == And(Val(a, n), Val(b, n))
    decreases n
  {
    hide And, AndW, Val, Odd, HalfWord;
    if n == 0 {
      ValNothing(a);
      ValNothing(b);
      ValNothing(AndW(a, b));
      AndLess(0, 0, 0);
    } else {
      AndVal(HalfWord(a), HalfWord(b), n - 1);
      AndWords(a, b);
      ValStep(a, n);
      ValStep(b, n);
      ValStep(AndW(a, b), n);
      AndStep(Val(a, n), Val(b, n));
      BitSplit(Val(AndW(a, b), n), And(Val(a, n), Val(b, n)));
    }
  }

  lemma OrWords(a: bv32, b: bv32)
    ensures HalfWord(OrW(a, b)) == OrW(HalfWord(a), HalfWord(b)) && (Odd(OrW(a, b)) <==> Odd(a) || Odd(b))
  {
  }

  lemma {:induction false} OrVal(a: bv32, b: bv32, n: nat)
    ensures Val(OrW(a, b), n) == Or(Val(a, n), Val(b, n))
    decreases n
  {
    hide Or, OrW, Val, Odd, HalfWord;
    if n == 0 {
      ValNothing(a);
      ValNothing(b);
      ValNothing(OrW(a, b));
      OrZero(0);
    } else {
      OrVal(HalfWord(a), HalfWord(b), n - 1);
      OrWords(a, b);
      ValStep(a, n);
      ValStep(b, n);
      ValStep(OrW(a, b), n);
      OrStep(Val(a, n), Val(b, n));
      BitSplit(Val(OrW(a, b), n), Or(Val(a, n), Val(b, n)));
    }
  }

  lemma XorNum(a: bv32, b: bv32)
    ensures Num(XorW(a, b)) == Xor32(Num(a), Num(b))
  {
    hide Xor, Val;
    XorVal(a, b, 32);
  }

  lemma AndNum(a: bv32, b: bv32)
    ensures Num(AndW(a, b)) == And32(Num(a), Num(b))
  {
    hide And, Val;
    AndVal(a, b, 32);
  }

  // ---------------------------------------------------------------- literals

  /** The lowest hexadecimal digit of a word, bit by bit. */
  function Digit(b: bv32): nat {
    (if b & 1 != 0 then 1 else 0) + (if b & 2 != 0 then 2 else 0)
    + (if b & 4 != 0 then 4 else 0) + (if b & 8 != 0 then 8 else 0)
  }

  function Down4(b: bv32): bv32 {
    b >> 4
  }

  function LowestBit(b: bv32): nat {
    if Odd(b) then 1 else 0
  }

  lemma FourHalves(b: bv32)
    ensures HalfWord(HalfWord(HalfWord(HalfWord(b)))) == Down4(b)
  {
  }

  lemma DigitBits(b: bv32)
    ensures Digit(b) == LowestBit(b) + 2 * LowestBit(HalfWord(b)) + 4 * LowestBit(HalfWord(HalfWord(b)))
                      + 8 * LowestBit(HalfWord(HalfWord(HalfWord(b))))
  {
  }

  lemma DigitVal(b: bv32, n: nat)
    ensures Val(b, n + 4) == Digit(b) + 0x10 * Val(Down4(b), n)
  {
    hide Val, Digit, Down4, Odd, HalfWord;
    DigitBits(b);
    FourHalves(b);
    var b1 := HalfWord(b);
    var b2 := HalfWord(b1);
    var b3 := HalfWord(b2);
    ValStep(b, n + 4);
    ValStep(b1, n + 3);
    ValStep(b2, n + 2);
    ValStep(b3, n + 1);
  }

  /** The four hexadecimal digits of a half word. */
  function FourDigits(b: bv32): nat {
    Digit(b) + 0x10 * Digit(Down4(b)) + 0x100 * Digit(Down4(Down4(b))) + 0x1000 * Digit(Down4(Down4(Down4(b))))
  }

  function Down16(b: bv32): bv32 {
    b >> 16
  }

  lemma FourDowns(b: bv32)
    ensures Down4(Down4(Down4(Down4(b)))) == Down16(b)
  {
  }

  lemma FourDigitsVal(b: bv32, n: nat)
    ensures Val(b, n + 16) == FourDigits(b) + 0x1_0000 * Val(Down16(b), n)
  {
    hide Val, Digit, Down4, Down16;
    FourDowns(b);
    var b1 := Down4(b);
    var b2 := Down4(b1);
    var b3 := Down4(b2);
    DigitVal(b, n + 12);
    DigitVal(b1, n + 8);
    DigitVal(b2, n + 4);
    DigitVal(b3, n);
  }

  lemma Literal(b: bv32)
    ensures Num(b) == FourDigits(b) + 0x1_0000 * FourDigits(Down16(b))
  {
    hide Val, FourDigits, Down16;
    FourDigitsVal(b, 16);
    FourDigitsVal(Down16(b), 0);
    ValNothing(Down16(Down16(b)));
  }

  lemma LiteralWords()
    ensures Num(0) == 0 && Num(0xffff_ffff) == 0xffff_ffff && Num(0x8000_0000) == 0x8000_0000
    ensures Num(0x7fff_ffff) == 0x7fff_ffff
  {
    hide Val;
    Literal(0);
    Literal(0xffff_ffff);
    Literal(0x8000_0000);
    Literal(0x7fff_ffff);
  }

  // ---------------------------------------------------------------- complement and addition

  lemma ComplementWord(b: bv32)
    ensures !b == b ^ 0xffff_ffff
  {
  }

  lemma NotNum(b: bv32)
    ensures Num(NotW(b)) == Not32(Num(b))
  {
    hide Val, Xor, Pow2;
    ComplementWord(b);
    XorVal(b, 0xffff_ffff, 32);
    LiteralWords();
    Pow2Values();
    XorOnes(Num(b), 32);
  }

  /** A shorter reading of a word forgets its high bits. */
  lemma {:induction false} ValLow(b: bv32, n: nat)
    ensures Val(b, n) == Low(Val(b, n + 1), n)
    decreases n
  {
    hide Odd, HalfWord;
    if n > 0 {
      ValLow(HalfWord(b), n - 1);
      ValStep(b, n);
      ValStep(b, n + 1);
    }
  }

  predicate Short(b: bv32) {
    b & 0x8000_0000 == 0
  }

  lemma ShortWord(b: bv32)
    ensures Short(b) ==> b == b & 0x7fff_ffff
    ensures Short(HalfWord(b))
  {
  }

  lemma ShortNum(b: bv32)
    requires Short(b)
    ensures Num(b) < 0x8000_0000
  {
    hide Val, And, Pow2, Short;
    ShortWord(b);
    LiteralWords();
    AndVal(b, 0x7fff_ffff, 32);
    AndCommutes(Num(b), 0x7fff_ffff);
    Pow2Values();
    Pow2Next(32);
    AndLess(0x7fff_ffff, Num(b), 31);
  }

  lemma Val31(b: bv32)
    requires Short(b)
    ensures Val(b, 31) == Num(b)
  {
    hide Val, Pow2, Short, Low, Shr;
    ShortNum(b);
    Pow2Values();
    Pow2Next(32);
    ValLow(b, 31);
    ShrIsDiv(Num(b), 31, 0x8000_0000);
  }

  lemma HalfNum(b: bv32)
    ensures Num(b >> 1) == Num(b) / 2
  {
    hide Val;
    ShortWord(b);
    Val31(HalfWord(b));
    ValStep(b, 32);
  }

  /** The highest bit is not seen by a shorter reading. */
  lemma {:induction false} TopUnseen(m: nat)
    requires m < 32
    ensures Val(0x8000_0000, m) == 0
    decreases 32 - m
  {
    hide Val, Pow2, Low;
    ValLow(0x8000_0000, m);
    if m < 31 {
      TopUnseen(m + 1);
      LowZero(m);
    } else {
      LiteralWords();
      Pow2Values();
      Pow2Next(32);
      ShrIsDiv(0x8000_0000, 31, 0x8000_0000);
    }
  }

  lemma TopFlipped(b: bv32, m: nat)
    requires m < 32
    ensures Val(b ^ 0x8000_0000, m) == Val(b, m)
  {
    hide Val, Xor;
    XorVal(b, 0x8000_0000, m);
    TopUnseen(m);
    XorZero(Val(b, m));
  }

  /** The words agree below the highest bit. */
  predicate Alike(s: bv32, t: bv32) {
    s == t || s == t ^ 0x8000_0000
  }

  lemma AlikeVal(s: bv32, t: bv32, m: nat)
    requires Alike(s, t) && m < 32
    ensures Val(s, m) == Val(t, m)
  {
    hide Val;
    TopFlipped(t, m);
  }

  function Sum1(a: bv32, b: bv32): bv32 {
    a + b + 1
  }

  function Even2(t: bv32): bv32 {
    t + t
  }

  function Odd2(t: bv32): bv32 {
    t + t + 1
  }

  lemma Halves(b: bv32)
    ensures b == if Odd(b) then Odd2(HalfWord(b)) else Even2(HalfWord(b))
  {
  }

  lemma HalfEven(t: bv32)
    ensures !Odd(Even2(t)) && Alike(HalfWord(Even2(t)), t)
  {
  }

  lemma HalfOdd(t: bv32)
    ensures Odd(Odd2(t)) && Alike(HalfWord(Odd2(t)), t)
  {
  }

  lemma SumIs(x: bv32, y: bv32)
    ensures Sum(x, y) == x + y
  {
  }

  lemma Sum1Is(x: bv32, y: bv32)
    ensures Sum1(x, y) == x + y + 1
  {
  }

  lemma Even2Is(x: bv32)
    ensures Even2(x) == x + x
  {
  }

  lemma Odd2Is(x: bv32)
    ensures Odd2(x) == x + x + 1
  {
  }

  lemma SumEvenEven(x: bv32, y: bv32)
    ensures Sum(x + x, y + y) == Even2(x + y) && Sum1(x + x, y + y) == Odd2(x + y)
  {
  }

  lemma SumOddEven(x: bv32, y: bv32)
    ensures Sum(x + x + 1, y + y) == Odd2(x + y) && Sum1(x + x + 1, y + y) == Even2(x + y + 1)
  {
  }

  lemma SumEvenOdd(x: bv32, y: bv32)
    ensures Sum(x + x, y + y + 1) == Odd2(x + y) && Sum1(x + x, y + y + 1) == Even2(x + y + 1)
  {
  }

  lemma SumOddOdd(x: bv32, y: bv32)
    ensures Sum(x + x + 1, y + y + 1) == Even2(x + y + 1) && Sum1(x + x + 1, y + y + 1) == Odd2(x + y + 1)
  {
  }

  lemma SumDoubles(x: bv32, y: bv32)
    ensures Sum(Even2(x), Even2(y)) == Even2(Sum(x, y)) && Sum1(Even2(x), Even2(y)) == Odd2(Sum(x, y))
    ensures Sum(Odd2(x), Even2(y)) == Odd2(Sum(x, y)) && Sum1(Odd2(x), Even2(y)) == Even2(Sum1(x, y))
    ensures Sum(Even2(x), Odd2(y)) == Odd2(Sum(x, y)) && Sum1(Even2(x), Odd2(y)) == Even2(Sum1(x, y))
    ensures Sum(Odd2(x), Odd2(y)) == Even2(Sum1(x, y)) && Sum1(Odd2(x), Odd2(y)) == Odd2(Sum1(x, y))
  {
    hide Sum, Sum1, Even2, Odd2;
    SumIs(x, y);
    Sum1Is(x, y);
    Even2Is(x);
    Even2Is(y);
    Odd2Is(x);
    Odd2Is(y);
    SumEvenEven(x, y);
    SumEvenOdd(x, y);
    SumOddEven(x, y);
    SumOddOdd(x, y);
  }

  /** The lowest bit of a sum, and the rest as a sum with the carry, up to the bit that falls off. */
  lemma SumWords(a: bv32, b: bv32)
    ensures Odd(Sum(a, b)) <==> Odd(a) != Odd(b)
    ensures Odd(Sum1(a, b)) <==> Odd(a) == Odd(b)
    ensures Alike(HalfWord(Sum(a, b)), Carried(HalfWord(a), HalfWord(b), Odd(a) && Odd(b)))
    ensures Alike(HalfWord(Sum1(a, b)), Carried(HalfWord(a), HalfWord(b), Odd(a) || Odd(b)))
  {
    hide HalfWord, Odd, Sum, Sum1, Even2, Odd2, Alike;
    var x, y := HalfWord(a), HalfWord(b);
    Halves(a);
    Halves(b);
    SumDoubles(x, y);
    HalfEven(Sum(x, y));
    HalfEven(Sum1(x, y));
    HalfOdd(Sum(x, y));
    HalfOdd(Sum1(x, y));
  }

  function Carried(a: bv32, b: bv32, c: bool): bv32 {
    if c then Sum1(a, b) else Sum(a, b)
  }

  lemma AddDigits(p: nat, s: nat, r: nat)
    requires p > 0 && s < 2
    ensures (s + 2 * r) % (2 * p) == s + 2 * (r % p)
  {
    var q := r / p;
    assert r == q * p + r % p;
    Doubled(q, p);
    DivModUnique(s + 2 * r, 2 * p, q, s + 2 * (r % p));
  }

  /** One digit of a sum with carry. */
  lemma CarriedStep(a: bv32, b: bv32, c: bool, n: nat)
    requires 0 < n <= 32
    ensures var d := if c then Odd(a) || Odd(b) else Odd(a) && Odd(b);
            && Val(Carried(a, b, c), n) % 2 == (if (Odd(a) != Odd(b)) != c then 1 else 0)
            && Val(Carried(a, b, c), n) / 2 == Val(Carried(HalfWord(a), HalfWord(b), d), n - 1)
  {
    hide Val, Odd, HalfWord, Sum, Sum1, Alike;
    var d := if c then Odd(a) || Odd(b) else Odd(a) && Odd(b);
    SumWords(a, b);
    AlikeVal(HalfWord(Carried(a, b, c)), Carried(HalfWord(a), HalfWord(b), d), n - 1);
    ValStep(Carried(a, b, c), n);
  }

  lemma {:induction false} AddVal(a: bv32, b: bv32, c: bool, n: nat)
    requires n <= 32
    ensures Pow2(n) > 0 && Val(Carried(a, b, c), n) == (Val(a, n) + Val(b, n) + if c then 1 else 0) % Pow2(n)
    decreases n
  {
    hide Val, Odd, HalfWord, Sum, Sum1, Pow2, Carried;
    if n == 0 {
      ValNothing(Carried(a, b, c));
      Pow2Zero();
    } else {
      var d := if c then Odd(a) || Odd(b) else Odd(a) && Odd(b);
      AddVal(HalfWord(a), HalfWord(b), d, n - 1);
      CarriedStep(a, b, c, n);
      ValStep(a, n);
      ValStep(b, n);
      Pow2Next(n);
      AddDigits(Pow2(n - 1), if (Odd(a) != Odd(b)) != c then 1 else 0,
                Val(HalfWord(a), n - 1) + Val(HalfWord(b), n - 1) + if d then 1 else 0);
    }
  }

  lemma Pow2Zero()
    ensures Pow2(0) == 1
  {
  }

  lemma SumNum(a: bv32, b: bv32)
    ensures Num(Sum(a, b)) == Add32(Num(a), Num(b))
  {
    hide Val, Pow2, Sum;
    AddVal(a, b, false, 32);
    Pow2Values();
  }

  // ---------------------------------------------------------------- shifts and rotations

  lemma TurnedBit(b: bv32)
    ensures b << 31 == if Odd(b) then 0x8000_0000 else 0
  {
  }

  lemma OneTurn(x: u32)
    ensures Rotr32(x, 1) == (x % 2) * 0x8000_0000 + x / 2
  {
    hide Pow2;
    Pow2Values();
    Pow2Next(32);
  }

  lemma RotrTwice(x: u32, j: nat, k: nat)
    requires 0 < j && 0 < k && j + k < 32
    ensures Rotr32(Rotr32(x, j), k) == Rotr32(x, j + k)
  {
    hide BitAt, Pow2, Rotr32;
    var y, z := Rotr32(Rotr32(x, j), k), Rotr32(x, j + k);
    Pow2Values();
    forall i | 0 <= i < 32
      ensures BitAt(y, i) == BitAt(z, i)
    {
      Rotr32Bit(Rotr32(x, j), k, i);
      Rotr32Bit(x, j, (i + k) % 32);
      Rotr32Bit(x, j + k, i);
    }
    SameBits(y, z, 32);
  }

  // `rotr(x, n)` for each distance that the sigmas use, and for those that build them up.

  function Rotr1(x: bv32): bv32 {
    (x >> 1) | (x << 31)
  }

  function Rotr2(x: bv32): bv32 {
    (x >> 2) | (x << 30)
  }

  function Rotr4(x: bv32): bv32 {
    (x >> 4) | (x << 28)
  }

  function Rotr6(x: bv32): bv32 {
    (x >> 6) | (x << 26)
  }

  function Rotr7(x: bv32): bv32 {
    (x >> 7) | (x << 25)
  }

  function Rotr11(x: bv32): bv32 {
    (x >> 11) | (x << 21)
  }

  function Rotr13(x: bv32): bv32 {
    (x >> 13) | (x << 19)
  }

  function Rotr17(x: bv32): bv32 {
    (x >> 17) | (x << 15)
  }

  function Rotr18(x: bv32): bv32 {
    (x >> 18) | (x << 14)
  }

  function Rotr19(x: bv32): bv32 {
    (x >> 19) | (x << 13)
  }

  function Rotr22(x: bv32): bv32 {
    (x >> 22) | (x << 10)
  }

  function Rotr25(x: bv32): bv32 {
    (x >> 25) | (x << 7)
  }

  lemma Rotr1Num(b: bv32)
    ensures Num(Rotr1(b)) == Rotr32(Num(b), 1)
  {
    hide Val, Or, Odd, HalfWord, Pow2, Rotate;
    HalfNum(b);
    TurnedBit(b);
    ValStep(b, 32);
    OrVal(b >> 1, b << 31, 32);
    LiteralWords();
    Pow2Values();
    Pow2Next(32);
    OrShifted(Num(b) / 2, 1, 31);
    OrZero(Num(b) / 2);
    OneTurn(Num(b));
  }

  lemma Rotr2Num(b: bv32)
    ensures Num(Rotr2(b)) == Rotr32(Num(b), 2)
  {
    hide Num, Rotr32;
    assert Rotr2(b) == Rotr1(Rotr1(b));
    Rotr1Num(b);
    Rotr1Num(Rotr1(b));
    RotrTwice(Num(b), 1, 1);
  }

  lemma Rotr4Num(b: bv32)
    ensures Num(Rotr4(b)) == Rotr32(Num(b), 4)
  {
    hide Num, Rotr32;
    assert Rotr4(b) == Rotr2(Rotr2(b));
    Rotr2Num(b);
    Rotr2Num(Rotr2(b));
    RotrTwice(Num(b), 2, 2);
  }

  lemma Rotr6Num(b: bv32)
    ensures Num(Rotr6(b)) == Rotr32(Num(b), 6)
  {
    hide Num, Rotr32;
    assert Rotr6(b) == Rotr2(Rotr4(b));
    Rotr4Num(b);
    Rotr2Num(Rotr4(b));
    RotrTwice(Num(b), 4, 2);
  }

  lemma Rotr7Num(b: bv32)
    ensures Num(Rotr7(b)) == Rotr32(Num(b), 7)
  {
    hide Num, Rotr32;
    assert Rotr7(b) == Rotr1(Rotr6(b));
    Rotr6Num(b);
    Rotr1Num(Rotr6(b));
    RotrTwice(Num(b), 6, 1);
  }

  lemma Rotr11Num(b: bv32)
    ensures Num(Rotr11(b)) == Rotr32(Num(b), 11)
  {
    hide Num, Rotr32;
    assert Rotr11(b) == Rotr4(Rotr7(b));
    Rotr7Num(b);
    Rotr4Num(Rotr7(b));
    RotrTwice(Num(b), 7, 4);
  }

  lemma Rotr13Num(b: bv32)
    ensures Num(Rotr13(b)) == Rotr32(Num(b), 13)
  {
    hide Num, Rotr32;
    assert Rotr13(b) == Rotr6(Rotr7(b));
    Rotr7Num(b);
    Rotr6Num(Rotr7(b));
    RotrTwice(Num(b), 7, 6);
  }

  lemma Rotr17Num(b: bv32)
    ensures Num(Rotr17(b)) == Rotr32(Num(b), 17)
  {
    hide Num, Rotr32;
    assert Rotr17(b) == Rotr6(Rotr11(b));
    Rotr11Num(b);
    Rotr6Num(Rotr11(b));
    RotrTwice(Num(b), 11, 6);
  }

  lemma Rotr18Num(b: bv32)
    ensures Num(Rotr18(b)) == Rotr32(Num(b), 18)
  {
    hide Num, Rotr32;
    assert Rotr18(b) == Rotr7(Rotr11(b));
    Rotr11Num(b);
    Rotr7Num(Rotr11(b));
    RotrTwice(Num(b), 11, 7);
  }

  lemma Rotr19Num(b: bv32)
    ensures Num(Rotr19(b)) == Rotr32(Num(b), 19)
  {
    hide Num, Rotr32;
    assert Rotr19(b) == Rotr6(Rotr13(b));
    Rotr13Num(b);
    Rotr6Num(Rotr13(b));
    RotrTwice(Num(b), 13, 6);
  }

  lemma Rotr22Num(b: bv32)
    ensures Num(Rotr22(b)) == Rotr32(Num(b), 22)
  {
    hide Num, Rotr32;
    assert Rotr22(b) == Rotr11(Rotr11(b));
    Rotr11Num(b);
    Rotr11Num(Rotr11(b));
    RotrTwice(Num(b), 11, 11);
  }

  lemma Rotr25Num(b: bv32)
    ensures Num(Rotr25(b)) == Rotr32(Num(b), 25)
  {
    hide Num, Rotr32;
    assert Rotr25(b) == Rotr7(Rotr18(b));
    Rotr18Num(b);
    Rotr7Num(Rotr18(b));
    RotrTwice(Num(b), 18, 7);
  }

  // `x >> 3` and `x >> 10`

  function Down3(b: bv32): bv32 {
    b >> 3
  }

  function Down5(b: bv32): bv32 {
    b >> 5
  }

  function Down10(b: bv32): bv32 {
    b >> 10
  }

  function Halved(b: bv32, k: nat): bv32
    decreases k
  {
    if k == 0 then b else Halved(HalfWord(b), k - 1)
  }

  lemma HalfNumber(b: bv32)
    ensures Num(HalfWord(b)) == Num(b) / 2
  {
    hide Num;
    HalfNum(b);
  }

  lemma {:induction false} HalvedNum(b: bv32, k: nat)
    ensures Num(Halved(b, k)) == Shr32(Num(b), k)
    decreases k
  {
    hide Num, HalfWord;
    if k > 0 {
      HalvedNum(HalfWord(b), k - 1);
      HalfNumber(b);
    }
  }

  lemma ThreeHalves(b: bv32)
    ensures HalfWord(HalfWord(HalfWord(b))) == Down3(b)
  {
  }

  lemma TwoHalves(b: bv32)
    ensures HalfWord(HalfWord(Down3(b))) == Down5(b)
  {
  }

  lemma TwoFives(b: bv32)
    ensures Down5(Down5(b)) == Down10(b)
  {
  }

  lemma Down3Num(b: bv32)
    ensures Num(Down3(b)) == Shr32(Num(b), 3)
  {
    hide Num, HalfWord, Shr32, Down3;
    ThreeHalves(b);
    assert Halved(b, 3) == Down3(b);
    HalvedNum(b, 3);
  }

  lemma Down5Num(b: bv32)
    ensures Num(Down5(b)) == Shr32(Num(b), 5)
  {
    hide Num, HalfWord, Shr, Down3, Down5;
    TwoHalves(b);
    assert Halved(Down3(b), 2) == Down5(b);
    Down3Num(b);
    HalvedNum(Down3(b), 2);
    ShrShr(Num(b), 3, 2);
  }

  lemma Down10Num(b: bv32)
    ensures Num(Down10(b)) == Shr32(Num(b), 10)
  {
    hide Num, Shr, Down5, Down10;
    TwoFives(b);
    Down5Num(b);
    Down5Num(Down5(b));
    ShrShr(Num(b), 5, 5);
  }
}
