/** The round functions of the hash as the source writes them, on machine words. */
module Sha256Machine {
  import opened Sha256Spec
  import opened MachineWords

  function SourceCh(x: bv32, y: bv32, z: bv32): bv32 {
    XorW(AndW(x, y), AndW(NotW(x), z))
  }

  function SourceMaj(x: bv32, y: bv32, z: bv32): bv32 {
    XorW(XorW(AndW(x, y), AndW(x, z)), AndW(y, z))
  }

  function Ep0(x: bv32): bv32 {
    XorW(XorW(Rotr2(x), Rotr13(x)), Rotr22(x))
  }

  function Ep1(x: bv32): bv32 {
    XorW(XorW(Rotr6(x), Rotr11(x)), Rotr25(x))
  }

  function Sig0(x: bv32): bv32 {
    XorW(XorW(Rotr7(x), Rotr18(x)), Down3(x))
  }

  function Sig1(x: bv32): bv32 {
    XorW(XorW(Rotr17(x), Rotr19(x)), Down10(x))
  }

  lemma ChNum(x: bv32, y: bv32, z: bv32)
    ensures Num(SourceCh(x, y, z)) == Ch(Num(x), Num(y), Num(z))
  {
    hide Num, Xor32, And32, Not32, XorW, AndW, NotW;
    AndNum(x, y);
    NotNum(x);
    AndNum(NotW(x), z);
    XorNum(AndW(x, y), AndW(NotW(x), z));
  }

  lemma MajNum(x: bv32, y: bv32, z: bv32)
    ensures Num(SourceMaj(x, y, z)) == Maj(Num(x), Num(y), Num(z))
  {
    hide Num, Xor32, And32, XorW, AndW;
    AndNum(x, y);
    AndNum(x, z);
    AndNum(y, z);
    XorNum(AndW(x, y), AndW(x, z));
    XorNum(XorW(AndW(x, y), AndW(x, z)), AndW(y, z));
  }

  lemma Ep0Num(x: bv32)
    ensures Num(Ep0(x)) == BigSigma0(Num(x))
  {
    hide Num, Xor32, Rotr32, XorW, Rotr2, Rotr13, Rotr22;
    Rotr2Num(x);
    Rotr13Num(x);
    Rotr22Num(x);
    XorNum(Rotr2(x), Rotr13(x));
    XorNum(XorW(Rotr2(x), Rotr13(x)), Rotr22(x));
  }

  lemma Ep1Num(x: bv32)
    ensures Num(Ep1(x)) == BigSigma1(Num(x))
  {
    hide Num, Xor32, Rotr32, XorW, Rotr6, Rotr11, Rotr25;
    Rotr6Num(x);
    Rotr11Num(x);
    Rotr25Num(x);
    XorNum(Rotr6(x), Rotr11(x));
    XorNum(XorW(Rotr6(x), Rotr11(x)), Rotr25(x));
  }

  lemma Sig0Num(x: bv32)
    ensures Num(Sig0(x)) == SmallSigma0(Num(x))
  {
    hide Num, Xor32, Rotr32, Shr32, XorW, Down3, Rotr7, Rotr18;
    Rotr7Num(x);
    Rotr18Num(x);
    Down3Num(x);
    XorNum(Rotr7(x), Rotr18(x));
    XorNum(XorW(Rotr7(x), Rotr18(x)), Down3(x));
  }

  lemma Sig1Num(x: bv32)
    ensures Num(Sig1(x)) == SmallSigma1(Num(x))
  {
    hide Num, Xor32, Rotr32, Shr32, XorW, Down10, Rotr17, Rotr19;
    Rotr17Num(x);
    Rotr19Num(x);
    Down10Num(x);
    XorNum(Rotr17(x), Rotr19(x));
    XorNum(XorW(Rotr17(x), Rotr19(x)), Down10(x));
  }

  /** The working variables as machine words. */
  datatype Registers = Registers(a: bv32, b: bv32, c: bv32, d: bv32, e: bv32, f: bv32, g: bv32, h: bv32)

  function Read(r: Registers): Words {
    Words(Num(r.a), Num(r.b), Num(r.c), Num(r.d), Num(r.e), Num(r.f), Num(r.g), Num(r.h))
  }

  function Temp1(r: Registers, k: bv32, w: bv32): bv32 {
    Sum(Sum(Sum(Sum(r.h, Ep1(r.e)), SourceCh(r.e, r.f, r.g)), k), w)
  }

  function Temp2(r: Registers): bv32 {
    Sum(Ep0(r.a), SourceMaj(r.a, r.b, r.c))
  }

  /** One turn of the round loop. */
  function Turned(r: Registers, k: bv32, w: bv32): Registers {
    var t1 := Temp1(r, k, w);
    Registers(Sum(t1, Temp2(r)), r.a, r.b, r.c, Sum(r.d, t1), r.e, r.f, r.g)
  }

  lemma Temp1Num(r: Registers, k: bv32, w: bv32)
    ensures Num(Temp1(r, k, w))
         == Add32(Add32(Add32(Add32(Num(r.h), BigSigma1(Num(r.e))), Ch(Num(r.e), Num(r.f), Num(r.g))), Num(k)), Num(w))
  {
    hide Num, Add32, Ch, BigSigma1, Sum, Ep1, SourceCh;
    var s1 := Sum(r.h, Ep1(r.e));
    var s2 := Sum(s1, SourceCh(r.e, r.f, r.g));
    Ep1Num(r.e);
    ChNum(r.e, r.f, r.g);
    SumNum(r.h, Ep1(r.e));
    SumNum(s1, SourceCh(r.e, r.f, r.g));
    SumNum(s2, k);
    SumNum(Sum(s2, k), w);
  }

  lemma Temp2Num(r: Registers)
    ensures Num(Temp2(r)) == Add32(BigSigma0(Num(r.a)), Maj(Num(r.a), Num(r.b), Num(r.c)))
  {
    hide Num, Add32, Maj, BigSigma0, Sum, Ep0, SourceMaj;
    Ep0Num(r.a);
    MajNum(r.a, r.b, r.c);
    SumNum(Ep0(r.a), SourceMaj(r.a, r.b, r.c));
  }

  lemma TurnedNum(r: Registers, k: bv32, w: bv32)
    ensures Read(Turned(r, k, w)) == Step(Read(r), Num(k), Num(w))
  {
    hide Num, Add32, Ch, Maj, BigSigma0, BigSigma1, Sum, Temp1, Temp2;
    Temp1Num(r, k, w);
    Temp2Num(r);
    SumNum(Temp1(r, k, w), Temp2(r));
    SumNum(r.d, Temp1(r, k, w));
  }

  /** `sig1(m[i - 2]) + m[i - 7] + sig0(m[i - 15]) + m[i - 16]` */
  function Expanded(w2: bv32, w7: bv32, w15: bv32, w16: bv32): bv32 {
    Sum(Sum(Sum(Sig1(w2), w7), Sig0(w15)), w16)
  }

  lemma ExpandedNum(w2: bv32, w7: bv32, w15: bv32, w16: bv32)
    ensures Num(Expanded(w2, w7, w15, w16)) == Expand(Num(w2), Num(w7), Num(w15), Num(w16))
  {
    hide Num, Add32, SmallSigma0, SmallSigma1, Sum, Sig0, Sig1;
    Sig1Num(w2);
    Sig0Num(w15);
    SumNum(Sig1(w2), w7);
    SumNum(Sum(Sig1(w2), w7), Sig0(w15));
    SumNum(Sum(Sum(Sig1(w2), w7), Sig0(w15)), w16);
  }
}
