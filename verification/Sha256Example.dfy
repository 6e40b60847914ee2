/** The one-block example of FIPS 180-4: the digest of "abc", derived round by round. */
module Sha256Example {
  import opened Bits
  import opened Memory
  import opened BlockFold
  import opened Sha256Spec
  import opened MachineWords
  import opened Sha256Machine

  function Abc(): seq<u8> {
    [0x61, 0x62, 0x63]
  }

  /** The one block that "abc" is padded to. */
  function AbcBlock(): Block64 {
    Abc() + [0x80] + Zeros(52) + [0, 0, 0, 0, 0, 0, 0, 24]
  }

  lemma AbcPadded()
    ensures PaddedWith(Abc(), 24) == AbcBlock()
  {
    assert BigEndian(24, 8) == [0, 0, 0, 0, 0, 0, 0, 24];
    assert ZeroCount(3) == 52;
  }

  // ---------------------------------------------------------------- the message schedule

  // Each lemma takes the block as a parameter, so that no literal is unfolded further than it says.

  /** Word t of the schedule of a block is w. */
  predicate WordIs(m: Block64, t: nat, w: bv32) {
    t < 64 && Schedule(m, t) == Num(w)
  }

  lemma FirstWord(m: Block64, t: nat, w: bv32)
    requires t < 16 && m == AbcBlock()
    requires Num(w) == if t == 0 then 0x61626380 else if t == 15 then 24 else 0
    ensures WordIs(m, t, w)
  {
    hide Num;
  }

  lemma NextWord(m: Block64, t: nat, w2: bv32, w7: bv32, w15: bv32, w16: bv32, w: bv32)
    requires 16 <= t < 64 && w == Expanded(w2, w7, w15, w16)
    requires WordIs(m, t - 2, w2) && WordIs(m, t - 7, w7) && WordIs(m, t - 15, w15) && WordIs(m, t - 16, w16)
    ensures WordIs(m, t, w)
  {
    hide Num, Expand, Expanded;
    ExpandedNum(w2, w7, w15, w16);
  }

  lemma WordsFrom0(m: Block64)
    requires m == AbcBlock()
    ensures WordIs(m, 0, 0x61626380) && WordIs(m, 1, 0x00000000) && WordIs(m, 2, 0x00000000)
    ensures WordIs(m, 3, 0x00000000) && WordIs(m, 4, 0x00000000) && WordIs(m, 5, 0x00000000)
    ensures WordIs(m, 6, 0x00000000) && WordIs(m, 7, 0x00000000) && WordIs(m, 8, 0x00000000)
    ensures WordIs(m, 9, 0x00000000) && WordIs(m, 10, 0x00000000) && WordIs(m, 11, 0x00000000)
    ensures WordIs(m, 12, 0x00000000) && WordIs(m, 13, 0x00000000) && WordIs(m, 14, 0x00000000)
    ensures WordIs(m, 15, 0x00000018)
  {
    hide Num, WordIs;
    Literal(0x61626380);
    Literal(0);
    Literal(24);
    forall t | 1 <= t < 15
      ensures WordIs(m, t, 0)
    {
      FirstWord(m, t, 0);
    }
    FirstWord(m, 0, 0x61626380);
    FirstWord(m, 15, 24);
  }

  lemma WordsFrom16(m: Block64)
    requires m == AbcBlock()
    ensures WordIs(m, 16, 0x61626380) && WordIs(m, 17, 0x000f0000) && WordIs(m, 18, 0x7da86405)
    ensures WordIs(m, 19, 0x600003c6) && WordIs(m, 20, 0x3e9d7b78) && WordIs(m, 21, 0x0183fc00)
    ensures WordIs(m, 22, 0x12dcbfdb) && WordIs(m, 23, 0xe2e2c38e)
  {
    hide WordIs;
    WordsFrom0(m);
    NextWord(m, 16, 0x00000000, 0x00000000, 0x00000000, 0x61626380, 0x61626380);
    NextWord(m, 17, 0x00000018, 0x00000000, 0x00000000, 0x00000000, 0x000f0000);
    NextWord(m, 18, 0x61626380, 0x00000000, 0x00000000, 0x00000000, 0x7da86405);
    NextWord(m, 19, 0x000f0000, 0x00000000, 0x00000000, 0x00000000, 0x600003c6);
    NextWord(m, 20, 0x7da86405, 0x00000000, 0x00000000, 0x00000000, 0x3e9d7b78);
    NextWord(m, 21, 0x600003c6, 0x00000000, 0x00000000, 0x00000000, 0x0183fc00);
    NextWord(m, 22, 0x3e9d7b78, 0x00000018, 0x00000000, 0x00000000, 0x12dcbfdb);
    NextWord(m, 23, 0x0183fc00, 0x61626380, 0x00000000, 0x00000000, 0xe2e2c38e);
  }

  lemma WordsFrom24(m: Block64)
    requires m == AbcBlock()
    ensures WordIs(m, 24, 0xc8215c1a) && WordIs(m, 25, 0xb73679a2) && WordIs(m, 26, 0xe5bc3909)
    ensures WordIs(m, 27, 0x32663c5b) && WordIs(m, 28, 0x9d209d67) && WordIs(m, 29, 0xec8726cb)
    ensures WordIs(m, 30, 0x702138a4) && WordIs(m, 31, 0xd3b7973b)
  {
    hide WordIs;
    WordsFrom0(m);
    WordsFrom16(m);
    NextWord(m, 24, 0x12dcbfdb, 0x000f0000, 0x00000000, 0x00000000, 0xc8215c1a);
    NextWord(m, 25, 0xe2e2c38e, 0x7da86405, 0x00000000, 0x00000000, 0xb73679a2);
    NextWord(m, 26, 0xc8215c1a, 0x600003c6, 0x00000000, 0x00000000, 0xe5bc3909);
    NextWord(m, 27, 0xb73679a2, 0x3e9d7b78, 0x00000000, 0x00000000, 0x32663c5b);
    NextWord(m, 28, 0xe5bc3909, 0x0183fc00, 0x00000000, 0x00000000, 0x9d209d67);
    NextWord(m, 29, 0x32663c5b, 0x12dcbfdb, 0x00000000, 0x00000000, 0xec8726cb);
    NextWord(m, 30, 0x9d209d67, 0xe2e2c38e, 0x00000018, 0x00000000, 0x702138a4);
    NextWord(m, 31, 0xec8726cb, 0xc8215c1a, 0x61626380, 0x00000018, 0xd3b7973b);
  }

  lemma WordsFrom32(m: Block64)
    requires m == AbcBlock()
    ensures WordIs(m, 32, 0x93f5997f) && WordIs(m, 33, 0x3b68ba73) && WordIs(m, 34, 0xaff4ffc1)
    ensures WordIs(m, 35, 0xf10a5c62) && WordIs(m, 36, 0x0a8b3996) && WordIs(m, 37, 0x72af830a)
    ensures WordIs(m, 38, 0x9409e33e) && WordIs(m, 39, 0x24641522)
  {
    hide WordIs;
    WordsFrom16(m);
    WordsFrom24(m);
    NextWord(m, 32, 0x702138a4, 0xb73679a2, 0x000f0000, 0x61626380, 0x93f5997f);
    NextWord(m, 33, 0xd3b7973b, 0xe5bc3909, 0x7da86405, 0x000f0000, 0x3b68ba73);
    NextWord(m, 34, 0x93f5997f, 0x32663c5b, 0x600003c6, 0x7da86405, 0xaff4ffc1);
    NextWord(m, 35, 0x3b68ba73, 0x9d209d67, 0x3e9d7b78, 0x600003c6, 0xf10a5c62);
    NextWord(m, 36, 0xaff4ffc1, 0xec8726cb, 0x0183fc00, 0x3e9d7b78, 0x0a8b3996);
    NextWord(m, 37, 0xf10a5c62, 0x702138a4, 0x12dcbfdb, 0x0183fc00, 0x72af830a);
    NextWord(m, 38, 0x0a8b3996, 0xd3b7973b, 0xe2e2c38e, 0x12dcbfdb, 0x9409e33e);
    NextWord(m, 39, 0x72af830a, 0x93f5997f, 0xc8215c1a, 0xe2e2c38e, 0x24641522);
  }

  lemma WordsFrom40(m: Block64)
    requires m == AbcBlock()
    ensures WordIs(m, 40, 0x9f47bf94) && WordIs(m, 41, 0xf0a64f5a) && WordIs(m, 42, 0x3e246a79)
    ensures WordIs(m, 43, 0x27333ba3) && WordIs(m, 44, 0x0c4763f2) && WordIs(m, 45, 0x840abf27)
    ensures WordIs(m, 46, 0x7a290d5d) && WordIs(m, 47, 0x065c43da)
  {
    hide WordIs;
    WordsFrom24(m);
    WordsFrom32(m);
    NextWord(m, 40, 0x9409e33e, 0x3b68ba73, 0xb73679a2, 0xc8215c1a, 0x9f47bf94);
    NextWord(m, 41, 0x24641522, 0xaff4ffc1, 0xe5bc3909, 0xb73679a2, 0xf0a64f5a);
    NextWord(m, 42, 0x9f47bf94, 0xf10a5c62, 0x32663c5b, 0xe5bc3909, 0x3e246a79);
    NextWord(m, 43, 0xf0a64f5a, 0x0a8b3996, 0x9d209d67, 0x32663c5b, 0x27333ba3);
    NextWord(m, 44, 0x3e246a79, 0x72af830a, 0xec8726cb, 0x9d209d67, 0x0c4763f2);
    NextWord(m, 45, 0x27333ba3, 0x9409e33e, 0x702138a4, 0xec8726cb, 0x840abf27);
    NextWord(m, 46, 0x0c4763f2, 0x24641522, 0xd3b7973b, 0x702138a4, 0x7a290d5d);
    NextWord(m, 47, 0x840abf27, 0x9f47bf94, 0x93f5997f, 0xd3b7973b, 0x065c43da);
  }

  lemma WordsFrom48(m: Block64)
    requires m == AbcBlock()
    ensures WordIs(m, 48, 0xfb3e89cb) && WordIs(m, 49, 0xcc7617db) && WordIs(m, 50, 0xb9e66c34)
    ensures WordIs(m, 51, 0xa9993667) && WordIs(m, 52, 0x84badedd) && WordIs(m, 53, 0xc21462bc)
    ensures WordIs(m, 54, 0x1487472c) && WordIs(m, 55, 0xb20f7a99)
  {
    hide WordIs;
    WordsFrom32(m);
    WordsFrom40(m);
    NextWord(m, 48, 0x7a290d5d, 0xf0a64f5a, 0x3b68ba73, 0x93f5997f, 0xfb3e89cb);
    NextWord(m, 49, 0x065c43da, 0x3e246a79, 0xaff4ffc1, 0x3b68ba73, 0xcc7617db);
    NextWord(m, 50, 0xfb3e89cb, 0x27333ba3, 0xf10a5c62, 0xaff4ffc1, 0xb9e66c34);
    NextWord(m, 51, 0xcc7617db, 0x0c4763f2, 0x0a8b3996, 0xf10a5c62, 0xa9993667);
    NextWord(m, 52, 0xb9e66c34, 0x840abf27, 0x72af830a, 0x0a8b3996, 0x84badedd);
    NextWord(m, 53, 0xa9993667, 0x7a290d5d, 0x9409e33e, 0x72af830a, 0xc21462bc);
    NextWord(m, 54, 0x84badedd, 0x065c43da, 0x24641522, 0x9409e33e, 0x1487472c);
    NextWord(m, 55, 0xc21462bc, 0xfb3e89cb, 0x9f47bf94, 0x24641522, 0xb20f7a99);
  }

  lemma WordsFrom56(m: Block64)
    requires m == AbcBlock()
    ensures WordIs(m, 56, 0xef57b9cd) && WordIs(m, 57, 0xebe6b238) && WordIs(m, 58, 0x9fe3095e)
    ensures WordIs(m, 59, 0x78bc8d4b) && WordIs(m, 60, 0xa43fcf15) && WordIs(m, 61, 0x668b2ff8)
    ensures WordIs(m, 62, 0xeeaba2cc) && WordIs(m, 63, 0x12b1edeb)
  {
    hide WordIs;
    WordsFrom40(m);
    WordsFrom48(m);
    NextWord(m, 56, 0x1487472c, 0xcc7617db, 0xf0a64f5a, 0x9f47bf94, 0xef57b9cd);
    NextWord(m, 57, 0xb20f7a99, 0xb9e66c34, 0x3e246a79, 0xf0a64f5a, 0xebe6b238);
    NextWord(m, 58, 0xef57b9cd, 0xa9993667, 0x27333ba3, 0x3e246a79, 0x9fe3095e);
    NextWord(m, 59, 0xebe6b238, 0x84badedd, 0x0c4763f2, 0x27333ba3, 0x78bc8d4b);
    NextWord(m, 60, 0x9fe3095e, 0xc21462bc, 0x840abf27, 0x0c4763f2, 0xa43fcf15);
    NextWord(m, 61, 0x78bc8d4b, 0x1487472c, 0x7a290d5d, 0x840abf27, 0x668b2ff8);
    NextWord(m, 62, 0xa43fcf15, 0xb20f7a99, 0x065c43da, 0x7a290d5d, 0xeeaba2cc);
    NextWord(m, 63, 0x668b2ff8, 0xef57b9cd, 0xfb3e89cb, 0x065c43da, 0x12b1edeb);
  }

  // ---------------------------------------------------------------- the rounds

  /** Round constant t is k. */
  predicate ConstantIs(t: nat, k: bv32) {
    t < 64 && RoundConstant(t) == Num(k)
  }

  lemma ConstantsFrom0()
    ensures ConstantIs(0, 0x428a2f98) && ConstantIs(1, 0x71374491)
    ensures ConstantIs(2, 0xb5c0fbcf) && ConstantIs(3, 0xe9b5dba5)
  {
    hide Num;
    Literal(0x428a2f98);
    Literal(0x71374491);
    Literal(0xb5c0fbcf);
    Literal(0xe9b5dba5);
  }

  lemma ConstantsFrom4()
    ensures ConstantIs(4, 0x3956c25b) && ConstantIs(5, 0x59f111f1)
    ensures ConstantIs(6, 0x923f82a4) && ConstantIs(7, 0xab1c5ed5)
  {
    hide Num;
    Literal(0x3956c25b);
    Literal(0x59f111f1);
    Literal(0x923f82a4);
    Literal(0xab1c5ed5);
  }

  lemma ConstantsFrom8()
    ensures ConstantIs(8, 0xd807aa98) && ConstantIs(9, 0x12835b01)
    ensures ConstantIs(10, 0x243185be) && ConstantIs(11, 0x550c7dc3)
  {
    hide Num;
    Literal(0xd807aa98);
    Literal(0x12835b01);
    Literal(0x243185be);
    Literal(0x550c7dc3);
  }

  lemma ConstantsFrom12()
    ensures ConstantIs(12, 0x72be5d74) && ConstantIs(13, 0x80deb1fe)
    ensures ConstantIs(14, 0x9bdc06a7) && ConstantIs(15, 0xc19bf174)
  {
    hide Num;
    Literal(0x72be5d74);
    Literal(0x80deb1fe);
    Literal(0x9bdc06a7);
    Literal(0xc19bf174);
  }

  lemma ConstantsFrom16()
    ensures ConstantIs(16, 0xe49b69c1) && ConstantIs(17, 0xefbe4786)
    ensures ConstantIs(18, 0x0fc19dc6) && ConstantIs(19, 0x240ca1cc)
  {
    hide Num;
    Literal(0xe49b69c1);
    Literal(0xefbe4786);
    Literal(0x0fc19dc6);
    Literal(0x240ca1cc);
  }

  lemma ConstantsFrom20()
    ensures ConstantIs(20, 0x2de92c6f) && ConstantIs(21, 0x4a7484aa)
    ensures ConstantIs(22, 0x5cb0a9dc) && ConstantIs(23, 0x76f988da)
  {
    hide Num;
    Literal(0x2de92c6f);
    Literal(0x4a7484aa);
    Literal(0x5cb0a9dc);
    Literal(0x76f988da);
  }

  lemma ConstantsFrom24()
    ensures ConstantIs(24, 0x983e5152) && ConstantIs(25, 0xa831c66d)
    ensures ConstantIs(26, 0xb00327c8) && ConstantIs(27, 0xbf597fc7)
  {
    hide Num;
    Literal(0x983e5152);
    Literal(0xa831c66d);
    Literal(0xb00327c8);
    Literal(0xbf597fc7);
  }

  lemma ConstantsFrom28()
    ensures ConstantIs(28, 0xc6e00bf3) && ConstantIs(29, 0xd5a79147)
    ensures ConstantIs(30, 0x06ca6351) && ConstantIs(31, 0x14292967)
  {
    hide Num;
    Literal(0xc6e00bf3);
    Literal(0xd5a79147);
    Literal(0x06ca6351);
    Literal(0x14292967);
  }

  lemma ConstantsFrom32()
    ensures ConstantIs(32, 0x27b70a85) && ConstantIs(33, 0x2e1b2138)
    ensures ConstantIs(34, 0x4d2c6dfc) && ConstantIs(35, 0x53380d13)
  {
    hide Num;
    Literal(0x27b70a85);
    Literal(0x2e1b2138);
    Literal(0x4d2c6dfc);
    Literal(0x53380d13);
  }

  lemma ConstantsFrom36()
    ensures ConstantIs(36, 0x650a7354) && ConstantIs(37, 0x766a0abb)
    ensures ConstantIs(38, 0x81c2c92e) && ConstantIs(39, 0x92722c85)
  {
    hide Num;
    Literal(0x650a7354);
    Literal(0x766a0abb);
    Literal(0x81c2c92e);
    Literal(0x92722c85);
  }

  lemma ConstantsFrom40()
    ensures ConstantIs(40, 0xa2bfe8a1) && ConstantIs(41, 0xa81a664b)
    ensures ConstantIs(42, 0xc24b8b70) && ConstantIs(43, 0xc76c51a3)
  {
    hide Num;
    Literal(0xa2bfe8a1);
    Literal(0xa81a664b);
    Literal(0xc24b8b70);
    Literal(0xc76c51a3);
  }

  lemma ConstantsFrom44()
    ensures ConstantIs(44, 0xd192e819) && ConstantIs(45, 0xd6990624)
    ensures ConstantIs(46, 0xf40e3585) && ConstantIs(47, 0x106aa070)
  {
    hide Num;
    Literal(0xd192e819);
    Literal(0xd6990624);
    Literal(0xf40e3585);
    Literal(0x106aa070);
  }

  lemma ConstantsFrom48()
    ensures ConstantIs(48, 0x19a4c116) && ConstantIs(49, 0x1e376c08)
    ensures ConstantIs(50, 0x2748774c) && ConstantIs(51, 0x34b0bcb5)
  {
    hide Num;
    Literal(0x19a4c116);
    Literal(0x1e376c08);
    Literal(0x2748774c);
    Literal(0x34b0bcb5);
  }

  lemma ConstantsFrom52()
    ensures ConstantIs(52, 0x391c0cb3) && ConstantIs(53, 0x4ed8aa4a)
    ensures ConstantIs(54, 0x5b9cca4f) && ConstantIs(55, 0x682e6ff3)
  {
    hide Num;
    Literal(0x391c0cb3);
    Literal(0x4ed8aa4a);
    Literal(0x5b9cca4f);
    Literal(0x682e6ff3);
  }

  lemma ConstantsFrom56()
    ensures ConstantIs(56, 0x748f82ee) && ConstantIs(57, 0x78a5636f)
    ensures ConstantIs(58, 0x84c87814) && ConstantIs(59, 0x8cc70208)
  {
    hide Num;
    Literal(0x748f82ee);
    Literal(0x78a5636f);
    Literal(0x84c87814);
    Literal(0x8cc70208);
  }

  lemma ConstantsFrom60()
    ensures ConstantIs(60, 0x90befffa) && ConstantIs(61, 0xa4506ceb)
    ensures ConstantIs(62, 0xbef9a3f7) && ConstantIs(63, 0xc67178f2)
  {
    hide Num;
    Literal(0x90befffa);
    Literal(0xa4506ceb);
    Literal(0xbef9a3f7);
    Literal(0xc67178f2);
  }

  /** After t rounds on a block the working variables are r. */
  predicate StepsAre(m: Block64, t: nat, r: Registers) {
    t <= 64 && Steps(IV, m, t) == Read(r)
  }

  function Shifted(r: Registers, a: bv32, e: bv32): Registers {
    Registers(a, r.a, r.b, r.c, e, r.e, r.f, r.g)
  }

  lemma NextRound(m: Block64, t: nat, r: Registers, k: bv32, w: bv32, a: bv32, e: bv32) returns (s: Registers)
    requires StepsAre(m, t, r) && ConstantIs(t, k) && WordIs(m, t, w) && Turned(r, k, w) == Shifted(r, a, e)
    ensures s == Shifted(r, a, e) && StepsAre(m, t + 1, s)
  {
    hide Num, Step, Turned;
    TurnedNum(r, k, w);
    s := Shifted(r, a, e);
  }

  lemma RoundsFrom0(m: Block64)
    requires m == AbcBlock()
    requires StepsAre(m, 0, Registers(
      0x6a09e667, 0xbb67ae85, 0x3c6ef372, 0xa54ff53a, 0x510e527f, 0x9b05688c, 0x1f83d9ab, 0x5be0cd19))
    ensures StepsAre(m, 8, Registers(
      0x85a07b5f, 0xe5030380, 0x2b4209f5, 0x04409a6a, 0x0c657a79, 0x9b27a401, 0x714260ad, 0x43ada245))
  {
    hide WordIs, ConstantIs, StepsAre;
    WordsFrom0(m);
    ConstantsFrom0();
    ConstantsFrom4();
    var r := Registers(
      0x6a09e667, 0xbb67ae85, 0x3c6ef372, 0xa54ff53a, 0x510e527f, 0x9b05688c, 0x1f83d9ab, 0x5be0cd19);
    r := NextRound(m, 0, r, 0x428a2f98, 0x61626380, 0x5d6aebcd, 0xfa2a4622);
    r := NextRound(m, 1, r, 0x71374491, 0x00000000, 0x5a6ad9ad, 0x78ce7989);
    r := NextRound(m, 2, r, 0xb5c0fbcf, 0x00000000, 0xc8c347a7, 0xf92939eb);
    r := NextRound(m, 3, r, 0xe9b5dba5, 0x00000000, 0xd550f666, 0x24e00850);
    r := NextRound(m, 4, r, 0x3956c25b, 0x00000000, 0x04409a6a, 0x43ada245);
    r := NextRound(m, 5, r, 0x59f111f1, 0x00000000, 0x2b4209f5, 0x714260ad);
    r := NextRound(m, 6, r, 0x923f82a4, 0x00000000, 0xe5030380, 0x9b27a401);
    r := NextRound(m, 7, r, 0xab1c5ed5, 0x00000000, 0x85a07b5f, 0x0c657a79);
  }

  lemma RoundsFrom8(m: Block64)
    requires m == AbcBlock()
    requires StepsAre(m, 8, Registers(
      0x85a07b5f, 0xe5030380, 0x2b4209f5, 0x04409a6a, 0x0c657a79, 0x9b27a401, 0x714260ad, 0x43ada245))
    ensures StepsAre(m, 16, Registers(
      0xb0fa238e, 0xc0645fde, 0xd932eb16, 0x87912990, 0x07590dcd, 0x0b92f20c, 0x745a48de, 0x1e578218))
  {
    hide WordIs, ConstantIs, StepsAre;
    WordsFrom0(m);
    ConstantsFrom8();
    ConstantsFrom12();
    var r := Registers(
      0x85a07b5f, 0xe5030380, 0x2b4209f5, 0x04409a6a, 0x0c657a79, 0x9b27a401, 0x714260ad, 0x43ada245);
    r := NextRound(m, 8, r, 0xd807aa98, 0x00000000, 0x8e04ecb9, 0x32ca2d8c);
    r := NextRound(m, 9, r, 0x12835b01, 0x00000000, 0x8c87346b, 0x1cc92596);
    r := NextRound(m, 10, r, 0x243185be, 0x00000000, 0x4798a3f4, 0x436b23e8);
    r := NextRound(m, 11, r, 0x550c7dc3, 0x00000000, 0xf71fc5a9, 0x816fd6e9);
    r := NextRound(m, 12, r, 0x72be5d74, 0x00000000, 0x87912990, 0x1e578218);
    r := NextRound(m, 13, r, 0x80deb1fe, 0x00000000, 0xd932eb16, 0x745a48de);
    r := NextRound(m, 14, r, 0x9bdc06a7, 0x00000000, 0xc0645fde, 0x0b92f20c);
    r := NextRound(m, 15, r, 0xc19bf174, 0x00000018, 0xb0fa238e, 0x07590dcd);
  }

  lemma RoundsFrom16(m: Block64)
    requires m == AbcBlock()
    requires StepsAre(m, 16, Registers(
      0xb0fa238e, 0xc0645fde, 0xd932eb16, 0x87912990, 0x07590dcd, 0x0b92f20c, 0x745a48de, 0x1e578218))
    ensures StepsAre(m, 24, Registers(
      0xc5d53d8d, 0xa7a3623f, 0xc2606d6d, 0x9dc68b63, 0xaa47c347, 0x49f5114a, 0xe1257970, 0x8ada8930))
  {
    hide WordIs, ConstantIs, StepsAre;
    WordsFrom16(m);
    ConstantsFrom16();
    ConstantsFrom20();
    var r := Registers(
      0xb0fa238e, 0xc0645fde, 0xd932eb16, 0x87912990, 0x07590dcd, 0x0b92f20c, 0x745a48de, 0x1e578218);
    r := NextRound(m, 16, r, 0xe49b69c1, 0x61626380, 0x21da9a9b, 0x8034229c);
    r := NextRound(m, 17, r, 0xefbe4786, 0x000f0000, 0xc2fbd9d1, 0x846ee454);
    r := NextRound(m, 18, r, 0x0fc19dc6, 0x7da86405, 0xfe777bbf, 0xcc899961);
    r := NextRound(m, 19, r, 0x240ca1cc, 0x600003c6, 0xe1f20c33, 0xb0638179);
    r := NextRound(m, 20, r, 0x2de92c6f, 0x3e9d7b78, 0x9dc68b63, 0x8ada8930);
    r := NextRound(m, 21, r, 0x4a7484aa, 0x0183fc00, 0xc2606d6d, 0xe1257970);
    r := NextRound(m, 22, r, 0x5cb0a9dc, 0x12dcbfdb, 0xa7a3623f, 0x49f5114a);
    r := NextRound(m, 23, r, 0x76f988da, 0xe2e2c38e, 0xc5d53d8d, 0xaa47c347);
  }

  lemma RoundsFrom24(m: Block64)
    requires m == AbcBlock()
    requires StepsAre(m, 24, Registers(
      0xc5d53d8d, 0xa7a3623f, 0xc2606d6d, 0x9dc68b63, 0xaa47c347, 0x49f5114a, 0xe1257970, 0x8ada8930))
    ensures StepsAre(m, 32, Registers(
      0x73b33bf5, 0xea992a22, 0xa0060b30, 0x363482c9, 0xba591112, 0x0109ab3a, 0xade79437, 0x6112a3b7))
  {
    hide WordIs, ConstantIs, StepsAre;
    WordsFrom24(m);
    ConstantsFrom24();
    ConstantsFrom28();
    var r := Registers(
      0xc5d53d8d, 0xa7a3623f, 0xc2606d6d, 0x9dc68b63, 0xaa47c347, 0x49f5114a, 0xe1257970, 0x8ada8930);
    r := NextRound(m, 24, r, 0x983e5152, 0xc8215c1a, 0x1c2c2838, 0x2823ef91);
    r := NextRound(m, 25, r, 0xa831c66d, 0xb73679a2, 0xcde8037d, 0x14383d8e);
    r := NextRound(m, 26, r, 0xb00327c8, 0xe5bc3909, 0xb62ec4bc, 0xc74c6516);
    r := NextRound(m, 27, r, 0xbf597fc7, 0x32663c5b, 0x77d37528, 0xedffbff8);
    r := NextRound(m, 28, r, 0xc6e00bf3, 0x9d209d67, 0x363482c9, 0x6112a3b7);
    r := NextRound(m, 29, r, 0xd5a79147, 0xec8726cb, 0xa0060b30, 0xade79437);
    r := NextRound(m, 30, r, 0x06ca6351, 0x702138a4, 0xea992a22, 0x0109ab3a);
    r := NextRound(m, 31, r, 0x14292967, 0xd3b7973b, 0x73b33bf5, 0xba591112);
  }

  lemma RoundsFrom32(m: Block64)
    requires m == AbcBlock()
    requires StepsAre(m, 32, Registers(
      0x73b33bf5, 0xea992a22, 0xa0060b30, 0x363482c9, 0xba591112, 0x0109ab3a, 0xade79437, 0x6112a3b7))
    ensures StepsAre(m, 40, Registers(
      0x79ea687a, 0x6dc57a8a, 0x34df1604, 0x41a65cb1, 0x1efbc0a0, 0xf0781bc8, 0xa507a53d, 0x0772a26b))
  {
    hide WordIs, ConstantIs, StepsAre;
    WordsFrom32(m);
    ConstantsFrom32();
    ConstantsFrom36();
    var r := Registers(
      0x73b33bf5, 0xea992a22, 0xa0060b30, 0x363482c9, 0xba591112, 0x0109ab3a, 0xade79437, 0x6112a3b7);
    r := NextRound(m, 32, r, 0x27b70a85, 0x93f5997f, 0x98e12507, 0x9cd9f5f6);
    r := NextRound(m, 33, r, 0x2e1b2138, 0x3b68ba73, 0xfe604df5, 0x59249dd3);
    r := NextRound(m, 34, r, 0x4d2c6dfc, 0xaff4ffc1, 0xa9a7738c, 0x085f3833);
    r := NextRound(m, 35, r, 0x53380d13, 0xf10a5c62, 0x65a0cfe4, 0xf4b002d6);
    r := NextRound(m, 36, r, 0x650a7354, 0x0a8b3996, 0x41a65cb1, 0x0772a26b);
    r := NextRound(m, 37, r, 0x766a0abb, 0x72af830a, 0x34df1604, 0xa507a53d);
    r := NextRound(m, 38, r, 0x81c2c92e, 0x9409e33e, 0x6dc57a8a, 0xf0781bc8);
    r := NextRound(m, 39, r, 0x92722c85, 0x24641522, 0x79ea687a, 0x1efbc0a0);
  }

  lemma RoundsFrom40(m: Block64)
    requires m == AbcBlock()
    requires StepsAre(m, 40, Registers(
      0x79ea687a, 0x6dc57a8a, 0x34df1604, 0x41a65cb1, 0x1efbc0a0, 0xf0781bc8, 0xa507a53d, 0x0772a26b))
    ensures StepsAre(m, 48, Registers(
      0x4172328d, 0xa14c14b0, 0x72ab4b91, 0x26628815, 0xfecf0bc6, 0xd57b94a9, 0xb7755da1, 0xa80f11f0))
  {
    hide WordIs, ConstantIs, StepsAre;
    WordsFrom40(m);
    ConstantsFrom40();
    ConstantsFrom44();
    var r := Registers(
      0x79ea687a, 0x6dc57a8a, 0x34df1604, 0x41a65cb1, 0x1efbc0a0, 0xf0781bc8, 0xa507a53d, 0x0772a26b);
    r := NextRound(m, 40, r, 0xa2bfe8a1, 0x9f47bf94, 0xd6670766, 0x26352d63);
    r := NextRound(m, 41, r, 0xa81a664b, 0xf0a64f5a, 0xdf46652f, 0x838b2711);
    r := NextRound(m, 42, r, 0xc24b8b70, 0x3e246a79, 0x17aa0dfe, 0xdecd4715);
    r := NextRound(m, 43, r, 0xc76c51a3, 0x27333ba3, 0x9d4baf93, 0xfda24c2e);
    r := NextRound(m, 44, r, 0xd192e819, 0x0c4763f2, 0x26628815, 0xa80f11f0);
    r := NextRound(m, 45, r, 0xd6990624, 0x840abf27, 0x72ab4b91, 0xb7755da1);
    r := NextRound(m, 46, r, 0xf40e3585, 0x7a290d5d, 0xa14c14b0, 0xd57b94a9);
    r := NextRound(m, 47, r, 0x106aa070, 0x065c43da, 0x4172328d, 0xfecf0bc6);
  }

  lemma RoundsFrom48(m: Block64)
    requires m == AbcBlock()
    requires StepsAre(m, 48, Registers(
      0x4172328d, 0xa14c14b0, 0x72ab4b91, 0x26628815, 0xfecf0bc6, 0xd57b94a9, 0xb7755da1, 0xa80f11f0))
    ensures StepsAre(m, 56, Registers(
      0x38cc9913, 0x3ec45cdb, 0xf5702fdb, 0x101fd28f, 0x54cb266b, 0xe50e1b4f, 0x9f4787c3, 0x529e7d00))
  {
    hide WordIs, ConstantIs, StepsAre;
    WordsFrom48(m);
    ConstantsFrom48();
    ConstantsFrom52();
    var r := Registers(
      0x4172328d, 0xa14c14b0, 0x72ab4b91, 0x26628815, 0xfecf0bc6, 0xd57b94a9, 0xb7755da1, 0xa80f11f0);
    r := NextRound(m, 48, r, 0x19a4c116, 0xfb3e89cb, 0x05757ceb, 0xbd714038);
    r := NextRound(m, 49, r, 0x1e376c08, 0xcc7617db, 0xf11bfaa8, 0x6e5c390c);
    r := NextRound(m, 50, r, 0x2748774c, 0xb9e66c34, 0x7a0508a1, 0x52f1ccf7);
    r := NextRound(m, 51, r, 0x34b0bcb5, 0xa9993667, 0x886e7a22, 0x49231c1e);
    r := NextRound(m, 52, r, 0x391c0cb3, 0x84badedd, 0x101fd28f, 0x529e7d00);
    r := NextRound(m, 53, r, 0x4ed8aa4a, 0xc21462bc, 0xf5702fdb, 0x9f4787c3);
    r := NextRound(m, 54, r, 0x5b9cca4f, 0x1487472c, 0x3ec45cdb, 0xe50e1b4f);
    r := NextRound(m, 55, r, 0x682e6ff3, 0xb20f7a99, 0x38cc9913, 0x54cb266b);
  }

  lemma RoundsFrom56(m: Block64)
    requires m == AbcBlock()
    requires StepsAre(m, 56, Registers(
      0x38cc9913, 0x3ec45cdb, 0xf5702fdb, 0x101fd28f, 0x54cb266b, 0xe50e1b4f, 0x9f4787c3, 0x529e7d00))
    ensures StepsAre(m, 64, Registers(
      0x506e3058, 0xd39a2165, 0x04d24d6c, 0xb85e2ce9, 0x5ef50f24, 0xfb121210, 0x948d25b6, 0x961f4894))
  {
    hide WordIs, ConstantIs, StepsAre;
    WordsFrom56(m);
    ConstantsFrom56();
    ConstantsFrom60();
    var r := Registers(
      0x38cc9913, 0x3ec45cdb, 0xf5702fdb, 0x101fd28f, 0x54cb266b, 0xe50e1b4f, 0x9f4787c3, 0x529e7d00);
    r := NextRound(m, 56, r, 0x748f82ee, 0xef57b9cd, 0xfcd1887b, 0x9b5e906c);
    r := NextRound(m, 57, r, 0x78a5636f, 0xebe6b238, 0xc062d46f, 0x7e44008e);
    r := NextRound(m, 58, r, 0x84c87814, 0x9fe3095e, 0xffb70472, 0x6d83bfc6);
    r := NextRound(m, 59, r, 0x8cc70208, 0x78bc8d4b, 0xb6ae8fff, 0xb21bad3d);
    r := NextRound(m, 60, r, 0x90befffa, 0xa43fcf15, 0xb85e2ce9, 0x961f4894);
    r := NextRound(m, 61, r, 0xa4506ceb, 0x668b2ff8, 0x04d24d6c, 0x948d25b6);
    r := NextRound(m, 62, r, 0xbef9a3f7, 0xeeaba2cc, 0xd39a2165, 0xfb121210);
    r := NextRound(m, 63, r, 0xc67178f2, 0x12b1edeb, 0x506e3058, 0x5ef50f24);
  }

  lemma AllRounds(m: Block64)
    requires m == AbcBlock()
    ensures StepsAre(m, 64, Registers(
      0x506e3058, 0xd39a2165, 0x04d24d6c, 0xb85e2ce9, 0x5ef50f24, 0xfb121210, 0x948d25b6, 0x961f4894))
  {
    hide StepsAre;
    FirstRegisters(m);
    RoundsFrom0(m);
    RoundsFrom8(m);
    RoundsFrom16(m);
    RoundsFrom24(m);
    RoundsFrom32(m);
    RoundsFrom40(m);
    RoundsFrom48(m);
    RoundsFrom56(m);
  }

  lemma FirstRegisters(m: Block64)
    ensures StepsAre(m, 0, Registers(
      0x6a09e667, 0xbb67ae85, 0x3c6ef372, 0xa54ff53a, 0x510e527f, 0x9b05688c, 0x1f83d9ab, 0x5be0cd19))
  {
    hide Num;
    Literal(0x6a09e667);
    Literal(0xbb67ae85);
    Literal(0x3c6ef372);
    Literal(0xa54ff53a);
    Literal(0x510e527f);
    Literal(0x9b05688c);
    Literal(0x1f83d9ab);
    Literal(0x5be0cd19);
  }

  // ---------------------------------------------------------------- the digest

  lemma LastRegisters()
    ensures Read(Registers(
      0x506e3058, 0xd39a2165, 0x04d24d6c, 0xb85e2ce9, 0x5ef50f24, 0xfb121210, 0x948d25b6, 0x961f4894))
         == Words(0x506e3058, 0xd39a2165, 0x04d24d6c, 0xb85e2ce9, 0x5ef50f24, 0xfb121210, 0x948d25b6, 0x961f4894)
  {
    hide Num;
    Literal(0x506e3058);
    Literal(0xd39a2165);
    Literal(0x04d24d6c);
    Literal(0xb85e2ce9);
    Literal(0x5ef50f24);
    Literal(0xfb121210);
    Literal(0x948d25b6);
    Literal(0x961f4894);
  }

  lemma AbcCompressed(m: Block64)
    requires m == AbcBlock()
    ensures Compress(IV, m)
         == Words(0xba7816bf, 0x8f01cfea, 0x414140de, 0x5dae2223, 0xb00361a3, 0x96177a9c, 0xb410ff61, 0xf20015ad)
  {
    hide Steps, Num, Read;
    AllRounds(m);
    LastRegisters();
  }

  /** One block: the fold over the blocks is the compression of the block. */
  lemma OneBlock(block: Block64)
    ensures HashBlocks(block, 1) == Compress(IV, block)
  {
    hide Compress;
    assert block[..64] == block;
  }

  /** The digest of "abc" that FIPS 180-4 publishes. */
  function AbcBytes(): seq<u8> {
    [0xba, 0x78, 0x16, 0xbf]
    + [0x8f, 0x01, 0xcf, 0xea]
    + [0x41, 0x41, 0x40, 0xde]
    + [0x5d, 0xae, 0x22, 0x23]
    + [0xb0, 0x03, 0x61, 0xa3]
    + [0x96, 0x17, 0x7a, 0x9c]
    + [0xb4, 0x10, 0xff, 0x61]
    + [0xf2, 0x00, 0x15, 0xad]
  }

  lemma AbcOutput()
    ensures Output(Words(
      0xba7816bf, 0x8f01cfea, 0x414140de, 0x5dae2223, 0xb00361a3, 0x96177a9c, 0xb410ff61, 0xf20015ad)) == AbcBytes()
  {
    hide WordBytes;
    AbcWordBytes();
  }

  lemma AbcWordBytes()
    ensures WordBytes(0xba7816bf) == [0xba, 0x78, 0x16, 0xbf]
    ensures WordBytes(0x8f01cfea) == [0x8f, 0x01, 0xcf, 0xea]
    ensures WordBytes(0x414140de) == [0x41, 0x41, 0x40, 0xde]
    ensures WordBytes(0x5dae2223) == [0x5d, 0xae, 0x22, 0x23]
    ensures WordBytes(0xb00361a3) == [0xb0, 0x03, 0x61, 0xa3]
    ensures WordBytes(0x96177a9c) == [0x96, 0x17, 0x7a, 0x9c]
    ensures WordBytes(0xb410ff61) == [0xb4, 0x10, 0xff, 0x61]
    ensures WordBytes(0xf20015ad) == [0xf2, 0x00, 0x15, 0xad]
  {
  }

  /** The specification yields the published digest. */
  lemma AbcDigest()
    ensures Sha256(Abc()) == AbcBytes()
  {
    hide Compress, HashBlocks, PaddedWith;
    AbcPadded();
    OneBlock(AbcBlock());
    AbcCompressed(AbcBlock());
    AbcOutput();
  }
}
