/** SHA-256 as FIPS 180-4 defines it, on whole messages. */
module Sha256Spec {
  import opened Bits
  import opened Memory
  import opened BlockFold

  // ---------------------------------------------------------------- words (sections 3.2 and 4.1.2)

  function Add32(a: u32, b: u32): u32 {
    (a + b) % TWO32
  }

  function Xor32(a: u32, b: u32): u32 {
    Pow2Values();
    XorLess(a, b, 32);
    Xor(a, b)
  }

  function And32(a: u32, b: u32): u32 {
    Pow2Values();
    AndLess(a, b, 32);
    And(a, b)
  }

  function Not32(a: u32): u32 {
    TWO32 - 1 - a
  }

  function Rotr32(x: u32, n: nat): u32
    requires 0 < n < 32
  {
    Pow2Add(32 - n, n);
    Pow2Values();
    RotateLess(x, Pow2(32 - n), Pow2(n));
    Rotate(x, Pow2(32 - n), Pow2(n))
  }

  function Shr32(x: u32, n: nat): u32 {
    ShrAtMost(x, n);
    Shr(x, n)
  }

  function Ch(x: u32, y: u32, z: u32): u32 {
    Xor32(And32(x, y), And32(Not32(x), z))
  }

  function Maj(x: u32, y: u32, z: u32): u32 {
    Xor32(Xor32(And32(x, y), And32(x, z)), And32(y, z))
  }

  function BigSigma0(x: u32): u32 {
    Xor32(Xor32(Rotr32(x, 2), Rotr32(x, 13)), Rotr32(x, 22))
  }

  function BigSigma1(x: u32): u32 {
    Xor32(Xor32(Rotr32(x, 6), Rotr32(x, 11)), Rotr32(x, 25))
  }

  function SmallSigma0(x: u32): u32 {
    Xor32(Xor32(Rotr32(x, 7), Rotr32(x, 18)), Shr32(x, 3))
  }

  function SmallSigma1(x: u32): u32 {
    Xor32(Xor32(Rotr32(x, 17), Rotr32(x, 19)), Shr32(x, 10))
  }

  // ---------------------------------------------------------------- bits of the word functions

  lemma Rotr32Bit(x: u32, n: nat, i: nat)
    requires 0 < n < 32 && i < 32
    ensures BitAt(Rotr32(x, n), i) == BitAt(x, (i + n) % 32)
  {
    hide BitAt, Pow2, Rotate;
    Pow2Values();
    RotatedBit(x, 32 - n, n, i);
  }

  lemma Shr32Bit(x: u32, n: nat, i: nat)
    requires i < 32
    ensures BitAt(Shr32(x, n), i) == if i + n < 32 then BitAt(x, i + n) else 0
  {
    hide BitAt, Pow2, Shr;
    ShrBit(x, n, i);
    if i + n >= 32 {
      Pow2Values();
      Pow2Monotone(32, i + n);
      HighBit(x, 32, i + n);
    }
  }

  lemma Not32Bit(x: u32, i: nat)
    requires i < 32
    ensures BitAt(Not32(x), i) == 1 - BitAt(x, i)
  {
    hide BitAt, Pow2;
    Pow2Values();
    ComplementBit(x, 32, i);
  }

  /** Ch chooses: the bit of y where x has a one, the bit of z where x has a zero. */
  lemma ChBit(x: u32, y: u32, z: u32, i: nat)
    requires i < 32
    ensures BitAt(Ch(x, y, z), i) == if BitAt(x, i) == 1 then BitAt(y, i) else BitAt(z, i)
  {
    hide BitAt, Xor, And, Not32;
    Not32Bit(x, i);
    AndBit(x, y, i);
    AndBit(Not32(x), z, i);
    XorBit(And(x, y), And(Not32(x), z), i);
  }

  /** Maj is one where at least two of its arguments are. */
  lemma MajBit(x: u32, y: u32, z: u32, i: nat)
    ensures BitAt(Maj(x, y, z), i) == if BitAt(x, i) + BitAt(y, i) + BitAt(z, i) >= 2 then 1 else 0
  {
    hide BitAt, Xor, And;
    AndBit(x, y, i);
    AndBit(x, z, i);
    AndBit(y, z, i);
    XorBit(And(x, y), And(x, z), i);
    XorBit(Xor(And(x, y), And(x, z)), And(y, z), i);
  }

  lemma BigSigma0Bit(x: u32, i: nat)
    requires i < 32
    ensures BitAt(BigSigma0(x), i)
         == (BitAt(x, (i + 2) % 32) + BitAt(x, (i + 13) % 32) + BitAt(x, (i + 22) % 32)) % 2
  {
    hide BitAt, Xor, Rotr32;
    Rotr32Bit(x, 2, i);
    Rotr32Bit(x, 13, i);
    Rotr32Bit(x, 22, i);
    XorBit(Rotr32(x, 2), Rotr32(x, 13), i);
    XorBit(Xor(Rotr32(x, 2), Rotr32(x, 13)), Rotr32(x, 22), i);
  }

  lemma BigSigma1Bit(x: u32, i: nat)
    requires i < 32
    ensures BitAt(BigSigma1(x), i)
         == (BitAt(x, (i + 6) % 32) + BitAt(x, (i + 11) % 32) + BitAt(x, (i + 25) % 32)) % 2
  {
    hide BitAt, Xor, Rotr32;
    Rotr32Bit(x, 6, i);
    Rotr32Bit(x, 11, i);
    Rotr32Bit(x, 25, i);
    XorBit(Rotr32(x, 6), Rotr32(x, 11), i);
    XorBit(Xor(Rotr32(x, 6), Rotr32(x, 11)), Rotr32(x, 25), i);
  }

  lemma SmallSigma0Bit(x: u32, i: nat)
    requires i < 32
    ensures BitAt(SmallSigma0(x), i)
         == (BitAt(x, (i + 7) % 32) + BitAt(x, (i + 18) % 32) + if i + 3 < 32 then BitAt(x, i + 3) else 0) % 2
  {
    hide BitAt, Xor, Rotr32, Shr32;
    Rotr32Bit(x, 7, i);
    Rotr32Bit(x, 18, i);
    Shr32Bit(x, 3, i);
    XorBit(Rotr32(x, 7), Rotr32(x, 18), i);
    XorBit(Xor(Rotr32(x, 7), Rotr32(x, 18)), Shr32(x, 3), i);
  }

  lemma SmallSigma1Bit(x: u32, i: nat)
    requires i < 32
    ensures BitAt(SmallSigma1(x), i)
         == (BitAt(x, (i + 17) % 32) + BitAt(x, (i + 19) % 32) + if i + 10 < 32 then BitAt(x, i + 10) else 0) % 2
  {
    hide BitAt, Xor, Rotr32, Shr32;
    Rotr32Bit(x, 17, i);
    Rotr32Bit(x, 19, i);
    Shr32Bit(x, 10, i);
    XorBit(Rotr32(x, 17), Rotr32(x, 19), i);
    XorBit(Xor(Rotr32(x, 17), Rotr32(x, 19)), Shr32(x, 10), i);
  }

  // ---------------------------------------------------------------- constants (sections 4.2.2 and 5.3.3)

  /** Constants 0 to 15. */
  function Constants0(): (k: seq<u32>)
    ensures |k| == 16
  {
    [ 0x428a2f98, 0x71374491, 0xb5c0fbcf, 0xe9b5dba5, 0x3956c25b, 0x59f111f1, 0x923f82a4, 0xab1c5ed5,
      0xd807aa98, 0x12835b01, 0x243185be, 0x550c7dc3, 0x72be5d74, 0x80deb1fe, 0x9bdc06a7, 0xc19bf174 ]
  }

  /** Constants 16 to 31. */
  function Constants1(): (k: seq<u32>)
    ensures |k| == 16
  {
    [ 0xe49b69c1, 0xefbe4786, 0x0fc19dc6, 0x240ca1cc, 0x2de92c6f, 0x4a7484aa, 0x5cb0a9dc, 0x76f988da,
      0x983e5152, 0xa831c66d, 0xb00327c8, 0xbf597fc7, 0xc6e00bf3, 0xd5a79147, 0x06ca6351, 0x14292967 ]
  }

  /** Constants 32 to 47. */
  function Constants2(): (k: seq<u32>)
    ensures |k| == 16
  {
    [ 0x27b70a85, 0x2e1b2138, 0x4d2c6dfc, 0x53380d13, 0x650a7354, 0x766a0abb, 0x81c2c92e, 0x92722c85,
      0xa2bfe8a1, 0xa81a664b, 0xc24b8b70, 0xc76c51a3, 0xd192e819, 0xd6990624, 0xf40e3585, 0x106aa070 ]
  }

  /** Constants 48 to 63. */
  function Constants3(): (k: seq<u32>)
    ensures |k| == 16
  {
    [ 0x19a4c116, 0x1e376c08, 0x2748774c, 0x34b0bcb5, 0x391c0cb3, 0x4ed8aa4a, 0x5b9cca4f, 0x682e6ff3,
      0x748f82ee, 0x78a5636f, 0x84c87814, 0x8cc70208, 0x90befffa, 0xa4506ceb, 0xbef9a3f7, 0xc67178f2 ]
  }

  /** Round constant t. */
  function RoundConstant(t: nat): u32
    requires t < 64
  {
    if t < 16 then Constants0()[t]
    else if t < 32 then Constants1()[t - 16]
    else if t < 48 then Constants2()[t - 32]
    else Constants3()[t - 48]
  }

  /** The eight working variables, and the eight words of a hash value. */
  datatype Words = Words(a: u32, b: u32, c: u32, d: u32, e: u32, f: u32, g: u32, h: u32)

  const IV: Words := Words(
    0x6a09e667, 0xbb67ae85, 0x3c6ef372, 0xa54ff53a, 0x510e527f, 0x9b05688c, 0x1f83d9ab, 0x5be0cd19)

  // ---------------------------------------------------------------- one block (section 6.2.2)

  /** `(a << 24) | (b << 16) | (c << 8) | d` */
  function FromFour(a: nat, b: nat, c: nat, d: nat): u32
    requires a < 0x100 && b < 0x100 && c < 0x100 && d < 0x100
  {
    a * 0x100_0000 + b * 0x1_0000 + c * 0x100 + d
  }

  lemma FromFourIsOr(a: u8, b: u8, c: u8, d: u8)
    ensures FromFour(a, b, c, d) == Or(Or(Or(Shl(a, 24), Shl(b, 16)), Shl(c, 8)), d)
  {
    hide Or, Shl, Pow2;
    Pow2Values();
    Pow2Add(8, 16);
    ShlIsMul(a, 24);
    ShlIsMul(b, 16);
    ShlIsMul(c, 8);
    ShlIsMul(a * 0x100 + b, 16);
    ShlIsMul(a * 0x1_0000 + b * 0x100 + c, 8);
    OrBelow(a, b * 0x1_0000, 24);
    OrBelow(a * 0x100 + b, c * 0x100, 16);
    OrBelow(a * 0x1_0000 + b * 0x100 + c, d, 8);
  }

  /** Big-endian word j of a block. */
  function BlockWord(block: seq<u8>, j: nat): u32
    requires |block| == 64 && j < 16
  {
    FromFour(block[4 * j], block[4 * j + 1], block[4 * j + 2], block[4 * j + 3])
  }

  lemma WordAt(block: Block64, i: nat)
    requires i < 16
    ensures BlockWord(block, i)
         == FromFour(block[4 * i], block[4 * i + 1], block[4 * i + 2], block[4 * i + 3])
  {
  }

  /** The message schedule. */
  function Schedule(block: seq<u8>, t: nat): u32
    requires |block| == 64 && t < 64
    decreases t, |block|
  {
    if t < 16 then BlockWord(block, t)
    else Expand(Schedule(block, t - 2), Schedule(block, t - 7), Schedule(block, t - 15), Schedule(block, t - 16))
  }

  /** The whole schedule of a block. */
  function ScheduleOf(block: Block64): (m: seq<u32>)
    ensures |m| == 64
  {
    seq(64, t requires 0 <= t < 64 => Schedule(block, t))
  }

  lemma ScheduleStart(block: Block64, t: nat)
    requires t < 16
    ensures ScheduleOf(block)[t] == BlockWord(block, t)
  {
  }

  lemma ScheduleNext(block: Block64, t: nat)
    requires 16 <= t < 64
    ensures var m := ScheduleOf(block); m[t] == Expand(m[t - 2], m[t - 7], m[t - 15], m[t - 16])
  {
  }

  function Expand(w2: u32, w7: u32, w15: u32, w16: u32): u32 {
    Add32(Add32(Add32(SmallSigma1(w2), w7), SmallSigma0(w15)), w16)
  }

  /** Step t of the compression on the working variables. */
  function Step(v: Words, k: u32, w: u32): Words {
    var t1 := Add32(Add32(Add32(Add32(v.h, BigSigma1(v.e)), Ch(v.e, v.f, v.g)), k), w);
    var t2 := Add32(BigSigma0(v.a), Maj(v.a, v.b, v.c));
    Words(Add32(t1, t2), v.a, v.b, v.c, Add32(v.d, t1), v.e, v.f, v.g)
  }

  /** The working variables after t steps. */
  function Steps(v: Words, block: seq<u8>, t: nat): Words
    requires |block| == 64 && t <= 64
    decreases t, |block|
  {
    if t == 0 then v else Step(Steps(v, block, t - 1), RoundConstant(t - 1), Schedule(block, t - 1))
  }

  function Plus(x: Words, y: Words): Words {
    Words(Add32(x.a, y.a), Add32(x.b, y.b), Add32(x.c, y.c), Add32(x.d, y.d),
          Add32(x.e, y.e), Add32(x.f, y.f), Add32(x.g, y.g), Add32(x.h, y.h))
  }

  /** The next intermediate hash value. */
  function Compress(hash: Words, block: Block64): Words {
    Plus(hash, Steps(hash, block, 64))
  }

  // ---------------------------------------------------------------- whole messages

  /** The hash value after the first n blocks of a message. */
  function HashBlocks(message: seq<u8>, n: nat): Words
    requires 64 * n <= |message|
  {
    FoldBlocks(Compress, IV, message, n)
  }

  /** The eight-byte big-endian form of a number. */
  function BigEndian(x: nat, n: nat): (b: seq<u8>)
    ensures |b| == n
    decreases n, x
  {
    if n == 0 then [] else BigEndian(x / 0x100, n - 1) + [x % 0x100]
  }

  /** The number of zero bytes between the 0x80 byte and the length (section 5.1.1). */
  function ZeroCount(len: nat): (z: nat)
    ensures z < 64 && (len + 1 + z) % 64 == 56
  {
    (119 - len % 64) % 64
  }

  /** A message padded with a given length field. */
  function PaddedWith(message: seq<u8>, bits: nat): (p: seq<u8>)
    ensures |p| % 64 == 0
  {
    message + [0x80] + Zeros(ZeroCount(|message|)) + BigEndian(bits, 8)
  }

  /** Eight big-endian words. */
  function WordBytes(w: u32): (b: seq<u8>)
    ensures |b| == 4
  {
    [w / 0x100_0000, (w / 0x1_0000) % 0x100, (w / 0x100) % 0x100, w % 0x100]
  }

  /** The bytes of a word, read as the words of a block are, give the word. */
  lemma WordBytesJoin(w: u32)
    ensures var b := WordBytes(w); FromFour(b[0], b[1], b[2], b[3]) == w
  {
    var h, m := w / 0x1_0000, w % 0x1_0000;
    assert w == h * 0x1_0000 + m;
    DivModUnique(w, 0x100_0000, h / 0x100, (h % 0x100) * 0x1_0000 + m);
    DivModUnique(w, 0x100, h * 0x100 + m / 0x100, m % 0x100);
    DivModUnique(w / 0x100, 0x100, h, m / 0x100);
  }

  function Output(h: Words): (b: seq<u8>)
    ensures |b| == 32
  {
    WordBytes(h.a) + WordBytes(h.b) + WordBytes(h.c) + WordBytes(h.d)
    + WordBytes(h.e) + WordBytes(h.f) + WordBytes(h.g) + WordBytes(h.h)
  }

  function DigestWith(message: seq<u8>, bits: nat): (b: seq<u8>)
    ensures |b| == 32
  {
    var p := PaddedWith(message, bits);
    Output(HashBlocks(p, |p| / 64))
  }

  /** The digest of a message shorter than 2^64 bits, whose length field is its bit length. */
  function Sha256(message: seq<u8>): (b: seq<u8>)
    requires |message| < 0x2000_0000_0000_0000
    ensures |b| == 32
  {
    DigestWith(message, 8 * |message|)
  }

  // ---------------------------------------------------------------- facts about the padding

  /** The number that a big-endian byte string denotes. */
  function FromBig(b: seq<u8>): nat
    decreases |b|
  {
    if |b| == 0 then 0 else FromBig(b[..|b| - 1]) * 0x100 + b[|b| - 1]
  }

  lemma {:induction false} FromBigOfBigEndian(x: nat, n: nat)
    requires x < Pow2(8 * n)
    ensures FromBig(BigEndian(x, n)) == x
    decreases n
  {
    if n > 0 {
      Pow2Values();
      Pow2Add(8, 8 * (n - 1));
      FromBigOfBigEndian(x / 0x100, n - 1);
      assert BigEndian(x, n)[..n - 1] == BigEndian(x / 0x100, n - 1);
    }
  }

  lemma PaddedEnds(m: seq<u8>, bits: nat)
    ensures var p := PaddedWith(m, bits);
            |p| >= |m| + 8 && p[|p| - 8..] == BigEndian(bits, 8) && p[..|m|] == m
  {
  }

  /** Padding is invertible: the length field tells where the message ends. */
  lemma PaddingInjective(m: seq<u8>, n: seq<u8>)
    requires |m| < 0x2000_0000_0000_0000 && |n| < 0x2000_0000_0000_0000
    requires PaddedWith(m, 8 * |m|) == PaddedWith(n, 8 * |n|)
    ensures m == n
  {
    hide PaddedWith;
    PaddedEnds(m, 8 * |m|);
    PaddedEnds(n, 8 * |n|);
    Pow2Values();
    FromBigOfBigEndian(8 * |m|, 8);
    FromBigOfBigEndian(8 * |n|, 8);
  }

  // ---------------------------------------------------------------- streaming

  /** A hash value and a 64-byte buffer represent a message: whole blocks hashed, the rest buffered. */
  ghost predicate Represents(message: seq<u8>, hash: Words, buffer: seq<u8>) {
    Streams(Compress, IV, message, hash, buffer)
  }

  lemma RepresentsNothing(buffer: seq<u8>)
    requires |buffer| == 64
    ensures Represents([], IV, buffer)
  {
  }

  lemma RepresentsPartial(message: seq<u8>, hash: Words, buffer: seq<u8>, data: seq<u8>)
    requires Represents(message, hash, buffer) && |message| % 64 + |data| < 64
    ensures Represents(message + data, hash, Spliced(buffer, |message| % 64, data))
  {
    StreamsPartial(Compress, IV, message, hash, buffer, data);
  }

  lemma RepresentsFull(message: seq<u8>, hash: Words, buffer: seq<u8>, data: seq<u8>)
    requires Represents(message, hash, buffer) && |message| % 64 + |data| == 64
    ensures Represents(message + data, Compress(hash, Spliced(buffer, |message| % 64, data)),
                       Spliced(buffer, |message| % 64, data))
  {
    StreamsFull(Compress, IV, message, hash, buffer, data);
  }

  lemma RepresentsBlock(message: seq<u8>, hash: Words, buffer: seq<u8>, block: Block64)
    requires Represents(message, hash, buffer) && |message| % 64 == 0
    ensures Represents(message + block, Compress(hash, block), buffer)
  {
    StreamsBlock(Compress, IV, message, hash, buffer, block);
  }

  /** After whole blocks only, the hash value is that of the message. */
  lemma RepresentsWhole(message: seq<u8>, hash: Words, buffer: seq<u8>)
    requires Represents(message, hash, buffer)
    ensures hash == HashBlocks(message, |message| / 64)
  {
  }

  lemma DigestIsSha256(m: seq<u8>)
    requires |m| < 0x2000_0000_0000_0000
    ensures DigestWith(m, (8 * |m|) % TWO64) == Sha256(m)
  {
    hide DigestWith;
    assert (8 * |m|) % TWO64 == 8 * |m|;
  }
}
