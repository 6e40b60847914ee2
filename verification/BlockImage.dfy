/**
 The byte image of a block store: atoms laid out least significant byte first, blocks hidden
 under a keystream, and a header with a tag of the seed.
 */
module BlockImage {
  import opened Bits
  import opened Memory
  import opened Mixing
  import opened BlockAtom

  const BLOCK_SIZE_BYTES: nat := 16384

  type Block = b: seq<Value128> | |b| == ENTRIES_PER_BLOCK witness seq(ENTRIES_PER_BLOCK, _ => Value128(0, 0))

  // ---------------------------------------------------------------- serialization

  /** write_to: lo, then hi. */
  function AtomBytes(v: Value128): (b: seq<u8>)
    ensures |b| == 16
  {
    LeBytes(v.lo, 8) + LeBytes(v.hi, 8)
  }

  /** read_from */
  function AtomFrom(b: seq<u8>): Value128
    requires |b| == 16
  {
    EightBytes(b[..8]);
    EightBytes(b[8..]);
    Value128(FromLe(b[8..]), FromLe(b[..8]))
  }

  lemma AtomFromBytes(v: Value128)
    ensures AtomFrom(AtomBytes(v)) == v
  {
    Pow2Values();
    FromLeOfLeBytes(v.lo, 8);
    FromLeOfLeBytes(v.hi, 8);
    assert AtomBytes(v)[..8] == LeBytes(v.lo, 8) && AtomBytes(v)[8..] == LeBytes(v.hi, 8);
  }

  lemma AtomBytesFrom(b: seq<u8>)
    requires |b| == 16
    ensures AtomBytes(AtomFrom(b)) == b
  {
    LeBytesOfFromLe(b[..8]);
    LeBytesOfFromLe(b[8..]);
    assert b == b[..8] + b[8..];
  }

  function Serialized(block: seq<Value128>): (b: seq<u8>)
    ensures |b| == 16 * |block|
  {
    if |block| == 0 then [] else AtomBytes(block[0]) + Serialized(block[1..])
  }

  function Deserialized(b: seq<u8>): (block: seq<Value128>)
    requires |b| % 16 == 0
    ensures |block| == |b| / 16
  {
    if |b| == 0 then [] else [AtomFrom(b[..16])] + Deserialized(b[16..])
  }

  lemma {:induction false} DeserializedSerialized(block: seq<Value128>)
    ensures Deserialized(Serialized(block)) == block
  {
    if |block| > 0 {
      var b := Serialized(block);
      assert b[..16] == AtomBytes(block[0]) && b[16..] == Serialized(block[1..]);
      AtomFromBytes(block[0]);
      DeserializedSerialized(block[1..]);
    }
  }

  lemma {:induction false} SerializedDeserialized(b: seq<u8>)
    requires |b| % 16 == 0
    ensures Serialized(Deserialized(b)) == b
  {
    if |b| > 0 {
      AtomBytesFrom(b[..16]);
      SerializedDeserialized(b[16..]);
      assert Deserialized(b)[1..] == Deserialized(b[16..]);
      assert b == b[..16] + b[16..];
    }
  }

  /** Byte b of entry e of a block in the image: lo, then hi, least significant byte first. */
  lemma {:induction false} SerializedAt(block: seq<Value128>, e: nat, b: nat)
    requires e < |block| && b < 16
    ensures Serialized(block)[16 * e + b]
         == if b < 8 then Shr(block[e].lo, 8 * b) % 0x100 else Shr(block[e].hi, 8 * (b - 8)) % 0x100
    decreases e
  {
    hide LeBytes, Shr;
    if e > 0 {
      SerializedAt(block[1..], e - 1, b);
    } else if b < 8 {
      LeBytesAt(block[0].lo, 8, b);
    } else {
      LeBytesAt(block[0].hi, 8, b - 8);
    }
  }

  lemma {:induction false} SerializedAppend(block: seq<Value128>, v: Value128)
    ensures Serialized(block + [v]) == Serialized(block) + AtomBytes(v)
  {
    if |block| == 0 {
      assert (block + [v])[1..] == [];
    } else {
      assert (block + [v])[1..] == block[1..] + [v];
      SerializedAppend(block[1..], v);
    }
  }

  lemma {:induction false} DeserializedAppend(b: seq<u8>, a: seq<u8>)
    requires |b| % 16 == 0 && |a| == 16
    ensures Deserialized(b + a) == Deserialized(b) + [AtomFrom(a)]
  {
    if |b| == 0 {
      assert b + a == a && a[..16] == a && a[16..] == [];
    } else {
      assert (b + a)[..16] == b[..16] && (b + a)[16..] == b[16..] + a;
      DeserializedAppend(b[16..], a);
    }
  }

  /** Block::serialize: entry by entry into the buffer. */
  method Serialize(block: array<Value128>, buf: array<u8>)
    requires block.Length == ENTRIES_PER_BLOCK && buf.Length == BLOCK_SIZE_BYTES
    modifies buf
    ensures buf[..] == Serialized(block[..])
  {
    for i := 0 to ENTRIES_PER_BLOCK
      invariant buf[..16 * i] == Serialized(block[..i])
    {
      SerializedAppend(block[..i], block[i]);
      assert block[..i + 1] == block[..i] + [block[i]];
      ghost var was := buf[..];
      SplicedSlice(was, 16 * i, AtomBytes(block[i]));
      CopyBytes(AtomBytes(block[i]), buf, 16 * i);
      assert buf[..16 * (i + 1)] == buf[..16 * i] + buf[16 * i..16 * i + 16];
    }
    assert block[..ENTRIES_PER_BLOCK] == block[..] && buf[..BLOCK_SIZE_BYTES] == buf[..];
  }

  /** Block::deserialize: the reverse. */
  method Deserialize(buf: array<u8>, block: array<Value128>)
    requires block.Length == ENTRIES_PER_BLOCK && buf.Length == BLOCK_SIZE_BYTES
    modifies block
    ensures block[..] == Deserialized(buf[..])
  {
    for i := 0 to ENTRIES_PER_BLOCK
      invariant block[..i] == Deserialized(buf[..16 * i])
    {
      DeserializedAppend(buf[..16 * i], buf[16 * i..16 * i + 16]);
      assert buf[..16 * (i + 1)] == buf[..16 * i] + buf[16 * i..16 * i + 16];
      block[i] := AtomFrom(buf[16 * i..16 * i + 16]);
      assert block[..i + 1] == block[..i] + [block[i]];
    }
    assert block[..ENTRIES_PER_BLOCK] == block[..] && buf[..BLOCK_SIZE_BYTES] == buf[..];
  }

  // ---------------------------------------------------------------- the keystream

  function KeyStart(s: Value128, bi: u64): Value128 {
    Value128(Xor64(s.hi, Mul64(bi, PHI_HI)), Xor64(s.lo, Mul64(bi, PHI_LO)))
  }

  /** The root block is masked from the seed itself. */
  lemma KeyStartZero(s: Value128)
    ensures KeyStart(s, 0) == s
  {
    XorZero(s.hi);
    XorZero(s.lo);
  }

  lemma XorBack(a: nat, m: nat)
    ensures Xor(Xor(a, m), a) == m
  {
    XorCommutes(a, m);
    XorCancel(m, a);
  }

  lemma ProductGrows(bi: u64, c: u64)
    ensures ((bi + 1) * c) % TWO64 == (Mul64(bi, c) + c) % TWO64
  {
    var q, r := (bi * c) / TWO64, (bi * c) % TWO64;
    assert (bi + 1) * c == bi * c + c;
    DivModUnique((bi + 1) * c, TWO64, q + (r + c) / TWO64, (r + c) % TWO64);
  }

  /** From one block to the next, what is mixed into the seed grows by a constant in each word. */
  lemma KeyStartGrows(s: Value128, bi: u64)
    requires bi + 1 < TWO64
    ensures var now, next := KeyStart(s, bi), KeyStart(s, bi + 1);
      && Xor(next.hi, s.hi) == (Xor(now.hi, s.hi) + 0x9E37_79B9_7F4A_7C15) % 0x1_0000_0000_0000_0000
      && Xor(next.lo, s.lo) == (Xor(now.lo, s.lo) + 0x517C_C1B7_2722_0A95) % 0x1_0000_0000_0000_0000
  {
    hide Xor;
    ProductGrows(bi, PHI_HI);
    ProductGrows(bi, PHI_LO);
    XorBack(s.hi, Mul64(bi, PHI_HI));
    XorBack(s.lo, Mul64(bi, PHI_LO));
    XorBack(s.hi, Mul64(bi + 1, PHI_HI));
    XorBack(s.lo, Mul64(bi + 1, PHI_LO));
  }

  lemma OddHalf(m: nat, c: nat, x: nat, y: nat)
    requires c % 2 == 1 && 2 * x + (m % 2) * c == 2 * y
    ensures m % 2 == 0 && x == y
  {
  }

  lemma HalfProduct(h: nat, bit: nat, c: nat)
    ensures (2 * h + bit) * c == 2 * (h * c) + bit * c
  {
  }

  /** An odd factor loses no factor of two. */
  lemma {:induction false} OddFactor(m: nat, c: nat, k: nat, q: nat)
    requires c % 2 == 1 && m * c == q * Pow2(k)
    ensures m % Pow2(k) == 0
    decreases k
  {
    if k > 0 {
      hide Pow2;
      Pow2Next(k);
      var h, p := m / 2, Pow2(k - 1);
      HalfProduct(h, m % 2, c);
      Doubled(q, p);
      OddHalf(m, c, h * c, q * p);
      OddFactor(h, c, k - 1, q);
      var r := h / p;
      Doubled(r, p);
      DivModUnique(m, Pow2(k), r, 0);
    }
  }

  lemma ProductsApart(i: u64, j: u64, c: u64)
    requires i < j && c % 2 == 1
    ensures Mul64(i, c) != Mul64(j, c)
  {
    if Mul64(i, c) == Mul64(j, c) {
      var p, q := (i * c) / TWO64, (j * c) / TWO64;
      GapProduct(i, j, c, p, q, Mul64(i, c));
      Pow2Values();
      OddFactor(j - i, c, 64, q - p);
    }
  }

  lemma GapProduct(i: nat, j: nat, c: nat, p: nat, q: nat, r: nat)
    requires i < j && c > 0 && i * c == p * TWO64 + r && j * c == q * TWO64 + r
    ensures q >= p && (j - i) * c == (q - p) * TWO64
  {
    MulMonotone(i, j, c);
  }

  lemma KeyStartInjective(s: Value128, i: u64, j: u64)
    requires KeyStart(s, i) == KeyStart(s, j)
    ensures i == j
  {
    hide Xor, Mul64;
    XorBack(s.hi, Mul64(i, PHI_HI));
    XorBack(s.hi, Mul64(j, PHI_HI));
    if i < j {
      ProductsApart(i, j, PHI_HI);
    } else if j < i {
      ProductsApart(j, i, PHI_HI);
    }
  }

  /** Different blocks start from different keystream states, and so differ at every stride. */
  lemma KeystreamsDiffer(s: Value128, i: u64, j: u64, n: nat)
    requires i != j
    ensures Stirred(KeyStart(s, i), 13, 17, n) != Stirred(KeyStart(s, j), 13, 17, n)
  {
    hide Stirred, Unstirred, KeyStart;
    StirredBijective(KeyStart(s, i), 13, 17, n);
    StirredBijective(KeyStart(s, j), 13, 17, n);
    if KeyStart(s, i) == KeyStart(s, j) {
      KeyStartInjective(s, i, j);
    }
  }

  /** Byte k of the keystream of block bi: eight bytes of lo per stirring step. */
  function KeyByte(s: Value128, bi: u64, k: nat): u8 {
    LeBytes(Stirred(KeyStart(s, bi), 13, 17, k / 8 + 1).lo, 8)[k % 8]
  }

  function Obfuscated(data: seq<u8>, s: Value128, bi: u64): (b: seq<u8>)
    ensures |b| == |data|
  {
    seq(|data|, k requires 0 <= k < |data| => Xor8(data[k], KeyByte(s, bi, k)))
  }

  /** Hiding a block twice under the same seed and index restores it. */
  lemma ObfuscatedTwice(data: seq<u8>, s: Value128, bi: u64)
    ensures Obfuscated(Obfuscated(data, s, bi), s, bi) == data
  {
    forall k | 0 <= k < |data|
      ensures Xor8(Xor8(data[k], KeyByte(s, bi, k)), KeyByte(s, bi, k)) == data[k]
    {
      XorCancel(data[k], KeyByte(s, bi, k));
    }
  }

  /** obfuscate: the in-place loop over eight-byte strides, the last of which may be short. */
  method Obfuscate(data: array<u8>, s: Value128, bi: u64)
    modifies data
    ensures data[..] == Obfuscated(old(data[..]), s, bi)
  {
    ghost var was, target := data[..], Obfuscated(data[..], s, bi);
    var state := KeyStart(s, bi);
    var i := 0;
    ghost var done, strides := 0, 0;
    while i < data.Length
      invariant i == 8 * strides && 0 <= strides && done == (if i < data.Length then i else data.Length)
      invariant state == Stirred(KeyStart(s, bi), 13, 17, strides)
      invariant Progress(data[..], was, target, done)
      decreases data.Length - i
    {
      state := StreamStep(state);
      var rem := if data.Length - i < 8 then data.Length - i else 8;
      MaskStride(data, s, bi, strides, i, rem, state.lo, was, target);
      done, strides := i + rem, strides + 1;
      i := i + 8;
    }
    ProgressDone(data[..], was, target);
  }

  /** Byte j of a stride is masked with byte j of the keystream word. */
  lemma MaskedByte(data: seq<u8>, s: Value128, bi: u64, strides: nat, j: nat)
    requires j < 8 && 8 * strides + j < |data|
    ensures Obfuscated(data, s, bi)[8 * strides + j]
         == Xor8(data[8 * strides + j], Shr(Stirred(KeyStart(s, bi), 13, 17, strides + 1).lo, 8 * j) % 0x100)
  {
    hide LeBytes, Stirred, KeyStart, Xor8, Shr;
    DivModUnique(8 * strides + j, 8, strides, j);
    LeBytesAt(Stirred(KeyStart(s, bi), 13, 17, strides + 1).lo, 8, j);
  }

  /** The inner loop of obfuscate. */
  method MaskStride(data: array<u8>, ghost s: Value128, ghost bi: u64, ghost strides: nat, i: nat, rem: nat, sl: u64,
                    ghost was: seq<u8>, ghost target: seq<u8>)
    requires i == 8 * strides && rem <= 8 && i + rem <= data.Length == |was|
    requires target == Obfuscated(was, s, bi)
    requires sl == Stirred(KeyStart(s, bi), 13, 17, strides + 1).lo
    requires Progress(data[..], was, target, i)
    modifies data
    ensures Progress(data[..], was, target, i + rem)
  {
    hide Obfuscated, Stirred, KeyStart, Xor8, Shr;
    for j := 0 to rem
      invariant Progress(data[..], was, target, i + j)
    {
      MaskedByte(was, s, bi, strides, j);
      data[i + j] := Xor8(data[i + j], Shr(sl, 8 * j) % 0x100);
    }
  }
}
